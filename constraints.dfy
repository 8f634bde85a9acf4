/** The two variable orderings, their letter tables, and the two depth-indexed
    constraint checkers of the search engine. A checker sees only the values of
    the variables on a path (the engine reads nothing else of a path's nodes). */
module Constraints {

  /** Natural binds A, B, ..., H in that order; Heuristic binds H, F, G, D, E, C, A, B. */
  datatype Ordering = Natural | Heuristic

  /** The letter of the variable bound at each depth, natural ordering. */
  const LetterDepth: map<int, string> :=
    map[1 := "A", 2 := "B", 3 := "C", 4 := "D", 5 := "E", 6 := "F", 7 := "G", 8 := "H"]

  /** The letter of the variable bound at each depth, heuristic ordering. */
  const LetterDepthWithHeuristic: map<int, string> :=
    map[1 := "H", 2 := "F", 3 := "G", 4 := "D", 5 := "E", 6 := "C", 7 := "A", 8 := "B"]

  function LetterTable(ord: Ordering): map<int, string> {
    match ord
    case Natural => LetterDepth
    case Heuristic => LetterDepthWithHeuristic
  }

  /** Looks a depth up in the ordering's table; like a Go map, a missing key gives "". */
  function LetterAt(ord: Ordering, depth: int): (letter: string)
    ensures 1 <= depth <= 8 ==> |letter| == 1
    ensures !(1 <= depth <= 8) ==> letter == ""
  {
    var table := LetterTable(ord);
    if depth in table then table[depth] else ""
  }

  function AbsoluteValue(a: int): (r: int)
    ensures r >= 0
    ensures r == a || r == -a
  {
    if a < 0 then -a else a
  }

  /** Natural-order checker: values[0] is A, ..., values[7] is H. Only the
      constraints whose last variable is bound at this length are checked. */
  function CheckConstraints(values: seq<int>): (ok: bool)
    ensures |values| !in {2, 4, 5, 6, 7, 8} ==> ok
    ensures |values| == 2 ==> (ok <==> values[0] != values[1])
  {
    match |values|
    case 2 => values[0] != values[1]
    case 4 => values[2] != values[3]
    case 5 =>
      values[2] != values[4] &&
      values[4] < values[3] - 1
    case 6 =>
      AbsoluteValue(values[5] - values[1]) == 1 &&
      values[2] != values[5] &&
      values[3] != values[5] &&
      AbsoluteValue(values[4] - values[5]) % 2 != 0
    case 7 =>
      values[0] > values[6] &&
      AbsoluteValue(values[6] - values[2]) == 1 &&
      values[3] > values[6] &&
      values[6] != values[5]
    case 8 =>
      values[0] <= values[7] &&
      values[6] < values[7] &&
      AbsoluteValue(values[7] - values[2]) % 2 == 0 &&
      values[7] != values[3] &&
      values[4] != values[7] - 2 &&
      values[7] != values[5]
    case _ => true
  }

  /** Heuristic-order checker: values[0] is H, [1] F, [2] G, [3] D, [4] E, [5] C, [6] A, [7] B. */
  function CheckConstraintsUsingSelectionHeuristic(values: seq<int>): (ok: bool)
    ensures |values| !in {2, 3, 4, 5, 6, 7, 8} ==> ok
    ensures |values| == 2 ==> (ok <==> values[0] != values[1])
  {
    match |values|
    case 2 => values[0] != values[1]
    case 3 =>
      values[2] < values[0] &&
      values[2] != values[1]
    case 4 =>
      values[0] != values[3] &&
      values[3] > values[2] &&
      values[3] != values[1]
    case 5 =>
      values[4] < values[3] - 1 &&
      AbsoluteValue(values[4] - values[1]) % 2 != 0 &&
      values[4] != values[0] - 2
    case 6 =>
      AbsoluteValue(values[2] - values[5]) == 1 &&
      AbsoluteValue(values[0] - values[5]) % 2 == 0 &&
      values[3] != values[5] &&
      values[4] != values[5] &&
      values[5] != values[1]
    case 7 =>
      values[6] > values[2] &&
      values[6] <= values[0]
    case 8 => AbsoluteValue(values[1] - values[7]) == 1
    case _ => true
  }

  /** The checker that belongs to an ordering. */
  function Passes(ord: Ordering, values: seq<int>): bool {
    match ord
    case Natural => CheckConstraints(values)
    case Heuristic => CheckConstraintsUsingSelectionHeuristic(values)
  }

  /** Every non-empty prefix of the assignment passes the checker. */
  ghost predicate AllPass(ord: Ordering, values: seq<int>) {
    forall n | 1 <= n <= |values| :: Passes(ord, values[..n])
  }

  /** Every value lies in the domain 1..4. */
  ghost predicate InDomain(values: seq<int>) {
    forall i | 0 <= i < |values| :: 1 <= values[i] <= 4
  }

  /** Lengths that no case of a checker mentions always pass; so does a single value. */
  lemma UncheckedLengthsPass(values: seq<int>)
    ensures |values| !in {2, 4, 5, 6, 7, 8} ==> CheckConstraints(values)
    ensures |values| !in {2, 3, 4, 5, 6, 7, 8} ==> CheckConstraintsUsingSelectionHeuristic(values)
  {
  }

  /** At length 2 both checkers test the same constraint: the first two values differ. */
  lemma PairCheckAgrees(ord: Ordering, values: seq<int>)
    requires |values| == 2
    ensures Passes(ord, values) <==> values[0] != values[1]
  {
  }

  /** A single bound variable never fails, whatever the ordering. */
  lemma SingleValuePasses(ord: Ordering, v: int)
    ensures Passes(ord, [v])
  {
  }

  /** Extending an assignment whose prefixes pass by one passing step keeps all prefixes passing. */
  lemma {:induction false} AllPassExtend(ord: Ordering, values: seq<int>, m: nat)
    requires |values| == m + 1
    requires AllPass(ord, values[..m])
    requires Passes(ord, values)
    ensures AllPass(ord, values)
  {
    forall n | 1 <= n <= |values| ensures Passes(ord, values[..n]) {
      if n <= m {
        assert values[..n] == values[..m][..n];
      } else {
        assert values[..n] == values;
      }
    }
  }

  /** Every non-empty prefix of an assignment whose prefixes all pass has the same property. */
  lemma AllPassPrefix(ord: Ordering, values: seq<int>, m: nat)
    requires m <= |values| && AllPass(ord, values)
    ensures AllPass(ord, values[..m])
  {
    forall n | 1 <= n <= m ensures Passes(ord, values[..m][..n]) {
      assert values[..m][..n] == values[..n];
    }
  }

  /** Position k of the heuristic ordering holds the natural variable HeuristicPositions[k]. */
  const HeuristicPositions: seq<nat> := [7, 5, 6, 3, 4, 2, 0, 1]

  /** The two letter tables name the same variable at corresponding positions. */
  lemma HeuristicPositionsMatchLetters()
    ensures |HeuristicPositions| == 8
    ensures forall k | 0 <= k < 8 ::
      HeuristicPositions[k] < 8 &&
      LetterAt(Heuristic, k + 1) == LetterAt(Natural, HeuristicPositions[k] + 1)
  {
  }

  /** Rewrites an A..H assignment in the heuristic's order H, F, G, D, E, C, A, B. */
  function Reorder(values: seq<int>): (r: seq<int>)
    requires |values| == 8
    ensures |r| == 8
    ensures forall k | 0 <= k < 8 :: r[k] == values[HeuristicPositions[k]]
  {
    [values[7], values[5], values[6], values[3], values[4], values[2], values[0], values[1]]
  }

  /** Turns a heuristic-order assignment H, F, G, D, E, C, A, B back into A..H order. */
  function Unreorder(w: seq<int>): (v: seq<int>)
    requires |w| == 8
    ensures |v| == 8 && Reorder(v) == w
  {
    [w[6], w[7], w[5], w[3], w[4], w[1], w[2], w[0]]
  }

  /** The conjunction of every natural-order check on a full assignment. */
  lemma {:induction false} NaturalChecks(values: seq<int>)
    requires |values| == 8
    ensures AllPass(Natural, values) <==>
      values[0] != values[1] &&
      values[2] != values[3] &&
      values[2] != values[4] && values[4] < values[3] - 1 &&
      AbsoluteValue(values[5] - values[1]) == 1 && values[2] != values[5] &&
      values[3] != values[5] && AbsoluteValue(values[4] - values[5]) % 2 != 0 &&
      values[0] > values[6] && AbsoluteValue(values[6] - values[2]) == 1 &&
      values[3] > values[6] && values[6] != values[5] &&
      values[0] <= values[7] && values[6] < values[7] &&
      AbsoluteValue(values[7] - values[2]) % 2 == 0 && values[7] != values[3] &&
      values[4] != values[7] - 2 && values[7] != values[5]
  {
    var v := values;
    assert Passes(Natural, v[..1]) && Passes(Natural, v[..3]);
    assert Passes(Natural, v[..2]) <==> v[0] != v[1];
    assert Passes(Natural, v[..4]) <==> v[2] != v[3];
    assert Passes(Natural, v[..5]) <==> v[2] != v[4] && v[4] < v[3] - 1;
    assert Passes(Natural, v[..6]) <==>
      AbsoluteValue(v[5] - v[1]) == 1 && v[2] != v[5] && v[3] != v[5] && AbsoluteValue(v[4] - v[5]) % 2 != 0;
    assert Passes(Natural, v[..7]) <==>
      v[0] > v[6] && AbsoluteValue(v[6] - v[2]) == 1 && v[3] > v[6] && v[6] != v[5];
    assert v[..8] == v;
    if Passes(Natural, v[..2]) && Passes(Natural, v[..4]) && Passes(Natural, v[..5]) &&
       Passes(Natural, v[..6]) && Passes(Natural, v[..7]) && Passes(Natural, v[..8]) {
      forall n | 1 <= n <= 8 ensures Passes(Natural, v[..n]) {
        assert n in {1, 2, 3, 4, 5, 6, 7, 8};
      }
    }
  }

  /** The conjunction of every heuristic-order check on a reordered full assignment. */
  lemma {:induction false} HeuristicChecks(values: seq<int>)
    requires |values| == 8
    ensures AllPass(Heuristic, Reorder(values)) <==>
      values[7] != values[5] &&
      values[6] < values[7] && values[6] != values[5] &&
      values[7] != values[3] && values[3] > values[6] && values[3] != values[5] &&
      values[4] < values[3] - 1 && AbsoluteValue(values[4] - values[5]) % 2 != 0 &&
      values[4] != values[7] - 2 &&
      AbsoluteValue(values[6] - values[2]) == 1 && AbsoluteValue(values[7] - values[2]) % 2 == 0 &&
      values[3] != values[2] && values[4] != values[2] && values[2] != values[5] &&
      values[0] > values[6] && values[0] <= values[7] &&
      AbsoluteValue(values[5] - values[1]) == 1
  {
    var w := Reorder(values);
    assert Passes(Heuristic, w[..1]);
    assert Passes(Heuristic, w[..2]) <==> w[0] != w[1];
    assert Passes(Heuristic, w[..3]) <==> w[2] < w[0] && w[2] != w[1];
    assert Passes(Heuristic, w[..4]) <==> w[0] != w[3] && w[3] > w[2] && w[3] != w[1];
    assert w[..8] == w;
    if Passes(Heuristic, w[..2]) && Passes(Heuristic, w[..3]) && Passes(Heuristic, w[..4]) &&
       Passes(Heuristic, w[..5]) && Passes(Heuristic, w[..6]) && Passes(Heuristic, w[..7]) &&
       Passes(Heuristic, w[..8]) {
      forall n | 1 <= n <= 8 ensures Passes(Heuristic, w[..n]) {
        assert n in {1, 2, 3, 4, 5, 6, 7, 8};
      }
    }
  }

  /** Every full assignment the natural table accepts, reordered, is accepted by the heuristic table. */
  lemma NaturalImpliesHeuristic(values: seq<int>)
    requires |values| == 8
    requires AllPass(Natural, values)
    ensures AllPass(Heuristic, Reorder(values))
  {
    NaturalChecks(values);
    HeuristicChecks(values);
  }

  /** The heuristic table is the natural one without the constraint A != B. */
  lemma HeuristicLacksOnlyAB(values: seq<int>)
    requires |values| == 8
    ensures AllPass(Natural, values) <==> AllPass(Heuristic, Reorder(values)) && values[0] != values[1]
  {
    NaturalChecks(values);
    HeuristicChecks(values);
  }

  /** Over the integers the tables are not equivalent: this assignment, with values
      outside 1..4, meets every heuristic check but has A == B. */
  lemma TablesDifferOutsideDomain()
    ensures var v := [0, 0, 0, 4, 2, 1, -1, 0];
      AllPass(Heuristic, Reorder(v)) && !AllPass(Natural, v)
  {
    var v := [0, 0, 0, 4, 2, 1, -1, 0];
    HeuristicLacksOnlyAB(v);
    HeuristicChecks(v);
  }

  /** Over the domain 1..4 the remaining constraints force A != B, so both tables
      accept exactly the same full assignments. */
  lemma TablesAgreeOnDomain(values: seq<int>)
    requires |values| == 8 && InDomain(values)
    ensures AllPass(Natural, values) <==> AllPass(Heuristic, Reorder(values))
  {
    HeuristicLacksOnlyAB(values);
    HeuristicChecks(values);
    assert 1 <= values[0] <= 4 && 1 <= values[1] <= 4 && 1 <= values[2] <= 4 && 1 <= values[3] <= 4;
    assert 1 <= values[4] <= 4 && 1 <= values[5] <= 4 && 1 <= values[6] <= 4 && 1 <= values[7] <= 4;
  }

  /** The two searches find the same solutions: a heuristic-order assignment in 1..4
      is accepted by the heuristic table exactly when the same variables, put back
      in A..H order, are accepted by the natural table. */
  lemma SameSolutions(w: seq<int>)
    requires |w| == 8 && InDomain(w)
    ensures InDomain(Unreorder(w))
    ensures AllPass(Heuristic, w) <==> AllPass(Natural, Unreorder(w))
  {
    var v := Unreorder(w);
    assert forall k | 0 <= k < 8 :: v[k] in {w[0], w[1], w[2], w[3], w[4], w[5], w[6], w[7]};
    TablesAgreeOnDomain(v);
  }
}
