/** The driver: a root populated at depth 1 and eight passes of prune-then-expand,
    and the reports read off the finished tree. The proof compares every stage
    with a reference tree built directly from the checker. */
module Search {
  import opened Constraints
  import opened Tree
  import opened Traversal
  import opened Forest

  /** The node for the partial assignment `vals` in the tree the search holds once its
      deepest level is `depth`; `pruned` says whether that level has been checked yet.
      A node whose assignment passes and lies above the deepest level has the four
      children for values 1..4; any other node is a leaf, dead exactly when it has
      been checked and fails. */
  function Ideal(ord: Ordering, vals: seq<int>, depth: int, pruned: bool): (n: Node)
    requires 1 <= |vals| <= depth
    ensures n.variable == Variable(LetterAt(ord, |vals|), vals[|vals| - 1])
    decreases depth - |vals|
  {
    var d := |vals|;
    var v := Variable(LetterAt(ord, d), vals[d - 1]);
    if d < depth && Passes(ord, vals) then
      Node(v, seq(4, i requires 0 <= i < 4 => Ideal(ord, vals + [i + 1], depth, pruned)), false)
    else
      Node(v, [], (d < depth || pruned) && !Passes(ord, vals))
  }

  /** The reference content of the four slots: top-level values 1..4. */
  function IdealForest(ord: Ordering, depth: int, pruned: bool): (fs: Slots)
    requires depth >= 1
    ensures |fs| == 4 && Populated(fs)
  {
    seq(4, i requires 0 <= i < 4 => Some(Ideal(ord, [i + 1], depth, pruned)))
  }

  /** Each entry of a path carries the letter its level has in the ordering. */
  ghost predicate Labelled(ord: Ordering, p: Path) {
    forall j | 0 <= j < |p| :: p[j].variable.letter == LetterAt(ord, j + 1)
  }

  lemma LabelledSnoc(ord: Ordering, p: Path, s: Step)
    requires Labelled(ord, p) && s.variable.letter == LetterAt(ord, |p| + 1)
    ensures Labelled(ord, p + [s])
  {
    forall j | 0 <= j < |p| + 1 ensures (p + [s])[j].variable.letter == LetterAt(ord, j + 1) {
      if j < |p| {
        assert (p + [s])[j] == p[j];
      }
    }
  }

  lemma SplitLast(vals: seq<int>)
    requires vals != []
    ensures vals == vals[..|vals| - 1] + [vals[|vals| - 1]]
  {
  }

  lemma InDomainSnoc(vals: seq<int>, v: int)
    requires InDomain(vals) && 1 <= v <= 4
    ensures InDomain(vals + [v])
  {
    forall k | 0 <= k < |vals| + 1 ensures 1 <= (vals + [v])[k] <= 4 {
      if k < |vals| {
        assert (vals + [v])[k] == vals[k];
      }
    }
  }

  /** Populating the root with the ordering's first letter gives the reference tree of depth 1. */
  lemma IdealStart(ord: Ordering)
    ensures forall i | 0 <= i < 4 :: Some(Layer(LetterAt(ord, 1))[i]) == IdealForest(ord, 1, false)[i]
  {
  }

  /** Pruning checks the deepest level of the reference tree and changes nothing else. */
  lemma {:induction false} IdealPrune(ord: Ordering, vals: seq<int>, depth: int, pruned: bool, prefix: Path)
    requires 1 <= |vals| <= depth && |prefix| + 1 == |vals| && Values(prefix) == vals[..|prefix|]
    ensures PruneTree(Ideal(ord, vals, depth, pruned), prefix, ord) == Ideal(ord, vals, depth, true)
    decreases depth - |vals|
  {
    var n := Ideal(ord, vals, depth, pruned);
    var path := prefix + [StepOf(n)];
    assert Values(path) == vals by {
      ValuesSnoc(prefix, StepOf(n));
    }
    if |vals| < depth && Passes(ord, vals) {
      var m := Ideal(ord, vals, depth, true);
      forall i | 0 <= i < 4 ensures PruneTree(n.children[i], path, ord) == m.children[i] {
        assert (vals + [i + 1])[..|path|] == vals;
        IdealPrune(ord, vals + [i + 1], depth, pruned, path);
      }
      assert PruneAll(n.children, path, ord) == m.children;
    }
  }

  lemma IdealForestPrune(ord: Ordering, depth: int, pruned: bool)
    requires depth >= 1
    ensures PruneForest(IdealForest(ord, depth, pruned), ord) == IdealForest(ord, depth, true)
  {
    forall i | 0 <= i < 4
      ensures PruneForest(IdealForest(ord, depth, pruned), ord)[i] == IdealForest(ord, depth, true)[i]
    {
      IdealPrune(ord, [i + 1], depth, pruned, []);
    }
  }

  /** Expanding a checked reference tree with the next level's letter gives the
      unchecked reference tree one level deeper. */
  lemma {:induction false} IdealGrow(ord: Ordering, vals: seq<int>, depth: int)
    requires 1 <= |vals| <= depth
    ensures Grow(Ideal(ord, vals, depth, true), LetterAt(ord, depth + 1)) == Ideal(ord, vals, depth + 1, false)
    decreases depth - |vals|, 1
  {
    if |vals| < depth && Passes(ord, vals) {
      IdealGrowInner(ord, vals, depth);
    } else if Passes(ord, vals) {
      IdealGrowLeaf(ord, vals, depth);
    } else {
      GrowSkipsTombstone(Ideal(ord, vals, depth, true), LetterAt(ord, depth + 1));
    }
  }

  /** The case above for a passing node above the deepest level: each child grows. */
  lemma {:induction false} IdealGrowInner(ord: Ordering, vals: seq<int>, depth: int)
    requires 1 <= |vals| < depth && Passes(ord, vals)
    ensures Grow(Ideal(ord, vals, depth, true), LetterAt(ord, depth + 1)) == Ideal(ord, vals, depth + 1, false)
    decreases depth - |vals|, 0
  {
    var letter := LetterAt(ord, depth + 1);
    var n := Ideal(ord, vals, depth, true);
    var m := Ideal(ord, vals, depth + 1, false);
    assert !IsFrontier(n) && |n.children| == 4;
    assert !m.tombstone && |m.children| == 4;
    forall i | 0 <= i < 4 ensures Grow(n.children[i], letter) == m.children[i] {
      assert n.children[i] == Ideal(ord, vals + [i + 1], depth, true);
      assert m.children[i] == Ideal(ord, vals + [i + 1], depth + 1, false);
      IdealGrow(ord, vals + [i + 1], depth);
    }
    assert GrowAll(n.children, letter) == m.children;
  }

  /** The case above for a passing node at the deepest level: it gains the new layer. */
  lemma IdealGrowLeaf(ord: Ordering, vals: seq<int>, depth: int)
    requires 1 <= |vals| == depth && Passes(ord, vals)
    ensures Grow(Ideal(ord, vals, depth, true), LetterAt(ord, depth + 1)) == Ideal(ord, vals, depth + 1, false)
  {
    var letter := LetterAt(ord, depth + 1);
    var n := Ideal(ord, vals, depth, true);
    var m := Ideal(ord, vals, depth + 1, false);
    assert IsFrontier(n);
    assert Grow(n, letter).children == Layer(letter);
    forall i | 0 <= i < 4 ensures m.children[i] == Layer(letter)[i] {
      var vals' := vals + [i + 1];
      assert m.children[i] == Ideal(ord, vals', depth + 1, false);
      assert |vals'| == depth + 1 && vals'[|vals'| - 1] == i + 1;
    }
  }

  lemma IdealForestGrow(ord: Ordering, depth: int)
    requires depth >= 1
    ensures ExpandForest(IdealForest(ord, depth, true), LetterAt(ord, depth + 1)) == IdealForest(ord, depth + 1, false)
  {
    var letter := LetterAt(ord, depth + 1);
    forall i | 0 <= i < 4
      ensures ExpandForest(IdealForest(ord, depth, true), letter)[i] == IdealForest(ord, depth + 1, false)[i]
    {
      var fs := IdealForest(ord, depth, true);
      var n := Ideal(ord, [i + 1], depth, true);
      assert fs[i] == Some(n);
      assert ExpandForest(fs, letter)[i] == Some(ExpandTop(n, letter));
      assert !n.tombstone by {
        SingleValuePasses(ord, i + 1);
      }
      ExpandTopAgreesWhenLive(n, letter);
      IdealGrow(ord, [i + 1], depth);
    }
  }

  /** What every path of a reference subtree looks like: a labelled path through
      domain values, of length at most `depth`, that extends `vals`, whose proper
      prefixes all pass, that ends short of `depth` only where it fails, and whose
      leaf is dead exactly when it has been checked and fails. */
  lemma {:induction false} IdealPathsSound(ord: Ordering, vals: seq<int>, depth: int, pruned: bool, prefix: Path, q: Path)
    requires 1 <= |vals| <= depth && |prefix| + 1 == |vals| && Values(prefix) == vals[..|prefix|]
    requires Labelled(ord, prefix) && AllPass(ord, vals[..|prefix|]) && InDomain(vals)
    requires q in Paths(Ideal(ord, vals, depth, pruned), prefix)
    ensures |vals| <= |q| <= depth
    ensures Labelled(ord, q) && InDomain(Values(q))
    ensures AllPass(ord, Values(q)[..|q| - 1])
    ensures Last(q).tombstone <==> (|q| < depth || pruned) && !Passes(ord, Values(q))
    ensures |q| < depth ==> !Passes(ord, Values(q))
    decreases depth - |vals|, 1
  {
    var n := Ideal(ord, vals, depth, pruned);
    var path := prefix + [StepOf(n)];
    if |vals| < depth && Passes(ord, vals) {
      assert PathsIn(n.children, path) == Paths(n, prefix);
      var i := PathsInMember(n.children, path, q);
      assert i < 4 && n.children[i] == Ideal(ord, vals + [i + 1], depth, pruned);
      IdealPathsSoundBelow(ord, vals, depth, pruned, prefix, q, i);
    } else {
      IdealLeafPath(ord, vals, depth, pruned, prefix, q);
    }
  }

  /** The proof above for a path that ends at the reference node itself. */
  lemma IdealLeafPath(ord: Ordering, vals: seq<int>, depth: int, pruned: bool, prefix: Path, q: Path)
    requires 1 <= |vals| <= depth && |prefix| + 1 == |vals| && Values(prefix) == vals[..|prefix|]
    requires Labelled(ord, prefix) && AllPass(ord, vals[..|prefix|]) && InDomain(vals)
    requires !(|vals| < depth && Passes(ord, vals))
    requires q in Paths(Ideal(ord, vals, depth, pruned), prefix)
    ensures |vals| <= |q| <= depth
    ensures Labelled(ord, q) && InDomain(Values(q))
    ensures AllPass(ord, Values(q)[..|q| - 1])
    ensures Last(q).tombstone <==> (|q| < depth || pruned) && !Passes(ord, Values(q))
    ensures |q| < depth ==> !Passes(ord, Values(q))
  {
    var n := Ideal(ord, vals, depth, pruned);
    assert n.children == [] && (n.tombstone <==> (|vals| < depth || pruned) && !Passes(ord, vals));
    assert q == prefix + [StepOf(n)];
    assert Values(q) == vals by {
      ValuesSnoc(prefix, StepOf(n));
      SplitLast(vals);
    }
    assert Values(q)[..|q| - 1] == vals[..|prefix|];
    LabelledSnoc(ord, prefix, StepOf(n));
  }

  /** The step of the proof above for a path that runs through child i. */
  lemma {:induction false} IdealPathsSoundBelow(ord: Ordering, vals: seq<int>, depth: int, pruned: bool, prefix: Path, q: Path, i: nat)
    requires 1 <= |vals| < depth && |prefix| + 1 == |vals| && Values(prefix) == vals[..|prefix|]
    requires Labelled(ord, prefix) && AllPass(ord, vals[..|prefix|]) && InDomain(vals)
    requires Passes(ord, vals) && i < 4
    requires q in Paths(Ideal(ord, vals + [i + 1], depth, pruned), prefix + [StepOf(Ideal(ord, vals, depth, pruned))])
    ensures |vals| <= |q| <= depth
    ensures Labelled(ord, q) && InDomain(Values(q))
    ensures AllPass(ord, Values(q)[..|q| - 1])
    ensures Last(q).tombstone <==> (|q| < depth || pruned) && !Passes(ord, Values(q))
    ensures |q| < depth ==> !Passes(ord, Values(q))
    decreases depth - |vals|, 0
  {
    var n := Ideal(ord, vals, depth, pruned);
    var path := prefix + [StepOf(n)];
    var vals' := vals + [i + 1];
    assert vals'[..|path|] == vals;
    assert Values(path) == vals by {
      ValuesSnoc(prefix, StepOf(n));
      SplitLast(vals);
    }
    assert AllPass(ord, vals) by {
      AllPassExtend(ord, vals, |prefix|);
    }
    LabelledSnoc(ord, prefix, StepOf(n));
    InDomainSnoc(vals, i + 1);
    IdealPathsSound(ord, vals', depth, pruned, path, q);
  }

  /** Every assignment of `depth` domain values that extends `vals` and whose proper
      prefixes pass is the value sequence of a path of the reference subtree. */
  lemma {:induction false} IdealPathsComplete(ord: Ordering, vals: seq<int>, depth: int, pruned: bool, prefix: Path, vs: seq<int>)
    returns (q: Path)
    requires 1 <= |vals| <= depth && |prefix| + 1 == |vals| && Values(prefix) == vals[..|prefix|]
    requires |vs| == depth && vs[..|vals|] == vals && AllPass(ord, vs[..depth - 1]) && InDomain(vs)
    ensures q in Paths(Ideal(ord, vals, depth, pruned), prefix) && Values(q) == vs
    decreases depth - |vals|, 1
  {
    if |vals| < depth {
      q := IdealPathsCompleteBelow(ord, vals, depth, pruned, prefix, vs);
    } else {
      var n := Ideal(ord, vals, depth, pruned);
      q := prefix + [StepOf(n)];
      assert q in Paths(n, prefix);
      assert Values(q) == vals by {
        ValuesSnoc(prefix, StepOf(n));
      }
      assert vs == vs[..|vals|];
    }
  }

  /** The step of the proof above for a node above the deepest level: the path
      continues through the child for the next value of `vs`. */
  lemma {:induction false} IdealPathsCompleteBelow(ord: Ordering, vals: seq<int>, depth: int, pruned: bool, prefix: Path, vs: seq<int>)
    returns (q: Path)
    requires 1 <= |vals| < depth && |prefix| + 1 == |vals| && Values(prefix) == vals[..|prefix|]
    requires |vs| == depth && vs[..|vals|] == vals && AllPass(ord, vs[..depth - 1]) && InDomain(vs)
    ensures q in Paths(Ideal(ord, vals, depth, pruned), prefix) && Values(q) == vs
    decreases depth - |vals|, 0
  {
    var n := Ideal(ord, vals, depth, pruned);
    var path := prefix + [StepOf(n)];
    assert Values(path) == vals by {
      ValuesSnoc(prefix, StepOf(n));
    }
    assert Passes(ord, vals) by {
      assert vs[..depth - 1][..|vals|] == vals;
    }
    var i := vs[|vals|] - 1;
    var vals' := vals + [i + 1];
    assert n.children[i] == Ideal(ord, vals', depth, pruned);
    assert vs[..|vals'|] == vals' && vals'[..|path|] == vals;
    q := IdealPathsComplete(ord, vals', depth, pruned, path, vs);
    PathsInIncludes(n.children, path, i, q);
  }

  /** The path properties of the reference tree, stated for the four slots. */
  lemma IdealForestSound(ord: Ordering, depth: int, pruned: bool, q: Path)
    requires depth >= 1 && q in ForestPaths(IdealForest(ord, depth, pruned))
    ensures 1 <= |q| <= depth && Labelled(ord, q) && InDomain(Values(q))
    ensures AllPass(ord, Values(q)[..|q| - 1])
    ensures Last(q).tombstone <==> (|q| < depth || pruned) && !Passes(ord, Values(q))
    ensures |q| < depth ==> !Passes(ord, Values(q))
  {
    var i := ForestMember(IdealForest(ord, depth, pruned), q);
    IdealPathsSound(ord, [i + 1], depth, pruned, [], q);
  }

  lemma IdealForestComplete(ord: Ordering, depth: int, pruned: bool, vs: seq<int>) returns (q: Path)
    requires depth >= 1 && |vs| == depth && AllPass(ord, vs[..depth - 1]) && InDomain(vs)
    ensures q in ForestPaths(IdealForest(ord, depth, pruned)) && Values(q) == vs
  {
    var i := vs[0] - 1;
    assert 0 <= i < 4 && vs[..1] == [i + 1];
    var start: Path := [];
    assert |Values(start)| == 0 && [i + 1][..0] == [];
    q := IdealPathsComplete(ord, [i + 1], depth, pruned, start, vs);
    assert IdealForest(ord, depth, pruned)[i] == Some(Ideal(ord, [i + 1], depth, pruned));
    ForestIncludes(IdealForest(ord, depth, pruned), i, q);
  }

  /** The filter of the valid-path report: the path ends in a live node carrying the
      ordering's last letter (H for the natural ordering, B for the heuristic one). */
  predicate IsValidPath(ord: Ordering, p: Path) {
    p != [] && Last(p).variable.letter == LetterAt(ord, 8) && !Last(p).tombstone
  }

  /** The paths the valid-path report selects, in order. */
  function ValidPaths(ord: Ordering, ps: seq<Path>): (r: seq<Path>)
    ensures |r| <= |ps|
    ensures forall p :: p in r <==> p in ps && IsValidPath(ord, p)
  {
    if ps == [] then []
    else (if IsValidPath(ord, ps[0]) then [ps[0]] else []) + ValidPaths(ord, ps[1..])
  }

  /** A path the invalid-path report counts: its last node is dead. */
  predicate Dead(p: Path) {
    p != [] && Last(p).tombstone
  }

  /** The count the invalid-path report prints. */
  function CountInvalid(ps: seq<Path>): (c: nat)
    ensures c <= |ps|
  {
    if ps == [] then 0
    else (if Dead(ps[0]) then 1 else 0) + CountInvalid(ps[1..])
  }

  /** The report's loop adds one for each dead path it meets, in order. */
  lemma {:induction false} CountInvalidSnoc(ps: seq<Path>, p: Path)
    ensures CountInvalid(ps + [p]) == CountInvalid(ps) + if Dead(p) then 1 else 0
  {
    if ps == [] {
      assert [] + [p] == [p] && [p][1..] == [];
    } else {
      assert (ps + [p])[0] == ps[0] && (ps + [p])[1..] == ps[1..] + [p];
      CountInvalidSnoc(ps[1..], p);
    }
  }

  /** The count is the number of positions among the first n that hold a dead path. */
  lemma {:induction false} CountInvalidPrefix(ps: seq<Path>, n: nat)
    requires n <= |ps|
    ensures CountInvalid(ps[..n]) == |set i | 0 <= i < n && Dead(ps[i])|
  {
    if n > 0 {
      CountInvalidPrefix(ps, n - 1);
      assert ps[..n] == ps[..n - 1] + [ps[n - 1]];
      CountInvalidSnoc(ps[..n - 1], ps[n - 1]);
      var before := set i | 0 <= i < n - 1 && Dead(ps[i]);
      if Dead(ps[n - 1]) {
        assert (set i | 0 <= i < n && Dead(ps[i])) == before + {n - 1};
      } else {
        assert (set i | 0 <= i < n && Dead(ps[i])) == before;
      }
    }
  }

  /** The invalid-path count is exactly the number of paths whose last node is dead. */
  lemma CountInvalidCounts(ps: seq<Path>)
    ensures CountInvalid(ps) == |set i | 0 <= i < |ps| && Dead(ps[i])|
  {
    CountInvalidPrefix(ps, |ps|);
    assert ps[..|ps|] == ps;
  }

  /** When every path is valid exactly when its leaf is alive, the two reports
      together account for every path once. */
  lemma {:induction false} ReportsAddUp(ord: Ordering, ps: seq<Path>)
    requires forall p | p in ps :: p != [] && (IsValidPath(ord, p) <==> !Last(p).tombstone)
    ensures |ValidPaths(ord, ps)| + CountInvalid(ps) == |ps|
  {
    if ps != [] {
      assert ps[0] in ps;
      assert forall p | p in ps[1..] :: p in ps;
      ReportsAddUp(ord, ps[1..]);
    }
  }

  /** The letters of an ordering are distinct, so only level 8 carries the last one. */
  lemma LastLetterOnlyAtEight(ord: Ordering, j: int)
    requires 1 <= j <= 8
    ensures LetterAt(ord, j) == LetterAt(ord, 8) <==> j == 8
  {
    assert j in {1, 2, 3, 4, 5, 6, 7, 8};
  }

  /** A path of the finished tree is valid exactly when it has length 8 and every prefix of its assignment passes. */
  lemma FinishedPath(ord: Ordering, p: Path)
    requires p in ForestPaths(IdealForest(ord, 8, true))
    ensures 1 <= |p| <= 8 && Labelled(ord, p) && InDomain(Values(p))
    ensures Last(p).tombstone <==> !Passes(ord, Values(p))
    ensures IsValidPath(ord, p) <==> |p| == 8 && AllPass(ord, Values(p))
    ensures IsValidPath(ord, p) <==> !Last(p).tombstone
  {
    IdealForestSound(ord, 8, true, p);
    var v := Values(p);
    assert IsValidPath(ord, p) <==> |p| == 8 && !Last(p).tombstone by {
      assert Last(p).variable.letter == LetterAt(ord, |p|) by {
        assert Last(p) == p[|p| - 1];
      }
      LastLetterOnlyAtEight(ord, |p|);
    }
    assert AllPass(ord, v) <==> Passes(ord, v) by {
      if Passes(ord, v) {
        AllPassExtend(ord, v, |v| - 1);
      } else {
        assert v[..|v|] == v;
      }
    }
  }

  /** What the reports read off the finished tree: every path is labelled, within
      the domain and at most 8 long; a leaf is dead exactly when its path fails; a
      path is valid exactly when it binds all eight variables and every prefix of its
      assignment passes; every such assignment is the assignment of a valid path; and
      the two reports together cover every path once. */
  lemma FinishedTree(ord: Ordering, paths: seq<Path>)
    requires paths == ForestPaths(IdealForest(ord, 8, true))
    ensures forall p | p in paths :: 1 <= |p| <= 8 && Labelled(ord, p) && InDomain(Values(p))
    ensures forall p | p in paths :: Last(p).tombstone <==> !Passes(ord, Values(p))
    ensures forall p | p in paths :: IsValidPath(ord, p) <==> |p| == 8 && AllPass(ord, Values(p))
    ensures forall vs | |vs| == 8 && InDomain(vs) && AllPass(ord, vs) ::
      exists p | p in paths :: Values(p) == vs && IsValidPath(ord, p)
    ensures forall p | p in paths :: !Last(p).tombstone ==> |p| == 8
    ensures |ValidPaths(ord, paths)| + CountInvalid(paths) == |paths|
  {
    forall p | p in paths
      ensures 1 <= |p| <= 8 && Labelled(ord, p) && InDomain(Values(p))
      ensures Last(p).tombstone <==> !Passes(ord, Values(p))
      ensures IsValidPath(ord, p) <==> |p| == 8 && AllPass(ord, Values(p))
      ensures IsValidPath(ord, p) <==> !Last(p).tombstone
    {
      FinishedPath(ord, p);
    }
    forall vs | |vs| == 8 && InDomain(vs) && AllPass(ord, vs)
      ensures exists p | p in paths :: Values(p) == vs && IsValidPath(ord, p)
    {
      AllPassPrefix(ord, vs, 7);
      var q := IdealForestComplete(ord, 8, true, vs);
      FinishedPath(ord, q);
    }
    ReportsAddUp(ord, paths);
  }

  /** The program's driver for one ordering: a root at depth 1 populated with the
      ordering's first letter, eight passes of prune-then-expand, and the final
      enumeration the reports read. The search ends at depth 8 holding the checked
      reference tree of depth 8, so the reports have the properties above. */
  method Search(ord: Ordering) returns (depth: int, paths: seq<Path>)
    ensures depth == 8
    ensures paths == ForestPaths(IdealForest(ord, 8, true))
    ensures forall p | p in paths :: 1 <= |p| <= 8 && Labelled(ord, p) && InDomain(Values(p))
    ensures forall p | p in paths :: Last(p).tombstone <==> !Passes(ord, Values(p))
    ensures forall p | p in paths :: IsValidPath(ord, p) <==> |p| == 8 && AllPass(ord, Values(p))
    ensures forall vs | |vs| == 8 && InDomain(vs) && AllPass(ord, vs) ::
      exists p | p in paths :: Values(p) == vs && IsValidPath(ord, p)
    ensures forall p | p in paths :: !Last(p).tombstone ==> |p| == 8
    ensures |ValidPaths(ord, paths)| + CountInvalid(paths) == |paths|
  {
    var root := new Root();
    root.depth := 1;
    root.PopulateRoot(LetterAt(ord, 1));
    IdealStart(ord);
    assert root.slots[..] == IdealForest(ord, 1, false);
    for k := 0 to 8
      invariant root.Valid()
      invariant root.depth == if k < 8 then k + 1 else 8
      invariant root.slots[..] == IdealForest(ord, root.depth, k == 8)
    {
      IdealForestPrune(ord, root.depth, false);
      if root.depth < 8 {
        IdealForestGrow(ord, root.depth);
      }
      root.GenerateTree(ord);
    }
    paths := root.GeneratePaths();
    depth := root.depth;
    FinishedTree(ord, paths);
  }
}
