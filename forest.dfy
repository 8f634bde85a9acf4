/** The root of the search tree: four top-level slots and the depth counter,
    and the engine operations that update them in place. */
module Forest {
  import opened Constraints
  import opened Tree
  import opened Traversal

  datatype Option<T> = None | Some(value: T)

  /** A forest is the content of the root's four slots; an empty slot is None. */
  type Slots = seq<Option<Node>>

  function SlotPaths(slot: Option<Node>): seq<Path> {
    match slot
    case None => []
    case Some(n) => Paths(n, [])
  }

  function SlotLeaves(slot: Option<Node>): nat {
    match slot
    case None => 0
    case Some(n) => LeafCount(n)
  }

  /** The paths of the whole tree: slot 0's paths first, then slot 1's, and so on. */
  function ForestPaths(fs: Slots): (ps: seq<Path>)
    ensures |ps| == ForestLeaves(fs)
  {
    if fs == [] then [] else SlotPaths(fs[0]) + ForestPaths(fs[1..])
  }

  function ForestLeaves(fs: Slots): nat {
    if fs == [] then 0 else SlotLeaves(fs[0]) + ForestLeaves(fs[1..])
  }

  lemma {:induction false} ForestPathsConcat(a: Slots, b: Slots)
    ensures ForestPaths(a + b) == ForestPaths(a) + ForestPaths(b)
  {
    if a == [] {
      assert a + b == b;
    } else {
      assert (a + b)[0] == a[0] && (a + b)[1..] == a[1..] + b;
      ForestPathsConcat(a[1..], b);
    }
  }

  /** Every path of the tree lies below one occupied slot, so it starts at a top-level node. */
  lemma {:induction false} ForestMember(fs: Slots, p: Path) returns (i: nat)
    requires p in ForestPaths(fs)
    ensures i < |fs| && fs[i].Some? && p in Paths(fs[i].value, [])
    ensures |p| >= 1 && p[0] == StepOf(fs[i].value)
  {
    if p in SlotPaths(fs[0]) {
      i := 0;
    } else {
      var j := ForestMember(fs[1..], p);
      i := j + 1;
    }
    PathsExtendPrefix(fs[i].value, [], p);
    assert p[0] == p[..1][0];
  }

  /** Every path below every occupied slot is a path of the tree. */
  lemma {:induction false} ForestIncludes(fs: Slots, i: nat, p: Path)
    requires i < |fs| && fs[i].Some? && p in Paths(fs[i].value, [])
    ensures p in ForestPaths(fs)
  {
    if i > 0 {
      ForestIncludes(fs[1..], i - 1, p);
    }
  }

  /** The paths of the tree are exactly the branches of the occupied slots' nodes. */
  lemma ForestPathsAreBranches(fs: Slots, p: Path)
    ensures p in ForestPaths(fs) <==> exists i | 0 <= i < |fs| :: fs[i].Some? && IsBranch(fs[i].value, p)
  {
    assert p[0..] == p && p[..0] == [];
    if p in ForestPaths(fs) {
      var i := ForestMember(fs, p);
      PathsAreBranches(fs[i].value, [], p);
    }
    if i :| 0 <= i < |fs| && fs[i].Some? && IsBranch(fs[i].value, p) {
      BranchesArePaths(fs[i].value, [], p);
      ForestIncludes(fs, i, p);
    }
  }

  /** The slot holding the k-th leaf of the tree, and the leaf's ordinal inside that slot. */
  function Locate(fs: Slots, k: nat): (r: (nat, nat))
    requires k < ForestLeaves(fs)
    ensures r.0 < |fs| && fs[r.0].Some? && r.1 < LeafCount(fs[r.0].value)
    ensures k == ForestLeaves(fs[..r.0]) + r.1
  {
    if k < SlotLeaves(fs[0]) then
      assert fs[..0] == [];
      (0, k)
    else
      var r := Locate(fs[1..], k - SlotLeaves(fs[0]));
      assert fs[..r.0 + 1] == [fs[0]] + fs[1..][..r.0];
      ForestLeavesConcat([fs[0]], fs[1..][..r.0]);
      (r.0 + 1, r.1)
  }

  lemma {:induction false} ForestLeavesConcat(a: Slots, b: Slots)
    ensures ForestLeaves(a + b) == ForestLeaves(a) + ForestLeaves(b)
  {
    if a == [] {
      assert a + b == b;
    } else {
      assert (a + b)[0] == a[0] && (a + b)[1..] == a[1..] + b;
      ForestLeavesConcat(a[1..], b);
    }
  }

  /** The tree with the tombstone of its k-th leaf set. */
  function ForestMark(fs: Slots, k: nat): Slots
    requires k < ForestLeaves(fs)
  {
    var (s, j) := Locate(fs, k);
    fs[s := Some(MarkLeaf(fs[s].value, j))]
  }

  lemma SplitAt<X>(xs: seq<X>, s: nat)
    requires s < |xs|
    ensures xs == xs[..s] + [xs[s]] + xs[s + 1..]
    ensures xs[..s + 1] == xs[..s] + [xs[s]]
  {
  }

  /** The paths of a forest split around one slot. */
  lemma ForestPathsSplit(fs: Slots, s: nat)
    requires s < |fs|
    ensures ForestPaths(fs) == ForestPaths(fs[..s]) + SlotPaths(fs[s]) + ForestPaths(fs[s + 1..])
  {
    var a, b, c := fs[..s], [fs[s]], fs[s + 1..];
    SplitAt(fs, s);
    ForestPathsConcat(a + b, c);
    ForestPathsConcat(a, b);
    assert ForestPaths(b) == SlotPaths(fs[s]) by {
      assert b[1..] == [];
    }
  }

  lemma UpdateInMiddle<T>(a: seq<T>, p: seq<T>, c: seq<T>, j: nat, k: nat, x: T)
    requires j < |p| && k == |a| + j
    ensures (a + p + c)[k := x] == a + p[j := x] + c
    ensures (a + p + c)[k] == p[j]
  {
  }

  /** Marking the k-th leaf marks the end of the k-th path and of no other one. */
  lemma ForestMarkPaths(fs: Slots, k: nat)
    requires k < ForestLeaves(fs)
    ensures ForestPaths(ForestMark(fs, k)) == ForestPaths(fs)[k := MarkLast(ForestPaths(fs)[k])]
  {
    var (s, j) := Locate(fs, k);
    var n := fs[s].value;
    var gs := ForestMark(fs, k);
    var a, p, c := ForestPaths(fs[..s]), Paths(n, []), ForestPaths(fs[s + 1..]);
    assert ForestPaths(fs) == a + p + c by {
      ForestPathsSplit(fs, s);
    }
    assert ForestPaths(gs) == a + Paths(MarkLeaf(n, j), []) + c by {
      ForestPathsSplit(gs, s);
      assert gs[..s] == fs[..s] && gs[s + 1..] == fs[s + 1..];
    }
    assert Paths(MarkLeaf(n, j), []) == p[j := MarkLast(p[j])] by {
      MarkLeafPaths(n, [], j);
    }
    assert |a| == ForestLeaves(fs[..s]);
    UpdateInMiddle(a, p, c, j, k, MarkLast(p[j]));
  }

  /** The tree with every top-level node and every leaf tombstone cleared. */
  function ForestShape(fs: Slots): (ss: Slots)
    ensures |ss| == |fs|
  {
    seq(|fs|, i requires 0 <= i < |fs| => match fs[i] case None => None case Some(n) => Some(Shape(n)))
  }

  lemma ForestMarkShape(fs: Slots, k: nat)
    requires k < ForestLeaves(fs)
    ensures ForestShape(ForestMark(fs, k)) == ForestShape(fs)
  {
    var (s, j) := Locate(fs, k);
    MarkLeafShape(fs[s].value, j);
  }

  /** A forest is determined by its shape together with its paths. */
  lemma {:induction false} ForestDetermine(fs: Slots, gs: Slots)
    requires ForestShape(fs) == ForestShape(gs) && ForestPaths(fs) == ForestPaths(gs)
    ensures fs == gs
  {
    if fs != [] {
      assert |fs| == |gs|;
      assert ForestShape(fs)[0] == ForestShape(gs)[0];
      assert fs[0].Some? <==> gs[0].Some?;
      if fs[0].Some? {
        assert Shape(fs[0].value) == Shape(gs[0].value);
        LeafCountOfShape(fs[0].value);
        LeafCountOfShape(gs[0].value);
      }
      ConcatCancel(SlotPaths(fs[0]), ForestPaths(fs[1..]), SlotPaths(gs[0]), ForestPaths(gs[1..]));
      assert ForestShape(fs[1..]) == ForestShape(gs[1..]) by {
        assert ForestShape(fs[1..]) == ForestShape(fs)[1..];
        assert ForestShape(gs[1..]) == ForestShape(gs)[1..];
      }
      if fs[0].Some? {
        PathsDetermineTree(fs[0].value, gs[0].value, []);
      }
      ForestDetermine(fs[1..], gs[1..]);
      HeadTail(fs, gs);
    }
  }

  /** Prune, stated on the whole tree. */
  function PruneForest(fs: Slots, ord: Ordering): (gs: Slots)
    ensures |gs| == |fs|
  {
    seq(|fs|, i requires 0 <= i < |fs| => match fs[i] case None => None case Some(n) => Some(PruneTree(n, [], ord)))
  }

  /** The paths of the pruned tree are the old paths, the failing ones with their last node marked. */
  lemma {:induction false} PruneForestPaths(fs: Slots, ord: Ordering)
    ensures ForestPaths(PruneForest(fs, ord)) == PrunePaths(ForestPaths(fs), ord)
  {
    if fs != [] {
      var gs := PruneForest(fs, ord);
      assert gs[1..] == PruneForest(fs[1..], ord);
      if fs[0].Some? {
        PruneTreePaths(fs[0].value, [], ord);
      }
      assert SlotPaths(gs[0]) == PrunePaths(SlotPaths(fs[0]), ord);
      PruneForestPaths(fs[1..], ord);
      PrunePathsConcat(SlotPaths(fs[0]), ForestPaths(fs[1..]), ord);
    }
  }

  lemma PruneForestShape(fs: Slots, ord: Ordering)
    ensures ForestShape(PruneForest(fs, ord)) == ForestShape(fs)
  {
    forall i | 0 <= i < |fs| && fs[i].Some?
      ensures Shape(PruneTree(fs[i].value, [], ord)) == Shape(fs[i].value)
    {
      PruneTreeShape(fs[i].value, [], ord);
    }
  }

  /** A second prune of an unchanged tree changes nothing. */
  lemma PruneForestIdempotent(fs: Slots, ord: Ordering)
    ensures PruneForest(PruneForest(fs, ord), ord) == PruneForest(fs, ord)
  {
    forall i | 0 <= i < |fs| && fs[i].Some?
      ensures PruneTree(PruneTree(fs[i].value, [], ord), [], ord) == PruneTree(fs[i].value, [], ord)
    {
      PruneTreeIdempotent(fs[i].value, [], ord);
    }
  }

  /** The first i paths pruned, the rest as they were: the state after i rounds of the prune loop. */
  function PrunedUpTo(ps: seq<Path>, i: nat, ord: Ordering): seq<Path>
    requires i <= |ps|
  {
    PrunePaths(ps[..i], ord) + ps[i..]
  }

  /** Round i of the prune loop replaces the still unpruned i-th path by its pruned form. */
  lemma PrunedUpToStep(ps: seq<Path>, i: nat, ord: Ordering)
    requires i < |ps|
    ensures PrunedUpTo(ps, i, ord)[i] == ps[i]
    ensures PrunedUpTo(ps, i + 1, ord) == PrunedUpTo(ps, i, ord)[i := PruneOne(ps[i], ord)]
  {
    var done := PrunePaths(ps[..i], ord);
    assert PrunedUpTo(ps, i + 1, ord) == done + [PruneOne(ps[i], ord)] + ps[i + 1..] by {
      SplitAt(ps, i);
      PrunePathsConcat(ps[..i], [ps[i]], ord);
    }
    assert PrunedUpTo(ps, i, ord) == done + [ps[i]] + ps[i + 1..] by {
      SplitAt(ps, i);
    }
    UpdateInMiddle(done, [ps[i]], ps[i + 1..], 0, i, PruneOne(ps[i], ord));
  }

  /** One round of the prune loop on the tree: marking the i-th leaf exactly when the
      i-th path fails advances the loop state from i to i + 1 without changing the shape. */
  lemma PruneStep(fs: Slots, ps: seq<Path>, i: nat, ord: Ordering)
    requires i < |ps| && ForestPaths(fs) == PrunedUpTo(ps, i, ord)
    ensures i < ForestLeaves(fs)
    ensures Passes(ord, Values(ps[i])) ==> ForestPaths(fs) == PrunedUpTo(ps, i + 1, ord)
    ensures !Passes(ord, Values(ps[i])) ==>
      ForestPaths(ForestMark(fs, i)) == PrunedUpTo(ps, i + 1, ord) &&
      ForestShape(ForestMark(fs, i)) == ForestShape(fs)
  {
    PrunedUpToStep(ps, i, ord);
    if !Passes(ord, Values(ps[i])) {
      ForestMarkPaths(fs, i);
      ForestMarkShape(fs, i);
    }
  }

  /** Every slot is occupied: what the expansion needs, since it reads every slot's node. */
  predicate Populated(fs: Slots) {
    forall i | 0 <= i < |fs| :: fs[i].Some?
  }

  /** The expansion of every top-level node by one layer of the given letter. */
  function ExpandForest(fs: Slots, letter: string): (gs: Slots)
    requires Populated(fs)
    ensures |gs| == |fs| && Populated(gs)
  {
    seq(|fs|, i requires 0 <= i < |fs| => Some(ExpandTop(fs[i].value, letter)))
  }

  class Root {
    const slots: array<Option<Node>>
    var depth: int

    predicate Valid() {
      slots.Length == 4
    }

    /** The zero root: four empty slots and depth 0. */
    constructor ()
      ensures Valid() && fresh(slots) && depth == 0
      ensures forall i | 0 <= i < 4 :: slots[i] == None
    {
      slots := new Option<Node>[4](_ => None);
      depth := 0;
    }

    /** Fills the four slots with fresh nodes of the given letter and values 1..4. */
    method PopulateRoot(letter: string)
      requires Valid()
      modifies slots
      ensures forall i | 0 <= i < 4 :: slots[i] == Some(Layer(letter)[i])
    {
      for i := 0 to 4
        invariant forall j | 0 <= j < i :: slots[j] == Some(Layer(letter)[j])
      {
        var node := NewNode(letter);
        slots[i] := Some(node.(variable := node.variable.(value := i + 1)));
      }
    }

    /** Collects the paths below every occupied slot, in slot order. */
    method GeneratePaths() returns (paths: seq<Path>)
      requires Valid()
      ensures paths == ForestPaths(slots[..])
    {
      paths := [];
      for i := 0 to 4
        invariant paths == ForestPaths(slots[..i])
      {
        ForestPathsConcat(slots[..i], [slots[i]]);
        assert slots[..i + 1] == slots[..i] + [slots[i]];
        match slots[i]
        case None =>
        case Some(n) =>
          paths := CollectPaths(n, [], paths);
      }
      assert slots[..4] == slots[..];
    }

    /** Sets the tombstone of the last node of the k-th path. */
    method MarkPathLeaf(k: nat)
      requires Valid() && k < ForestLeaves(slots[..])
      modifies slots
      ensures slots[..] == ForestMark(old(slots[..]), k)
    {
      var (s, j) := Locate(slots[..], k);
      slots[s] := Some(MarkLeaf(slots[s].value, j));
    }

    /** Marks the leaf of every path that fails the ordering's checker. */
    method Prune(ord: Ordering)
      requires Valid()
      modifies slots
      ensures slots[..] == PruneForest(old(slots[..]), ord)
    {
      var paths := GeneratePaths();
      ghost var start := slots[..];
      for i := 0 to |paths|
        invariant ForestShape(slots[..]) == ForestShape(start)
        invariant ForestPaths(slots[..]) == PrunedUpTo(paths, i, ord)
      {
        PruneStep(slots[..], paths, i, ord);
        if !Passes(ord, Values(paths[i])) {
          MarkPathLeaf(i);
        }
      }
      assert paths[..|paths|] == paths;
      PruneForestPaths(start, ord);
      PruneForestShape(start, ord);
      ForestDetermine(slots[..], PruneForest(start, ord));
    }

    /** Does nothing at depth 8; otherwise raises the depth by one and expands every
        top-level node with the ordering's letter for the new depth. */
    method IncreaseSearchDepth(ord: Ordering)
      requires Valid()
      requires depth != 8 ==> Populated(slots[..])
      modifies this, slots
      ensures old(depth) == 8 ==> depth == 8 && slots[..] == old(slots[..])
      ensures old(depth) != 8 ==>
        depth == old(depth) + 1 &&
        slots[..] == ExpandForest(old(slots[..]), LetterAt(ord, depth))
    {
      if depth == 8 {
        return;
      }
      ghost var before := slots[..];
      depth := depth + 1;
      var letter := LetterAt(ord, depth);
      for i := 0 to 4
        modifies slots
        invariant forall j | 0 <= j < i :: slots[j] == Some(ExpandTop(before[j].value, letter))
        invariant forall j | i <= j < 4 :: slots[j] == before[j]
      {
        var node := slots[i].value;
        if node.children == [] {
          node := AddVariableLayer(node, letter);
        } else {
          node := RecursivelyAddVariableLayer(node, letter);
        }
        slots[i] := Some(node);
      }
      assert slots[..] == ExpandForest(before, letter);
    }

    /** One pass of the search: prune, then expand. */
    method GenerateTree(ord: Ordering)
      requires Valid()
      requires depth != 8 ==> Populated(slots[..])
      modifies this, slots
      ensures old(depth) == 8 ==> depth == 8 && slots[..] == PruneForest(old(slots[..]), ord)
      ensures old(depth) != 8 ==>
        depth == old(depth) + 1 &&
        slots[..] == ExpandForest(PruneForest(old(slots[..]), ord), LetterAt(ord, depth))
    {
      Prune(ord);
      IncreaseSearchDepth(ord);
    }
  }
}
