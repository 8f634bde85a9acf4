/** Root-to-leaf paths of a subtree, and the two rewrites the engine applies to
    leaves: marking the k-th leaf, and pruning every leaf whose path fails. */
module Traversal {
  import opened Constraints
  import opened Tree

  /** One entry of a path: the variable and the tombstone of the node it passes through. */
  datatype Step = Step(variable: Variable, tombstone: bool)

  type Path = seq<Step>

  function StepOf(n: Node): Step {
    Step(n.variable, n.tombstone)
  }

  /** The values bound along a path: all that a checker reads. */
  function Values(p: Path): (vs: seq<int>)
    ensures |vs| == |p|
    ensures forall i | 0 <= i < |p| :: vs[i] == p[i].variable.value
  {
    seq(|p|, i requires 0 <= i < |p| => p[i].variable.value)
  }

  lemma ValuesSnoc(p: Path, s: Step)
    ensures Values(p + [s]) == Values(p) + [s.variable.value]
  {
  }

  function Last(p: Path): Step
    requires p != []
  {
    p[|p| - 1]
  }

  /** The path after the tombstone of its last node has been set. Paths are
      never empty (see Paths), so the empty case is never reached. */
  function MarkLast(p: Path): (q: Path)
    ensures |q| == |p| && Values(q) == Values(p)
    ensures p != [] ==> q[..|p| - 1] == p[..|p| - 1] && Last(q) == Step(Last(p).variable, true)
  {
    if p == [] then p else p[|p| - 1 := Step(p[|p| - 1].variable, true)]
  }

  /** The number of leaves (childless nodes) of a subtree. */
  function LeafCount(n: Node): (c: nat)
    ensures c >= 1
    decreases n, 1
  {
    if n.children == [] then 1 else LeavesIn(n.children)
  }

  function LeavesIn(ns: seq<Node>): (c: nat)
    ensures ns != [] ==> c >= 1
    decreases ns, 0
  {
    if ns == [] then 0 else LeafCount(ns[0]) + LeavesIn(ns[1..])
  }

  /** Depth-first, left-to-right enumeration of the paths below a node, each
      extending `prefix` by the node and ending at a leaf, dead or alive. */
  function Paths(n: Node, prefix: Path): (ps: seq<Path>)
    ensures |ps| == LeafCount(n)
    decreases n, 1
  {
    var path := prefix + [StepOf(n)];
    if n.children == [] then [path] else PathsIn(n.children, path)
  }

  function PathsIn(ns: seq<Node>, prefix: Path): (ps: seq<Path>)
    ensures |ps| == LeavesIn(ns)
    decreases ns, 0
  {
    if ns == [] then [] else Paths(ns[0], prefix) + PathsIn(ns[1..], prefix)
  }

  /** Every path below a node extends the prefix by that node. */
  lemma {:induction false} PathsExtendPrefix(n: Node, prefix: Path, p: Path)
    requires p in Paths(n, prefix)
    ensures |p| > |prefix| && p[..|prefix| + 1] == prefix + [StepOf(n)]
    decreases n, 1
  {
    var path := prefix + [StepOf(n)];
    if n.children != [] {
      PathsInExtendPrefix(n.children, path, p);
      assert p[..|prefix| + 1] == p[..|path|];
    }
  }

  lemma {:induction false} PathsInExtendPrefix(ns: seq<Node>, prefix: Path, p: Path)
    requires p in PathsIn(ns, prefix)
    ensures |p| > |prefix| && p[..|prefix|] == prefix
    decreases ns, 0
  {
    var i := PathsInMember(ns, prefix, p);
    PathsExtendPrefix(ns[i], prefix, p);
    assert p[..|prefix|] == p[..|prefix| + 1][..|prefix|];
  }

  lemma {:induction false} PathsInConcat(a: seq<Node>, b: seq<Node>, prefix: Path)
    ensures PathsIn(a + b, prefix) == PathsIn(a, prefix) + PathsIn(b, prefix)
  {
    if a == [] {
      assert a + b == b;
    } else {
      assert (a + b)[0] == a[0] && (a + b)[1..] == a[1..] + b;
      PathsInConcat(a[1..], b, prefix);
    }
  }

  /** A path of a child list is a path of one of the children. */
  lemma {:induction false} PathsInMember(ns: seq<Node>, prefix: Path, p: Path) returns (i: nat)
    requires p in PathsIn(ns, prefix)
    ensures i < |ns| && p in Paths(ns[i], prefix)
  {
    if p in Paths(ns[0], prefix) {
      i := 0;
    } else {
      var j := PathsInMember(ns[1..], prefix, p);
      i := j + 1;
    }
  }

  /** Every path of every child is a path of the child list. */
  lemma {:induction false} PathsInIncludes(ns: seq<Node>, prefix: Path, i: nat, p: Path)
    requires i < |ns| && p in Paths(ns[i], prefix)
    ensures p in PathsIn(ns, prefix)
  {
    if i > 0 {
      PathsInIncludes(ns[1..], prefix, i - 1, p);
    }
  }

  /** An independent description of a root-to-leaf path: it starts at the node, each
      next entry belongs to a child of the previous entry's node, and it stops at a leaf. */
  ghost predicate IsBranch(n: Node, p: Path)
    decreases n
  {
    p != [] && p[0] == StepOf(n) &&
    if n.children == [] then |p| == 1
    else exists i | 0 <= i < |n.children| :: IsBranch(n.children[i], p[1..])
  }

  /** Every enumerated path is the prefix followed by a branch of the node. */
  lemma {:induction false} PathsAreBranches(n: Node, prefix: Path, p: Path)
    requires p in Paths(n, prefix)
    ensures |p| > |prefix| && p[..|prefix|] == prefix && IsBranch(n, p[|prefix|..])
    decreases n
  {
    var path := prefix + [StepOf(n)];
    if n.children == [] {
      assert p == path && p[|prefix|..] == [StepOf(n)];
    } else {
      var i := PathsInMember(n.children, path, p);
      PathsAreBranches(n.children[i], path, p);
      assert p[|prefix|..][1..] == p[|path|..];
      assert p[..|prefix|] == p[..|path|][..|prefix|];
    }
  }

  /** Every branch of the node, after the prefix, is enumerated. */
  lemma {:induction false} BranchesArePaths(n: Node, prefix: Path, p: Path)
    requires |p| > |prefix| && p[..|prefix|] == prefix && IsBranch(n, p[|prefix|..])
    ensures p in Paths(n, prefix)
    decreases n
  {
    var path := prefix + [StepOf(n)];
    var tail := p[|prefix|..];
    assert tail[0] == p[|prefix|];
    if n.children == [] {
      assert tail == [StepOf(n)];
      assert p == p[..|prefix|] + tail;
      assert p == path;
    } else {
      var i :| 0 <= i < |n.children| && IsBranch(n.children[i], tail[1..]);
      assert |tail| > 1;
      assert p[..|path|] == path;
      assert tail[1..] == p[|path|..];
      BranchesArePaths(n.children[i], path, p);
      PathsInIncludes(n.children, path, i, p);
    }
  }

  /** The closure that walks a subtree: appends the node to the path, then
      records the path at a leaf or walks each child in order. */
  method CollectPaths(node: Node, path: Path, paths: seq<Path>) returns (result: seq<Path>)
    ensures result == paths + Paths(node, path)
    decreases node
  {
    var extended := path + [StepOf(node)];
    if node.children == [] {
      result := paths + [extended];
    } else {
      result := paths;
      for i := 0 to |node.children|
        invariant result == paths + PathsIn(node.children[..i], extended)
      {
        PathsInConcat(node.children[..i], [node.children[i]], extended);
        assert node.children[..i + 1] == node.children[..i] + [node.children[i]];
        assert PathsIn([node.children[i]], extended) == Paths(node.children[i], extended);
        result := CollectPaths(node.children[i], extended, result);
      }
      assert node.children[..|node.children|] == node.children;
    }
  }

  /** Sets the tombstone of the k-th leaf, counting leaves left to right from 0. */
  function MarkLeaf(n: Node, k: nat): (m: Node)
    requires k < LeafCount(n)
    ensures m.variable == n.variable && |m.children| == |n.children|
    decreases n, 1
  {
    if n.children == [] then MarkTombstone(n) else n.(children := MarkLeafIn(n.children, k))
  }

  function MarkLeafIn(ns: seq<Node>, k: nat): (ms: seq<Node>)
    requires k < LeavesIn(ns)
    ensures |ms| == |ns|
    decreases ns, 0
  {
    if k < LeafCount(ns[0]) then [MarkLeaf(ns[0], k)] + ns[1..]
    else [ns[0]] + MarkLeafIn(ns[1..], k - LeafCount(ns[0]))
  }

  /** Marking the k-th leaf marks the last node of the k-th path and changes no other path. */
  lemma {:induction false} MarkLeafPaths(n: Node, prefix: Path, k: nat)
    requires k < LeafCount(n)
    ensures Paths(MarkLeaf(n, k), prefix) == Paths(n, prefix)[k := MarkLast(Paths(n, prefix)[k])]
    decreases n, 1
  {
    var path := prefix + [StepOf(n)];
    if n.children == [] {
      assert k == 0;
      assert MarkLast(path) == prefix + [StepOf(MarkLeaf(n, k))];
    } else {
      assert StepOf(MarkLeaf(n, k)) == StepOf(n);
      MarkLeafInPaths(n.children, prefix + [StepOf(n)], k);
    }
  }

  lemma {:induction false} MarkLeafInPaths(ns: seq<Node>, prefix: Path, k: nat)
    requires k < LeavesIn(ns)
    ensures PathsIn(MarkLeafIn(ns, k), prefix) == PathsIn(ns, prefix)[k := MarkLast(PathsIn(ns, prefix)[k])]
    decreases ns, 0
  {
    var m := MarkLeafIn(ns, k);
    var a := Paths(ns[0], prefix);
    var b := PathsIn(ns[1..], prefix);
    assert PathsIn(ns, prefix) == a + b;
    if k < LeafCount(ns[0]) {
      assert m[0] == MarkLeaf(ns[0], k) && m[1..] == ns[1..];
      MarkLeafPaths(ns[0], prefix, k);
      assert PathsIn(m, prefix) == a[k := MarkLast(a[k])] + b;
    } else {
      var k' := k - LeafCount(ns[0]);
      assert m[0] == ns[0] && m[1..] == MarkLeafIn(ns[1..], k');
      MarkLeafInPaths(ns[1..], prefix, k');
      assert PathsIn(m, prefix) == a + b[k' := MarkLast(b[k'])];
    }
  }

  /** Marking a leaf leaves the shape of the tree unchanged. */
  lemma {:induction false} MarkLeafShape(n: Node, k: nat)
    requires k < LeafCount(n)
    ensures Shape(MarkLeaf(n, k)) == Shape(n)
    decreases n, 1
  {
    if n.children != [] {
      MarkLeafInShape(n.children, k);
    }
  }

  lemma {:induction false} MarkLeafInShape(ns: seq<Node>, k: nat)
    requires k < LeavesIn(ns)
    ensures ShapeAll(MarkLeafIn(ns, k)) == ShapeAll(ns)
    decreases ns, 0
  {
    var m := MarkLeafIn(ns, k);
    if k < LeafCount(ns[0]) {
      MarkLeafShape(ns[0], k);
      assert forall i | 1 <= i < |ns| :: m[i] == ns[i];
    } else {
      var k' := k - LeafCount(ns[0]);
      MarkLeafInShape(ns[1..], k');
      forall i | 1 <= i < |ns| ensures Shape(m[i]) == Shape(ns[i]) {
        assert m[i] == MarkLeafIn(ns[1..], k')[i - 1];
        assert Shape(m[i]) == ShapeAll(MarkLeafIn(ns[1..], k'))[i - 1];
      }
    }
    assert forall i | 0 <= i < |ns| :: ShapeAll(m)[i] == ShapeAll(ns)[i];
  }

  /** The leaf count depends only on the shape. */
  lemma {:induction false} LeafCountOfShape(n: Node)
    ensures LeafCount(Shape(n)) == LeafCount(n)
    decreases n, 1
  {
    if n.children != [] {
      LeavesInOfShape(n.children);
    }
  }

  lemma {:induction false} LeavesInOfShape(ns: seq<Node>)
    ensures LeavesIn(ShapeAll(ns)) == LeavesIn(ns)
    decreases ns, 0
  {
    if ns != [] {
      LeafCountOfShape(ns[0]);
      assert ShapeAll(ns)[1..] == ShapeAll(ns[1..]);
      LeavesInOfShape(ns[1..]);
    }
  }

  /** A tree is determined by its shape together with its paths: the paths supply
      the leaf tombstones, in leaf order, that the shape leaves out. */
  lemma {:induction false} PathsDetermineTree(a: Node, b: Node, prefix: Path)
    requires Shape(a) == Shape(b) && Paths(a, prefix) == Paths(b, prefix)
    ensures a == b
    decreases a, 1
  {
    assert a.variable == b.variable;
    if a.children == [] {
      assert b.children == [];
      assert Paths(a, prefix)[0] == prefix + [StepOf(a)];
      assert Paths(b, prefix)[0] == prefix + [StepOf(b)];
      assert StepOf(a) == (prefix + [StepOf(a)])[|prefix|];
    } else {
      assert b.children != [];
      assert a.tombstone == b.tombstone;
      PathsInDetermine(a.children, b.children, prefix + [StepOf(a)]);
    }
  }

  lemma {:induction false} PathsInDetermine(xs: seq<Node>, ys: seq<Node>, prefix: Path)
    requires ShapeAll(xs) == ShapeAll(ys) && PathsIn(xs, prefix) == PathsIn(ys, prefix)
    ensures xs == ys
    decreases xs, 0
  {
    if xs != [] {
      assert |xs| == |ys|;
      assert Shape(xs[0]) == Shape(ys[0]) by {
        assert ShapeAll(xs)[0] == ShapeAll(ys)[0];
      }
      assert |Paths(xs[0], prefix)| == |Paths(ys[0], prefix)| by {
        LeafCountOfShape(xs[0]);
        LeafCountOfShape(ys[0]);
      }
      ConcatCancel(Paths(xs[0], prefix), PathsIn(xs[1..], prefix), Paths(ys[0], prefix), PathsIn(ys[1..], prefix));
      assert ShapeAll(xs[1..]) == ShapeAll(ys[1..]) by {
        assert ShapeAll(xs[1..]) == ShapeAll(xs)[1..];
        assert ShapeAll(ys[1..]) == ShapeAll(ys)[1..];
      }
      PathsDetermineTree(xs[0], ys[0], prefix);
      PathsInDetermine(xs[1..], ys[1..], prefix);
      HeadTail(xs, ys);
    }
  }

  /** Two concatenations with equally long first parts are equal only part by part. */
  lemma ConcatCancel<X>(a: seq<X>, b: seq<X>, c: seq<X>, d: seq<X>)
    requires a + b == c + d && |a| == |c|
    ensures a == c && b == d
  {
    assert a == (a + b)[..|a|] && c == (c + d)[..|c|];
    assert b == (a + b)[|a|..] && d == (c + d)[|c|..];
  }

  /** Sequences with the same first element and the same rest are equal. */
  lemma HeadTail<X>(xs: seq<X>, ys: seq<X>)
    requires |xs| == |ys| > 0 && xs[0] == ys[0] && xs[1..] == ys[1..]
    ensures xs == ys
  {
    assert xs == [xs[0]] + xs[1..] && ys == [ys[0]] + ys[1..];
  }

  /** Prune, stated on one subtree: every leaf whose path fails the checker gets
      its tombstone set; nothing else changes. */
  function PruneTree(n: Node, prefix: Path, ord: Ordering): (m: Node)
    ensures m.variable == n.variable && |m.children| == |n.children|
    decreases n, 1
  {
    var path := prefix + [StepOf(n)];
    if n.children == [] then
      if Passes(ord, Values(path)) then n else MarkTombstone(n)
    else
      n.(children := PruneAll(n.children, path, ord))
  }

  function PruneAll(ns: seq<Node>, prefix: Path, ord: Ordering): (ms: seq<Node>)
    ensures |ms| == |ns|
    decreases ns, 0
  {
    seq(|ns|, i requires 0 <= i < |ns| => PruneTree(ns[i], prefix, ord))
  }

  /** One round of the prune loop on a single path. */
  function PruneOne(p: Path, ord: Ordering): (q: Path)
    ensures |q| == |p| && Values(q) == Values(p)
    ensures p != [] ==> q[..|p| - 1] == p[..|p| - 1] && Last(q).variable == Last(p).variable
    ensures p != [] ==> (Last(q).tombstone <==> Last(p).tombstone || !Passes(ord, Values(p)))
  {
    if Passes(ord, Values(p)) then p else MarkLast(p)
  }

  function PrunePaths(ps: seq<Path>, ord: Ordering): (qs: seq<Path>)
    ensures |qs| == |ps|
  {
    seq(|ps|, j requires 0 <= j < |ps| => PruneOne(ps[j], ord))
  }

  lemma PrunePathsConcat(a: seq<Path>, b: seq<Path>, ord: Ordering)
    ensures PrunePaths(a + b, ord) == PrunePaths(a, ord) + PrunePaths(b, ord)
  {
  }

  /** The paths of a pruned subtree are its old paths, each with its last node
      marked exactly when the checker rejects the path. */
  lemma {:induction false} PruneTreePaths(n: Node, prefix: Path, ord: Ordering)
    ensures Paths(PruneTree(n, prefix, ord), prefix) == PrunePaths(Paths(n, prefix), ord)
    decreases n, 1
  {
    var path := prefix + [StepOf(n)];
    if n.children == [] {
      if !Passes(ord, Values(path)) {
        assert prefix + [StepOf(MarkTombstone(n))] == MarkLast(path);
      }
    } else {
      assert StepOf(PruneTree(n, prefix, ord)) == StepOf(n);
      PruneAllPaths(n.children, path, ord);
    }
  }

  lemma {:induction false} PruneAllPaths(ns: seq<Node>, prefix: Path, ord: Ordering)
    ensures PathsIn(PruneAll(ns, prefix, ord), prefix) == PrunePaths(PathsIn(ns, prefix), ord)
    decreases ns, 0
  {
    if ns != [] {
      var m := PruneAll(ns, prefix, ord);
      assert m[0] == PruneTree(ns[0], prefix, ord);
      assert m[1..] == PruneAll(ns[1..], prefix, ord);
      PruneTreePaths(ns[0], prefix, ord);
      PruneAllPaths(ns[1..], prefix, ord);
      PrunePathsConcat(Paths(ns[0], prefix), PathsIn(ns[1..], prefix), ord);
    }
  }

  /** Pruning changes only tombstones of leaves. */
  lemma {:induction false} PruneTreeShape(n: Node, prefix: Path, ord: Ordering)
    ensures Shape(PruneTree(n, prefix, ord)) == Shape(n)
    decreases n, 1
  {
    if n.children != [] {
      PruneAllShape(n.children, prefix + [StepOf(n)], ord);
    }
  }

  lemma {:induction false} PruneAllShape(ns: seq<Node>, prefix: Path, ord: Ordering)
    ensures ShapeAll(PruneAll(ns, prefix, ord)) == ShapeAll(ns)
    decreases ns, 0
  {
    forall i | 0 <= i < |ns| ensures Shape(PruneAll(ns, prefix, ord)[i]) == Shape(ns[i]) {
      PruneTreeShape(ns[i], prefix, ord);
    }
  }

  /** A second prune of an unchanged tree marks nothing new. */
  lemma {:induction false} PruneTreeIdempotent(n: Node, prefix: Path, ord: Ordering)
    ensures PruneTree(PruneTree(n, prefix, ord), prefix, ord) == PruneTree(n, prefix, ord)
    decreases n, 1
  {
    var path := prefix + [StepOf(n)];
    var m := PruneTree(n, prefix, ord);
    if n.children == [] {
      assert Values(prefix + [StepOf(m)]) == Values(path);
    } else {
      assert StepOf(m) == StepOf(n);
      assert m.children == PruneAll(n.children, path, ord);
      forall i | 0 <= i < |n.children|
        ensures PruneTree(m.children[i], path, ord) == m.children[i]
      {
        assert m.children[i] == PruneTree(n.children[i], path, ord);
        PruneTreeIdempotent(n.children[i], path, ord);
      }
      assert PruneAll(m.children, path, ord) == m.children;
    }
  }

  /** One round of the expansion on a single path: a path that ends in a live
      leaf is replaced by its four one-step extensions. */
  function GrowOne(p: Path, letter: string): seq<Path> {
    if p != [] && !Last(p).tombstone then
      seq(4, i requires 0 <= i < 4 => p + [Step(Variable(letter, i + 1), false)])
    else [p]
  }

  function GrowPaths(ps: seq<Path>, letter: string): seq<Path> {
    if ps == [] then [] else GrowOne(ps[0], letter) + GrowPaths(ps[1..], letter)
  }

  lemma {:induction false} GrowPathsConcat(a: seq<Path>, b: seq<Path>, letter: string)
    ensures GrowPaths(a + b, letter) == GrowPaths(a, letter) + GrowPaths(b, letter)
  {
    if a == [] {
      assert a + b == b;
    } else {
      assert (a + b)[0] == a[0] && (a + b)[1..] == a[1..] + b;
      GrowPathsConcat(a[1..], b, letter);
    }
  }

  /** The paths of a list of leaves are the one-step extensions of the prefix. */
  lemma {:induction false} PathsOfLeaves(ns: seq<Node>, prefix: Path)
    requires forall i | 0 <= i < |ns| :: ns[i].children == []
    ensures PathsIn(ns, prefix) == seq(|ns|, i requires 0 <= i < |ns| => prefix + [StepOf(ns[i])])
  {
    if ns != [] {
      PathsOfLeaves(ns[1..], prefix);
    }
  }

  /** The paths after the recursive expansion: each path to a live leaf becomes
      its four extensions by the new letter with values 1..4; every other path,
      in particular one to a dead leaf, stays as it was. */
  lemma {:induction false} GrowTreePaths(n: Node, prefix: Path, letter: string)
    ensures Paths(Grow(n, letter), prefix) == GrowPaths(Paths(n, prefix), letter)
    decreases n, 1
  {
    var path := prefix + [StepOf(n)];
    if IsFrontier(n) {
      var layer := Layer(letter);
      assert Grow(n, letter).children == layer;
      PathsOfLeaves(layer, path);
      assert GrowPaths([path], letter) == GrowOne(path, letter);
    } else if n.children == [] {
      assert Grow(n, letter) == n;
      assert GrowPaths([path], letter) == GrowOne(path, letter);
    } else {
      GrowAllPaths(n.children, path, letter);
    }
  }

  lemma {:induction false} GrowAllPaths(ns: seq<Node>, prefix: Path, letter: string)
    ensures PathsIn(GrowAll(ns, letter), prefix) == GrowPaths(PathsIn(ns, prefix), letter)
    decreases ns, 0
  {
    if ns != [] {
      var m := GrowAll(ns, letter);
      assert m[0] == Grow(ns[0], letter);
      assert m[1..] == GrowAll(ns[1..], letter);
      GrowTreePaths(ns[0], prefix, letter);
      GrowAllPaths(ns[1..], prefix, letter);
      GrowPathsConcat(Paths(ns[0], prefix), PathsIn(ns[1..], prefix), letter);
    }
  }
}
