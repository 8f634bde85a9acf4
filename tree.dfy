/** Search-tree nodes and the expansion step that adds one variable layer.
    Nodes are values: where the engine updates a node in place, the model
    returns the updated node. */
module Tree {

  datatype Variable = Variable(letter: string, value: int)

  /** A node binds one variable, owns its children (none means "not expanded")
      and carries the tombstone that marks a dead end. */
  datatype Node = Node(variable: Variable, children: seq<Node>, tombstone: bool)

  /** A live frontier node: not expanded and not dead. */
  predicate IsFrontier(n: Node) {
    n.children == [] && !n.tombstone
  }

  /** The node constructor: a childless live node whose variable has value 0 until the caller sets it. */
  function NewNode(letter: string): (n: Node)
    ensures IsFrontier(n)
    ensures n.variable.letter == letter && n.variable.value == 0
  {
    Node(Variable(letter, 0), [], false)
  }

  /** Sets the tombstone and nothing else. */
  function MarkTombstone(n: Node): (m: Node)
    ensures m.tombstone
    ensures m.variable == n.variable && m.children == n.children
  {
    n.(tombstone := true)
  }

  lemma MarkTombstoneIdempotent(n: Node)
    ensures MarkTombstone(MarkTombstone(n)) == MarkTombstone(n)
  {
  }

  /** The child that a layer puts at position i: a fresh node with value i + 1. */
  function LayerChild(letter: string, i: int): Node {
    var n := NewNode(letter);
    n.(variable := n.variable.(value := i + 1))
  }

  /** The four children one layer adds, one per domain value. */
  function Layer(letter: string): (ns: seq<Node>)
    ensures |ns| == 4
    ensures forall i | 0 <= i < 4 :: ns[i] == Node(Variable(letter, i + 1), [], false)
  {
    seq(4, i requires 0 <= i < 4 => LayerChild(letter, i))
  }

  /** The node after one layer has been appended to its children. */
  function WithLayer(n: Node, letter: string): (m: Node)
    ensures m.variable == n.variable && m.tombstone == n.tombstone
    ensures |m.children| == |n.children| + 4
    ensures m.children[..|n.children|] == n.children
    ensures forall i | |n.children| <= i < |m.children| ::
      m.children[i] == Node(Variable(letter, i - |n.children| + 1), [], false)
  {
    n.(children := n.children + Layer(letter))
  }

  /** Appends four new children with values 1, 2, 3, 4, one per loop step. */
  method AddVariableLayer(node: Node, letter: string) returns (r: Node)
    ensures r == WithLayer(node, letter)
  {
    r := node;
    for i := 0 to 4
      invariant r == node.(children := node.children + Layer(letter)[..i])
    {
      var newNode := NewNode(letter);
      newNode := newNode.(variable := newNode.variable.(value := i + 1));
      assert Layer(letter)[..i + 1] == Layer(letter)[..i] + [newNode];
      r := r.(children := r.children + [newNode]);
    }
    assert Layer(letter)[..4] == Layer(letter);
  }

  /** The recursive expansion: a live frontier node gains a layer; any other
      node passes the expansion on to each of its children. */
  function Grow(n: Node, letter: string): (m: Node)
    ensures m.variable == n.variable && m.tombstone == n.tombstone
    decreases n, 1
  {
    if IsFrontier(n) then WithLayer(n, letter)
    else n.(children := GrowAll(n.children, letter))
  }

  function GrowAll(ns: seq<Node>, letter: string): (ms: seq<Node>)
    ensures |ms| == |ns|
    decreases ns, 0
  {
    seq(|ns|, i requires 0 <= i < |ns| => Grow(ns[i], letter))
  }

  /** A dead leaf is left exactly as it is. */
  lemma GrowSkipsTombstone(n: Node, letter: string)
    requires n.children == [] && n.tombstone
    ensures Grow(n, letter) == n
  {
  }

  /** Expands the subtree one node at a time, recursing into the children in order. */
  method RecursivelyAddVariableLayer(node: Node, letter: string) returns (r: Node)
    ensures r == Grow(node, letter)
    decreases node
  {
    if node.children == [] && !node.tombstone {
      r := AddVariableLayer(node, letter);
    } else {
      var kids: seq<Node> := [];
      for i := 0 to |node.children|
        invariant |kids| == i
        invariant forall k | 0 <= k < i :: kids[k] == Grow(node.children[k], letter)
      {
        var grown := RecursivelyAddVariableLayer(node.children[i], letter);
        kids := kids + [grown];
      }
      r := node.(children := kids);
    }
  }

  /** Expansion of one top-level node: a childless one gains a layer even when it
      is tombstoned; otherwise the recursive expansion applies. */
  function ExpandTop(n: Node, letter: string): (m: Node)
    ensures m.variable == n.variable && m.tombstone == n.tombstone
    ensures n.children == [] ==> m.children == Layer(letter)
    ensures |m.children| >= |n.children|
  {
    if n.children == [] then WithLayer(n, letter) else Grow(n, letter)
  }

  /** The top-level shortcut differs from the recursive rule only for a tombstoned leaf. */
  lemma ExpandTopAgreesWhenLive(n: Node, letter: string)
    ensures !n.tombstone ==> ExpandTop(n, letter) == Grow(n, letter)
    ensures n.children == [] && n.tombstone ==>
      ExpandTop(n, letter) != Grow(n, letter) && |ExpandTop(n, letter).children| == 4
  {
  }

  /** The tree with the tombstones of its leaves cleared: what pruning must leave unchanged. */
  function Shape(n: Node): (s: Node)
    ensures s.variable == n.variable
    ensures |s.children| == |n.children|
    decreases n, 1
  {
    Node(n.variable, ShapeAll(n.children), n.children != [] && n.tombstone)
  }

  function ShapeAll(ns: seq<Node>): (ss: seq<Node>)
    ensures |ss| == |ns|
    decreases ns, 0
  {
    seq(|ns|, i requires 0 <= i < |ns| => Shape(ns[i]))
  }
}
