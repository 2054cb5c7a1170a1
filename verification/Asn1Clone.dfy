/** The deep copy of an ASN.1 value: heap nodes, some with children, copied node by node. */
module Asn1Clone {

  /** The classes the copy tells apart; `Other` stands for the rest (integers, bit strings, sets,
      context values, times). */
  datatype Kind = Sequence | Variant | ObjectIdentifier | Ia5String | Utf8String | Other

  /** The value below a node, whatever nodes hold it. */
  datatype Tree =
    | Null
    | Branch(children: seq<Tree>)
    | Leaf(kind: Kind, value: string)

  class Node {
    var kind: Kind
    var value: string
    var children: seq<Node?>
    ghost var Repr: set<object>

    /** Nodes reachable from here lie in `Repr`, and none leads back: sharing is allowed, cycles are not. */
    ghost predicate Valid()
      reads this, Repr
      ensures Valid() ==> this in Repr
      decreases Repr, 0
    {
      this in Repr && ChildrenIn(children, Repr - {this})
    }

    ghost function AsTree(): Tree
      requires Valid()
      reads this, Repr
      decreases Repr, 0
    {
      if kind == Sequence then Branch(Trees(children, Repr - {this})) else Leaf(kind, value)
    }

    /** No node is shared: the children keep to nodes of their own. */
    ghost predicate IsTree()
      requires Valid()
      reads this, Repr
      decreases Repr, 0
    {
      && Separate(children, Repr - {this})
      && forall i :: 0 <= i < |children| && children[i] != null ==> children[i].IsTree()
    }

    constructor Bare(kind: Kind, value: string)
      ensures this.kind == kind && this.value == value && children == []
      ensures Repr == {this} && Valid() && IsTree()
    {
      this.kind := kind;
      this.value := value;
      children := [];
      Repr := {this};
    }

    /** Appends a child that shares no node with this one. */
    method PushBack(child: Node?)
      requires Valid() && IsTree()
      requires child != null ==> child.Valid() && child.IsTree() && child.Repr !! Repr
      modifies this
      ensures kind == old(kind) && children == old(children) + [child] && Valid() && IsTree()
      ensures Repr == old(Repr) + if child == null then {} else child.Repr
      ensures Trees(children, Repr - {this})
           == old(Trees(children, Repr - {this})) + [TreeOf(child)]
    {
      hide Trees, TreeOf, Separate;
      ghost var bound := Repr - {this};
      ghost var was := children;
      children := children + [child];
      if child != null {
        Repr := Repr + child.Repr;
      }
      Appended(was, child, bound, Repr - {this});
    }
  }

  /** The nodes of `nodes` are valid and keep to `bound`. */
  ghost predicate ChildrenIn(nodes: seq<Node?>, bound: set<object>)
    reads bound
    decreases bound, 1
  {
    forall i :: 0 <= i < |nodes| && nodes[i] != null ==>
      nodes[i] in bound && nodes[i].Repr <= bound && nodes[i].Valid()
  }

  ghost function Trees(nodes: seq<Node?>, bound: set<object>): (trees: seq<Tree>)
    requires ChildrenIn(nodes, bound)
    reads bound
    ensures |trees| == |nodes|
    decreases bound, 2, |nodes|
  {
    if nodes == [] then []
    else
      var last := nodes[|nodes| - 1];
      Trees(nodes[..|nodes| - 1], bound) + [TreeOf(last)]
  }

  ghost function TreeOf(n: Node?): Tree
    requires n != null ==> n.Valid()
    reads if n == null then {} else {n} + n.Repr
    decreases if n == null then {} else n.Repr, 1
  {
    if n == null then Null else n.AsTree()
  }

  ghost predicate Separate(nodes: seq<Node?>, bound: set<object>)
    requires ChildrenIn(nodes, bound)
    reads bound
  {
    forall i, j :: 0 <= i < j < |nodes| && nodes[i] != null && nodes[j] != null ==> nodes[i].Repr !! nodes[j].Repr
  }

  lemma {:induction false} TreesAnyBound(nodes: seq<Node?>, bound: set<object>, wider: set<object>)
    requires ChildrenIn(nodes, bound) && bound <= wider
    ensures ChildrenIn(nodes, wider) && Trees(nodes, wider) == Trees(nodes, bound)
    decreases |nodes|
  {
    if nodes != [] { TreesAnyBound(nodes[..|nodes| - 1], bound, wider); }
  }

  lemma Appended(nodes: seq<Node?>, child: Node?, bound: set<object>, wider: set<object>)
    requires ChildrenIn(nodes, bound) && Separate(nodes, bound) && bound <= wider
    requires child != null ==> child.Valid() && child.Repr <= wider && child.Repr !! bound
    ensures ChildrenIn(nodes + [child], wider) && Separate(nodes + [child], wider)
    ensures Trees(nodes + [child], wider) == Trees(nodes, bound) + [TreeOf(child)]
  {
    hide Node.Valid, Node.AsTree;
    var all := nodes + [child];
    assert all[..|nodes|] == nodes;
    TreesAnyBound(nodes, bound, wider);
    if child != null { OwnRepr(child); }
  }

  lemma OwnRepr(n: Node)
    requires n.Valid()
    ensures n in n.Repr
  {
  }

  // ---- What the copy is ----

  predicate Supported(kind: Kind) {
    kind != Other
  }

  function Cloned(t: Tree): Tree {
    match t
    case Null => Null
    case Branch(children) => Branch(ClonedAll(children))
    case Leaf(kind, value) => if Supported(kind) then t else Null
  }

  function ClonedAll(trees: seq<Tree>): (copies: seq<Tree>)
    ensures |copies| == |trees|
  {
    if trees == [] then [] else ClonedAll(trees[..|trees| - 1]) + [Cloned(trees[|trees| - 1])]
  }

  lemma TreesNext(nodes: seq<Node?>, k: nat, bound: set<object>)
    requires k < |nodes| && ChildrenIn(nodes, bound)
    ensures ChildrenIn(nodes[..k], bound) && ChildrenIn(nodes[..k + 1], bound)
    ensures nodes[k] != null ==> nodes[k].Valid() && nodes[k].Repr <= bound
    ensures Trees(nodes[..k + 1], bound)
         == Trees(nodes[..k], bound) + [TreeOf(nodes[k])]
  {
    assert nodes[..k + 1][..k] == nodes[..k];
  }

  lemma ClonedNext(trees: seq<Tree>, t: Tree)
    ensures ClonedAll(trees + [t]) == ClonedAll(trees) + [Cloned(t)]
  {
    assert (trees + [t])[..|trees|] == trees;
  }

  lemma ChildrenOf(n: Node)
    requires n.Valid()
    ensures n in n.Repr && ChildrenIn(n.children, n.Repr - {n})
  {
  }

  lemma NothingCloned(nodes: seq<Node?>, bound: set<object>, tmp: Node)
    requires tmp.children == [] && ChildrenIn(nodes, bound) && ChildrenIn(tmp.children, tmp.Repr - {tmp})
    ensures ChildrenIn(nodes[..0], bound)
    ensures Trees(tmp.children, tmp.Repr - {tmp}) == ClonedAll(Trees(nodes[..0], bound))
  {
  }

  /** The loop of the copy: a clone of every child goes behind `tmp`. */
  method CloneChildren(a: Node, tmp: Node)
    requires a.Valid() && tmp.Valid() && tmp.IsTree() && tmp.children == [] && tmp.Repr == {tmp} && tmp !in a.Repr
    modifies tmp
    ensures tmp.kind == old(tmp.kind) && tmp.Valid() && tmp.IsTree() && fresh(tmp.Repr - {tmp})
    ensures a.Valid() && Trees(tmp.children, tmp.Repr - {tmp}) == ClonedAll(Trees(a.children, a.Repr - {a}))
    decreases a.Repr, 0
  {
    hide Trees, TreeOf, ChildrenIn, Separate, ClonedAll, Cloned, Node.Valid, Node.AsTree, Node.IsTree;
    ghost var bound := a.Repr - {a};
    ChildrenOf(a);
    ChildrenOf(tmp);
    NothingCloned(a.children, bound, tmp);
    var it := 0;
    while it < |a.children|
      invariant 0 <= it <= |a.children|
      invariant tmp.kind == old(tmp.kind) && tmp.Valid() && tmp.IsTree() && fresh(tmp.Repr - {tmp})
      invariant ChildrenIn(a.children, bound) && ChildrenIn(a.children[..it], bound)
      invariant ChildrenIn(tmp.children, tmp.Repr - {tmp}) && a.Valid()
      invariant Trees(tmp.children, tmp.Repr - {tmp}) == ClonedAll(Trees(a.children[..it], bound))
    {
      TreesNext(a.children, it, bound);
      ClonedNext(Trees(a.children[..it], bound), TreeOf(a.children[it]));
      var child := Clone(a.children[it]);
      tmp.PushBack(child);
      ChildrenOf(tmp);
      it := it + 1;
    }
    assert a.children[..it] == a.children;
  }

  method Clone(value: Node?) returns (copy: Node?)
    requires value != null ==> value.Valid()
    ensures copy == null <==> value == null || value.kind == Other
    ensures copy != null ==> copy.Valid() && copy.IsTree() && fresh(copy.Repr)
    ensures TreeOf(copy) == Cloned(TreeOf(value))
    decreases if value == null then {} else value.Repr, 1
  {
    if value == null {
      return null;
    }
    if value.kind == Sequence {
      var tmp := new Node.Bare(Sequence, "");
      CloneChildren(value, tmp);
      return tmp;
    }
    if value.kind == Variant {
      var tmp := new Node.Bare(Variant, value.value);
      return tmp;
    }
    if value.kind == ObjectIdentifier {
      copy := new Node.Bare(ObjectIdentifier, value.value);
      return;
    }
    if value.kind == Ia5String {
      copy := new Node.Bare(Ia5String, value.value);
      return;
    }
    if value.kind == Utf8String {
      copy := new Node.Bare(Utf8String, value.value);
      return;
    }
    return null;
  }

  // ---- When the copy is the same value ----

  /** No node below is of a class the copy does not know. */
  predicate AllKnown(t: Tree) {
    match t
    case Null => true
    case Branch(children) => forall i :: 0 <= i < |children| ==> AllKnown(children[i])
    case Leaf(kind, _) => kind in {Sequence, Variant, ObjectIdentifier, Ia5String, Utf8String}
  }

  /** The node at the end of a path of child numbers. */
  function At(t: Tree, path: seq<nat>): (node: Tree)
    decreases path
  {
    if path == [] then t
    else match t
      case Branch(children) => if path[0] < |children| then At(children[path[0]], path[1..]) else Null
      case _ => Null
  }

  /** The copy, node by node: a node with children has as many in the copy, a leaf of the four other known
      classes is there with its value, and in the place of any other there is nothing. */
  lemma {:induction false} ClonedAtPath(t: Tree, path: seq<nat>)
    ensures match At(t, path)
      case Null => At(Cloned(t), path) == Null
      case Branch(children) => At(Cloned(t), path).Branch? && |At(Cloned(t), path).children| == |children|
      case Leaf(kind, value) =>
        At(Cloned(t), path) == if kind == Other then Null else Leaf(kind, value)
    decreases path
  {
    if path != [] && t.Branch? && path[0] < |t.children| {
      ClonedAt(t.children, path[0]);
      ClonedAtPath(t.children[path[0]], path[1..]);
    }
  }

  lemma {:induction false} ClonedAt(trees: seq<Tree>, i: nat)
    requires i < |trees|
    ensures ClonedAll(trees)[i] == Cloned(trees[i])
    decreases |trees|
  {
    if i < |trees| - 1 { ClonedAt(trees[..|trees| - 1], i); }
  }

  /** The copy equals the source exactly when every node below is of a known class; any other node
      is replaced by nothing. */
  lemma {:induction false} CloneIsSameIff(t: Tree)
    ensures Cloned(t) == t <==> AllKnown(t)
    decreases t
  {
    if t.Branch? {
      var children := t.children;
      forall i | 0 <= i < |children| ensures ClonedAll(children)[i] == children[i] <==> AllKnown(children[i]) {
        ClonedAt(children, i);
        CloneIsSameIff(children[i]);
      }
      if AllKnown(t) {
        assert ClonedAll(children) == children;
      }
    }
  }

  /** Whatever the source, the copy has only known classes, so copying again changes nothing. */
  lemma {:induction false} CloneAgainIsSame(t: Tree)
    ensures AllKnown(Cloned(t)) && Cloned(Cloned(t)) == Cloned(t)
    decreases t
  {
    if t.Branch? {
      forall i | 0 <= i < |t.children| ensures AllKnown(ClonedAll(t.children)[i]) {
        ClonedAt(t.children, i);
        CloneAgainIsSame(t.children[i]);
      }
    }
    CloneIsSameIff(Cloned(t));
  }
}
