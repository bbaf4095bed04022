/** Expression nodes on the heap: the tagged union of the header, its inline
    type predicates and its inline accessors. */
module ExprNode {
  import opened ExprValue

  /** Whether the leaf fields `tag`, `scalar` and `bytes` of a node spell out `v`. */
  predicate LeafAgrees(tag: Tag, scalar: Scalar, bytes: seq<Byte>, v: Value)
  {
    match v
    case Null => tag == NullTag
    case Bool(b) => tag == BoolTag && scalar == BoolScalar(b)
    case Int(i) => tag == IntTag && scalar == IntScalar(i)
    case Float(bits) => tag == FloatTag && scalar == FloatBits(bits)
    case ComplexInt(re, im) => tag == ComplexIntTag && scalar == ComplexIntPair(re, im)
    case ComplexFloat(re, im) => tag == ComplexFloatTag && scalar == ComplexFloatBits(re, im)
    case String(s) => tag == StringTag && bytes == s
    case Seq(_) => false
  }

  /** One heap-allocated expression: a tag, the scalar and byte-string parts of
      the union, and the list of owned children of a sequence. `model` is the
      value the node denotes and `Repr` the nodes of the tree it roots. */
  class Node {
    var tag: Tag
    var scalar: Scalar
    var bytes: seq<Byte>
    var children: seq<Node>
    ghost var model: Value
    ghost var Repr: set<Node>

    /** The node roots a tree: every child is exclusively owned, no two
        children share a node, and the footprint is exactly this node plus the
        children's footprints. */
    ghost predicate Valid()
      reads this, Repr
      decreases Repr
    {
      && this in Repr
      && if tag == SeqTag then
        && model.Seq?
        && |model.elems| == |children|
        && (forall i :: 0 <= i < |children| ==>
              children[i] in Repr && children[i].Repr <= Repr && this !in children[i].Repr)
        && (forall i, j :: 0 <= i < j < |children| ==> children[i].Repr !! children[j].Repr)
        && Repr == {this} + ReprAll(children)
        && (forall i :: 0 <= i < |children| ==> children[i].Valid() && children[i].model == model.elems[i])
      else
        && children == []
        && Repr == {this}
        && LeafAgrees(tag, scalar, bytes, model)
    }

    /** A fresh leaf node. */
    constructor Leaf(tag: Tag, scalar: Scalar, bytes: seq<Byte>, ghost model: Value)
      requires LeafAgrees(tag, scalar, bytes, model)
      ensures Valid() && Repr == {this}
      ensures this.tag == tag && this.scalar == scalar && this.bytes == bytes
      ensures this.model == model && children == []
    {
      this.tag := tag;
      this.scalar := scalar;
      this.bytes := bytes;
      this.children := [];
      this.model := model;
      this.Repr := {this};
    }

    /** A fresh sequence node with no children. */
    constructor EmptySeq()
      ensures Valid() && Repr == {this}
      ensures tag == SeqTag && children == [] && model == Seq([])
    {
      tag := SeqTag;
      scalar := NoScalar;
      bytes := [];
      children := [];
      model := Seq([]);
      Repr := {this};
    }

    /** A fresh sequence node that takes over the trees `cs` as its children,
        in order. */
    constructor SeqOf(cs: seq<Node>)
      requires forall i :: 0 <= i < |cs| ==> cs[i].Valid()
      requires forall i, j :: 0 <= i < j < |cs| ==> cs[i].Repr !! cs[j].Repr
      ensures Valid() && tag == SeqTag && children == cs
      ensures model == Seq(Models(cs)) && Repr == {this} + ReprAll(cs)
    {
      tag := SeqTag;
      scalar := NoScalar;
      bytes := [];
      children := cs;
      model := Seq(Models(cs));
      Repr := {this} + ReprAll(cs);
      new;
      forall i | 0 <= i < |cs| ensures cs[i] in Repr && cs[i].Repr <= Repr {
        ReprAllHas(cs, i);
      }
    }

    /** Grows the child list by one: `c` becomes the last child and the tree
        it roots becomes part of this one. */
    method Append(c: Node)
      requires Valid() && tag == SeqTag
      requires c.Valid() && Repr !! c.Repr
      modifies this
      ensures Valid() && tag == SeqTag
      ensures children == old(children) + [c]
      ensures model == Seq(old(model.elems) + [c.model])
      ensures Repr == old(Repr) + c.Repr
    {
      ReprAllSnoc(children, c);
      children := children + [c];
      model := Seq(model.elems + [c.model]);
      Repr := Repr + c.Repr;
    }
  }

  /** The union of the footprints of the non-null handles in `xs`. */
  ghost function ReprAll(xs: seq<Node?>): set<Node>
    reads xs
  {
    if |xs| == 0 then {} else ReprAll(xs[..|xs| - 1]) + ReprOf(xs[|xs| - 1])
  }

  /** The values the trees `cs` denote, in order. */
  ghost function Models(cs: seq<Node>): (vs: seq<Value>)
    reads cs
  {
    seq(|cs|, i reads cs requires 0 <= i < |cs| => cs[i].model)
  }

  /** The footprint of a possibly null handle. */
  ghost function ReprOf(x: Node?): set<Node>
    reads x
  {
    if x == null then {} else x.Repr
  }

  lemma ReprAllSnoc(xs: seq<Node?>, x: Node?)
    ensures ReprAll(xs + [x]) == ReprAll(xs) + ReprOf(x)
  {
    assert (xs + [x])[..|xs|] == xs;
  }

  /** Every handle's footprint is part of the union. */
  lemma {:induction false} ReprAllHas(xs: seq<Node?>, i: nat)
    requires i < |xs|
    ensures ReprOf(xs[i]) <= ReprAll(xs)
  {
    if i < |xs| - 1 {
      ReprAllHas(xs[..|xs| - 1], i);
    }
  }

  /** Every node of the union comes from the footprint of some handle. */
  lemma {:induction false} ReprAllWitness(xs: seq<Node?>, n: Node) returns (i: nat)
    requires n in ReprAll(xs)
    ensures i < |xs| && xs[i] != null && n in xs[i].Repr
  {
    var k := |xs| - 1;
    if n in ReprOf(xs[k]) {
      i := k;
    } else {
      i := ReprAllWitness(xs[..k], n);
    }
  }

  /** Every handle's footprint is part of the union, all at once. */
  lemma ReprAllCovers(cs: seq<Node>)
    ensures forall i :: 0 <= i < |cs| ==> cs[i].Repr <= ReprAll(cs)
  {
    forall i | 0 <= i < |cs| ensures cs[i].Repr <= ReprAll(cs) {
      ReprAllHas(cs, i);
    }
  }

  /** In a list of pairwise disjoint trees, each tree is disjoint from the
      ones before it. */
  lemma DisjointFromPrefix(cs: seq<Node>, i: nat)
    requires i < |cs|
    requires forall j, k :: 0 <= j < k < |cs| ==> cs[j].Repr !! cs[k].Repr
    ensures cs[i].Repr !! ReprAll(cs[..i])
  {
    forall m | m in ReprAll(cs[..i]) ensures m !in cs[i].Repr {
      var j := ReprAllWitness(cs[..i], m);
      assert cs[j].Repr !! cs[i].Repr;
    }
  }

  /** The children's footprints lie strictly inside their parent's. */
  lemma ChildrenInside(n: Node)
    requires n.Valid()
    ensures n !in ReprAll(n.children) && ReprAll(n.children) < n.Repr
  {
    if n in ReprAll(n.children) {
      var i := ReprAllWitness(n.children, n);
      assert false;
    }
  }

  // ----- Tree shape -----

  /** Every node inside a tree roots a valid subtree of it. */
  lemma {:induction false} DescendantValid(r: Node, n: Node)
    requires r.Valid() && n in r.Repr
    ensures n.Valid() && n.Repr <= r.Repr
    decreases r.Repr
  {
    if n != r {
      var i := ReprAllWitness(r.children, n);
      DescendantValid(r.children[i], n);
    }
  }

  /** The footprints of pairwise disjoint trees add up. */
  lemma {:induction false} DisjointReprAllSize(cs: seq<Node>, sizes: seq<nat>)
    requires |sizes| == |cs|
    requires forall i :: 0 <= i < |cs| ==> |cs[i].Repr| == sizes[i]
    requires forall i, j :: 0 <= i < j < |cs| ==> cs[i].Repr !! cs[j].Repr
    ensures |ReprAll(cs)| == Sum(sizes)
  {
    if |cs| > 0 {
      var k := |cs| - 1;
      var front := cs[..k];
      DisjointReprAllSize(front, sizes[..k]);
      assert cs == front + [cs[k]];
      ReprAllSnoc(front, cs[k]);
      forall n | n in ReprAll(front) ensures n !in cs[k].Repr {
        var j := ReprAllWitness(front, n);
        assert cs[j].Repr !! cs[k].Repr;
      }
    }
  }

  /** A tree has exactly as many nodes as its value has constructors: no node
      is shared between two places of the value. */
  lemma {:induction false} FootprintSize(x: Node)
    requires x.Valid()
    ensures |x.Repr| == Size(x.model)
    decreases x.Repr
  {
    if x.tag == SeqTag {
      var cs, elems := x.children, x.model.elems;
      forall i | 0 <= i < |cs| ensures |cs[i].Repr| == Sizes(elems)[i] {
        FootprintSize(cs[i]);
      }
      DisjointReprAllSize(cs, Sizes(elems));
      assert Sizes(elems) == seq(|elems|, i requires 0 <= i < |elems| => Size(elems[i]));
      if x in ReprAll(cs) {
        var j := ReprAllWitness(cs, x);
        assert false;
      }
    }
  }
}
