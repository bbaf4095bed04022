/** The builder and ownership layer: constructors, the sequence builder, deep
    free and deep clone, over an allocator whose failures are arbitrary. */
module ExprHeap {
  import opened ExprValue
  import opened ExprNode

  /** The handle `x` as a set: empty when `x` is 0. */
  function HandleOf(x: Node?): set<Node>
  {
    if x == null then {} else {x}
  }

  /** The handles of `xs` that are not 0. */
  ghost function Handles(xs: seq<Node?>): set<Node>
  {
    if |xs| == 0 then {} else Handles(xs[..|xs| - 1]) + HandleOf(xs[|xs| - 1])
  }

  /** No handle other than 0 occurs twice in `xs`. */
  ghost predicate DistinctHandles(xs: seq<Node?>)
  {
    forall i, j :: 0 <= i < j < |xs| && xs[i] != null ==> xs[i] != xs[j]
  }

  lemma HandlesSnoc(xs: seq<Node?>, x: Node?)
    ensures Handles(xs + [x]) == Handles(xs) + HandleOf(x)
  {
    assert (xs + [x])[..|xs|] == xs;
  }

  /** The handles are exactly the non-0 entries. */
  lemma {:induction false} HandlesMembers(xs: seq<Node?>)
    ensures forall x :: x in Handles(xs) <==> x in xs
  {
    if |xs| > 0 {
      var k := |xs| - 1;
      HandlesMembers(xs[..k]);
      assert xs == xs[..k] + [xs[k]];
    }
  }

  /** One step along a list of handles: the prefix of length `i + 1` adds the
      `i`-th handle and its footprint. */
  lemma PrefixStep(xs: seq<Node?>, i: nat)
    requires i < |xs|
    ensures xs[..i + 1] == xs[..i] + [xs[i]]
    ensures Handles(xs[..i + 1]) == Handles(xs[..i]) + HandleOf(xs[i])
    ensures ReprAll(xs[..i + 1]) == ReprAll(xs[..i]) + ReprOf(xs[i])
  {
    assert xs[..i + 1] == xs[..i] + [xs[i]];
    HandlesSnoc(xs[..i], xs[i]);
    ReprAllSnoc(xs[..i], xs[i]);
  }

  /** The prefix of length `i + 1` is the prefix of length `i` and one more element. */
  lemma TakeOneMore(s: seq<Value>, i: nat)
    requires i < |s|
    ensures s[..i + 1] == s[..i] + [s[i]]
  {
    assert s[..i + 1] == s[..i] + [s[i]];
  }

  /** A tree none of whose nodes changed is still valid and denotes the same value. */
  twostate lemma Unchanged(n: Node)
    requires old(n.Valid()) && unchanged(old(n.Repr))
    ensures n.Valid() && n.Repr == old(n.Repr) && n.model == old(n.model) && n.tag == old(n.tag)
  {
  }

  /** `n` roots a valid tree: `n.Valid()` and nothing more. It exists only so
      that the clone contracts below can state validity without the verifier
      unfolding `Valid()` and splitting it into one obligation per conjunct,
      which makes the copy loop far more expensive to prove. */
  ghost predicate Tree(n: Node)
    reads n, n.Repr
  {
    n.Valid()
  }

  /** Freeing a live tree releases exactly as many nodes as its value has
      constructors. */
  lemma FreedCount(live: set<Node>, p: Node)
    requires p.Valid() && p.Repr <= live
    ensures |live - p.Repr| == |live| - Size(p.model)
  {
    FootprintSize(p);
    assert live == (live - p.Repr) + p.Repr;
  }

  /** Cloning a tree allocates exactly as many new nodes as its value has
      constructors. */
  lemma ClonedCount(live: set<Node>, r: Node, x: Node)
    requires r.Valid() && x.Valid() && r.model == x.model && r.Repr !! live
    ensures |live + r.Repr| == |live| + Size(x.model)
  {
    FootprintSize(r);
  }

  /** The allocator's view of the expression heap. `live` holds every node
      allocated and not yet freed; `owned` holds the handles the caller is
      responsible for, each the root of a tree. Tree validity is carried by
      each handle's own `Valid()`, which the heap's operations leave alone
      outside the trees they are given. */
  class Heap {
    ghost var live: set<Node>
    ghost var owned: set<Node>

    /** Owned trees are made of live nodes and no two of them share a node. */
    ghost predicate Valid()
      reads this, owned
    {
      && (forall r :: r in owned ==> r in r.Repr && r.Repr <= live)
      && (forall a, b :: a in owned && b in owned && a != b ==> a.Repr !! b.Repr)
    }

    /** Two different owned trees share no node. */
    lemma OwnedDisjoint(a: Node, b: Node)
      requires Valid() && a in owned && b in owned && a != b
      ensures a.Repr !! b.Repr && a !in b.Repr && b !in a.Repr
    {
    }

    constructor ()
      ensures Valid() && live == {} && owned == {}
    {
      live := {};
      owned := {};
    }

    /** Whether the next allocation succeeds: the allocator may refuse at any time. */
    method Allocate() returns (ok: bool)
    {
      ok :| true;
    }

    /** Records the new tree `n` as live and hands it to the caller. */
    ghost method Adopt(n: Node)
      requires Valid() && n in n.Repr && n.Repr !! live
      modifies this
      ensures Valid()
      ensures owned == old(owned) + {n} && live == old(live) + n.Repr
    {
      owned := owned + {n};
      live := live + n.Repr;
    }

    /** A new leaf denoting `v`, or 0 when allocation fails. */
    method MakeLeaf(tag: Tag, scalar: Scalar, bytes: seq<Byte>, ghost v: Value) returns (r: Node?)
      requires Valid() && LeafAgrees(tag, scalar, bytes, v)
      modifies this
      ensures Valid()
      ensures r == null ==> owned == old(owned) && live == old(live)
      ensures r != null ==>
        && fresh(r) && r.Valid() && r.model == v && r.Repr == {r}
        && owned == old(owned) + {r} && live == old(live) + {r}
    {
      var ok := Allocate();
      if !ok {
        return null;
      }
      r := new Node.Leaf(tag, scalar, bytes, v);
      Adopt(r);
    }

    // ----- Predicates: each compares the tag with one choice -----
    // Every read below requires its node to be live in this heap: reading an
    // expression after it has been freed is not allowed.

    function IsSeq(x: Node): (b: bool)
      reads this, x, x.Repr
      requires x in live
      ensures x.Valid() ==> (b <==> x.model.Seq?)
    {
      x.tag == SeqTag
    }

    function IsNull(x: Node): (b: bool)
      reads this, x, x.Repr
      requires x in live
      ensures x.Valid() ==> (b <==> x.model.Null?)
    {
      x.tag == NullTag
    }

    function IsBool(x: Node): (b: bool)
      reads this, x, x.Repr
      requires x in live
      ensures x.Valid() ==> (b <==> x.model.Bool?)
    {
      x.tag == BoolTag
    }

    function IsInt(x: Node): (b: bool)
      reads this, x, x.Repr
      requires x in live
      ensures x.Valid() ==> (b <==> x.model.Int?)
    {
      x.tag == IntTag
    }

    function IsString(x: Node): (b: bool)
      reads this, x, x.Repr
      requires x in live
      ensures x.Valid() ==> (b <==> x.model.String?)
    {
      x.tag == StringTag
    }

    function IsFloat(x: Node): (b: bool)
      reads this, x, x.Repr
      requires x in live
      ensures x.Valid() ==> (b <==> x.model.Float?)
    {
      x.tag == FloatTag
    }

    function IsComplexInt(x: Node): (b: bool)
      reads this, x, x.Repr
      requires x in live
      ensures x.Valid() ==> (b <==> x.model.ComplexInt?)
    {
      x.tag == ComplexIntTag
    }

    function IsComplexFloat(x: Node): (b: bool)
      reads this, x, x.Repr
      requires x in live
      ensures x.Valid() ==> (b <==> x.model.ComplexFloat?)
    {
      x.tag == ComplexFloatTag
    }

    /** Exactly one of the eight predicates holds of any node, and the one that
        holds names the variant of the value the node denotes. */
    lemma PredicatesExclusive(x: Node)
      requires x in live && x.Valid()
      ensures x.tag == KindOf(x.model)
      ensures
        (if IsNull(x) then 1 else 0) + (if IsBool(x) then 1 else 0)
        + (if IsInt(x) then 1 else 0) + (if IsString(x) then 1 else 0)
        + (if IsFloat(x) then 1 else 0) + (if IsComplexInt(x) then 1 else 0)
        + (if IsComplexFloat(x) then 1 else 0) + (if IsSeq(x) then 1 else 0) == 1
    {
    }

    // ----- Accessors: the caller must first confirm the variant -----

    /** The number of children of a sequence. */
    function SeqLen(x: Node): (n: nat)
      reads this, x, x.Repr
      requires x in live
      requires x.Valid() && IsSeq(x)
      ensures x.model.Seq? && n == |x.model.elems|
    {
      |x.children|
    }

    /** The child at `index`, which remains owned by `x`. */
    function SeqRef(x: Node, index: nat): (c: Node)
      reads this, x, x.Repr
      requires x in live
      requires x.Valid() && IsSeq(x) && index < SeqLen(x)
      ensures c in x.Repr && c.Repr < x.Repr
      ensures c.Valid() && c.model == x.model.elems[index]
    {
      x.children[index]
    }

    function GetBool(x: Node): (v: bool)
      reads this, x, x.Repr
      requires x in live
      requires x.Valid() && IsBool(x)
      ensures x.model == Bool(v)
    {
      x.scalar.b
    }

    function GetInt(x: Node): (v: Long)
      reads this, x, x.Repr
      requires x in live
      requires x.Valid() && IsInt(x)
      ensures x.model == Int(v)
    {
      x.scalar.i
    }

    function StringLen(x: Node): (n: nat)
      reads this, x, x.Repr
      requires x in live
      requires x.Valid() && IsString(x)
      ensures x.model.String? && n == |x.model.bytes|
    {
      |x.bytes|
    }

    /** The bytes the string pointer designates: `StringLen(x)` of them. */
    function StringPtr(x: Node): (s: seq<Byte>)
      reads this, x, x.Repr
      requires x in live
      requires x.Valid() && IsString(x)
      ensures x.model == String(s) && |s| == StringLen(x)
    {
      x.bytes
    }

    /** Every node of a valid owned tree is live and roots a valid tree, so the
        reads above apply to an element that `SeqRef` returns, at any depth. */
    lemma Readable(r: Node, n: Node)
      requires Valid() && r in owned && r.Valid() && n in r.Repr
      ensures n in live && n.Valid() && n.Repr <= live
    {
      DescendantValid(r, n);
    }

    // ----- Constructors -----

    method MakeNull() returns (r: Node?)
      requires Valid()
      modifies this
      ensures Valid()
      ensures r == null ==> owned == old(owned) && live == old(live)
      ensures r != null ==>
        && owned == old(owned) + {r} && live == old(live) + {r}
        && fresh(r) && r.Valid() && IsNull(r) && r.model == Null
    {
      r := MakeLeaf(NullTag, NoScalar, [], Null);
    }

    method MakeBool(v: bool) returns (r: Node?)
      requires Valid()
      modifies this
      ensures Valid()
      ensures r == null ==> owned == old(owned) && live == old(live)
      ensures r != null ==>
        && owned == old(owned) + {r} && live == old(live) + {r}
        && fresh(r) && r.Valid() && IsBool(r) && GetBool(r) == v
    {
      r := MakeLeaf(BoolTag, BoolScalar(v), [], Bool(v));
    }

    method MakeInt(v: Long) returns (r: Node?)
      requires Valid()
      modifies this
      ensures Valid()
      ensures r == null ==> owned == old(owned) && live == old(live)
      ensures r != null ==>
        && owned == old(owned) + {r} && live == old(live) + {r}
        && fresh(r) && r.Valid() && IsInt(r) && GetInt(r) == v
    {
      r := MakeLeaf(IntTag, IntScalar(v), [], Int(v));
    }

    /** A string holding a copy of the `len` bytes at `p`. */
    method MakeString(p: seq<Byte>, len: nat) returns (r: Node?)
      requires Valid() && len <= |p|
      modifies this
      ensures Valid()
      ensures r == null ==> owned == old(owned) && live == old(live)
      ensures r != null ==>
        && owned == old(owned) + {r} && live == old(live) + {r}
        && fresh(r) && r.Valid() && IsString(r)
        && StringLen(r) == len && StringPtr(r) == p[..len]
    {
      r := MakeLeaf(StringTag, NoScalar, p[..len], String(p[..len]));
    }

    /** A string holding a copy of the zero-terminated string at `p`, without
        its terminator. */
    method MakeCString(p: seq<Byte>) returns (r: Node?)
      requires Valid() && 0 in p
      modifies this
      ensures Valid()
      ensures r == null ==> owned == old(owned) && live == old(live)
      ensures r != null ==>
        && owned == old(owned) + {r} && live == old(live) + {r}
        && fresh(r) && r.Valid() && IsString(r)
        && StringPtr(r) == p[..CStringLength(p)] && 0 !in StringPtr(r)
    {
      r := MakeString(p, CStringLength(p));
    }

    /** A sequence with no elements. */
    method MakeSeq0() returns (r: Node?)
      requires Valid()
      modifies this
      ensures Valid()
      ensures r == null ==> owned == old(owned) && live == old(live)
      ensures r != null ==>
        && owned == old(owned) + {r} && live == old(live) + {r}
        && fresh(r) && r.Valid() && IsSeq(r) && SeqLen(r) == 0 && r.Repr == {r}
    {
      var ok := Allocate();
      if !ok {
        return null;
      }
      r := new Node.EmptySeq();
      Adopt(r);
    }

    /** A zero-length sequence to be grown with `SeqAddElement`. */
    method MakeSeq() returns (r: Node?)
      requires Valid()
      modifies this
      ensures Valid()
      ensures r == null ==> owned == old(owned) && live == old(live)
      ensures r != null ==>
        && owned == old(owned) + {r} && live == old(live) + {r}
        && fresh(r) && r.Valid() && IsSeq(r) && SeqLen(r) == 0 && r.Repr == {r}
    {
      r := MakeSeq0();
    }

    /** Appends `element` to the sequence `sq`, which takes it over. On success
        the result is `sq` itself; otherwise both `sq` and `element` are freed
        and the result is 0. A 0 handle for either makes the call fail. */
    method SeqAddElement(sq: Node?, element: Node?) returns (r: Node?)
      requires Valid()
      requires sq != null ==> sq in owned && sq.Valid() && IsSeq(sq)
      requires element != null ==> element in owned && element.Valid() && element != sq
      modifies this, sq
      ensures Valid()
      ensures r == null ==>
        && owned == old(owned) - HandleOf(sq) - HandleOf(element)
        && live == old(live) - old(ReprOf(sq)) - ReprOf(element)
      ensures r != null ==>
        && r == sq && element != null && r.Valid() && r.tag == SeqTag
        && r.children == old(sq.children) + [element]
        && r.model == Seq(old(sq.model.elems) + [element.model])
        && r.Repr == old(sq.Repr) + element.Repr
        && owned == old(owned) - {element} && live == old(live)
    {
      var ok := Allocate();
      if sq == null || element == null || !ok {
        Discard(sq, element);
        return null;
      }
      Attach(sq, element);
      r := sq;
    }

    /** The failure path of `SeqAddElement`: both handles are freed. */
    method Discard(sq: Node?, element: Node?)
      requires Valid()
      requires sq != null ==> sq in owned && sq.Valid()
      requires element != null ==> element in owned && element.Valid() && element != sq
      modifies this
      ensures Valid()
      ensures owned == old(owned) - HandleOf(sq) - HandleOf(element)
      ensures live == old(live) - ReprOf(sq) - ReprOf(element)
    {
      Free(sq);
      Free(element);
    }

    /** The success path of `SeqAddElement`: `sq` takes `element` over. */
    method Attach(sq: Node, element: Node)
      requires Valid()
      requires sq in owned && sq.Valid() && sq.tag == SeqTag
      requires element in owned && element.Valid() && element != sq
      modifies this, sq
      ensures Valid() && sq.Valid() && sq.tag == SeqTag
      ensures sq.children == old(sq.children) + [element]
      ensures sq.model == Seq(old(sq.model.elems) + [element.model])
      ensures sq.Repr == old(sq.Repr) + element.Repr
      ensures owned == old(owned) - {element} && live == old(live)
    {
      sq.Append(element);
      owned := owned - {element};
    }

    /** Frees every non-0 handle of `xs`. */
    method FreeEach(xs: seq<Node?>)
      requires Valid() && DistinctHandles(xs)
      requires forall i :: 0 <= i < |xs| && xs[i] != null ==> xs[i] in owned && xs[i].Valid()
      modifies this
      ensures Valid()
      ensures owned == old(owned) - Handles(xs)
      ensures live == old(live) - ReprAll(xs)
    {
      var i := 0;
      while i < |xs|
        invariant 0 <= i <= |xs|
        invariant Valid()
        invariant owned == old(owned) - Handles(xs[..i])
        invariant live == old(live) - ReprAll(xs[..i])
        invariant forall j :: i <= j < |xs| && xs[j] != null ==> xs[j] in owned
      {
        ghost var done := ReprAll(xs[..i]);
        Free(xs[i]);
        PrefixStep(xs, i);
        assert live == old(live) - (done + ReprOf(xs[i]));
        i := i + 1;
      }
      assert xs[..|xs|] == xs;
    }

    /** A sequence whose elements are `xs`, in order. If any handle is 0, or
        allocation fails, every non-0 handle is freed and the result is 0. */
    method MakeSeqOf(xs: seq<Node?>) returns (r: Node?)
      requires Valid() && DistinctHandles(xs)
      requires forall i :: 0 <= i < |xs| && xs[i] != null ==> xs[i] in owned && xs[i].Valid()
      modifies this
      ensures Valid()
      ensures null in xs ==> r == null
      ensures r == null ==> owned == old(owned) - Handles(xs) && live == old(live) - ReprAll(xs)
      ensures r != null ==>
        && fresh(r) && r.Valid() && r.tag == SeqTag && r.children == xs
        && r.model == Seq(Models(r.children)) && r.Repr == {r} + ReprAll(xs)
        && owned == old(owned) - Handles(xs) + {r} && live == old(live) + {r}
    {
      if null in xs {
        FreeEach(xs);
        return null;
      }
      var ok := Allocate();
      if !ok {
        FreeEach(xs);
        return null;
      }
      var cs: seq<Node> := xs;
      forall i, j | 0 <= i < j < |cs| ensures cs[i].Repr !! cs[j].Repr {
        OwnedDisjoint(cs[i], cs[j]);
      }
      r := new Node.SeqOf(cs);
      TakeOver(r, cs);
    }

    /** Records the new sequence `r` as live and owned in place of the trees
        `cs` it has taken over. */
    ghost method TakeOver(r: Node, cs: seq<Node>)
      requires Valid() && DistinctHandles(cs)
      requires forall i :: 0 <= i < |cs| ==> cs[i] in owned
      requires r.Repr == {r} + ReprAll(cs) && r !in live
      modifies this
      ensures Valid()
      ensures owned == old(owned) - Handles(cs) + {r} && live == old(live) + {r}
    {
      HandlesMembers(cs);
      forall n | n in ReprAll(cs) ensures n in live {
        var k := ReprAllWitness(cs, n);
      }
      forall b, n | b in owned && b !in cs && n in ReprAll(cs) ensures n !in b.Repr {
        var k := ReprAllWitness(cs, n);
        OwnedDisjoint(cs[k], b);
      }
      owned := owned - Handles(cs) + {r};
      live := live + {r};
    }

    /** A sequence with the single element `x0`, which it takes over. */
    method MakeSeq1(x0: Node?) returns (r: Node?)
      requires Valid()
      requires x0 != null ==> x0 in owned && x0.Valid()
      modifies this
      ensures Valid()
      ensures x0 == null ==> r == null
      ensures r == null ==>
        && owned == old(owned) - Handles([x0]) && live == old(live) - ReprAll([x0])
      ensures r != null ==>
        && x0 != null
        && owned == old(owned) - Handles([x0]) + {r} && live == old(live) + {r}
        && fresh(r) && r.Valid() && IsSeq(r) && r.children == [x0]
        && r.model == Seq(Models([x0]))
    {
      r := MakeSeqOf([x0]);
    }

    /** A sequence with the 2 elements `x0`, `x1`, which it takes over. */
    method MakeSeq2(x0: Node?, x1: Node?) returns (r: Node?)
      requires Valid()
      requires x0 != null ==> x0 in owned && x0.Valid()
      requires x1 != null ==> x1 in owned && x1.Valid() && x1 != x0
      modifies this
      ensures Valid()
      ensures x0 == null || x1 == null ==> r == null
      ensures r == null ==>
        && owned == old(owned) - Handles([x0, x1]) && live == old(live) - ReprAll([x0, x1])
      ensures r != null ==>
        && x0 != null && x1 != null
        && owned == old(owned) - Handles([x0, x1]) + {r} && live == old(live) + {r}
        && fresh(r) && r.Valid() && IsSeq(r) && r.children == [x0, x1]
        && r.model == Seq(Models([x0, x1]))
    {
      r := MakeSeqOf([x0, x1]);
    }

    /** A sequence with the 3 elements `x0`, `x1`, `x2`, which it takes over. */
    method MakeSeq3(x0: Node?, x1: Node?, x2: Node?) returns (r: Node?)
      requires Valid()
      requires x0 != null ==> x0 in owned && x0.Valid()
      requires x1 != null ==> x1 in owned && x1.Valid() && x1 != x0
      requires x2 != null ==> x2 in owned && x2.Valid() && x2 != x0 && x2 != x1
      modifies this
      ensures Valid()
      ensures x0 == null || x1 == null || x2 == null ==> r == null
      ensures r == null ==>
        && owned == old(owned) - Handles([x0, x1, x2]) && live == old(live) - ReprAll([x0, x1, x2])
      ensures r != null ==>
        && x0 != null && x1 != null && x2 != null
        && owned == old(owned) - Handles([x0, x1, x2]) + {r} && live == old(live) + {r}
        && fresh(r) && r.Valid() && IsSeq(r) && r.children == [x0, x1, x2]
        && r.model == Seq(Models([x0, x1, x2]))
    {
      r := MakeSeqOf([x0, x1, x2]);
    }

    /** A sequence with the 4 elements `x0`, `x1`, `x2`, `x3`, which it takes over. */
    method MakeSeq4(x0: Node?, x1: Node?, x2: Node?, x3: Node?) returns (r: Node?)
      requires Valid()
      requires x0 != null ==> x0 in owned && x0.Valid()
      requires x1 != null ==> x1 in owned && x1.Valid() && x1 != x0
      requires x2 != null ==> x2 in owned && x2.Valid() && x2 != x0 && x2 != x1
      requires x3 != null ==> x3 in owned && x3.Valid() && x3 != x0 && x3 != x1 && x3 != x2
      modifies this
      ensures Valid()
      ensures x0 == null || x1 == null || x2 == null || x3 == null ==> r == null
      ensures r == null ==>
        && owned == old(owned) - Handles([x0, x1, x2, x3]) && live == old(live) - ReprAll([x0, x1, x2, x3])
      ensures r != null ==>
        && x0 != null && x1 != null && x2 != null && x3 != null
        && owned == old(owned) - Handles([x0, x1, x2, x3]) + {r} && live == old(live) + {r}
        && fresh(r) && r.Valid() && IsSeq(r) && r.children == [x0, x1, x2, x3]
        && r.model == Seq(Models([x0, x1, x2, x3]))
    {
      r := MakeSeqOf([x0, x1, x2, x3]);
    }

    // ----- Free and clone -----

    /** Releases `n` and every node it contains, children first. */
    method FreeTree(n: Node)
      requires n.Valid() && n.Repr <= live
      modifies this
      ensures owned == old(owned) && live == old(live) - n.Repr
      decreases n.Repr, 1
    {
      ChildrenInside(n);
      ReprAllCovers(n.children);
      FreeTrees(n.children);
      live := live - {n};
    }

    /** Releases the pairwise disjoint trees `cs`, in order. */
    method FreeTrees(cs: seq<Node>)
      requires forall i :: 0 <= i < |cs| ==> cs[i].Valid() && cs[i].Repr <= live
      requires forall i, j :: 0 <= i < j < |cs| ==> cs[i].Repr !! cs[j].Repr
      modifies this
      ensures owned == old(owned) && live == old(live) - ReprAll(cs)
      decreases ReprAll(cs), 2
    {
      ReprAllCovers(cs);
      var i := 0;
      while i < |cs|
        invariant 0 <= i <= |cs|
        invariant owned == old(owned) && live == old(live) - ReprAll(cs[..i])
      {
        DisjointFromPrefix(cs, i);
        FreeTree(cs[i]);
        PrefixStep(cs, i);
        i := i + 1;
      }
      assert cs[..|cs|] == cs;
    }

    /** Frees `p` and every node it contains; 0 is ignored. */
    method Free(p: Node?)
      requires Valid()
      requires p != null ==> p in owned && p.Valid()
      modifies this
      ensures Valid()
      ensures p == null ==> owned == old(owned) && live == old(live)
      ensures p != null ==>
        && owned == old(owned) - {p} && live == old(live) - p.Repr
    {
      if p != null {
        FreeTree(p);
        owned := owned - {p};
      }
    }

    /** A fresh copy of the tree `x`, or 0. Copying only allocates: the nodes
        of a copy that fails part-way are never recorded as live, which stands
        for their release. */
    method CloneTree(x: Node) returns (r: Node?)
      requires x.Valid()
      ensures r != null ==> fresh(r.Repr) && r.Valid() && r.model == x.model
      decreases x.Repr, 2
    {
      var ok := Allocate();
      if !ok {
        return null;
      }
      if x.tag != SeqTag {
        r := new Node.Leaf(x.tag, x.scalar, x.bytes, x.model);
      } else {
        r := CloneSeq(x);
        assert r != null ==> Tree(r);
      }
    }

    /** A fresh copy of the sequence `x`, or 0: a new empty sequence to which
        copies of the elements are appended in order. */
    method CloneSeq(x: Node) returns (r: Node?)
      requires x.Valid() && x.tag == SeqTag
      ensures r != null ==> fresh(r.Repr) && Tree(r) && r.model == x.model
      decreases x.Repr, 1
    {
      label Start:
      var s := new Node.EmptySeq();
      var i := 0;
      while i < |x.children|
        invariant 0 <= i <= |x.children|
        invariant fresh(s.Repr) && Tree(s) && s.tag == SeqTag
        invariant s.model.elems == x.model.elems[..i]
      {
        Unchanged@Start(x);
        var ok := CloneInto(s, x, i);
        if !ok {
          return null;
        }
        TakeOneMore(x.model.elems, i);
        i := i + 1;
      }
      assert x.model.elems[..i] == x.model.elems;
      r := s;
    }

    /** Appends to the sequence `s` a fresh copy of the `i`-th element of `x`,
        or fails and leaves `s` as it was. */
    method CloneInto(s: Node, x: Node, i: nat) returns (ok: bool)
      requires x.Valid() && x.tag == SeqTag && i < |x.children|
      requires Tree(s) && s.tag == SeqTag && s.Repr !! x.Repr
      modifies s
      ensures Tree(s) && s.tag == SeqTag && fresh(s.Repr - old(s.Repr))
      ensures !ok ==> s.model == old(s.model)
      ensures ok ==> s.model.elems == old(s.model.elems) + [x.model.elems[i]]
      decreases x.Repr, 0
    {
      ReprAllHas(x.children, i);
      var c := CloneTree(x.children[i]);
      if c == null {
        return false;
      }
      s.Append(c);
      ok := true;
    }

    /** A copy of the live tree `x` that shares no node with it, or 0; either
        way `x` is left as it was and stays with its owner. */
    method Clone(x: Node) returns (r: Node?)
      requires Valid() && x.Valid() && x.Repr <= live
      modifies this
      ensures Valid()
      ensures r == null ==> owned == old(owned) && live == old(live)
      ensures r != null ==>
        && fresh(r.Repr) && r.Valid() && r.model == x.model && r.Repr !! x.Repr
        && owned == old(owned) + {r} && live == old(live) + r.Repr
    {
      r := CloneTree(x);
      if r != null {
        live := live + r.Repr;
        owned := owned + {r};
      }
    }
  }
}
