# Expression trees of the VRT control protocol

This project models `Expr_t`, the self-describing value of the VITA-49 control
protocol declared in `vrt-ctrl/include/vrtc/expr.h`. An expression is a tagged union. It is
null, a boolean, a `long` integer, a byte string, an IEEE float, a complex
integer, a complex float, or a sequence of expressions. Sequences own their
elements. The header declares a set of constructors that may fail for lack of
memory. It also declares a builder that grows a sequence one element at a time,
inline type predicates, inline accessors that the caller may only apply after
checking the type, a deep free and a deep clone.

The model has three modules:

- `ExprValue` (`value.dfy`) holds the logical value an expression denotes: the
  `Value` datatype, the tag of each variant, the number of constructors in a
  value (`Size`), and the length of a zero-terminated string.
- `ExprNode` (`node.dfy`) holds the heap node, `class Node`. Its fields are
  the tag, the scalar and byte-string parts of the union, and the child list
  of a sequence. Ghost fields give the value the node denotes (`model`) and the
  nodes of the tree it roots (`Repr`). `Valid()` says the node roots a tree of
  exclusively owned, pairwise disjoint children. The module also holds
  lemmas about tree shape.
- `ExprHeap` (`heap.dfy`) holds `class Heap`, the allocator's view. The ghost
  set `live` holds every node allocated and not yet freed. The ghost set
  `owned` holds the handles the caller is responsible for. The module has every
  constructor, `expr_seq_add_element`, `expr_free` and `expr_clone` as methods.
  The eight type predicates and the six accessors are functions of the heap.
  Each requires its node to be in the heap's own `live` set, so an expression
  cannot be read after it has been freed.

Modelling decisions:

- Allocation failure is a nondeterministic choice (`Heap.Allocate`). Every
  constructor is specified for both outcomes. On success it returns a fresh,
  valid, owned tree. On failure it returns 0 (`null`), and the contract states
  exactly which nodes stop being live and owned.
- On an allocation failure with every argument non-0, `expr_make_seq1` …
  `expr_make_seq4` free their arguments, as they do when an argument is 0.
  The header states the freeing only for a 0 argument. The model extends it so
  that a failed call always consumes its arguments, as
  `expr_seq_add_element` does.
- Only the declarations of the constructors, `expr_free` and `expr_clone` are
  available, not their bodies. The model therefore fixes the observable outcome
  the header documents and chooses the simplest implementation that gives it:
  - `expr_make_seq1` … `expr_make_seq4` decide success with one allocation
    and build the sequence in one step (`MakeSeqOf`).
  - Deep free releases children before their parent.
  - Deep clone copies a sequence as a new empty sequence to which copies of
    the elements are appended in order, and stops at the first failure.
- `expr_seq_add_element` with a 0 sequence or a 0 element is a failure: the
  other handle, if not 0, is freed and the result is 0. The header says only
  that on failure both arguments are freed.
- A clone copies only by allocating. The nodes of a copy that fails part-way
  are never recorded in `live`, which stands for their release. `Clone` then
  records the finished copy as live and owned.

## Model

| member | source | states |
|---|---|---|
| ExprHeap.Heap.IsSeq | vrt-ctrl/include/vrtc/expr.h:99 | on a live valid node, true exactly when the node denotes a sequence |
| ExprHeap.Heap.IsNull | vrt-ctrl/include/vrtc/expr.h:100 | on a live valid node, true exactly when the node denotes null |
| ExprHeap.Heap.IsBool | vrt-ctrl/include/vrtc/expr.h:101 | on a live valid node, true exactly when the node denotes a boolean |
| ExprHeap.Heap.IsInt | vrt-ctrl/include/vrtc/expr.h:102 | on a live valid node, true exactly when the node denotes an integer |
| ExprHeap.Heap.IsString | vrt-ctrl/include/vrtc/expr.h:103 | on a live valid node, true exactly when the node denotes a byte string |
| ExprHeap.Heap.IsFloat | vrt-ctrl/include/vrtc/expr.h:104 | on a live valid node, true exactly when the node denotes a float |
| ExprHeap.Heap.IsComplexInt | vrt-ctrl/include/vrtc/expr.h:105 | on a live valid node, true exactly when the node denotes a complex integer |
| ExprHeap.Heap.IsComplexFloat | vrt-ctrl/include/vrtc/expr.h:106 | on a live valid node, true exactly when the node denotes a complex float |
| ExprHeap.Heap.PredicatesExclusive | vrt-ctrl/include/vrtc/expr.h:97-106 | exactly one of the eight predicates holds of a live valid node, and the tag is the variant of its value |
| ExprHeap.Heap.SeqLen | vrt-ctrl/include/vrtc/expr.h:110-116 | needs a live node and the sequence predicate; the count equals the number of elements of the denoted sequence |
| ExprHeap.Heap.SeqRef | vrt-ctrl/include/vrtc/expr.h:118-122 | needs a live node, the sequence predicate and an index below the count; the child is a valid tree inside the parent that denotes the element at that index |
| ExprHeap.Heap.GetBool | vrt-ctrl/include/vrtc/expr.h:124-128 | needs a live node and the boolean predicate; the node denotes `Bool` of the result |
| ExprHeap.Heap.GetInt | vrt-ctrl/include/vrtc/expr.h:130-134 | needs a live node and the integer predicate; the node denotes `Int` of the result |
| ExprHeap.Heap.StringLen | vrt-ctrl/include/vrtc/expr.h:136-140 | needs a live node and the string predicate; the size equals the length of the denoted byte string |
| ExprHeap.Heap.StringPtr | vrt-ctrl/include/vrtc/expr.h:142-146 | needs a live node and the string predicate; the bytes are the denoted string, `StringLen` of them |
| ExprNode.Node.Leaf | vrt-ctrl/include/vrtc/expr.h:35-55 | a new scalar or string node is a valid one-node tree denoting the given value |
| ExprNode.Node.EmptySeq | vrt-ctrl/include/vrtc/expr.h:57-58 | a new empty sequence node is a valid one-node tree denoting the empty sequence |
| ExprNode.Node.SeqOf | vrt-ctrl/include/vrtc/expr.h:60-82 | a new sequence node over pairwise disjoint valid trees is valid, keeps them in order and denotes the sequence of their values |
| ExprNode.Node.Append | vrt-ctrl/include/vrtc/expr.h:90-95 | appending a disjoint valid tree keeps the node valid, adds the element's value at the end and grows the footprint by exactly the element's tree |
| ExprNode.DescendantValid | vrt-ctrl/include/vrtc/expr.h:150-154 | every node contained in a valid tree roots a valid subtree of it |
| ExprHeap.Heap.Readable | vrt-ctrl/include/vrtc/expr.h:118-122 | every node of a valid owned tree is live and valid, so the type predicates and accessors apply to an element `expr_seq_ref` returns, at any depth |
| ExprNode.FootprintSize | vrt-ctrl/include/vrtc/expr.h:150-154 | a valid tree has exactly as many nodes as its value has constructors, so no node is shared |
| ExprValue.CStringLength | vrt-ctrl/include/vrtc/expr.h:51-55 | the length of a zero-terminated string is the index of its first zero byte |
| ExprHeap.Heap.MakeNull | vrt-ctrl/include/vrtc/expr.h:35-36 | on success a fresh owned node that `IsNull`; on failure 0 and nothing changes |
| ExprHeap.Heap.MakeBool | vrt-ctrl/include/vrtc/expr.h:38-39 | on success a fresh owned boolean node from which `GetBool` reads back `v`; on failure 0 and nothing changes |
| ExprHeap.Heap.MakeInt | vrt-ctrl/include/vrtc/expr.h:41-42 | on success a fresh owned integer node from which `GetInt` reads back `v`; on failure 0 and nothing changes |
| ExprHeap.Heap.MakeString | vrt-ctrl/include/vrtc/expr.h:44-49 | on success a fresh owned string node holding a copy of the first `len` bytes at `p`; on failure 0 and nothing changes |
| ExprHeap.Heap.MakeCString | vrt-ctrl/include/vrtc/expr.h:51-55 | on success a fresh owned string node holding the bytes before the first zero, with no zero inside; on failure 0 and nothing changes |
| ExprHeap.Heap.MakeSeq0 | vrt-ctrl/include/vrtc/expr.h:57-58 | on success a fresh owned sequence of length 0; on failure 0 and nothing changes |
| ExprHeap.Heap.MakeSeqOf | vrt-ctrl/include/vrtc/expr.h:60-82 | if any handle is 0 the result is 0; on success a fresh sequence whose children are the handles in order, which move from the caller to it; on failure every non-0 handle and all its nodes are freed |
| ExprHeap.Heap.MakeSeq1 | vrt-ctrl/include/vrtc/expr.h:60-64 | success needs `x0` not 0 and gives a sequence with exactly `x0`; otherwise `x0`, if not 0, is freed and the result is 0 |
| ExprHeap.Heap.MakeSeq2 | vrt-ctrl/include/vrtc/expr.h:66-70 | success needs both handles not 0 and gives a sequence with exactly `x0`, `x1` in order; otherwise every non-0 argument is freed and the result is 0 |
| ExprHeap.Heap.MakeSeq3 | vrt-ctrl/include/vrtc/expr.h:72-76 | success needs all three handles not 0 and gives a sequence with exactly `x0`, `x1`, `x2` in order; otherwise every non-0 argument is freed and the result is 0 |
| ExprHeap.Heap.MakeSeq4 | vrt-ctrl/include/vrtc/expr.h:78-82 | success needs all four handles not 0 and gives a sequence with exactly `x0` … `x3` in order; otherwise every non-0 argument is freed and the result is 0 |
| ExprHeap.Heap.FreeEach | vrt-ctrl/include/vrtc/expr.h:62 | freeing all non-0 arguments releases exactly their trees and gives up exactly those handles |
| ExprHeap.Heap.MakeSeq | vrt-ctrl/include/vrtc/expr.h:84-88 | on success a fresh owned sequence of length 0, ready to be grown; on failure 0 and nothing changes |
| ExprHeap.Heap.SeqAddElement | vrt-ctrl/include/vrtc/expr.h:90-95 | on success returns `seq` itself, with the element appended and its value added at the end, and the element no longer owned by the caller; on failure 0, with both trees freed |
| ExprHeap.Heap.Discard | vrt-ctrl/include/vrtc/expr.h:93 | the failure path frees both non-0 handles and their nodes and nothing else |
| ExprHeap.Heap.Attach | vrt-ctrl/include/vrtc/expr.h:93 | the success path moves the element into the sequence without allocating or freeing any node |
| ExprHeap.Heap.Free | vrt-ctrl/include/vrtc/expr.h:150-154 | 0 changes nothing; otherwise the handle is given up and exactly the nodes of its tree stop being live |
| ExprHeap.Heap.FreeTree | vrt-ctrl/include/vrtc/expr.h:150-154 | releases exactly the nodes of a tree, contained elements included |
| ExprHeap.Heap.FreeTrees | vrt-ctrl/include/vrtc/expr.h:150-154 | releases exactly the nodes of a list of disjoint trees |
| ExprHeap.FreedCount | vrt-ctrl/include/vrtc/expr.h:150-154 | freeing a tree releases exactly as many nodes as its value has constructors |
| ExprHeap.Heap.Clone | vrt-ctrl/include/vrtc/expr.h:157-160 | on success a fresh owned tree, disjoint from `x`, that denotes the same value, and `x` stays as it was; on failure 0 with nothing left allocated |
| ExprHeap.Heap.CloneTree | vrt-ctrl/include/vrtc/expr.h:157-160 | a successful copy is a valid tree made only of new nodes that denotes the value of the original |
| ExprHeap.Heap.CloneSeq | vrt-ctrl/include/vrtc/expr.h:157-160 | a successful copy of a sequence is a valid tree of new nodes denoting the same elements in the same order |
| ExprHeap.Heap.CloneInto | vrt-ctrl/include/vrtc/expr.h:157-160 | copying one element into the growing copy either appends exactly that element's value, using only new nodes, or leaves the copy's value as it was |
| ExprHeap.ClonedCount | vrt-ctrl/include/vrtc/expr.h:157-160 | a clone allocates exactly as many nodes as the value has constructors |

## Left out

- `expr_encode`, `expr_encode_and_free` and `expr_decode` (lines 165-211): the wire format is the ASN.1 encoding generated by asn1c, and that generated code is not part of this model.
- `expr_print` (lines 162-163): output to stdout.
- The asn1c layout of `Expr_t` (`present`, `choice`, `list.array`, `list.count`) is modelled by the fields of `Node`, not byte for byte.
- The header gives the float, complex integer and complex float choices no payload: they appear only as tags (lines 104-106). The payload types are the model's own choice: one `bv64` bit pattern for a float, a pair of `Long` for a complex integer and a pair of `bv64` for a complex float. No floating-point arithmetic happens on them, and no header operation builds them.
- Actual memory allocation and release are left out: `live` is a ghost set, and freeing a node removes it from that set.
- ExprHeap.Heap.SeqLen: returns an unbounded `nat`; the header's `unsigned int` width is not modelled.
- ExprHeap.Heap.StringLen: returns an unbounded `nat`; the header's `unsigned int` width is not modelled.
- ExprHeap.Heap.MakeString: `len` is an unbounded `nat`, not a `size_t`.
- ExprHeap.Heap.MakeInt: `long` is taken to be 64 bits wide (`Long`). A platform with a 32-bit `long` is not modelled.
- ExprHeap.Heap.MakeSeqOf: freeing the arguments when allocation fails with every argument non-0 is the model's own all-or-nothing rule. The header promises the freeing only when an argument is 0 (lines 61-80).
- ExprHeap.Heap.CloneTree: the nodes of a copy that fails part-way are dropped without an explicit free step. The model keeps only the outcome: after a failed `Clone`, `live` is unchanged.
