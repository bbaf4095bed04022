/** The logical value an expression node denotes, independent of any heap layout.
    A value is a closed tagged union; sequences nest values recursively. */
module ExprValue {

  /** An unsigned char of a string payload. */
  type Byte = b: int | 0 <= b < 0x100

  const LongMin: int := -0x8000_0000_0000_0000
  const LongMax: int := 0x7FFF_FFFF_FFFF_FFFF

  /** The C `long` of the integer variant, taken as 64 bits wide. */
  type Long = i: int | LongMin <= i <= LongMax

  /** The discriminant of the union: which choice is present. */
  datatype Tag =
    | NullTag
    | BoolTag
    | IntTag
    | StringTag
    | FloatTag
    | ComplexIntTag
    | ComplexFloatTag
    | SeqTag

  /** The scalar part of the union. The header names the float, complex
      integer and complex float choices only by their tags, so the payload
      types given to them here are this model's own: 64-bit patterns for
      floats and a pair of `Long` for a complex integer. They are copied,
      never interpreted. */
  datatype Scalar =
    | NoScalar
    | BoolScalar(b: bool)
    | IntScalar(i: Long)
    | FloatBits(bits: bv64)
    | ComplexIntPair(re: Long, im: Long)
    | ComplexFloatBits(reBits: bv64, imBits: bv64)

  datatype Value =
    | Null
    | Bool(b: bool)
    | Int(i: Long)
    | Float(bits: bv64)
    | ComplexInt(re: Long, im: Long)
    | ComplexFloat(reBits: bv64, imBits: bv64)
    | String(bytes: seq<Byte>)
    | Seq(elems: seq<Value>)

  /** The tag a node denoting `v` carries. */
  function KindOf(v: Value): Tag
  {
    match v
    case Null => NullTag
    case Bool(_) => BoolTag
    case Int(_) => IntTag
    case Float(_) => FloatTag
    case ComplexInt(_, _) => ComplexIntTag
    case ComplexFloat(_, _) => ComplexFloatTag
    case String(_) => StringTag
    case Seq(_) => SeqTag
  }

  function Sum(s: seq<nat>): nat
  {
    if |s| == 0 then 0 else Sum(s[..|s| - 1]) + s[|s| - 1]
  }

  /** The number of nodes a tree denoting `v` is made of: one per constructor. */
  function Size(v: Value): (n: nat)
    ensures n >= 1
  {
    match v
    case Seq(elems) => 1 + Sum(seq(|elems|, i requires 0 <= i < |elems| => Size(elems[i])))
    case _ => 1
  }

  /** The sizes of a list of values, one per element. */
  function Sizes(vs: seq<Value>): (s: seq<nat>)
  {
    seq(|vs|, i requires 0 <= i < |vs| => Size(vs[i]))
  }

  /** The length of the zero-terminated string at the start of `p`: the index
      of the first zero byte. */
  function CStringLength(p: seq<Byte>): (n: nat)
    requires 0 in p
    ensures n < |p| && p[n] == 0
    ensures forall i :: 0 <= i < n ==> p[i] != 0
  {
    if p[0] == 0 then 0 else 1 + CStringLength(p[1..])
  }
}
