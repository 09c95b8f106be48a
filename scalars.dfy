/** The scalar types the portable archive carries, their widths, and the
    bytes each value occupies in memory. Every value is held as the unsigned
    bit pattern of its storage: two's complement for the signed integers,
    the IEEE-754 encoding for `float` and `double`. A `bool` holds whatever
    byte its storage holds: `BoolValue` stores 0 or 1, and any nonzero byte
    reads as `true`. */
module Scalars {
  import opened Bytes

  datatype Kind = Bool | UInt8 | Int8 | UInt16 | Int16 | UInt32 | Int32 | UInt64 | Int64 | Float | Double

  /** `sizeof(T)`: one byte for `bool`, IEEE-754 single and double for `float` and `double`. */
  function Width(k: Kind): (w: nat)
    ensures 1 <= w <= 8
  {
    match k
    case Bool | UInt8 | Int8 => 1
    case UInt16 | Int16 => 2
    case UInt32 | Int32 | Float => 4
    case UInt64 | Int64 | Double => 8
  }

  /** A scalar of type `kind` whose storage holds the bit pattern `bits`. */
  datatype Value = Value(kind: Kind, bits: nat)

  /** The pattern fits in `sizeof(T)` bytes, as every object of type `T` does. */
  predicate Fits(v: Value) {
    v.bits < Pow256(Width(v.kind))
  }

  /** The total number of bytes taken by values of the kinds `ks`, one after the other. */
  function Footprint(ks: seq<Kind>): nat {
    if ks == [] then 0 else Width(ks[0]) + Footprint(ks[1..])
  }

  /** The types of the values `vs`, in order. */
  function KindsOf(vs: seq<Value>): (ks: seq<Kind>)
    ensures |ks| == |vs|
    ensures forall i :: 0 <= i < |vs| ==> ks[i] == vs[i].kind
  {
    if vs == [] then [] else [vs[0].kind] + KindsOf(vs[1..])
  }

  lemma {:induction false} FootprintAppend(a: seq<Kind>, b: seq<Kind>)
    ensures Footprint(a + b) == Footprint(a) + Footprint(b)
  {
    if a == [] {
      assert a + b == b;
    } else {
      assert (a + b)[0] == a[0] && (a + b)[1..] == a[1..] + b;
      FootprintAppend(a[1..], b);
    }
  }

  /** One more value of kind `ks[i]` takes exactly `sizeof` of that kind more. */
  lemma FootprintStep(ks: seq<Kind>, i: nat)
    requires i < |ks|
    ensures Footprint(ks[..i + 1]) == Footprint(ks[..i]) + Width(ks[i])
  {
    assert ks[..i + 1] == ks[..i] + [ks[i]];
    FootprintAppend(ks[..i], [ks[i]]);
    assert Footprint([ks[i]]) == Width(ks[i]) + Footprint([ks[i]][1..]);
  }

  /** A C++ `bool` as stored: the byte 1 for `true`, 0 for `false`. */
  function BoolValue(b: bool): (v: Value)
    ensures Fits(v) && v.kind == Bool && AsBool(v) == b
  {
    Value(Bool, if b then 1 else 0)
  }

  /** A stored byte read as a `bool`: any nonzero byte is `true`. */
  function AsBool(v: Value): bool {
    v.bits != 0
  }

  predicate IsSigned(k: Kind) {
    k == Int8 || k == Int16 || k == Int32 || k == Int64
  }

  /** Half the range of a width: signed values of kind `k` lie in `[-Half(k), Half(k))`. */
  function Half(k: Kind): (h: int)
    ensures h > 0 && 2 * h == Pow256(Width(k))
  {
    Pow256(Width(k) - 1) * 128
  }

  /** The signed integer `i` of kind `k`, stored in two's complement. */
  function SignedValue(k: Kind, i: int): (v: Value)
    requires IsSigned(k) && -Half(k) <= i < Half(k)
    ensures Fits(v) && v.kind == k
    ensures (i >= 0 ==> v.bits < Half(k)) && (i < 0 ==> v.bits >= Half(k))
  {
    Value(k, if i < 0 then i + Pow256(Width(k)) else i)
  }

  /** The signed integer a two's complement pattern stands for. */
  function AsSigned(v: Value): (i: int)
    requires IsSigned(v.kind) && Fits(v)
    ensures -Half(v.kind) <= i < Half(v.kind)
  {
    if v.bits < Half(v.kind) then v.bits else v.bits - Pow256(Width(v.kind))
  }

  /** Two's complement loses nothing: signed values survive as bit patterns, both ways. */
  lemma SignedRoundTrip(k: Kind, i: int)
    requires IsSigned(k) && -Half(k) <= i < Half(k)
    ensures AsSigned(SignedValue(k, i)) == i
  {
  }

  lemma PatternRoundTrip(v: Value)
    requires IsSigned(v.kind) && Fits(v)
    ensures SignedValue(v.kind, AsSigned(v)) == v
  {
  }

  /** The bytes of `v` in memory on a platform of order `little`. */
  function Image(little: bool, v: Value): (s: seq<uint8>)
    ensures |s| == Width(v.kind)
  {
    NativeBytes(little, Width(v.kind), v.bits)
  }

  /** The value of type `k` whose storage holds the bytes `s`
      (a `reinterpret_cast` of the block, no arithmetic conversion). */
  function FromImage(little: bool, k: Kind, s: seq<uint8>): (v: Value)
    requires |s| == Width(k)
    ensures Fits(v) && v.kind == k
  {
    Value(k, NativeValue(little, s))
  }

  /** The value reinterpreted from a block is stored as exactly that block. */
  lemma FromImageBytes(little: bool, k: Kind, s: seq<uint8>)
    requires |s| == Width(k)
    ensures Image(little, FromImage(little, k, s)) == s
  {
    NativeBytesOfValue(little, s);
  }

  /** Storing a value and reinterpreting the bytes as the same type gives the value back. */
  lemma ImageRoundTrip(little: bool, v: Value)
    requires Fits(v)
    ensures FromImage(little, v.kind, Image(little, v)) == v
  {
    NativeValueOfBytes(little, Width(v.kind), v.bits);
  }

  /** A `bool` is stored as the single byte 1 or 0 on either byte order. */
  lemma BoolImage(little: bool, b: bool)
    ensures Image(little, BoolValue(b)) == [if b then 1 else 0]
  {
    ReverseShort(LittleBytes(1, if b then 1 else 0));
  }

  /** The value a variable holds after `swapBytes`: its bytes reversed in place,
      then read back as the same type. */
  function Swapped(little: bool, v: Value): (r: Value)
    requires Fits(v)
    ensures Fits(r) && r.kind == v.kind
    ensures Image(little, r) == Reverse(Image(little, v))
  {
    FromImageBytes(little, v.kind, Reverse(Image(little, v)));
    FromImage(little, v.kind, Reverse(Image(little, v)))
  }

  /** Swapping twice restores the value, for every type and bit pattern (NaN included). */
  lemma SwappedTwice(little: bool, v: Value)
    requires Fits(v)
    ensures Swapped(little, Swapped(little, v)) == v
  {
    var once := Swapped(little, v);
    ReverseInvolution(Image(little, v));
    assert Image(little, Swapped(little, once)) == Image(little, v);
    ImageRoundTrip(little, v);
    ImageRoundTrip(little, Swapped(little, once));
  }

  /** Swapping a one-byte value (`bool`, `uint8_t`, `int8_t`) changes nothing. */
  lemma SwappedSingleByte(little: bool, v: Value)
    requires Fits(v) && Width(v.kind) == 1
    ensures Swapped(little, v) == v
  {
    ReverseShort(Image(little, v));
    ImageRoundTrip(little, v);
  }

  /** A swapped value is stored as the original would be on the other byte order,
      and it holds the pattern the other byte order reads from the original's bytes. */
  lemma SwappedIsForeign(little: bool, v: Value)
    requires Fits(v)
    ensures Image(little, Swapped(little, v)) == Image(!little, v)
    ensures Swapped(little, v).bits == NativeValue(!little, Image(little, v))
  {
    ForeignOrderIsReversed(little, Width(v.kind), v.bits);
    ForeignOrderIsReversed(!little, Width(v.kind), v.bits);
    ReverseInvolution(NativeBytes(!little, Width(v.kind), v.bits));
    var s := Image(little, v);
    if little {
      assert Reverse(s) == NativeBytes(false, Width(v.kind), v.bits);
    } else {
      ReverseInvolution(s);
    }
  }

  /** Swapping looks only at the bytes: types of equal width holding the same
      pattern (signed, unsigned or floating) are swapped identically. */
  lemma SwappedIgnoresKind(little: bool, v: Value, k: Kind)
    requires Fits(v) && Width(k) == Width(v.kind)
    ensures Swapped(little, Value(k, v.bits)).bits == Swapped(little, v).bits
  {
  }
}
