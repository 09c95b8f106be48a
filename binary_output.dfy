/** `BinaryOutputArchive`: appends each value's bytes, in the writer's native
    byte order, to its stream, with no type tags, no length prefixes and no padding. */
module BinaryOutput {
  import opened Bytes
  import opened Scalars

  /** The bytes an output archive on a platform of order `little` appends
      for the values `vs`, written in that order. */
  function Serialize(little: bool, vs: seq<Value>): seq<uint8> {
    if vs == [] then [] else Image(little, vs[0]) + Serialize(little, vs[1..])
  }

  /** The payload has exactly the bytes of its values' types: no tags, no padding. */
  lemma {:induction false} SerializeLength(little: bool, vs: seq<Value>)
    ensures |Serialize(little, vs)| == Footprint(KindsOf(vs))
  {
    if vs != [] {
      SerializeLength(little, vs[1..]);
      assert KindsOf(vs)[1..] == KindsOf(vs[1..]);
    }
  }

  /** Writing `a` and then `b` appends exactly the bytes of `a` followed by those of `b`. */
  lemma {:induction false} SerializeAppend(little: bool, a: seq<Value>, b: seq<Value>)
    ensures Serialize(little, a + b) == Serialize(little, a) + Serialize(little, b)
  {
    if a == [] {
      assert a + b == b;
    } else {
      assert (a + b)[0] == a[0] && (a + b)[1..] == a[1..] + b;
      SerializeAppend(little, a[1..], b);
    }
  }

  /** Value `i` occupies the bytes just after those of the values before it. */
  lemma SerializeAt(little: bool, vs: seq<Value>, i: nat)
    requires i < |vs|
    ensures Serialize(little, vs) == Serialize(little, vs[..i]) + Image(little, vs[i]) + Serialize(little, vs[i + 1..])
  {
    assert vs == vs[..i] + [vs[i]] + vs[i + 1..];
    SerializeAppend(little, vs[..i] + [vs[i]], vs[i + 1..]);
    SerializeAppend(little, vs[..i], [vs[i]]);
    assert Serialize(little, [vs[i]]) == Image(little, vs[i]) + Serialize(little, []);
  }

  class BinaryOutputArchive {
    /** The byte order of the writing platform (`is_little_endian()`). */
    const nativeLittle: bool
    /** Everything written so far. */
    var stream: seq<uint8>

    constructor (nativeLittle: bool)
      ensures this.nativeLittle == nativeLittle && stream == []
    {
      this.nativeLittle := nativeLittle;
      stream := [];
    }

    /** `oar(v)`: appends the `sizeof(T)` bytes of `v` as they lie in memory. */
    method Write(v: Value)
      modifies this
      ensures stream == old(stream) + Image(nativeLittle, v)
    {
      stream := stream + Image(nativeLittle, v);
    }
  }
}
