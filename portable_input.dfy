/** `PortableBinaryInputArchive`: reads the writer's byte-order flag once, when
    it is opened, and from then on reverses every value it reads, at that
    value's own width, exactly when the flag disagrees with the reader's order. */
module PortableInput {
  import opened Bytes
  import opened Scalars
  import opened BinaryOutput

  datatype Error =
    | MissingFlag      // the stream ended before the flag byte
    | StreamExhausted  // fewer bytes remained than the value's width

  datatype Result<T> = Success(value: T) | Failure(error: Error)

  /** The flag byte a writer of order `little` puts first: the `bool`
      `is_little_endian()`, so 1 means little-endian. */
  function Flag(little: bool): (f: uint8)
    ensures (f != 0) == little
  {
    if little then 1 else 0
  }

  /** The flag byte is how a platform of either order stores the `bool` flag. */
  lemma FlagIsStoredBool(order: bool, little: bool)
    ensures Image(order, BoolValue(little)) == [Flag(little)]
  {
    BoolImage(order, little);
  }

  /** Whether a reader of order `little` must reverse the values of a stream
      whose flag byte is `flag`: the flag, read as a `bool`, says whether the
      writer was little-endian, and the reader swaps when the two differ. */
  function MustSwap(little: bool, flag: uint8): (swap: bool)
    ensures swap <==> (flag != 0) != little
  {
    little != AsBool(Value(Bool, flag as nat))
  }

  /** One read of a value of type `k` at position `pos` of `s`: the next
      `sizeof(T)` bytes, reversed when `convert`, reinterpreted as the type. */
  function Load(little: bool, convert: bool, s: seq<uint8>, pos: nat, k: Kind): (r: Result<Value>)
    ensures r.Success? <==> pos + Width(k) <= |s|
    ensures r.Failure? ==> r.error == StreamExhausted
    ensures r.Success? ==> Fits(r.value) && r.value.kind == k
  {
    if pos + Width(k) > |s| then Failure(StreamExhausted)
    else
      var block := s[pos..pos + Width(k)];
      Success(FromImage(little, k, if convert then Reverse(block) else block))
  }

  /** A successful read holds exactly the stream's next `sizeof(T)` bytes,
      reversed when converting: no byte is altered, dropped or added. */
  lemma LoadBytes(little: bool, convert: bool, s: seq<uint8>, pos: nat, k: Kind)
    requires pos + Width(k) <= |s|
    ensures Image(little, Load(little, convert, s, pos, k).value)
         == (if convert then Reverse(s[pos..pos + Width(k)]) else s[pos..pos + Width(k)])
  {
    var block := s[pos..pos + Width(k)];
    FromImageBytes(little, k, if convert then Reverse(block) else block);
  }

  /** `acc` in front of the values of `r`, or the failure of `r`. */
  function Prepend(acc: seq<Value>, r: Result<seq<Value>>): Result<seq<Value>> {
    if r.Success? then Success(acc + r.value) else r
  }

  /** Successive reads of values of the types `ks`, starting at `pos`,
      stopping at the first read that fails. */
  function LoadAll(little: bool, convert: bool, s: seq<uint8>, pos: nat, ks: seq<Kind>): (r: Result<seq<Value>>)
    requires pos <= |s|
    ensures r.Failure? ==> r.error == StreamExhausted
    decreases ks
  {
    if ks == [] then Success([])
    else
      var first := Load(little, convert, s, pos, ks[0]);
      if first.Failure? then Failure(first.error)
      else
        Prepend([first.value], LoadAll(little, convert, s, pos + Width(ks[0]), ks[1..]))
  }

  /** Successive reads succeed exactly when the stream holds all their bytes,
      and then return values of the requested types in the requested order. */
  lemma {:induction false} LoadAllSucceeds(little: bool, convert: bool, s: seq<uint8>, pos: nat, ks: seq<Kind>)
    requires pos <= |s|
    ensures LoadAll(little, convert, s, pos, ks).Success? <==> pos + Footprint(ks) <= |s|
    ensures LoadAll(little, convert, s, pos, ks).Success? ==> KindsOf(LoadAll(little, convert, s, pos, ks).value) == ks
    decreases ks
  {
    if ks != [] && pos + Width(ks[0]) <= |s| {
      LoadAllSucceeds(little, convert, s, pos + Width(ks[0]), ks[1..]);
      var r := LoadAll(little, convert, s, pos, ks);
      if r.Success? {
        assert r.value[1..] == LoadAll(little, convert, s, pos + Width(ks[0]), ks[1..]).value;
        assert KindsOf(r.value) == [r.value[0].kind] + KindsOf(r.value[1..]);
      }
    }
  }

  /** What a reader of order `little` obtains from the stream `s` by opening a
      portable input archive on it and reading values of the types `ks`:
      the flag byte is consumed first, then the values follow it. */
  function Parse(little: bool, s: seq<uint8>, ks: seq<Kind>): (r: Result<seq<Value>>)
    ensures |s| == 0 ==> r == Failure(MissingFlag)
    ensures r.Success? <==> 1 + Footprint(ks) <= |s|
    ensures r.Success? ==> KindsOf(r.value) == ks
  {
    if |s| == 0 then Failure(MissingFlag)
    else
      LoadAllSucceeds(little, MustSwap(little, s[0]), s, 1, ks);
      LoadAll(little, MustSwap(little, s[0]), s, 1, ks)
  }

  /** A value that a writer of order `writer` laid down at `pos` is read back
      exactly by a reader of order `little` that converts precisely when the
      orders differ. */
  lemma LoadWritten(little: bool, writer: bool, s: seq<uint8>, pos: nat, v: Value)
    requires Fits(v) && pos + Width(v.kind) <= |s|
    requires s[pos..pos + Width(v.kind)] == Image(writer, v)
    ensures Load(little, little != writer, s, pos, v.kind) == Success(v)
  {
    if little != writer {
      ForeignOrderIsReversed(little, Width(v.kind), v.bits);
      ReverseInvolution(Image(little, v));
    }
    ImageRoundTrip(little, v);
  }

  /** The payload of a writer of order `writer`, laid down at `pos`, read from
      there by a reader converting precisely when the orders differ, gives back
      every value, in order and with its type. */
  lemma {:induction false} LoadAllWritten(little: bool, writer: bool, s: seq<uint8>, pos: nat, vs: seq<Value>)
    requires forall i :: 0 <= i < |vs| ==> Fits(vs[i])
    requires pos + |Serialize(writer, vs)| <= |s|
    requires s[pos..pos + |Serialize(writer, vs)|] == Serialize(writer, vs)
    ensures LoadAll(little, little != writer, s, pos, KindsOf(vs)) == Success(vs)
    decreases vs
  {
    if vs != [] {
      var w := Width(vs[0].kind);
      var whole := Serialize(writer, vs);
      assert whole == Image(writer, vs[0]) + Serialize(writer, vs[1..]);
      SliceSplit(s, pos, whole, w);
      LoadAllWritten(little, writer, s, pos + w, vs[1..]);
      LoadAllWrittenStep(little, writer, s, pos, vs);
    }
  }

  /** The inductive step of `LoadAllWritten`: the first value is read back,
      then the rest are, from just past its bytes. */
  lemma LoadAllWrittenStep(little: bool, writer: bool, s: seq<uint8>, pos: nat, vs: seq<Value>)
    requires vs != [] && Fits(vs[0]) && pos + Width(vs[0].kind) <= |s|
    requires s[pos..pos + Width(vs[0].kind)] == Image(writer, vs[0])
    requires LoadAll(little, little != writer, s, pos + Width(vs[0].kind), KindsOf(vs[1..])) == Success(vs[1..])
    ensures LoadAll(little, little != writer, s, pos, KindsOf(vs)) == Success(vs)
  {
    assert KindsOf(vs) == [vs[0].kind] + KindsOf(vs[1..]);
    assert [vs[0]] + vs[1..] == vs;
    LoadWritten(little, writer, s, pos, vs[0]);
    LoadAllCons(little, little != writer, s, pos, vs[0].kind, KindsOf(vs[1..]), vs[0], vs[1..]);
  }

  /** The bytes of a slice, cut in two. */
  lemma SliceSplit(s: seq<uint8>, pos: nat, whole: seq<uint8>, w: nat)
    requires pos + |whole| <= |s| && s[pos..pos + |whole|] == whole && w <= |whole|
    ensures s[pos..pos + w] == whole[..w] && s[pos + w..pos + |whole|] == whole[w..]
  {
  }

  /** A read that succeeds, followed by reads that succeed, is a run of reads
      that succeeds with the first value in front. */
  lemma LoadAllCons(little: bool, convert: bool, s: seq<uint8>, pos: nat, k: Kind, ks: seq<Kind>, v: Value, vs: seq<Value>)
    requires pos <= |s|
    requires Load(little, convert, s, pos, k) == Success(v)
    requires LoadAll(little, convert, s, pos + Width(k), ks) == Success(vs)
    ensures LoadAll(little, convert, s, pos, [k] + ks) == Success([v] + vs)
  {
    assert ([k] + ks)[0] == k && ([k] + ks)[1..] == ks;
  }

  /** Round trip across platforms: a stream that a writer of order `writer`
      starts with its own flag byte decodes to the written values on a reader
      of either order. */
  lemma PortableRoundTrip(writer: bool, reader: bool, vs: seq<Value>)
    requires forall i :: 0 <= i < |vs| ==> Fits(vs[i])
    ensures Parse(reader, [Flag(writer)] + Serialize(writer, vs), KindsOf(vs)) == Success(vs)
  {
    var s := [Flag(writer)] + Serialize(writer, vs);
    assert s[1..1 + |Serialize(writer, vs)|] == Serialize(writer, vs);
    LoadAllWritten(reader, writer, s, 1, vs);
  }

  /** Sign bits survive the trip: a signed integer written on either byte order
      is read back on either byte order as the same signed integer. */
  lemma SignedRoundTripAcrossPlatforms(writer: bool, reader: bool, k: Kind, i: int)
    requires IsSigned(k) && -Half(k) <= i < Half(k)
    ensures var r := Parse(reader, [Flag(writer)] + Serialize(writer, [SignedValue(k, i)]), [k]);
            r.Success? && |r.value| == 1 && r.value[0].kind == k && Fits(r.value[0]) && AsSigned(r.value[0]) == i
  {
    var v := SignedValue(k, i);
    assert KindsOf([v]) == [k];
    PortableRoundTrip(writer, reader, [v]);
    SignedRoundTrip(k, i);
  }

  class PortableBinaryInputArchive {
    /** The byte order of the reading platform (`is_little_endian()`). */
    const nativeLittle: bool
    /** The bytes of the input stream. */
    const stream: seq<uint8>
    /** Whether every value read is reversed; fixed when the archive is opened. */
    const convertEndianness: bool
    /** The read cursor: bytes before it have been consumed. */
    var pos: nat

    ghost predicate Valid()
      reads this
    {
      1 <= pos <= |stream|
    }

    /** Consumes the flag byte and records whether values must be reversed. */
    constructor (nativeLittle: bool, stream: seq<uint8>)
      requires |stream| > 0
      ensures Valid() && pos == 1
      ensures this.nativeLittle == nativeLittle && this.stream == stream
      ensures convertEndianness == MustSwap(nativeLittle, stream[0])
    {
      this.nativeLittle := nativeLittle;
      this.stream := stream;
      convertEndianness := MustSwap(nativeLittle, stream[0]);
      pos := 1;
    }

    /** Opening an archive on a stream that has no flag byte fails. */
    static method Open(nativeLittle: bool, stream: seq<uint8>) returns (r: Result<PortableBinaryInputArchive>)
      ensures r.Failure? <==> |stream| == 0
      ensures r.Failure? ==> r.error == MissingFlag
      ensures r.Success? ==> fresh(r.value) && r.value.Valid() && r.value.pos == 1
      ensures r.Success? ==> r.value.nativeLittle == nativeLittle && r.value.stream == stream
      ensures r.Success? ==> r.value.convertEndianness == MustSwap(nativeLittle, stream[0])
    {
      if |stream| == 0 {
        r := Failure(MissingFlag);
      } else {
        var archive := new PortableBinaryInputArchive(nativeLittle, stream);
        r := Success(archive);
      }
    }

    /** `iar(v)` for a `v` of type `k`: copies the next `sizeof(T)` bytes into
        the value's storage, then reverses them in place when converting.
        A short read fails and leaves the cursor at the end of the stream. */
    method Read(k: Kind) returns (r: Result<Value>)
      requires Valid()
      modifies this
      ensures Valid()
      ensures r == Load(nativeLittle, convertEndianness, stream, old(pos), k)
      ensures pos == if r.Success? then old(pos) + Width(k) else |stream|
    {
      var size := Width(k);
      if pos + size > |stream| {
        pos := |stream|;
        return Failure(StreamExhausted);
      }
      var start := pos;
      var data := new uint8[size];
      var i := 0;
      while i < size
        modifies data
        invariant 0 <= i <= size
        invariant forall j :: 0 <= j < i ==> data[j] == stream[start + j]
      {
        data[i] := stream[start + i];
        i := i + 1;
      }
      assert data[..] == stream[start..start + size];
      if convertEndianness {
        SwapBytes(data);
      }
      r := Success(FromImage(nativeLittle, k, data[..]));
      pos := start + size;
    }
  }
}
