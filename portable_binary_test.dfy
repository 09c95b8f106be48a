/** The `portable_binary_archive` test case: values are byte-swapped, written
    through a plain binary output archive behind a flag byte that names the
    wrong byte order, swapped back, and read through a portable input archive,
    which must undo the swap and return the original values bit for bit. */
module PortableBinaryTest {
  import opened Bytes
  import opened Scalars
  import opened BinaryOutput
  import opened PortableInput

  /** The types the test writes, in the order it writes them. */
  const TestKinds: seq<Kind> := [Bool, UInt8, Int8, UInt16, Int16, UInt32, Int32, UInt64, Int64, Float, Double]

  /** The test's `swapBytes(t)`: views the storage of `t` as `sizeof(T)` bytes
      and reverses them in place. */
  method SwapValueBytes(little: bool, v: Value) returns (r: Value)
    requires Fits(v)
    ensures r == Swapped(little, v)
  {
    var image := Image(little, v);
    var data := new uint8[|image|](i requires 0 <= i < |image| => image[i]);
    assert data[..] == image;
    SwapBytes(data);
    r := FromImage(little, v.kind, data[..]);
  }

  /** Every value of `vs` after `swapBytes`. */
  function SwappedAll(little: bool, vs: seq<Value>): (rs: seq<Value>)
    requires forall i :: 0 <= i < |vs| ==> Fits(vs[i])
    ensures |rs| == |vs| && KindsOf(rs) == KindsOf(vs)
  {
    if vs == [] then [] else [Swapped(little, vs[0])] + SwappedAll(little, vs[1..])
  }

  /** Writing swapped values natively lays down the bytes a writer of the
      other byte order would write for the originals. */
  lemma {:induction false} SerializeSwapped(little: bool, vs: seq<Value>)
    requires forall i :: 0 <= i < |vs| ==> Fits(vs[i])
    ensures Serialize(little, SwappedAll(little, vs)) == Serialize(!little, vs)
  {
    if vs != [] {
      SwappedIsForeign(little, vs[0]);
      SerializeSwapped(little, vs[1..]);
    }
  }

  /** The test's premise: pre-swapping the payload and writing the negated flag
      forges a stream from the other byte order, which the portable reader
      decodes to the original values. */
  lemma ForgedFlagRoundTrip(little: bool, vs: seq<Value>)
    requires forall i :: 0 <= i < |vs| ==> Fits(vs[i])
    ensures Parse(little, [Flag(!little)] + Serialize(little, SwappedAll(little, vs)), KindsOf(vs)) == Success(vs)
  {
    SerializeSwapped(little, vs);
    PortableRoundTrip(!little, little, vs);
  }

  /** Negating the flag without pre-swapping the payload does not round-trip:
      the reader then returns every value byte-swapped. The test needs both. */
  lemma FlagAloneSwaps(little: bool, vs: seq<Value>)
    requires forall i :: 0 <= i < |vs| ==> Fits(vs[i])
    ensures Parse(little, [Flag(!little)] + Serialize(little, vs), KindsOf(vs)) == Success(SwappedAll(little, vs))
  {
    var swapped := SwappedAll(little, vs);
    SwappedAllTwice(little, vs);
    SerializeSwapped(little, swapped);
    PortableRoundTrip(!little, little, swapped);
  }

  /** On a little-endian writer the `uint32_t` 0x01020304 is laid down as
      04 03 02 01; read as if from a big-endian writer it becomes 0x04030201. */
  lemma SwapExample()
    ensures Image(true, Value(UInt32, 0x01020304)) == [4, 3, 2, 1]
    ensures Swapped(true, Value(UInt32, 0x01020304)) == Value(UInt32, 0x04030201)
  {
    var v := Value(UInt32, 0x01020304);
    assert Image(true, v) == [4, 3, 2, 1];
    var s: seq<uint8> := [4, 3, 2, 1];
    assert Reverse(s) == [1, 2, 3, 4];
    assert LittleValue([1, 2, 3, 4]) == 0x04030201;
  }

  /** The test's payload: 1+1+1+2+2+4+4+8+8+4+8 bytes. */
  lemma TestPayloadSize()
    ensures Footprint(TestKinds) == 43
  {
    var ks := TestKinds;
    assert Footprint(ks[10..]) == 8 by { assert ks[10..] == [Double]; }
    assert Footprint(ks[9..]) == 12 by { assert ks[9..][1..] == ks[10..]; }
    assert Footprint(ks[8..]) == 20 by { assert ks[8..][1..] == ks[9..]; }
    assert Footprint(ks[7..]) == 28 by { assert ks[7..][1..] == ks[8..]; }
    assert Footprint(ks[6..]) == 32 by { assert ks[6..][1..] == ks[7..]; }
    assert Footprint(ks[5..]) == 36 by { assert ks[5..][1..] == ks[6..]; }
    assert Footprint(ks[4..]) == 38 by { assert ks[4..][1..] == ks[5..]; }
    assert Footprint(ks[3..]) == 40 by { assert ks[3..][1..] == ks[4..]; }
    assert Footprint(ks[2..]) == 41 by { assert ks[2..][1..] == ks[3..]; }
    assert Footprint(ks[1..]) == 42 by { assert ks[1..][1..] == ks[2..]; }
  }

  /** The test's stream: one flag byte, then the payload. */
  lemma TestStreamSize(little: bool, vs: seq<Value>)
    requires KindsOf(vs) == TestKinds
    ensures |[Flag(!little)] + Serialize(little, vs)| == 44
  {
    SerializeLength(little, vs);
    TestPayloadSize();
  }

  /** The test's eleven `swapBytes` calls, one per variable, in order. */
  method SwapAll(little: bool, values: seq<Value>) returns (swapped: seq<Value>)
    requires forall i :: 0 <= i < |values| ==> Fits(values[i])
    ensures swapped == SwappedAll(little, values)
  {
    swapped := values;
    var i := 0;
    while i < |swapped|
      invariant 0 <= i <= |swapped| == |values|
      invariant forall j :: 0 <= j < i ==> swapped[j] == Swapped(little, values[j])
      invariant forall j :: i <= j < |swapped| ==> swapped[j] == values[j]
    {
      var t := SwapValueBytes(little, swapped[i]);
      swapped := swapped[i := t];
      i := i + 1;
    }
    SwappedAllIndex(little, values);
  }

  lemma {:induction false} SwappedAllIndex(little: bool, vs: seq<Value>)
    requires forall i :: 0 <= i < |vs| ==> Fits(vs[i])
    ensures forall i :: 0 <= i < |vs| ==> SwappedAll(little, vs)[i] == Swapped(little, vs[i])
  {
    if vs != [] {
      SwappedAllIndex(little, vs[1..]);
    }
  }

  /** Swapping every value twice restores every value. */
  lemma SwappedAllTwice(little: bool, vs: seq<Value>)
    requires forall i :: 0 <= i < |vs| ==> Fits(vs[i])
    ensures forall i :: 0 <= i < |vs| ==> Fits(SwappedAll(little, vs)[i])
    ensures SwappedAll(little, SwappedAll(little, vs)) == vs
  {
    var once := SwappedAll(little, vs);
    SwappedAllIndex(little, vs);
    SwappedAllIndex(little, once);
    forall i | 0 <= i < |vs|
      ensures SwappedAll(little, once)[i] == vs[i]
    {
      SwappedTwice(little, vs[i]);
    }
  }

  /** Writing one more value extends the stream by that value's bytes. */
  lemma SerializeStep(little: bool, vs: seq<Value>, i: nat)
    requires i < |vs|
    ensures Serialize(little, vs[..i + 1]) == Serialize(little, vs[..i]) + Image(little, vs[i])
  {
    SerializeAppend(little, vs[..i], [vs[i]]);
    assert vs[..i + 1] == vs[..i] + [vs[i]];
    assert Serialize(little, [vs[i]]) == Image(little, vs[i]) + Serialize(little, []);
  }

  /** The test's run of `oar(...)` calls: writes the values in order. */
  method WriteValues(oar: BinaryOutputArchive, vs: seq<Value>)
    modifies oar
    ensures oar.stream == old(oar.stream) + Serialize(oar.nativeLittle, vs)
  {
    var i := 0;
    while i < |vs|
      invariant 0 <= i <= |vs|
      invariant oar.stream == old(oar.stream) + Serialize(oar.nativeLittle, vs[..i])
    {
      oar.Write(vs[i]);
      SerializeStep(oar.nativeLittle, vs, i);
      i := i + 1;
    }
    assert vs[..i] == vs;
  }

  /** A successful read of value `v`, which moves the cursor from `before` to
      `after`, puts `v` in front of the values read after it. */
  lemma LoadAllStep(little: bool, convert: bool, s: seq<uint8>, ks: seq<Kind>, i: nat,
                    before: nat, after: nat, acc: seq<Value>, v: Value, whole: Result<seq<Value>>)
    requires i < |ks| && before <= |s|
    requires Load(little, convert, s, before, ks[i]) == Success(v)
    requires after == before + Width(ks[i])
    requires whole == Prepend(acc, LoadAll(little, convert, s, before, ks[i..]))
    ensures whole == Prepend(acc + [v], LoadAll(little, convert, s, after, ks[i + 1..]))
  {
    var rest := ks[i..];
    var tail := LoadAll(little, convert, s, after, ks[i + 1..]);
    assert LoadAll(little, convert, s, before, rest) == Prepend([v], tail) by {
      assert rest[0] == ks[i] && rest[1..] == ks[i + 1..];
    }
    if tail.Success? {
      assert acc + ([v] + tail.value) == (acc + [v]) + tail.value;
    }
  }

  /** The test's run of `iar(...)` calls: reads values of the types `ks` in
      order, stopping at the first read that fails. */
  method ReadValues(iar: PortableBinaryInputArchive, ks: seq<Kind>) returns (r: Result<seq<Value>>)
    requires iar.Valid()
    modifies iar
    ensures iar.Valid()
    ensures r == LoadAll(iar.nativeLittle, iar.convertEndianness, iar.stream, old(iar.pos), ks)
    ensures r.Success? ==> iar.pos == old(iar.pos) + Footprint(ks)
    ensures r.Failure? ==> iar.pos == |iar.stream|
  {
    ghost var little, convert, s, start := iar.nativeLittle, iar.convertEndianness, iar.stream, iar.pos;
    ghost var whole := LoadAll(little, convert, s, iar.pos, ks);
    var acc: seq<Value> := [];
    var i := 0;
    assert ks[i..] == ks && ks[..i] == [];
    assert whole.Success? ==> acc + whole.value == whole.value;
    while i < |ks|
      invariant 0 <= i <= |ks|
      invariant iar.Valid()
      invariant iar.pos == start + Footprint(ks[..i])
      invariant whole == Prepend(acc, LoadAll(little, convert, s, iar.pos, ks[i..]))
    {
      ghost var before := iar.pos;
      var next := iar.Read(ks[i]);
      if next.Failure? {
        return Failure(next.error);
      }
      LoadAllStep(little, convert, s, ks, i, before, iar.pos, acc, next.value, whole);
      FootprintStep(ks, i);
      acc := acc + [next.value];
      i := i + 1;
    }
    assert ks[i..] == [] && acc + [] == acc && ks[..i] == ks;
    r := Success(acc);
  }

  /** The test's writing half: the negated flag through `oar`, then the
      payload, through a plain binary output archive of the platform's order. */
  method WriteForged(little: bool, values: seq<Value>) returns (stream: seq<uint8>)
    ensures stream == [Flag(!little)] + Serialize(little, values)
  {
    // manually insert the incorrect endian encoding, then write every value
    var oar := new BinaryOutputArchive(little);
    oar.Write(BoolValue(!little));
    FlagIsStoredBool(little, !little);
    WriteValues(oar, values);
    stream := oar.stream;
  }

  /** One pass of the test: swap, write the wrong flag and the payload, swap
      back, read, compare. The values read are the originals, exactly. */
  method PortableBinaryArchive(little: bool, originals: seq<Value>) returns (stream: seq<uint8>, inputs: Result<seq<Value>>)
    requires forall i :: 0 <= i < |originals| ==> Fits(originals[i])
    ensures stream == [Flag(!little)] + Serialize(little, SwappedAll(little, originals))
    ensures |stream| == 1 + Footprint(KindsOf(originals))
    ensures inputs == Success(originals)
  {
    // swap the bytes on all of the data
    var swapped := SwapAll(little, originals);
    SwappedAllTwice(little, originals);

    stream := WriteForged(little, swapped);
    SerializeLength(little, swapped);

    // swap back to the original values
    var restored := SwapAll(little, swapped);

    // read every value back through the portable archive
    var iar := new PortableBinaryInputArchive(little, stream);
    inputs := ReadValues(iar, KindsOf(restored));
    ForgedFlagRoundTrip(little, originals);
  }
}
