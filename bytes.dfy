/** Raw bytes, the reversal primitive `swap_bytes<N>`, and how an unsigned
    integer of `w` bytes is laid out in memory on a little- or big-endian
    platform. */
module Bytes {

  /** `std::uint8_t`. */
  newtype uint8 = x: int | 0 <= x < 256

  /** 256 to the power `w`: the number of distinct `w`-byte blocks. */
  function Pow256(w: nat): (r: nat)
    ensures r >= 1
  {
    if w == 0 then 1 else 256 * Pow256(w - 1)
  }

  /** The block `s` with its byte order reversed. */
  function Reverse<T>(s: seq<T>): (r: seq<T>)
    ensures |r| == |s|
  {
    if s == [] then [] else Reverse(s[1..]) + [s[0]]
  }

  /** Byte `k` of the reversed block is byte `|s| - 1 - k` of the original. */
  lemma {:induction false} ReverseIndex<T>(s: seq<T>)
    ensures forall k :: 0 <= k < |s| ==> Reverse(s)[k] == s[|s| - 1 - k]
  {
    if s != [] {
      ReverseIndex(s[1..]);
      forall k | 0 <= k < |s|
        ensures Reverse(s)[k] == s[|s| - 1 - k]
      {
        if k < |s| - 1 {
          assert Reverse(s)[k] == Reverse(s[1..])[k];
        }
      }
    }
  }

  /** Reversing a block twice restores it, for every width and bit pattern. */
  lemma ReverseInvolution<T>(s: seq<T>)
    ensures Reverse(Reverse(s)) == s
  {
    ReverseIndex(s);
    ReverseIndex(Reverse(s));
  }

  /** A block of at most one byte is its own reversal. */
  lemma ReverseShort<T>(s: seq<T>)
    requires |s| <= 1
    ensures Reverse(s) == s
  {
    if |s| == 1 {
      assert s[1..] == [];
    }
  }

  /** `swap_bytes<N>(data)`: reverses in place the `N` bytes at `data`
      by swapping byte `i` with byte `N - 1 - i` for `i < N / 2`. */
  method SwapBytes(data: array<uint8>)
    modifies data
    ensures data[..] == Reverse(old(data[..]))
  {
    var size := data.Length;
    var i := 0;
    while i < size / 2
      invariant 0 <= i <= size / 2
      invariant forall k :: 0 <= k < i ==> data[k] == old(data[size - 1 - k]) && data[size - 1 - k] == old(data[k])
      invariant forall k :: i <= k < size - i ==> data[k] == old(data[k])
    {
      data[i], data[size - 1 - i] := data[size - 1 - i], data[i];
      i := i + 1;
    }
    ghost var before := old(data[..]);
    ReverseIndex(before);
    assert data[..] == Reverse(before);
  }

  /** The `w` bytes of the unsigned integer `n`, least significant first.
      Bits above `8 * w` are dropped, as a truncating cast drops them. */
  function LittleBytes(w: nat, n: nat): (r: seq<uint8>)
    ensures |r| == w
  {
    if w == 0 then [] else [(n % 256) as uint8] + LittleBytes(w - 1, n / 256)
  }

  /** The unsigned integer whose bytes, least significant first, are `s`. */
  function LittleValue(s: seq<uint8>): (r: nat)
    ensures r < Pow256(|s|)
  {
    if s == [] then 0 else s[0] as nat + 256 * LittleValue(s[1..])
  }

  lemma {:induction false} LittleValueOfBytes(w: nat, n: nat)
    requires n < Pow256(w)
    ensures LittleValue(LittleBytes(w, n)) == n
  {
    if w > 0 {
      LittleValueOfBytes(w - 1, n / 256);
      assert LittleBytes(w, n)[1..] == LittleBytes(w - 1, n / 256);
    }
  }

  lemma {:induction false} LittleBytesOfValue(s: seq<uint8>)
    ensures LittleBytes(|s|, LittleValue(s)) == s
  {
    if s != [] {
      LittleBytesOfValue(s[1..]);
      var n := LittleValue(s);
      assert n % 256 == s[0] as nat;
      assert n / 256 == LittleValue(s[1..]);
    }
  }

  /** How a platform stores the `w`-byte unsigned integer `n` in memory:
      least significant byte first when `little`, most significant first otherwise. */
  function NativeBytes(little: bool, w: nat, n: nat): (r: seq<uint8>)
    ensures |r| == w
  {
    if little then LittleBytes(w, n) else Reverse(LittleBytes(w, n))
  }

  /** The unsigned integer a platform of order `little` sees in the bytes `s`. */
  function NativeValue(little: bool, s: seq<uint8>): (r: nat)
    ensures r < Pow256(|s|)
  {
    if little then LittleValue(s) else LittleValue(Reverse(s))
  }

  /** Reading back what was stored recovers the integer. */
  lemma NativeValueOfBytes(little: bool, w: nat, n: nat)
    requires n < Pow256(w)
    ensures NativeValue(little, NativeBytes(little, w, n)) == n
  {
    LittleValueOfBytes(w, n);
    if !little {
      ReverseInvolution(LittleBytes(w, n));
    }
  }

  /** Storing what was read back recovers the bytes. */
  lemma NativeBytesOfValue(little: bool, s: seq<uint8>)
    ensures NativeBytes(little, |s|, NativeValue(little, s)) == s
  {
    if little {
      LittleBytesOfValue(s);
    } else {
      LittleBytesOfValue(Reverse(s));
      ReverseInvolution(s);
    }
  }

  /** The other byte order stores every integer as the reversal of this one's block. */
  lemma ForeignOrderIsReversed(little: bool, w: nat, n: nat)
    ensures NativeBytes(!little, w, n) == Reverse(NativeBytes(little, w, n))
  {
    if !little {
      ReverseInvolution(LittleBytes(w, n));
    }
  }
}
