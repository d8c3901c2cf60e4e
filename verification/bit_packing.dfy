/**
  Packing a string of code bits into bytes, as the WAV compressor does: the
  bits are cut into groups of eight from the front, and each group is read
  as a binary number with its first bit most significant. A final group of
  fewer than eight bits is read the same way, so it ends up in the low bits
  of its byte.
*/
module BitPacking {
  import opened Prelude
  import opened HuffmanCodes

  function Min(a: nat, b: nat): nat
  {
    if a <= b then a else b
  }

  function Pow2(n: nat): (r: nat)
    ensures r >= 1
  {
    if n == 0 then 1 else 2 * Pow2(n - 1)
  }

  /** `parseInt(s, 2)` for a string `s` of binary digits: the first bit is
      the most significant. */
  function BitsValue(bits: Bits): (v: nat)
    ensures v < Pow2(|bits|)
  {
    if bits == [] then 0
    else 2 * BitsValue(bits[..|bits| - 1]) + (if bits[|bits| - 1] then 1 else 0)
  }

  /** The `k` low bits of `v`, most significant first. */
  function ToBits(v: nat, k: nat): (r: Bits)
    ensures |r| == k
  {
    if k == 0 then [] else ToBits(v / 2, k - 1) + [v % 2 == 1]
  }

  /** `k` zero bits. */
  function Zeros(k: nat): (r: Bits)
    ensures |r| == k && forall i :: 0 <= i < k ==> !r[i]
  {
    if k == 0 then [] else Zeros(k - 1) + [false]
  }

  lemma {:induction false} Pow2AtMost8(n: nat)
    requires n <= 8
    ensures Pow2(n) <= 256
    decreases 8 - n
  {
    if n < 8 {
      Pow2AtMost8(n + 1);
    } else {
      assert Pow2(8) == 256;
    }
  }

  /** The bytes of the packed body: group `j` is bits `8j` up to `8j + 8`,
      or up to the end for the final group, read as a binary number. */
  function Pack(bits: Bits): seq<Byte>
    decreases |bits|
  {
    if bits == [] then []
    else
      var n := Min(|bits|, 8);
      Pow2AtMost8(n);
      [BitsValue(bits[..n])] + Pack(bits[n..])
  }

  /** Reads `n` bits back out of packed bytes: eight from each byte, and
      only the remaining low bits from the final one. */
  function Unpack(bytes: seq<Byte>, n: nat): Bits
  {
    if bytes == [] then []
    else if n <= 8 then ToBits(bytes[0], n)
    else ToBits(bytes[0], 8) + Unpack(bytes[1..], n - 8)
  }

  /** One byte per started group of eight bits. */
  lemma {:induction false} PackLength(bits: Bits)
    ensures |Pack(bits)| == (|bits| + 7) / 8
    decreases |bits|
  {
    if bits != [] {
      PackLength(bits[Min(|bits|, 8)..]);
    }
  }

  /** The byte of the group that starts at bit `8g`. */
  lemma {:induction false} PackGroupAt(bits: Bits, g: nat)
    requires 8 * g < |bits|
    ensures g < |Pack(bits)|
    ensures Pack(bits)[g] == BitsValue(bits[8 * g..Min(8 * g + 8, |bits|)])
  {
    PackGroups(bits);
  }

  /** The packed body has one byte per started group of eight bits, and
      byte `j` is the value of group `j`. */
  lemma {:induction false} PackGroups(bits: Bits)
    ensures |Pack(bits)| == (|bits| + 7) / 8
    ensures forall j :: 0 <= j < |Pack(bits)| ==>
      8 * j < |bits| && Pack(bits)[j] == BitsValue(bits[8 * j..Min(8 * j + 8, |bits|)])
    decreases |bits|
  {
    if bits != [] {
      var n := Min(|bits|, 8);
      var rest := bits[n..];
      PackGroups(rest);
      if |bits| > 8 {
        forall j | 1 <= j < |Pack(bits)|
          ensures Pack(bits)[j] == BitsValue(bits[8 * j..Min(8 * j + 8, |bits|)])
        {
          assert rest[8 * (j - 1)..Min(8 * (j - 1) + 8, |rest|)] == bits[8 * j..Min(8 * j + 8, |bits|)];
        }
      }
    }
  }

  /** Reading a group's value back as `|b|` bits gives the group. */
  lemma {:induction false} ToBitsValue(b: Bits)
    ensures ToBits(BitsValue(b), |b|) == b
  {
    if b != [] {
      var init := b[..|b| - 1];
      ToBitsValue(init);
      assert b == init + [b[|b| - 1]];
    }
  }

  /** Leading zero bits do not change the value. */
  lemma {:induction false} LeadingZeros(k: nat, b: Bits)
    ensures BitsValue(Zeros(k) + b) == BitsValue(b)
  {
    if b == [] {
      assert Zeros(k) + b == Zeros(k);
      ZerosValue(k);
    } else {
      var init := b[..|b| - 1];
      LeadingZeros(k, init);
      assert (Zeros(k) + b)[..|Zeros(k) + b| - 1] == Zeros(k) + init;
    }
  }

  lemma {:induction false} ZerosValue(k: nat)
    ensures BitsValue(Zeros(k)) == 0
  {
    if k > 0 {
      ZerosValue(k - 1);
      assert Zeros(k)[..k - 1] == Zeros(k - 1);
    }
  }

  /** Unpacking the packed body with the original bit count gives the bits
      back. */
  lemma {:induction false} UnpackPack(bits: Bits)
    ensures Unpack(Pack(bits), |bits|) == bits
    decreases |bits|
  {
    if bits != [] {
      var n := Min(|bits|, 8);
      ToBitsValue(bits[..n]);
      if |bits| > 8 {
        UnpackPack(bits[n..]);
        assert bits == bits[..n] + bits[n..];
      }
    }
  }

  /** A group of fewer than eight bits packs into one byte that, read as
      eight bits, is zeros followed by the group. */
  lemma {:induction false} ShortGroupRightAligned(bits: Bits)
    requires 0 < |bits| < 8
    ensures Pack(bits) == [BitsValue(bits)]
    ensures ToBits(BitsValue(bits), 8) == Zeros(8 - |bits|) + bits
  {
    assert bits[..|bits|] == bits && bits[|bits|..] == [];
    var padded := Zeros(8 - |bits|) + bits;
    assert |padded| == 8;
    LeadingZeros(8 - |bits|, bits);
    ToBitsValue(padded);
  }

  /** A final group of `k < 8` bits sits right-aligned in its byte: read as
      eight bits, the byte is `8 - k` zeros followed by the group. */
  lemma {:induction false} PartialGroupRightAligned(bits: Bits)
    requires |bits| % 8 != 0
    ensures |Pack(bits)| > 0
    ensures ToBits(Pack(bits)[|Pack(bits)| - 1], 8)
            == Zeros(8 - |bits| % 8) + bits[|bits| - |bits| % 8..]
    decreases |bits|
  {
    var k := |bits| % 8;
    if |bits| < 8 {
      assert k == |bits| && bits[|bits| - k..] == bits;
      ShortGroupRightAligned(bits);
    } else {
      var rest := bits[8..];
      assert |rest| % 8 == k;
      PartialGroupRightAligned(rest);
      assert Pack(bits)[|Pack(bits)| - 1] == Pack(rest)[|Pack(rest)| - 1] by {
        assert bits[..Min(|bits|, 8)] == bits[..8] && bits[Min(|bits|, 8)..] == rest;
        assert Pack(bits) == [BitsValue(bits[..8])] + Pack(rest);
      }
      assert rest[|rest| - k..] == bits[|bits| - k..];
    }
  }

}
