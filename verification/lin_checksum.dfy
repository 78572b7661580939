/**
 The checksum the LIN test appends to its slave frame (`_tx_rx_lin_devices` in
 tests/runner/test_lin_networks.py): the classic checksum of section 2.3.1.5 of
 the LIN 2.1 Protocol Specification, an eight-bit sum with carry, inverted.

 The loop adds each byte of `Data + Header[1:3]` to a running total and
 subtracts 255 whenever the total exceeds 255 (the carry is folded back into
 bit 0); the frame then gets `~checksum & 0xFF` appended as an extra data byte.

 Python integers are unbounded, so bytes here are `int`s and the byte range
 is a hypothesis of the contracts, not a precondition.
 */
module LinChecksum {
  import Arith

  /** Every element is a byte value, 0..255. */
  predicate AllBytes(s: seq<int>)
  {
    forall i :: 0 <= i < |s| ==> 0 <= s[i] <= 255
  }

  /** The plain sum of the elements. */
  function Sum(s: seq<int>): (n: int)
    ensures AllBytes(s) ==> 0 <= n <= 255 * |s|
  {
    if |s| == 0 then 0 else Sum(s[..|s| - 1]) + s[|s| - 1]
  }

  /** One loop step: add the byte, and fold a carry out of bit 7 back into bit 0. */
  function AddWithCarry(checksum: int, b: int): (r: int)
    ensures 0 <= checksum <= 255 && 0 <= b <= 255 ==> 0 <= r <= 255
    ensures r % 255 == (checksum + b) % 255
    ensures 0 <= checksum && 0 <= b ==> (r == 0 <==> checksum + b == 0)
  {
    var t := checksum + b;
    if t > 255 then t - 255 else t
  }

  /** The value an eight-bit sum with carry reaches from the total n of the bytes
      added: 0 for an empty total, otherwise the one value in 1..255 congruent to
      n modulo 255. */
  function CarryFold(n: nat): (r: nat)
    ensures r <= 255
    ensures r % 255 == n % 255
    ensures r == 0 <==> n == 0
  {
    if n == 0 then 0 else (n - 1) % 255 + 1
  }

  /** One step of the loop on the folded total is the folded total of one more byte. */
  lemma FoldStep(n: nat, b: int)
    requires 0 <= b <= 255
    ensures AddWithCarry(CarryFold(n), b) == CarryFold(n + b)
  {
    if n > 0 {
      var c := CarryFold(n);
      var q := (n - 1) / 255;
      assert n - 1 == 255 * q + (c - 1);
      if c + b <= 255 {
        Arith.DivModUnique(n + b - 1, 255, q, c - 1 + b);
      } else {
        Arith.DivModUnique(n + b - 1, 255, q + 1, c + b - 256);
      }
    }
  }

  /** The checksum of a byte sequence, accumulated left to right as the loop does. */
  function Checksum(s: seq<int>): (c: int)
    ensures AllBytes(s) ==> 0 <= c <= 255
  {
    if |s| == 0 then 0
    else
      var init := s[..|s| - 1];
      assert AllBytes(s) ==> AllBytes(init);
      AddWithCarry(Checksum(init), s[|s| - 1])
  }

  /** Over bytes, the loop's running value is the carry-folded plain sum. */
  lemma {:induction false} ChecksumIsCarryFold(s: seq<int>)
    requires AllBytes(s)
    ensures Checksum(s) == CarryFold(Sum(s))
  {
    if |s| > 0 {
      var init := s[..|s| - 1];
      assert AllBytes(init);
      ChecksumIsCarryFold(init);
      FoldStep(Sum(init), s[|s| - 1]);
    }
  }

  /** For bytes, the checksum stays in 0..255, is congruent to the plain sum modulo 255,
      and is 0 only when that sum is 0. */
  lemma {:induction false} ChecksumCongruent(s: seq<int>)
    requires AllBytes(s)
    ensures 0 <= Checksum(s) <= 255
    ensures Checksum(s) % 255 == Sum(s) % 255
    ensures Checksum(s) == 0 <==> Sum(s) == 0
  {
    ChecksumIsCarryFold(s);
  }

  lemma ChecksumSnoc(s: seq<int>, b: int)
    ensures Checksum(s + [b]) == AddWithCarry(Checksum(s), b)
  {
    assert (s + [b])[..|s|] == s;
  }

  /** The loop of the test: add every byte, subtracting 255 whenever the total passes 255. */
  method ComputeChecksum(bytes: seq<int>) returns (checksum: int)
    ensures checksum == Checksum(bytes)
    ensures AllBytes(bytes) ==> 0 <= checksum <= 255 && checksum % 255 == Sum(bytes) % 255
  {
    checksum := 0;
    for i := 0 to |bytes|
      invariant checksum == Checksum(bytes[..i])
      invariant AllBytes(bytes) ==> 0 <= checksum <= 255
    {
      assert bytes[..i + 1] == bytes[..i] + [bytes[i]];
      ChecksumSnoc(bytes[..i], bytes[i]);
      checksum := checksum + bytes[i];
      if checksum > 255 {
        checksum := checksum - 255;
      }
    }
    assert bytes[..|bytes|] == bytes;
    if AllBytes(bytes) {
      ChecksumCongruent(bytes);
    }
  }

  /** Python's `~c & 0xFF`: the low eight bits of the two's-complement inverse of c. */
  function Invert(c: int): (r: int)
    ensures 0 <= r <= 255
    ensures (r + c + 1) % 256 == 0
    ensures 0 <= c <= 255 ==> r == 255 - c
  {
    (-c - 1) % 256
  }

  /** Python's slice `s[lo:hi]` for non-negative bounds: out-of-range bounds are clamped. */
  function Slice(s: seq<int>, lo: nat, hi: nat): (r: seq<int>)
    ensures lo >= |s| || hi <= lo ==> r == []
    ensures lo < hi <= |s| ==> r == s[lo..hi]
    ensures lo < |s| && lo < hi ==> r == s[lo..(if hi < |s| then hi else |s|)]
    ensures forall k :: 0 <= k < |r| ==> lo + k < |s| && r[k] == s[lo + k]
  {
    var l := if lo < |s| then lo else |s|;
    var h := if hi < |s| then hi else |s|;
    if l < h then s[l..h] else []
  }

  /** The bytes the loop sums: `Data + Header[1:3]`. */
  function SummedBytes(data: seq<int>, header: seq<int>): (r: seq<int>)
    ensures |data| <= |r| <= |data| + 2
    ensures r[..|data|] == data
    ensures |header| <= 1 ==> r == data
    ensures |header| >= 3 ==> r == data + header[1..3]
    ensures |header| == 2 ==> r == data + [header[1]]
  {
    data + Slice(header, 1, 3)
  }

  /** With the one-byte header the test sets, the header contributes nothing:
      only the data bytes are summed. */
  lemma OneByteHeaderNotSummed(data: seq<int>, header: seq<int>)
    requires |header| == 1
    ensures SummedBytes(data, header) == data
  {
    assert Slice(header, 1, 3) == [];
  }

  /** `Data += ((~checksum & 0xFF),)`: the data grows by exactly one byte, the
      inverted checksum, and keeps its original bytes in front. */
  function AppendChecksum(data: seq<int>, header: seq<int>): (d: seq<int>)
    ensures |d| == |data| + 1
    ensures d[..|data|] == data
    ensures 0 <= d[|data|] <= 255
  {
    data + [Invert(Checksum(SummedBytes(data, header)))]
  }

  /** For byte-valued inputs the appended byte is 255 minus the checksum. */
  lemma AppendedByteIsComplement(data: seq<int>, header: seq<int>)
    requires AllBytes(SummedBytes(data, header))
    ensures AppendChecksum(data, header)[|data|] == 255 - Checksum(SummedBytes(data, header))
  {
    ChecksumCongruent(SummedBytes(data, header));
  }

  /** The frame the test sends passes the receiver's check: with the one-byte
      header, the data bytes and the appended checksum sum with carry to 0xFF. */
  lemma FrameVerifies(data: seq<int>, header: seq<int>)
    requires |header| == 1 && AllBytes(data)
    ensures Checksum(AppendChecksum(data, header)) == 0xFF
  {
    OneByteHeaderNotSummed(data, header);
    ChecksumVerifies(data);
  }

  /** The receiving side of section 2.3.1.5 of LIN 2.1: summing the bytes and the
      appended inverted checksum with carry gives 0xFF. */
  lemma ChecksumVerifies(s: seq<int>)
    requires AllBytes(s)
    ensures Checksum(s + [Invert(Checksum(s))]) == 0xFF
  {
    ChecksumCongruent(s);
    ChecksumSnoc(s, Invert(Checksum(s)));
  }

  /** The data bytes 0..7 of the test's slave frame add up to 28. */
  lemma SlaveDataSum()
    ensures Sum([0, 1, 2, 3, 4, 5, 6, 7]) == 28
  {
    assert Sum([0]) == 0 by { assert [0][..0] == []; }
    assert Sum([0, 1]) == 1 by { assert [0, 1][..1] == [0]; }
    assert Sum([0, 1, 2]) == 3 by { assert [0, 1, 2][..2] == [0, 1]; }
    assert Sum([0, 1, 2, 3]) == 6 by { assert [0, 1, 2, 3][..3] == [0, 1, 2]; }
    assert Sum([0, 1, 2, 3, 4]) == 10 by { assert [0, 1, 2, 3, 4][..4] == [0, 1, 2, 3]; }
    assert Sum([0, 1, 2, 3, 4, 5]) == 15 by { assert [0, 1, 2, 3, 4, 5][..5] == [0, 1, 2, 3, 4]; }
    assert Sum([0, 1, 2, 3, 4, 5, 6]) == 21 by { assert [0, 1, 2, 3, 4, 5, 6][..6] == [0, 1, 2, 3, 4, 5]; }
    assert [0, 1, 2, 3, 4, 5, 6, 7][..7] == [0, 1, 2, 3, 4, 5, 6];
  }

  /** The test's slave frame: data 0..7 sum to 28, so 0xFF - 28 = 227 is appended. */
  lemma SlaveFrameExample()
    ensures AppendChecksum([0, 1, 2, 3, 4, 5, 6, 7], [0xC1]) == [0, 1, 2, 3, 4, 5, 6, 7, 227]
  {
    var data := [0, 1, 2, 3, 4, 5, 6, 7];
    OneByteHeaderNotSummed(data, [0xC1]);
    ChecksumIsCarryFold(data);
    SlaveDataSum();
  }
}
