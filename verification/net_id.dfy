/**
 The network id of a LIN message, split over two message fields and joined
 again (tests/runner/test_lin_networks.py): `NetworkID` receives the id
 into a byte-wide field, so it keeps the low eight bits; `NetworkID2`
 receives `id >> 8`; the receiver's id is `(NetworkID2 << 8) | NetworkID`.

 Python's `|` on non-negative integers is `BitOr`, defined bit by bit from
 the bottom; `>>` and `<<` by 8 on non-negative integers are division and
 multiplication by 256.
 */
module NetId {
  import opened Arith

  /** Bit i of x: the lowest bit after dropping i bits. */
  predicate Bit(x: nat, i: nat)
  {
    if i == 0 then x % 2 == 1 else Bit(x / 2, i - 1)
  }

  /** Bit i of x is the lowest bit of x shifted right by i. */
  lemma {:induction false} BitIsShiftedLowBit(x: nat, i: nat)
    ensures Bit(x, i) <==> (x / Pow2(i)) % 2 == 1
  {
    if i > 0 {
      BitIsShiftedLowBit(x / 2, i - 1);
      var p := Pow2(i - 1);
      assert Pow2(i) == 2 * p;
      DivDiv(x, 2, p);
    }
  }

  /** Python's `a | b` on non-negative integers. */
  function BitOr(a: nat, b: nat): (r: nat)
    ensures r >= a && r >= b
    ensures r <= a + b
    decreases a + b
  {
    if a == 0 then b
    else if b == 0 then a
    else 2 * BitOr(a / 2, b / 2) + (if a % 2 == 1 || b % 2 == 1 then 1 else 0)
  }

  /** No bit of 0 is set. */
  lemma {:induction false} ZeroBits(i: nat)
    ensures !Bit(0, i)
  {
    if i > 0 {
      ZeroBits(i - 1);
    }
  }

  /** The lowest bit of `a | b` is the or of the lowest bits, and the rest is the or of the rest. */
  lemma OrHalves(a: nat, b: nat)
    requires a > 0 && b > 0
    ensures BitOr(a, b) / 2 == BitOr(a / 2, b / 2)
    ensures BitOr(a, b) % 2 == 1 <==> a % 2 == 1 || b % 2 == 1
  {
    var low := if a % 2 == 1 || b % 2 == 1 then 1 else 0;
    DivModUnique(BitOr(a, b), 2, BitOr(a / 2, b / 2), low);
  }

  /** `BitOr` is the bitwise or: bit i of the result is set exactly when it is
      set in either operand. */
  lemma {:induction false} BitOrBits(a: nat, b: nat, i: nat)
    ensures Bit(BitOr(a, b), i) <==> Bit(a, i) || Bit(b, i)
    decreases i
  {
    if a == 0 {
      ZeroBits(i);
    } else if b == 0 {
      ZeroBits(i);
    } else {
      OrHalves(a, b);
      if i > 0 {
        BitOrBits(a / 2, b / 2, i - 1);
      }
    }
  }

  /** Or-ing a value below 2^k into a multiple of 2^k is addition: the bits do not overlap. */
  lemma {:induction false} OrDisjoint(h: nat, lo: nat, k: nat)
    requires lo < Pow2(k)
    ensures BitOr(h * Pow2(k), lo) == h * Pow2(k) + lo
  {
    var a := h * Pow2(k);
    if k > 0 && a != 0 && lo != 0 {
      var p := Pow2(k - 1);
      assert Pow2(k) == 2 * p;
      assert a == 2 * (h * p);
      assert a / 2 == h * p && a % 2 == 0;
      assert lo / 2 < p;
      OrDisjoint(h, lo / 2, k - 1);
    }
  }

  /** `NetworkID = id`: a byte-wide field keeps the low eight bits. */
  function Low(id: nat): (b: nat)
    ensures b < 256
  {
    id % 256
  }

  /** `NetworkID2 = id >> 8`. */
  function High(id: nat): (h: nat)
    ensures 256 * h <= id < 256 * h + 256
    ensures id < 0x1_0000 ==> h < 256
  {
    id / 256
  }

  /** `(NetworkID2 << 8) | NetworkID`. */
  function Combine(hi: nat, lo: nat): (id: nat)
    ensures lo < 256 ==> id == 256 * hi + lo
  {
    Pow2Byte();
    var id := BitOr(hi * 256, lo);
    if lo < 256 then OrDisjoint(hi, lo, 8); id else id
  }

  /** Splitting an id and joining the halves gives back the id; a 16-bit id
      leaves a high part that fits a byte as well. */
  lemma SplitCombine(id: nat)
    ensures Combine(High(id), Low(id)) == id
    ensures id < 0x1_0000 ==> High(id) < 256
  {
    Pow2Byte();
    OrDisjoint(High(id), Low(id), 8);
  }

  /** Joining a high part and a byte and splitting again gives back both. */
  lemma CombineSplit(hi: nat, lo: nat)
    requires lo < 256
    ensures Low(Combine(hi, lo)) == lo
    ensures High(Combine(hi, lo)) == hi
  {
    Pow2Byte();
    OrDisjoint(hi, lo, 8);
    DivModUnique(hi * 256 + lo, 256, hi, lo);
  }

  /** The receiver's id check: two messages carrying byte-wide low ids have the
      same joined id exactly when both fields agree. */
  lemma NetIdMatch(hi1: nat, lo1: nat, hi2: nat, lo2: nat)
    requires lo1 < 256 && lo2 < 256
    ensures Combine(hi1, lo1) == Combine(hi2, lo2) <==> hi1 == hi2 && lo1 == lo2
  {
    CombineSplit(hi1, lo1);
    CombineSplit(hi2, lo2);
  }

  /** Ids that differ put different values on the wire: the split is injective. */
  lemma SplitInjective(id1: nat, id2: nat)
    ensures id1 == id2 <==> High(id1) == High(id2) && Low(id1) == Low(id2)
  {
    SplitCombine(id1);
    SplitCombine(id2);
  }
}
