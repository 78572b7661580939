/**
 The 16-bit control word at the head of a PHY register-access packet
 (`Nameless18906` and its `flags` overlay `Nameless3555` in
 ics/structures/s_phy_reg_pkt.py).

 Seven `c_uint16` bit-fields are declared, and ctypes allocates them
 least-significant bit first on a little-endian host:

   bit  0      Enabled
   bit  1      WriteEnable
   bit  2      Clause45Enable   (selects the body variant)
   bits 3-4    status
   bits 5-7    reserved
   bits 8-11   BusIndex
   bits 12-15  version

 The union with `flags` makes the named-field view and the raw view two
 readings of the same 16 bits; here they are two functions, `Pack` (fields
 to `flags`) and `Unpack` (`flags` to fields), proved mutually inverse.
 `ReadField` and `WriteField` are the per-field getter and setter ctypes
 generates for a bit-field member.
 */
module ControlWord {
  import opened Arith
  import BitFields

  /** The raw `flags` member: a `c_uint16`. */
  type uint16 = w: int | 0 <= w < 0x1_0000

  /** The seven bit-fields, in declaration order. */
  datatype Field = Enabled | WriteEnable | Clause45Enable | Status | Reserved | BusIndex | Version

  /** Declaration order, which is also allocation order (lowest bits first). */
  const Order: seq<Field> := [Enabled, WriteEnable, Clause45Enable, Status, Reserved, BusIndex, Version]

  /** Declared width in bits of each field, in declaration order. */
  const Widths: seq<nat> := [1, 1, 1, 2, 3, 4, 4]

  /** Position of a field in the declaration. */
  function Index(f: Field): (i: nat)
    ensures i < |Order| && Order[i] == f
  {
    match f
    case Enabled => 0
    case WriteEnable => 1
    case Clause45Enable => 2
    case Status => 3
    case Reserved => 4
    case BusIndex => 5
    case Version => 6
  }

  function Width(f: Field): nat
  {
    Widths[Index(f)]
  }

  function SumWidths(ws: seq<nat>): nat
  {
    if |ws| == 0 then 0 else ws[0] + SumWidths(ws[1..])
  }

  lemma {:induction false} SumWidthsAppend(ws: seq<nat>, x: nat)
    ensures SumWidths(ws + [x]) == SumWidths(ws) + x
  {
    if |ws| > 0 {
      assert (ws + [x])[1..] == ws[1..] + [x];
      SumWidthsAppend(ws[1..], x);
    }
  }

  /** Bit position of the lowest bit of a field: ctypes places each field
      directly above the ones declared before it. */
  function BitOffset(f: Field): (o: nat)
    ensures o == [0, 1, 2, 3, 5, 8, 12][Index(f)]
    ensures o + Width(f) <= 16
  {
    SumPrefix(Index(f));
    SumWidths(Widths[..Index(f)])
  }

  /** Number of values each field can hold, in declaration order (2^width, see `RadixIsPow2Width`). */
  const Radices: seq<BitFields.Radix> := [2, 2, 2, 4, 8, 16, 16]

  lemma RadixIsPow2Width(i: nat)
    requires i < |Widths|
    ensures |Radices| == |Widths| && Radices[i] == Pow2(Widths[i])
  {
    assert i in {0, 1, 2, 3, 4, 5, 6};
  }

  /** Where field i starts, with i == 7 standing for the top of the word. */
  const Starts: seq<nat> := [0, 1, 2, 3, 5, 8, 12, 16]

  /** Field i starts where field i-1 ends, and holds 2^width values. */
  lemma StartsStep(i: nat)
    requires 0 < i < |Starts|
    ensures Starts[i] == Starts[i - 1] + Widths[i - 1]
    ensures Radices[i - 1] == Pow2(Widths[i - 1])
  {
    assert i in {1, 2, 3, 4, 5, 6, 7};
  }

  /** The widths of the fields below field i add up to its start. */
  lemma {:induction false} SumPrefix(i: nat)
    requires i <= |Widths|
    ensures SumWidths(Widths[..i]) == Starts[i]
  {
    if i == 0 {
      assert Widths[..0] == [];
    } else {
      SumPrefix(i - 1);
      StartsStep(i);
      assert Widths[..i] == Widths[..i - 1] + [Widths[i - 1]];
      SumWidthsAppend(Widths[..i - 1], Widths[i - 1]);
    }
  }

  /** The place of field i is 2 to the power of its start. */
  lemma {:induction false} PlacePrefix(i: nat)
    requires i <= |Widths|
    ensures BitFields.Place(Radices, i) == Pow2(Starts[i])
  {
    if i == 0 {
      assert Radices[..0] == [];
    } else {
      PlacePrefix(i - 1);
      StartsStep(i);
      BitFields.PlaceStep(Radices, i - 1);
      Pow2Add(Starts[i - 1], Widths[i - 1]);
    }
  }

  /** The field declared i-th starts at Starts[i] and has the i-th width. */
  lemma OffsetOfOrder(i: nat)
    requires i < |Order|
    ensures Index(Order[i]) == i
    ensures BitOffset(Order[i]) == Starts[i] && Width(Order[i]) == Widths[i]
  {
    assert i in {0, 1, 2, 3, 4, 5, 6};
    SumPrefix(i);
  }

  /** The seven declared widths add up to exactly 16: the fields fill one `c_uint16`,
      and each field starts where the one declared before it ends. */
  lemma Tiling()
    ensures SumWidths(Widths) == 16
    ensures BitOffset(Order[0]) == 0
    ensures forall i :: 0 <= i < |Order| - 1 ==> BitOffset(Order[i + 1]) == BitOffset(Order[i]) + Width(Order[i])
    ensures BitOffset(Order[|Order| - 1]) + Width(Order[|Order| - 1]) == 16
  {
    SumPrefix(|Widths|);
    assert Widths[..|Widths|] == Widths;
    forall i | 0 <= i < |Order| - 1
      ensures BitOffset(Order[i + 1]) == BitOffset(Order[i]) + Width(Order[i])
    {
      OffsetOfOrder(i);
      OffsetOfOrder(i + 1);
      StartsStep(i + 1);
    }
    OffsetOfOrder(0);
    OffsetOfOrder(|Order| - 1);
    StartsStep(|Order|);
  }

  /** The fields' value ranges multiply out to exactly the 2^16 values of a `c_uint16`. */
  lemma WordCapacity()
    ensures BitFields.Capacity(Radices) == 0x1_0000
  {
    PlacePrefix(|Widths|);
    BitFields.PlaceEnd(Radices);
    Pow2Byte();
  }

  /** Weight of the lowest bit of each field, in declaration order (2^offset). */
  const Weights: seq<BitFields.Radix> := [1, 2, 4, 8, 32, 256, 4096]

  /** How many values field f can hold. */
  function Radix(f: Field): BitFields.Radix
  {
    Radices[Index(f)]
  }

  /** The weight of field f's lowest bit in `flags`. */
  function Weight(f: Field): BitFields.Radix
  {
    Weights[Index(f)]
  }

  /** A field of width k at bit offset o has 2^k values and weight 2^o, which is
      also the place of its digit in the mixed-radix reading of the word. */
  lemma Geometry(f: Field)
    ensures Radix(f) == Pow2(Width(f))
    ensures Weight(f) == Pow2(BitOffset(f))
    ensures Weight(f) == BitFields.Place(Radices, Index(f))
  {
    SumPrefix(Index(f));
    PlacePrefix(Index(f));
    RadixIsPow2Width(Index(f));
  }

  /** The named-field view of the word: one value per bit-field. */
  datatype Control = Control(
    enabled: nat,
    writeEnable: nat,
    clause45Enable: nat,
    status: nat,
    reserved: nat,
    busIndex: nat,
    version: nat)

  /** The field values in declaration order. */
  function Values(c: Control): seq<nat>
  {
    [c.enabled, c.writeEnable, c.clause45Enable, c.status, c.reserved, c.busIndex, c.version]
  }

  function FromValues(vs: seq<nat>): (c: Control)
    requires |vs| == |Order|
    ensures Values(c) == vs
  {
    Control(vs[0], vs[1], vs[2], vs[3], vs[4], vs[5], vs[6])
  }

  /** The value of one field. */
  function Get(c: Control, f: Field): nat
  {
    Values(c)[Index(f)]
  }

  /** c with field f replaced by v and every other field kept. */
  function With(c: Control, f: Field, v: nat): (c': Control)
    ensures Get(c', f) == v
    ensures forall g :: g != f ==> Get(c', g) == Get(c, g)
  {
    FromValues(Values(c)[Index(f) := v])
  }

  /** Every field holds a value its width can represent, as a ctypes bit-field always does. */
  predicate Valid(c: Control)
  {
    && c.enabled < 2
    && c.writeEnable < 2
    && c.clause45Enable < 2
    && c.status < 4
    && c.reserved < 8
    && c.busIndex < 16
    && c.version < 16
  }

  lemma ValidFits(c: Control)
    ensures Valid(c) <==> BitFields.Fits(Values(c), Radices)
  {
    var vs, rs := Values(c), Radices;
    assert rs == [2, 2, 2, 4, 8, 16, 16];
    if Valid(c) {
      forall i | 0 <= i < |vs|
        ensures vs[i] < rs[i]
      {
        assert i in {0, 1, 2, 3, 4, 5, 6};
      }
    }
    if BitFields.Fits(vs, rs) {
      assert vs[0] < rs[0] && vs[1] < rs[1] && vs[2] < rs[2] && vs[3] < rs[3];
      assert vs[4] < rs[4] && vs[5] < rs[5] && vs[6] < rs[6];
    }
  }

  /** The raw `flags` value of a field tuple: each field's value at its bit position. */
  function Pack(c: Control): (w: uint16)
    requires Valid(c)
    ensures Unpack(w) == c
  {
    ValidFits(c);
    WordCapacity();
    var w := BitFields.Pack(Values(c), Radices);
    BitFields.UnpackPack(Values(c), Radices);
    assert Values(Unpack(w)) == Values(c);
    w
  }

  /** The upper four fields, status to version, packed on their own. */
  lemma PackUpper(c: Control)
    requires Valid(c)
    ensures BitFields.Fits(Values(c)[3..], Radices[3..])
    ensures BitFields.Pack(Values(c)[3..], Radices[3..])
         == c.status + 4 * c.reserved + 32 * c.busIndex + 512 * c.version
  {
    ValidFits(c);
    var vs, rs := Values(c), Radices;
    var p7 := BitFields.Pack(vs[7..], rs[7..]);
    assert p7 == 0 by {
      assert rs[7..] == [];
    }
    var p6 := BitFields.Pack(vs[6..], rs[6..]);
    assert p6 == c.version + 16 * p7 by {
      BitFields.PackSuffix(vs, rs, 6);
    }
    var p5 := BitFields.Pack(vs[5..], rs[5..]);
    assert p5 == c.busIndex + 16 * p6 by {
      BitFields.PackSuffix(vs, rs, 5);
    }
    var p4 := BitFields.Pack(vs[4..], rs[4..]);
    assert p4 == c.reserved + 8 * p5 by {
      BitFields.PackSuffix(vs, rs, 4);
    }
    assert BitFields.Pack(vs[3..], rs[3..]) == c.status + 4 * p4 by {
      BitFields.PackSuffix(vs, rs, 3);
    }
  }

  /** Each field lands at its bit position: Enabled at bit 0, WriteEnable at bit 1,
      Clause45Enable at bit 2, status at bit 3, reserved at bit 5, BusIndex at bit 8
      and version at bit 12. */
  lemma PackPositions(c: Control)
    requires Valid(c)
    ensures Pack(c)
         == c.enabled + 2 * c.writeEnable + 4 * c.clause45Enable + 8 * c.status
            + 32 * c.reserved + 256 * c.busIndex + 4096 * c.version
  {
    ValidFits(c);
    var vs, rs := Values(c), Radices;
    var p3 := BitFields.Pack(vs[3..], rs[3..]);
    assert p3 == c.status + 4 * c.reserved + 32 * c.busIndex + 512 * c.version by {
      PackUpper(c);
    }
    var p2 := BitFields.Pack(vs[2..], rs[2..]);
    assert p2 == c.clause45Enable + 2 * p3 by {
      BitFields.PackSuffix(vs, rs, 2);
    }
    var p1 := BitFields.Pack(vs[1..], rs[1..]);
    assert p1 == c.writeEnable + 2 * p2 by {
      BitFields.PackSuffix(vs, rs, 1);
    }
    assert BitFields.Pack(vs, rs) == c.enabled + 2 * p1;
  }

  /** The ctypes getter of a bit-field: shift `flags` down to the field and mask it to its width. */
  function ReadField(w: uint16, f: Field): (v: nat)
    ensures v < Radix(f)
  {
    (w / Weight(f)) % Radix(f)
  }

  /** Where each field is read from: Enabled is bit 0, WriteEnable bit 1,
      Clause45Enable bit 2, status bits 3-4, reserved bits 5-7, BusIndex bits 8-11
      and version bits 12-15 of `flags`. */
  lemma FieldPositions(w: uint16)
    ensures Unpack(w).enabled == w % 2
    ensures Unpack(w).writeEnable == (w / 2) % 2
    ensures Unpack(w).clause45Enable == (w / 4) % 2
    ensures Unpack(w).status == (w / 8) % 4
    ensures Unpack(w).reserved == (w / 32) % 8
    ensures Unpack(w).busIndex == (w / 256) % 16
    ensures Unpack(w).version == (w / 4096) % 16
  {
    var c := Unpack(w);
    assert c.enabled == Get(c, Enabled) == ReadField(w, Enabled);
    assert c.writeEnable == Get(c, WriteEnable) == ReadField(w, WriteEnable);
    assert c.clause45Enable == Get(c, Clause45Enable) == ReadField(w, Clause45Enable);
    assert c.status == Get(c, Status) == ReadField(w, Status);
    assert c.reserved == Get(c, Reserved) == ReadField(w, Reserved);
    assert c.busIndex == Get(c, BusIndex) == ReadField(w, BusIndex);
    assert c.version == Get(c, Version) == ReadField(w, Version);
  }

  /** Field i of the mixed-radix digits of w is what the getter of field i reads. */
  lemma DigitsAreReads(w: uint16)
    ensures forall f :: BitFields.Unpack(w, Radices)[Index(f)] == ReadField(w, f)
  {
    forall f
      ensures BitFields.Unpack(w, Radices)[Index(f)] == ReadField(w, f)
    {
      Geometry(f);
      BitFields.FieldAt(w, Radices, Index(f));
    }
  }

  /** The bit-field view of a raw `flags` value. */
  function Unpack(w: uint16): (c: Control)
    ensures Valid(c)
    ensures forall f :: Get(c, f) == ReadField(w, f)
  {
    var c := FromValues(BitFields.Unpack(w, Radices));
    DigitsAreReads(w);
    ValidFits(c);
    c
  }

  /** Reading the fields of a packed tuple gives the tuple back: every in-range
      field value survives, including all eight values of the uninterpreted `reserved`.
      This is the contract of `Pack`, named as the round trip it is. */
  lemma UnpackPack(c: Control)
    requires Valid(c)
    ensures Unpack(Pack(c)) == c
  {
  }

  /** Repacking the fields read from any `flags` value gives that value back:
      the two views of the union are the same 16 bits. */
  lemma PackUnpack(w: uint16)
    ensures Pack(Unpack(w)) == w
  {
    WordCapacity();
    BitFields.PackUnpack(w, Radices);
    assert Values(Unpack(w)) == BitFields.Unpack(w, Radices);
  }

  /** The two views determine each other: a raw word and a field tuple describe
      the same bits exactly when the tuple is the word's unpacking. */
  lemma ViewsAgree(w: uint16, c: Control)
    requires Valid(c)
    ensures Pack(c) == w <==> Unpack(w) == c
  {
    UnpackPack(c);
    PackUnpack(w);
  }

  /** The ctypes setter of a bit-field: the value is truncated to the field's width
      (two's complement, so a negative value wraps as well), the field's bits of
      `flags` are cleared, and the truncated value is placed in them. Every other
      field reads back unchanged. */
  function WriteField(w: uint16, f: Field, v: int): (w': uint16)
    ensures ReadField(w', f) == v % Radix(f)
    ensures forall g :: g != f ==> ReadField(w', g) == ReadField(w, g)
    ensures Unpack(w') == With(Unpack(w), f, v % Radix(f))
  {
    var place := Weight(f);
    var truncated := v % Radix(f);
    WriteIsRepack(w, f, truncated);
    UnpackPack(With(Unpack(w), f, truncated));
    w - ReadField(w, f) * place + truncated * place
  }

  /** Clearing digit i of a word's mixed-radix digits and inserting v there is
      repacking the digits with digit i replaced. */
  lemma RepackDigit(w: uint16, i: nat, v: nat)
    requires i < |Radices| && v < Radices[i]
    ensures BitFields.Fits(BitFields.Unpack(w, Radices)[i := v], Radices)
    ensures BitFields.Pack(BitFields.Unpack(w, Radices)[i := v], Radices)
         == w - BitFields.Unpack(w, Radices)[i] * BitFields.Place(Radices, i) + v * BitFields.Place(Radices, i)
  {
    var vs := BitFields.Unpack(w, Radices);
    BitFields.PackUpdate(vs, Radices, i, v);
    WordCapacity();
    BitFields.PackUnpack(w, Radices);
    Rebase(BitFields.Pack(vs[i := v], Radices), w, v, vs[i], BitFields.Place(Radices, i));
  }

  /** Clearing a field and inserting v is repacking the fields with that one field replaced. */
  lemma WriteIsRepack(w: uint16, f: Field, v: nat)
    requires v < Radix(f)
    ensures Valid(With(Unpack(w), f, v))
    ensures w - ReadField(w, f) * Weight(f) + v * Weight(f) == Pack(With(Unpack(w), f, v))
  {
    var i := Index(f);
    var vs := BitFields.Unpack(w, Radices);
    var c' := With(Unpack(w), f, v);
    assert Weight(f) == BitFields.Place(Radices, i) && ReadField(w, f) == vs[i] by {
      Geometry(f);
      DigitsAreReads(w);
    }
    RepackDigit(w, i, v);
    assert Values(c') == vs[i := v];
    ValidFits(c');
  }
}
