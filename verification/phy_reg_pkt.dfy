/**
 The PHY register-access packet `s_phy_reg_pkt` (ics/structures/s_phy_reg_pkt.py):
 the 16-bit control word (`Nameless3555`) followed directly by a union
 (`Nameless45381`) of a Clause 22 and a Clause 45 MDIO message.

 The union carries no tag of its own; the `Clause45Enable` bit of the control
 word, which lies outside the union, says which member is meaningful. Here the
 body is a closed sum type, and `Encode`/`Decode` translate between it and
 the packet's bytes:

   bytes 0-1   `flags`, low byte first
   bytes 2..   the body union: the active message, then zero padding up to
               the size of the larger message

 The two message structures are not part of this model: each is an opaque
 byte string whose size is a parameter (`Layout`).
 */
module PhyRegPkt {
  import opened Wrappers
  import CW = ControlWord
  import Arith

  type byte = b: int | 0 <= b < 0x100

  /** Sizes in bytes of `PhyRegPktClause22Mess_t` and `PhyRegPktClause45Mess_t`. */
  datatype Layout = Layout(clause22Size: nat, clause45Size: nat)

  /** The size of the body union: that of its larger member. */
  function BodySize(l: Layout): (n: nat)
    ensures n >= l.clause22Size && n >= l.clause45Size
    ensures n == l.clause22Size || n == l.clause45Size
  {
    if l.clause22Size >= l.clause45Size then l.clause22Size else l.clause45Size
  }

  /** The size of the whole packet: the 2-byte control word and the body union. */
  function PacketSize(l: Layout): nat
  {
    2 + BodySize(l)
  }

  /** The meaningful member of the body union. */
  datatype Body = Clause22(msg: seq<byte>) | Clause45(msg: seq<byte>)

  /** The `Clause45Enable` value that selects this body variant. */
  function Tag(b: Body): nat
  {
    if b.Clause45? then 1 else 0
  }

  /** The message has the size of its structure. */
  predicate WellSized(l: Layout, b: Body)
  {
    match b
    case Clause22(m) => |m| == l.clause22Size
    case Clause45(m) => |m| == l.clause45Size
  }

  /** A decoded packet: the bit-field view of the control word and the selected body. */
  datatype Packet = Packet(control: CW.Control, body: Body)

  datatype CodecError =
    | MalformedPacket   // the buffer is not exactly one packet long
    | InconsistentTag   // Clause45Enable does not name the supplied body variant

  /** A 16-bit word as two bytes, low byte first. */
  function WordBytes(w: CW.uint16): (bs: seq<byte>)
    ensures |bs| == 2 && bs[0] as int + 0x100 * bs[1] as int == w
  {
    [w % 0x100, w / 0x100]
  }

  /** The 16-bit word stored low byte first in b0, b1. */
  function WordOf(b0: byte, b1: byte): (w: CW.uint16)
    ensures WordBytes(w) == [b0, b1]
  {
    b0 as int + 0x100 * b1 as int
  }

  function Zeros(n: nat): (z: seq<byte>)
    ensures |z| == n
    ensures forall i :: 0 <= i < n ==> z[i] == 0
  {
    seq(n, _ => 0)
  }

  /** The bytes of a packet whose control word is c and whose union holds body.
      The shorter message is followed by zero bytes, as in a freshly created
      (zero-filled) ctypes structure. */
  function Encode(l: Layout, c: CW.Control, body: Body): (r: Result<seq<byte>, CodecError>)
    requires CW.Valid(c) && WellSized(l, body)
    ensures r.Failure? <==> c.clause45Enable != Tag(body)
    ensures r.Failure? ==> r.error == InconsistentTag
    ensures r.Success? ==> |r.value| == PacketSize(l)
    ensures r.Success? ==> r.value[0] as int + 0x100 * r.value[1] as int == CW.Pack(c)
    ensures r.Success? ==> r.value[2..2 + |body.msg|] == body.msg
    ensures r.Success? ==> forall i :: 2 + |body.msg| <= i < |r.value| ==> r.value[i] == 0
  {
    if c.clause45Enable != Tag(body) then Failure(InconsistentTag)
    else Success(WordBytes(CW.Pack(c)) + body.msg + Zeros(BodySize(l) - |body.msg|))
  }

  /** The packet held by a buffer: the control word from its first two bytes, and
      the body member that Clause45Enable selects, read from the union's bytes. */
  function Decode(l: Layout, bytes: seq<byte>): (r: Result<Packet, CodecError>)
    ensures r.Failure? <==> |bytes| != PacketSize(l)
    ensures r.Failure? ==> r.error == MalformedPacket
    ensures r.Success? ==> CW.Valid(r.value.control)
    ensures r.Success? ==> CW.Pack(r.value.control) == bytes[0] as int + 0x100 * bytes[1] as int
    ensures r.Success? ==> r.value.control.clause45Enable == (bytes[0] / 4) % 2
    ensures r.Success? ==> (r.value.body.Clause45? <==> r.value.control.clause45Enable == 1)
    ensures r.Success? ==> WellSized(l, r.value.body)
    ensures r.Success? ==> r.value.body.msg == bytes[2..2 + |r.value.body.msg|]
  {
    if |bytes| != PacketSize(l) then Failure(MalformedPacket)
    else
      var c := CW.Unpack(WordOf(bytes[0], bytes[1]));
      ControlFromBytes(bytes[0], bytes[1]);
      var union := bytes[2..];
      var body := if c.clause45Enable == 1 then Clause45(union[..l.clause45Size])
                  else Clause22(union[..l.clause22Size]);
      Success(Packet(c, body))
  }

  /** The control word read from its two bytes: a valid field tuple that repacks to
      those bytes, whose Clause45Enable is bit 2 of the low byte. */
  lemma ControlFromBytes(b0: byte, b1: byte)
    ensures CW.Valid(CW.Unpack(WordOf(b0, b1)))
    ensures CW.Pack(CW.Unpack(WordOf(b0, b1))) == b0 as int + 0x100 * b1 as int
    ensures CW.Unpack(WordOf(b0, b1)).clause45Enable == (b0 / 4) % 2
  {
    var w := WordOf(b0, b1);
    CW.PackUnpack(w);
    var bit := (w / 4) % 2;
    assert CW.Unpack(w).clause45Enable == bit by {
      CW.FieldPositions(w);
    }
    assert bit == (b0 / 4) % 2 by {
      LowByteBit2(b0, b1);
    }
  }

  /** Bit 2 of a little-endian word is bit 2 of its low byte. */
  lemma LowByteBit2(b0: int, b1: int)
    requires 0 <= b0 < 0x100
    ensures ((b0 + 0x100 * b1) / 4) % 2 == (b0 / 4) % 2
  {
    var w := b0 + 0x100 * b1;
    Arith.DivModUnique(w, 4, b0 / 4 + 0x40 * b1, b0 % 4);
    Arith.DivModUnique(b0 / 4 + 0x40 * b1, 2, b0 / 8 + 0x20 * b1, (b0 / 4) % 2);
  }

  /** Round trip: decoding an encoded packet gives back the control word and the
      body it was built from, whenever Clause45Enable names the body's variant. */
  lemma DecodeEncode(l: Layout, c: CW.Control, body: Body)
    requires CW.Valid(c) && WellSized(l, body) && c.clause45Enable == Tag(body)
    ensures Encode(l, c, body).Success?
    ensures Decode(l, Encode(l, c, body).value) == Success(Packet(c, body))
  {
    var bytes := Encode(l, c, body).value;
    assert WordOf(bytes[0], bytes[1]) == CW.Pack(c);
    CW.UnpackPack(c);
    var union := bytes[2..];
    assert union[..|body.msg|] == body.msg;
  }

  /** Re-encoding a decoded buffer reproduces the control word and the active
      message; it reproduces the whole buffer exactly when the union bytes beyond
      the active message are zero (the untaken variant's extra bytes are not kept). */
  lemma EncodeDecode(l: Layout, bytes: seq<byte>)
    requires Decode(l, bytes).Success?
    ensures var p := Decode(l, bytes).value;
      && Encode(l, p.control, p.body).Success?
      && Encode(l, p.control, p.body).value[..2 + |p.body.msg|] == bytes[..2 + |p.body.msg|]
    ensures var p := Decode(l, bytes).value;
      Encode(l, p.control, p.body) == Success(bytes)
      <==> forall i :: 2 + |p.body.msg| <= i < |bytes| ==> bytes[i] == 0
  {
    var p := Decode(l, bytes).value;
    var n := 2 + |p.body.msg|;
    DecodeParts(l, bytes);
    assert CW.Pack(p.control) == WordOf(bytes[0], bytes[1]) by {
      ControlFromBytes(bytes[0], bytes[1]);
    }
    var zeros := Zeros(BodySize(l) - |p.body.msg|);
    var out := Encode(l, p.control, p.body).value;
    assert out == bytes[..2] + bytes[2..n] + zeros by {
      assert WordBytes(CW.Pack(p.control)) == bytes[..2];
      assert p.body.msg == bytes[2..n];
    }
    assert bytes == bytes[..2] + bytes[2..n] + bytes[n..];
    assert out[..n] == bytes[..n] by {
      assert out[..n] == bytes[..2] + bytes[2..n];
      assert bytes[..n] == bytes[..2] + bytes[2..n];
    }
    assert out == bytes <==> bytes[n..] == zeros;
    assert bytes[n..] == zeros <==> forall i :: n <= i < |bytes| ==> bytes[i] == 0 by {
      if forall i :: n <= i < |bytes| ==> bytes[i] == 0 {
        assert forall k :: 0 <= k < |zeros| ==> bytes[n..][k] == bytes[n + k];
      }
      if bytes[n..] == zeros {
        forall i | n <= i < |bytes|
          ensures bytes[i] == 0
        {
          assert bytes[i] == bytes[n..][i - n];
        }
      }
    }
  }

  /** The union member a packet's body is read from: the Clause 22 member when
      Clause45Enable is 0, the Clause 45 member when it is 1 — whatever the union's bytes hold. */
  lemma TagSelectsVariant(l: Layout, bytes: seq<byte>)
    requires |bytes| == PacketSize(l)
    ensures Decode(l, bytes).Success?
    ensures (bytes[0] / 4) % 2 == 0 ==> Decode(l, bytes).value.body == Clause22(bytes[2..2 + l.clause22Size])
    ensures (bytes[0] / 4) % 2 == 1 ==> Decode(l, bytes).value.body == Clause45(bytes[2..2 + l.clause45Size])
  {
    var union := bytes[2..];
    assert union[..l.clause22Size] == bytes[2..2 + l.clause22Size];
    assert union[..l.clause45Size] == bytes[2..2 + l.clause45Size];
  }

  /** The buffer with Clause45Enable toggled and every other bit kept. */
  function ToggleTag(bytes: seq<byte>): (t: seq<byte>)
    requires |bytes| >= 2
    ensures |t| == |bytes| && t[2..] == bytes[2..]
  {
    var w := WordOf(bytes[0], bytes[1]);
    var tag := CW.ReadField(w, CW.Clause45Enable);
    WordBytes(CW.WriteField(w, CW.Clause45Enable, 1 - tag)) + bytes[2..]
  }

  /** What `Decode` reads from a buffer of the right length: the control word
      from bytes 0-1, and the selected member from the union's leading bytes. */
  lemma DecodeParts(l: Layout, bytes: seq<byte>)
    requires |bytes| == PacketSize(l)
    ensures var c := CW.Unpack(WordOf(bytes[0], bytes[1]));
      Decode(l, bytes) == Success(Packet(c,
        if c.clause45Enable == 1 then Clause45(bytes[2..2 + l.clause45Size])
        else Clause22(bytes[2..2 + l.clause22Size])))
  {
    var union := bytes[2..];
    assert union[..l.clause22Size] == bytes[2..2 + l.clause22Size];
    assert union[..l.clause45Size] == bytes[2..2 + l.clause45Size];
  }

  /** Toggling the tag through the setter flips Clause45Enable in the control
      word read back, and keeps every other field. */
  lemma ToggleControl(bytes: seq<byte>)
    requires |bytes| >= 2
    ensures var c := CW.Unpack(WordOf(bytes[0], bytes[1]));
      var t := ToggleTag(bytes);
      && CW.Unpack(WordOf(t[0], t[1])) == CW.With(c, CW.Clause45Enable, 1 - c.clause45Enable)
      && CW.Unpack(WordOf(t[0], t[1])).clause45Enable == 1 - c.clause45Enable
  {
    var t := ToggleTag(bytes);
    var w := WordOf(bytes[0], bytes[1]);
    var c := CW.Unpack(w);
    var tag := CW.ReadField(w, CW.Clause45Enable);
    var w' := CW.WriteField(w, CW.Clause45Enable, 1 - tag);
    assert WordOf(t[0], t[1]) == w' by {
      var bs := WordBytes(w');
      assert t == bs + bytes[2..];
      assert t[0] == bs[0] && t[1] == bs[1];
    }
    assert c.clause45Enable == tag by {
      assert CW.Get(c, CW.Clause45Enable) == tag;
    }
    assert (1 - tag) % 2 == 1 - tag;
    var c' := CW.With(c, CW.Clause45Enable, 1 - tag);
    assert c'.clause45Enable == 1 - tag by {
      assert CW.Get(c', CW.Clause45Enable) == 1 - tag;
    }
  }

  /** The two body members share one storage region: toggling the tag bit reads
      the other member, every other control field is unchanged, and both
      messages are read from the same bytes, so they agree on their common prefix. */
  lemma SharedStorage(l: Layout, bytes: seq<byte>)
    requires |bytes| == PacketSize(l)
    ensures Decode(l, bytes).Success? && Decode(l, ToggleTag(bytes)).Success?
    ensures var p, q := Decode(l, bytes).value, Decode(l, ToggleTag(bytes)).value;
      && q.body.Clause45? == !p.body.Clause45?
      && q.control == CW.With(p.control, CW.Clause45Enable, 1 - p.control.clause45Enable)
      && forall i :: 0 <= i < |p.body.msg| && i < |q.body.msg| ==> p.body.msg[i] == q.body.msg[i]
  {
    var t := ToggleTag(bytes);
    ToggleControl(bytes);
    DecodeParts(l, bytes);
    DecodeParts(l, t);
    var m, n := Decode(l, bytes).value.body.msg, Decode(l, t).value.body.msg;
    assert m == bytes[2..][..|m|] && n == bytes[2..][..|n|];
  }

  /** Reserved bits are carried, never interpreted: each of the eight values of
      `reserved` survives an encode/decode round trip unchanged. */
  lemma ReservedTransparent(l: Layout, c: CW.Control, body: Body, r: nat)
    requires CW.Valid(c) && WellSized(l, body) && c.clause45Enable == Tag(body) && r < 8
    ensures CW.Valid(CW.With(c, CW.Reserved, r))
    ensures Encode(l, CW.With(c, CW.Reserved, r), body).Success?
    ensures Decode(l, Encode(l, CW.With(c, CW.Reserved, r), body).value).value.control.reserved == r
  {
    var c' := CW.With(c, CW.Reserved, r);
    assert c'.reserved == CW.Get(c', CW.Reserved) == r;
    assert c'.clause45Enable == CW.Get(c', CW.Clause45Enable) == CW.Get(c, CW.Clause45Enable);
    DecodeEncode(l, c', body);
  }

  /** A read on MDIO bus 3 with packet version 1: the control word is 0x1301,
      sent as 0x01, 0x13, and the packet decodes back to what was encoded. */
  lemma Bus3ReadExample(l: Layout, m: seq<byte>)
    requires |m| == l.clause22Size
    ensures var c := CW.Control(1, 0, 0, 0, 0, 3, 1);
      && Encode(l, c, Clause22(m)).Success?
      && Encode(l, c, Clause22(m)).value[..2] == [0x01, 0x13]
      && Decode(l, Encode(l, c, Clause22(m)).value) == Success(Packet(c, Clause22(m)))
  {
    var c := CW.Control(1, 0, 0, 0, 0, 3, 1);
    CW.PackPositions(c);
    assert CW.Pack(c) == 0x1301;
    DecodeEncode(l, c, Clause22(m));
  }
}
