# PHY register packet and LIN frame arithmetic, in Dafny

This project models two pieces of pure logic from the python_ics library.

1. **The PHY register-access packet `s_phy_reg_pkt`** (`ics/structures/s_phy_reg_pkt.py`).
   The packet starts with a 16-bit control word. The word is declared two ways at once:
   as seven `c_uint16` bit-fields (`Nameless18906`) and as a raw `flags` word (the union `Nameless3555`).
   A second union (`Nameless45381`) follows, holding either a Clause 22 or a Clause 45 MDIO message.
   The `Clause45Enable` bit of the control word says which member is meaningful.
   - `BitFields` is generic least-significant-bit-first field packing, the way ctypes allocates bit-fields on a little-endian host. Fields are mixed-radix digits.
   - `ControlWord` gives the seven-field layout. It has `Pack`/`Unpack` between the field tuple and `flags`, plus the ctypes getter (`ReadField`) and setter (`WriteField`) of a bit-field member.
   - `PhyRegPkt` treats the packet as an externally tagged sum type. `Encode` turns a control word and a `Clause22 | Clause45` body into the packet's bytes, and `Decode` turns the bytes back into them.
2. **The LIN frame arithmetic of `tests/runner/test_lin_networks.py`.**
   - `LinChecksum` covers the classic checksum of section 2.3.1.5 of the LIN 2.1 Protocol Specification: an eight-bit sum with carry, inverted and appended to the slave frame's data.
   - `NetId` covers the split of a network id into the `NetworkID` and `NetworkID2` fields, and the receiver's recombination with `<<` and `|`.

`Arith` holds the integer facts these modules share. `Wrappers` holds the `Result` type.

The source has no encoder, decoder or validity check of its own. ctypes simply overlays the declared fields on a buffer. `Encode` and `Decode` are the codec contract that this layout implies:
- a buffer of the wrong length is a `MalformedPacket`;
- a body whose variant disagrees with `Clause45Enable` is an `InconsistentTag`.

Neither error exists in the Python code.

## Model

| member | source | states |
|---|---|---|
| BitFields.Pack | ics/structures/s_phy_reg_pkt.py:9-18 | a word built from in-range field values fits in the layout's capacity |
| BitFields.UnpackPack | ics/structures/s_phy_reg_pkt.py:9-18 | reading back the fields of a packed word gives every field value back, for any layout |
| BitFields.PackUnpack | ics/structures/s_phy_reg_pkt.py:9-18 | any word below the layout's capacity is rebuilt exactly from its fields |
| BitFields.FieldAt | ics/structures/s_phy_reg_pkt.py:9-18 | field i of a word is the word shifted down to the field's place, masked to the field's radix |
| BitFields.PackUpdate | ics/structures/s_phy_reg_pkt.py:9-18 | replacing one field by an in-range value moves the word by (new - old) times that field's place, and nothing else changes |
| ControlWord.BitOffset | ics/structures/s_phy_reg_pkt.py:11-17 | the fields start at bits 0, 1, 2, 3, 5, 8, 12, and each one ends within the 16 bits |
| ControlWord.Tiling | ics/structures/s_phy_reg_pkt.py:11-17 | the widths 1+1+1+2+3+4+4 sum to 16; the first field starts at bit 0; each field starts where the previous one ends; the last ends at bit 16, so there is no gap or overlap |
| ControlWord.WordCapacity | ics/structures/s_phy_reg_pkt.py:11-17 | the seven fields together hold exactly 2^16 distinct words: one `c_uint16` |
| ControlWord.Geometry | ics/structures/s_phy_reg_pkt.py:11-17 | each field's radix is 2^width, and its weight is 2^offset, which is the product of the radices below it |
| ControlWord.Pack | ics/structures/s_phy_reg_pkt.py:22-27 | the `flags` value of an in-range field tuple reads back, through the bit-field view, as exactly that tuple; its explicit bit positions are stated by ControlWord.PackPositions |
| ControlWord.PackPositions | ics/structures/s_phy_reg_pkt.py:11-17 | `flags` = Enabled + 2·WriteEnable + 4·Clause45Enable + 8·status + 32·reserved + 256·BusIndex + 4096·version |
| ControlWord.ReadField | ics/structures/s_phy_reg_pkt.py:11-17 | a field read is below 2^width: the one-bit fields are 0 or 1, status < 4, reserved < 8, BusIndex < 16, version < 16 |
| ControlWord.FieldPositions | ics/structures/s_phy_reg_pkt.py:11-17 | each field of the unpacked word is read from its own bits of `flags` (Clause45Enable = (flags / 4) % 2, and so on) |
| ControlWord.Unpack | ics/structures/s_phy_reg_pkt.py:22-27 | the bit-field view of any `flags` value is an in-range field tuple, and each field equals the getter's read |
| ControlWord.UnpackPack | ics/structures/s_phy_reg_pkt.py:11-27 | for every in-range field tuple, unpack(pack(f)) == f, including all eight values of reserved |
| ControlWord.PackUnpack | ics/structures/s_phy_reg_pkt.py:22-27 | for every 16-bit `flags` value w, pack(unpack(w)) == w |
| ControlWord.ViewsAgree | ics/structures/s_phy_reg_pkt.py:22-27 | a raw word and an in-range field tuple are the same bits exactly when either one maps to the other |
| ControlWord.WriteField | ics/structures/s_phy_reg_pkt.py:11-17 | setting a field stores the value truncated to the field's width; the other six fields read back unchanged; the new word's field view is the old one with only that field replaced |
| ControlWord.WriteIsRepack | ics/structures/s_phy_reg_pkt.py:11-17 | clearing a field's bits and inserting an in-range value is repacking the field tuple with that one field replaced |
| PhyRegPkt.BodySize | ics/structures/s_phy_reg_pkt.py:31-35 | the body union is as large as its larger member, and that size is one of the two members' sizes |
| PhyRegPkt.WordBytes | ics/structures/s_phy_reg_pkt.py:39-44 | the control word is stored as two bytes, low byte first |
| PhyRegPkt.WordOf | ics/structures/s_phy_reg_pkt.py:39-44 | the 16-bit word read from two bytes is the one whose low-byte-first storage is exactly those bytes; the control tuple it gives is stated by PhyRegPkt.ControlFromBytes |
| PhyRegPkt.Encode | ics/structures/s_phy_reg_pkt.py:39-44 | encoding fails, with InconsistentTag, exactly when Clause45Enable does not name the body variant; on success the packet is 2 + max(sizes) bytes long: the control word low byte first, then the message, then zero bytes |
| PhyRegPkt.Decode | ics/structures/s_phy_reg_pkt.py:39-44 | decoding fails, with MalformedPacket, exactly when the length is not 2 + max(sizes); on success the control tuple repacks to the first two bytes; Clause45Enable is bit 2 of byte 0; the body is Clause 45 exactly when that bit is 1; the message is the union's leading bytes, of its structure's size |
| PhyRegPkt.ControlFromBytes | ics/structures/s_phy_reg_pkt.py:13 | the control word read from two bytes is in range, repacks to those bytes, and its Clause45Enable is bit 2 of the low byte |
| PhyRegPkt.DecodeEncode | ics/structures/s_phy_reg_pkt.py:39-44 | decode(encode(ctrl, body)) == (ctrl, body) whenever the tag agrees with the variant |
| PhyRegPkt.EncodeDecode | ics/structures/s_phy_reg_pkt.py:39-44 | re-encoding a decoded buffer reproduces its control word and active message; it reproduces the whole buffer exactly when the union bytes past the active message are zero |
| PhyRegPkt.TagSelectsVariant | ics/structures/s_phy_reg_pkt.py:31-35 | with the tag clear, a buffer always decodes to the Clause 22 member; with it set, always to the Clause 45 member, whatever the union holds |
| PhyRegPkt.ToggleTag | ics/structures/s_phy_reg_pkt.py:13 | flipping Clause45Enable through the setter leaves the length and the union's bytes unchanged |
| PhyRegPkt.ToggleControl | ics/structures/s_phy_reg_pkt.py:13 | writing the opposite tag value through the setter flips Clause45Enable in the control word read back and keeps the other six fields |
| PhyRegPkt.SharedStorage | ics/structures/s_phy_reg_pkt.py:31-35 | the two members share one storage region: toggling the tag bit reads the other member, leaves every other control field unchanged, and both messages agree on their common prefix |
| PhyRegPkt.ReservedTransparent | ics/structures/s_phy_reg_pkt.py:15 | each of the eight reserved values survives encode then decode unchanged |
| PhyRegPkt.Bus3ReadExample | ics/structures/s_phy_reg_pkt.py:11-17 | Enabled=1, BusIndex=3, version=1 is the word 0x1301, sent as bytes 0x01 0x13, and it round-trips |
| LinChecksum.AddWithCarry | tests/runner/test_lin_networks.py:61-63 | one loop step keeps a byte-valued total within 0..255 and does not change the total modulo 255 |
| LinChecksum.CarryFold | tests/runner/test_lin_networks.py:60-63 | the folded value of a total is at most 255, congruent to the total modulo 255, and 0 only for a zero total |
| LinChecksum.FoldStep | tests/runner/test_lin_networks.py:60-63 | one loop step on a folded total is the folded total of one more byte |
| LinChecksum.Checksum | tests/runner/test_lin_networks.py:59-63 | over bytes, the running sum with carry stays within 0..255; its value, the carry-folded plain sum, is stated by LinChecksum.ChecksumIsCarryFold |
| LinChecksum.ChecksumIsCarryFold | tests/runner/test_lin_networks.py:59-63 | over bytes, the loop's result is the carry-folded plain sum |
| LinChecksum.ChecksumCongruent | tests/runner/test_lin_networks.py:60-63 | over bytes, the checksum is in 0..255, congruent to the plain sum modulo 255, and 0 only when that sum is 0 |
| LinChecksum.ChecksumSnoc | tests/runner/test_lin_networks.py:60-63 | the checksum of one more byte is one loop step from the previous checksum |
| LinChecksum.ComputeChecksum | tests/runner/test_lin_networks.py:59-63 | the loop computes the checksum; over bytes the running value stays in 0..255 after every step, and the result is congruent to the plain sum modulo 255 |
| LinChecksum.Invert | tests/runner/test_lin_networks.py:64 | `~c & 0xFF` is a byte that adds to c + 1 to give a multiple of 256; for c in 0..255 it is 255 - c |
| LinChecksum.Slice | tests/runner/test_lin_networks.py:60 | Python's slice `s[lo:hi]` clamps out-of-range bounds: it is empty when lo is past the end or hi <= lo, and otherwise it is exactly `s[lo..min(hi, len(s))]` |
| LinChecksum.SummedBytes | tests/runner/test_lin_networks.py:60 | `Data + Header[1:3]` keeps the data in front and adds at most two header bytes: none for a header of length 0 or 1, `Header[1]` for length 2, `Header[1]` and `Header[2]` for longer ones; LinChecksum.OneByteHeaderNotSummed applies it to the one-byte header set at line 54 |
| LinChecksum.OneByteHeaderNotSummed | tests/runner/test_lin_networks.py:54-60 | with the one-byte header set at line 54, `Header[1:3]` is empty, so only the data bytes are summed |
| LinChecksum.AppendChecksum | tests/runner/test_lin_networks.py:64 | `Data` grows by exactly one byte, keeps its original bytes in front, and the new byte is in 0..255 |
| LinChecksum.AppendedByteIsComplement | tests/runner/test_lin_networks.py:64 | over bytes, the appended byte is 255 minus the checksum |
| LinChecksum.ChecksumVerifies | tests/runner/test_lin_networks.py:59-64 | the bytes and the appended inverted checksum sum with carry to 0xFF, the receiver's acceptance value |
| LinChecksum.FrameVerifies | tests/runner/test_lin_networks.py:57-64 | the slave frame the test builds, data plus appended byte, passes the receiver's checksum test |
| LinChecksum.SlaveFrameExample | tests/runner/test_lin_networks.py:57-64 | data 0..7 gets 227 appended |
| NetId.BitOr | tests/runner/test_lin_networks.py:82 | the bitwise or of a and b is at least each operand and at most their sum |
| NetId.BitOrBits | tests/runner/test_lin_networks.py:82 | bit i of the bitwise or of a and b is set exactly when bit i of a or of b is set |
| NetId.BitIsShiftedLowBit | tests/runner/test_lin_networks.py:82 | the bit-by-bit reading of a number agrees with shifting it right by i and taking the lowest bit |
| NetId.OrDisjoint | tests/runner/test_lin_networks.py:82 | or-ing a value below 2^k into a multiple of 2^k is addition |
| NetId.Low | tests/runner/test_lin_networks.py:55 | the byte-wide `NetworkID` field holds a value below 256 |
| NetId.High | tests/runner/test_lin_networks.py:56 | `id >> 8` is the h with 256·h <= id < 256·h + 256, and it is below 256 for a 16-bit id |
| NetId.Combine | tests/runner/test_lin_networks.py:82-84 | shifting `NetworkID2` up by 8 and or-ing in a byte-wide `NetworkID` gives 256·NetworkID2 + NetworkID; the round trips are stated by NetId.SplitCombine and NetId.CombineSplit |
| NetId.SplitCombine | tests/runner/test_lin_networks.py:82 | the recombination at line 82 of the slave fields set at lines 55-56 (shifting `NetworkID2` up by 8 and or-ing in `NetworkID`) gives back the id; for a 16-bit id the high part also fits a byte |
| NetId.CombineSplit | tests/runner/test_lin_networks.py:82-84 | joining a high part and a byte, then splitting again, gives back both |
| NetId.NetIdMatch | tests/runner/test_lin_networks.py:82-86 | two messages' joined ids are equal exactly when both their id fields are equal |
| NetId.SplitInjective | tests/runner/test_lin_networks.py:55-56 | two ids are equal exactly when their two split fields are equal |

## Left out

- The inner layouts of `PhyRegPktClause22Mess_t` and `PhyRegPktClause45Mess_t` are not part of this model. Their files are not included. Each message is an opaque byte string, and its size is the `Layout` parameter.
- ctypes ABI details are not modelled. The model uses the least-significant-bit-first bit-field order of little-endian hosts, places the body union directly after the two control bytes with no alignment padding, and writes `flags` low byte first. Big-endian hosts and other platform-dependent layouts are out of scope.
- PhyRegPkt.Encode: a message whose length differs from its structure's size is excluded by a precondition rather than reported as an error, because a ctypes structure has a fixed size and cannot hold such a message.
- The bytes of the untaken member beyond the active message are not kept by `Decode`. Re-encoding restores them only when they are zero, and `PhyRegPkt.EncodeDecode` states exactly that.
- NetId.Low: `NetworkID` is taken to be a byte-wide field that silently keeps the low eight bits of the id it is given. Its declaration lives in the C extension, which is not part of this model, so the width and the silent truncation are assumptions.
- NetId.High: `NetworkID2` is modelled as `id >> 8` without truncation. Its field width lives in the C extension, which is not part of this model. `SplitCombine` shows that the high part fits a byte for every 16-bit id.
- Hardware I/O in `tests/runner/test_lin_networks.py` is not modelled: `transmit_messages`, `get_messages`, `get_error_messages` and the `time.sleep` delays are foreign calls.
- The loop that matches received frames against the sent one is not modelled. Its outcome depends on hardware responses. Only its id comparison (`NetIdMatch`) is pure.
- The attribute and type-error behaviour of `SpyMessageJ1850` is not modelled. It belongs to the C extension.
- `tests/runner/test_open_close.py` is not modelled, because it is device enumeration and open/close against real hardware.
- `tests/runner/test_base_t1_network.py` is not modelled, because it launches an external program and changes device settings.
