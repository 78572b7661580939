/**
 Packed bit-fields allocated least-significant bit first, as ctypes lays out
 the fields of a `Structure` on a little-endian host: field 0 takes the
 lowest bits of the word, field 1 the bits just above, and so on.

 A field of width k holds a digit of radix 2^k, so a layout is described
 here by the radix of each field (`rs`), and a word is the mixed-radix
 number whose digits are the field values. `Pack` and `Unpack` are written
 in Horner form (peel off the lowest field, recurse on the rest); `FieldAt`
 ties `Unpack` to the shift-and-mask reading `(w / place) % radix`, and
 `PackUpdate` ties `Pack` to the mask-and-insert writing.
 */
module BitFields {
  import opened Arith

  /** The number of distinct values of a field: 2^width, never zero. */
  type Radix = r: int | r >= 1 witness 1

  /** The number of distinct words a layout can hold. */
  function Capacity(rs: seq<Radix>): (c: Radix)
  {
    if |rs| == 0 then 1
    else
      var tail := Capacity(rs[1..]);
      MulAtLeast(tail, rs[0]);
      rs[0] * tail
  }

  /** The weight of the lowest bit of field i: the capacity of the fields below it. */
  function Place(rs: seq<Radix>, i: nat): Radix
    requires i <= |rs|
  {
    Capacity(rs[..i])
  }

  /** Every value fits in its field. */
  predicate Fits(vs: seq<nat>, rs: seq<Radix>)
  {
    |vs| == |rs| && forall i :: 0 <= i < |vs| ==> vs[i] < rs[i]
  }

  /** The word whose fields hold vs. */
  function Pack(vs: seq<nat>, rs: seq<Radix>): (w: nat)
    requires Fits(vs, rs)
    ensures w < Capacity(rs)
  {
    if |rs| == 0 then 0
    else
      var rest := Pack(vs[1..], rs[1..]);
      HornerBound(vs[0], rs[0], rest, Capacity(rs[1..]));
      vs[0] + rs[0] * rest
  }

  /** The fields of word w, lowest first; bits above the layout are dropped. */
  function Unpack(w: nat, rs: seq<Radix>): (vs: seq<nat>)
    ensures Fits(vs, rs)
  {
    if |rs| == 0 then []
    else [w % rs[0]] + Unpack(w / rs[0], rs[1..])
  }

  lemma {:induction false} CapacityAppend(rs: seq<Radix>, r: Radix)
    ensures Capacity(rs + [r]) == Capacity(rs) * r
  {
    if |rs| > 0 {
      assert (rs + [r])[1..] == rs[1..] + [r];
      CapacityAppend(rs[1..], r);
    }
  }

  /** Consecutive fields are adjacent: field i+1 starts where field i ends. */
  lemma PlaceStep(rs: seq<Radix>, i: nat)
    requires i < |rs|
    ensures Place(rs, i + 1) == Place(rs, i) * rs[i]
  {
    assert rs[..i + 1] == rs[..i] + [rs[i]];
    CapacityAppend(rs[..i], rs[i]);
  }

  /** The last field ends at the top of the layout: the fields tile it. */
  lemma PlaceEnd(rs: seq<Radix>)
    ensures Place(rs, |rs|) == Capacity(rs)
  {
    assert rs[..|rs|] == rs;
  }

  lemma PlaceTail(rs: seq<Radix>, i: nat)
    requires 0 < i <= |rs|
    ensures Place(rs, i) == rs[0] * Place(rs[1..], i - 1)
  {
    assert rs[..i][1..] == rs[1..][..i - 1];
  }

  /** Packing the fields from k upwards is one Horner step on packing them from k+1 upwards. */
  lemma PackSuffix(vs: seq<nat>, rs: seq<Radix>, k: nat)
    requires Fits(vs, rs) && k < |rs|
    ensures Fits(vs[k..], rs[k..]) && Fits(vs[k + 1..], rs[k + 1..])
    ensures Pack(vs[k..], rs[k..]) == vs[k] + rs[k] * Pack(vs[k + 1..], rs[k + 1..])
  {
    assert vs[k..][1..] == vs[k + 1..];
    assert rs[k..][1..] == rs[k + 1..];
  }

  /** Unpacking a packed word gives back every field. */
  lemma {:induction false} UnpackPack(vs: seq<nat>, rs: seq<Radix>)
    requires Fits(vs, rs)
    ensures Unpack(Pack(vs, rs), rs) == vs
  {
    if |rs| > 0 {
      var rest := Pack(vs[1..], rs[1..]);
      DivModUnique(Pack(vs, rs), rs[0], rest, vs[0]);
      UnpackPack(vs[1..], rs[1..]);
      assert vs == [vs[0]] + vs[1..];
    }
  }

  /** Packing the fields of a word that fits the layout gives back the word. */
  lemma {:induction false} PackUnpack(w: nat, rs: seq<Radix>)
    requires w < Capacity(rs)
    ensures Pack(Unpack(w, rs), rs) == w
    decreases rs
  {
    if |rs| > 0 {
      DivBelow(w, rs[0], Capacity(rs[1..]));
      PackUnpack(w / rs[0], rs[1..]);
      var vs := Unpack(w, rs);
      assert vs[1..] == Unpack(w / rs[0], rs[1..]);
      DivModSplit(w, rs[0]);
    }
  }

  /** Field i of the unpacked word is the word shifted down to the field's place, reduced to its radix. */
  lemma {:induction false} FieldAt(w: nat, rs: seq<Radix>, i: nat)
    requires i < |rs|
    ensures Unpack(w, rs)[i] == (w / Place(rs, i)) % rs[i]
    decreases i
  {
    if i == 0 {
      assert rs[..0] == [];
    } else {
      FieldAt(w / rs[0], rs[1..], i - 1);
      PlaceTail(rs, i);
      DivDiv(w, rs[0], Place(rs[1..], i - 1));
    }
  }

  /** Replacing field i by v moves the word by (v - old value) times the field's place. */
  lemma {:induction false} PackUpdate(vs: seq<nat>, rs: seq<Radix>, i: nat, v: nat)
    requires Fits(vs, rs) && i < |rs| && v < rs[i]
    ensures Fits(vs[i := v], rs)
    ensures Pack(vs[i := v], rs) == Pack(vs, rs) + (v - vs[i]) * Place(rs, i)
  {
    assert Fits(vs[i := v], rs);
    if i == 0 {
      assert rs[..0] == [];
      assert vs[i := v][1..] == vs[1..];
    } else {
      var q := Place(rs[1..], i - 1);
      PackUpdate(vs[1..], rs[1..], i - 1, v);
      assert vs[i := v][1..] == vs[1..][i - 1 := v];
      PlaceTail(rs, i);
      var restNew := Pack(vs[1..][i - 1 := v], rs[1..]);
      var restOld := Pack(vs[1..], rs[1..]);
      assert restNew == restOld + (v - vs[i]) * q;
      ScaleShift(rs[0], restNew, restOld, v - vs[i], q);
    }
  }
}
