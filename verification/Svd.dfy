/** Register fields of svd.py. */
module Svd {
  import opened Bits

  datatype Field = Field(name: string, bitOffset: nat, bitWidth: nat) {
    /** `SVDField.decode`: shift, then mask. */
    function Decode(value: int): (d: nat)
      ensures d < Pow2(bitWidth)
    {
      (value / Pow2(bitOffset)) % Pow2(bitWidth)
    }

    ghost function Bits(): set<nat> {
      Range(bitOffset, bitOffset + bitWidth)
    }
  }

  datatype Decoded = Decoded(name: string, value: nat)

  /** `SVDRegister.decode`; the fields of a register are a dictionary, in its insertion order. */
  function DecodeAll(fields: seq<Field>, value: int): seq<Decoded> {
    seq(|fields|, i requires 0 <= i < |fields| => Decoded(fields[i].name, fields[i].Decode(value)))
  }

  /** Each field is decoded in its turn under its own name, and bit `b` of it is bit `bitOffset + b` of the register. */
  lemma DecodedBits(fields: seq<Field>, value: int, i: nat, b: nat)
    requires i < |fields| && b < fields[i].bitWidth
    ensures var decoded := DecodeAll(fields, value);
      && |decoded| == |fields| && decoded[i].name == fields[i].name
      && (Bit(decoded[i].value, b) <==> Bit(value, fields[i].bitOffset + b))
  {
    BitOfField(value, fields[i].bitOffset, fields[i].bitWidth, b);
  }

  /** The decoded fields put back in their places. */
  function Reassemble(fields: seq<Field>, decoded: seq<Decoded>): nat
    requires |decoded| == |fields|
  {
    if fields == [] then 0 else
    var n := |fields| - 1;
    Reassemble(fields[..n], decoded[..n]) + decoded[n].value * Pow2(fields[n].bitOffset)
  }

  ghost predicate PairwiseDisjoint(fields: seq<Field>) {
    forall i, j :: 0 <= i < j < |fields| ==> fields[i].Bits() !! fields[j].Bits()
  }

  ghost function Covered(fields: seq<Field>): set<nat> {
    if fields == [] then {} else Covered(fields[..|fields| - 1]) + fields[|fields| - 1].Bits()
  }

  lemma {:induction false} CoveredBits(fields: seq<Field>, b: nat)
    ensures b in Covered(fields) <==> exists i :: 0 <= i < |fields| && b in fields[i].Bits()
  {
    if fields != [] {
      var n := |fields| - 1;
      CoveredBits(fields[..n], b);
      if b in Covered(fields[..n]) {
        var i :| 0 <= i < n && b in fields[..n][i].Bits();
        assert b in fields[i].Bits();
      }
      if i :| 0 <= i < |fields| && b in fields[i].Bits() {
        if i < n { assert b in fields[..n][i].Bits(); }
      }
    }
  }

  lemma LastDisjoint(fields: seq<Field>)
    requires PairwiseDisjoint(fields) && fields != []
    ensures Covered(fields[..|fields| - 1]) !! fields[|fields| - 1].Bits()
  {
    hide Covered, Range;
    var k := |fields| - 1;
    forall b | b in Covered(fields[..k]) ensures b !in fields[k].Bits() {
      CoveredBits(fields[..k], b);
      var i :| 0 <= i < k && b in fields[..k][i].Bits();
      assert fields[i].Bits() !! fields[k].Bits();
    }
  }

  lemma {:induction false} SumIsBits(fields: seq<Field>, value: int, n: nat)
    requires PairwiseDisjoint(fields)
    requires forall i :: 0 <= i < |fields| ==> fields[i].bitOffset + fields[i].bitWidth <= n
    ensures Reassemble(fields, DecodeAll(fields, value)) == BitSum(value, Covered(fields), n)
  {
    if fields == [] {
      NoBits(value, 0, n);
      assert Range(0, 0) == {};
    } else {
      hide BitSum, Range, Pow2;
      var k := |fields| - 1;
      var rest, last := fields[..k], fields[k];
      SumIsBits(rest, value, n);
      assert DecodeAll(fields, value)[..k] == DecodeAll(rest, value);
      FieldIsBits(value, last.bitOffset, last.bitWidth, n);
      LastDisjoint(fields);
      DisjointBits(value, Covered(rest), last.Bits(), n);
    }
  }

  /** The fields tile bits 0 to n - 1: each of these bits is in a field, and no other. */
  ghost predicate Tiles(fields: seq<Field>, n: nat) {
    && (forall i :: 0 <= i < |fields| ==> fields[i].bitOffset + fields[i].bitWidth <= n)
    && (forall b :: b in Range(0, n) ==> exists i :: 0 <= i < |fields| && b in fields[i].Bits())
  }

  /** Fields that are pairwise disjoint and tile bits 0 to n - 1 decode losslessly, whatever their number and order. */
  lemma DecodeLossless(fields: seq<Field>, value: int, n: nat)
    requires PairwiseDisjoint(fields) && Tiles(fields, n)
    ensures Reassemble(fields, DecodeAll(fields, value)) == value % Pow2(n)
  {
    SumIsBits(fields, value, n);
    forall b | b in Range(0, n) ensures b in Covered(fields) { CoveredBits(fields, b); }
    forall b | b in Covered(fields) ensures b in Range(0, n) { CoveredBits(fields, b); }
    SameBelow(value, Covered(fields), Range(0, n), n);
    AllBits(value, n);
  }

  /** So equal decodings mean equal register values, as far as the fields reach. */
  lemma DecodeInjective(fields: seq<Field>, v: int, w: int, n: nat)
    requires PairwiseDisjoint(fields) && Tiles(fields, n)
    ensures DecodeAll(fields, v) == DecodeAll(fields, w) <==> v % Pow2(n) == w % Pow2(n)
  {
    DecodeLossless(fields, v, n);
    DecodeLossless(fields, w, n);
    if v % Pow2(n) == w % Pow2(n) {
      forall i | 0 <= i < |fields| ensures fields[i].Decode(v) == fields[i].Decode(w) {
        FieldOfMod(v, fields[i].bitOffset, fields[i].bitWidth, n);
        FieldOfMod(w, fields[i].bitOffset, fields[i].bitWidth, n);
      }
    }
  }
}
