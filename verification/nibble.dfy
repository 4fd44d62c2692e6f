/** Nibbles (4-bit values) within bytes, and their packing: the arithmetic
    shared by the CRUSH and EXPAND instructions. */
module Nibbles {

  /** The low four bits of a byte. */
  function Low(v: bv8): (r: bv8)
    ensures r < 16
  {
    v & 0x0F
  }

  /** The high four bits of a byte, shifted down. */
  function High(v: bv8): (r: bv8)
    ensures r < 16
  {
    (v >> 4) & 0x0F
  }

  /** One packed byte: the low nibble of `lo` below the low nibble of `hi`. */
  function Pack(lo: bv8, hi: bv8): (r: bv8)
    ensures Low(r) == Low(lo) && High(r) == Low(hi)
  {
    ((hi & 0x0F) << 4) | (lo & 0x0F)
  }

  /** As numbers, a byte is sixteen times its high nibble plus its low
      nibble: the nibbles are its base-16 digits. */
  lemma NibbleDigits(v: bv8)
    ensures v as int == 16 * High(v) as int + Low(v) as int
    ensures Low(v) as int == v as int % 16 && High(v) as int == v as int / 16
  {
  }

  /** Splitting a byte into nibbles and packing them again gives the byte back. */
  lemma PackUnpack(v: bv8)
    ensures Pack(Low(v), High(v)) == v
  {
  }

  /** Packing two nibbles and splitting the result gives the nibbles back. */
  lemma UnpackPack(lo: bv8, hi: bv8)
    requires lo < 16 && hi < 16
    ensures Low(Pack(lo, hi)) == lo && High(Pack(lo, hi)) == hi
  {
  }

  /** Every byte of `s` is a nibble. */
  predicate AllNibbles(s: seq<bv8>) {
    forall i :: 0 <= i < |s| ==> s[i] < 16
  }

  /** Each byte of `s` replaced by its low nibble followed by its high nibble. */
  function ExpandSeq(s: seq<bv8>): (r: seq<bv8>)
    ensures |r| == 2 * |s|
  {
    if s == [] then [] else [Low(s[0]), High(s[0])] + ExpandSeq(s[1..])
  }

  /** Byte i of the input lands, as two nibbles, at positions 2i and 2i + 1. */
  lemma {:induction false} ExpandSeqAt(s: seq<bv8>, i: nat)
    requires i < |s|
    ensures ExpandSeq(s)[2 * i] == Low(s[i]) && ExpandSeq(s)[2 * i + 1] == High(s[i])
    decreases i
  {
    if i > 0 {
      ExpandSeqAt(s[1..], i - 1);
      assert ExpandSeq(s)[2 * i] == ExpandSeq(s[1..])[2 * (i - 1)];
      assert ExpandSeq(s)[2 * i + 1] == ExpandSeq(s[1..])[2 * (i - 1) + 1];
    }
  }

  /** An expanded sequence holds only nibbles. */
  lemma ExpandSeqNibbles(s: seq<bv8>)
    ensures AllNibbles(ExpandSeq(s))
  {
    forall k | 0 <= k < 2 * |s|
      ensures ExpandSeq(s)[k] < 16
    {
      ExpandSeqAt(s, k / 2);
    }
  }

  /** Consecutive pairs of `s` packed into bytes, first of the pair low; an
      odd last byte is dropped. */
  function CrushSeq(s: seq<bv8>): (r: seq<bv8>)
    ensures |r| == |s| / 2
    ensures forall i :: 0 <= i < |r| ==> r[i] == Pack(s[2 * i], s[2 * i + 1])
  {
    if |s| < 2 then [] else [Pack(s[0], s[1])] + CrushSeq(s[2..])
  }

  /** Packing the nibbles of an expanded sequence restores the original bytes. */
  lemma {:induction false} CrushExpand(s: seq<bv8>)
    ensures CrushSeq(ExpandSeq(s)) == s
  {
    var r := CrushSeq(ExpandSeq(s));
    forall i | 0 <= i < |s|
      ensures r[i] == s[i]
    {
      ExpandSeqAt(s, i);
      PackUnpack(s[i]);
    }
  }

  /** Expanding a packed sequence of nibbles of even length restores it. */
  lemma {:induction false} ExpandCrush(s: seq<bv8>)
    requires |s| % 2 == 0 && AllNibbles(s)
    ensures ExpandSeq(CrushSeq(s)) == s
  {
    var c := CrushSeq(s);
    var r := ExpandSeq(c);
    forall k | 0 <= k < |s|
      ensures r[k] == s[k]
    {
      var i := k / 2;
      assert k == 2 * i || k == 2 * i + 1;
      assert c[i] == Pack(s[2 * i], s[2 * i + 1]);
      UnpackPack(s[2 * i], s[2 * i + 1]);
      ExpandSeqAt(c, i);
    }
  }

  /** The worked examples: five nibbles crush to two bytes (the odd one is
      dropped), and those two bytes expand back to the first four. */
  lemma NibbleExamples()
    ensures CrushSeq([0x01, 0x02, 0x03, 0x04, 0x09]) == [0x21, 0x43]
    ensures ExpandSeq([0x21, 0x43]) == [0x01, 0x02, 0x03, 0x04]
  {
    var s: seq<bv8> := [0x01, 0x02, 0x03, 0x04, 0x09];
    assert s[2..] == [0x03, 0x04, 0x09] && s[2..][2..] == [0x09];
    assert Pack(0x01, 0x02) == 0x21 && Pack(0x03, 0x04) == 0x43;
    assert CrushSeq([0x09]) == [];
    assert CrushSeq(s[2..]) == [0x43];
    assert CrushSeq(s) == [0x21] + CrushSeq(s[2..]);
    var p: seq<bv8> := [0x21, 0x43];
    assert p[1..] == [0x43] && p[1..][1..] == [];
    assert Low(0x21) == 1 && High(0x21) == 2 && Low(0x43) == 3 && High(0x43) == 4;
    assert ExpandSeq(p[1..]) == [0x03, 0x04];
    assert ExpandSeq(p) == [0x01, 0x02] + ExpandSeq(p[1..]);
  }
}
