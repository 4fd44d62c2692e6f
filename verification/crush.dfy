/** The CRUSH instruction: pack `num / 2` pairs of bytes at `src` into
    `num / 2` bytes at `dst`, the low nibble of the first byte of each pair
    below the low nibble of the second.  Memory is byte-indexed.  Each pair
    is loaded and its packed byte stored before the next pair is loaded, so
    a destination that overlaps the source is modelled store by store. */
module CrushEngine {
  import opened Memory
  import opened Nibbles

  /** Iterations i, i + 1, ..., pairs - 1 of CRUSH, started on memory `m`:
      each loads `src + 2i` and `src + 2i + 1` and then stores their packed
      byte at `dst + i`; the first access outside memory ends the run with
      a fault. */
  function CrushFrom(m: seq<bv8>, dst: nat, src: nat, pairs: nat, i: nat): (r: Run<bv8>)
    ensures |r.mem| == |m|
    ensures r.outcome == Done <==> pairs <= i || (src + 2 * pairs <= |m| && dst + pairs <= |m|)
    ensures r.outcome.Fault? ==> |m| <= r.outcome.addr
    decreases pairs - i
  {
    if pairs <= i then Run(Done, m)
    else if |m| <= src + 2 * i then Run(Fault(src + 2 * i), m)
    else if |m| <= src + 2 * i + 1 then Run(Fault(src + 2 * i + 1), m)
    else if |m| <= dst + i then Run(Fault(dst + i), m)
    else CrushFrom(m[dst + i := Pack(m[src + 2 * i], m[src + 2 * i + 1])], dst, src, pairs, i + 1)
  }

  /** One CRUSH instruction with byte count `num`: `num / 2` pairs, an odd
      last byte being ignored. */
  function CrushRun(m: seq<bv8>, dst: nat, src: nat, num: nat): (r: Run<bv8>)
    ensures |r.mem| == |m|
    ensures r.outcome == Done <==> Fits(src, num / 2 * 2, |m|) && Fits(dst, num / 2, |m|)
  {
    CrushFrom(m, dst, src, num / 2, 0)
  }

  /** Iterations from i on store only into `dst + i .. dst + pairs - 1`. */
  lemma {:induction false} CrushFromFrame(m: seq<bv8>, dst: nat, src: nat, pairs: nat, i: nat, a: nat)
    requires a < |m| && !(dst + i <= a < dst + pairs)
    ensures CrushFrom(m, dst, src, pairs, i).mem[a] == m[a]
    decreases pairs - i
  {
    if i < pairs && src + 2 * i + 1 < |m| && dst + i < |m| {
      CrushFromFrame(m[dst + i := Pack(m[src + 2 * i], m[src + 2 * i + 1])], dst, src, pairs, i + 1, a);
    }
  }

  /** CRUSH stores only into its destination bytes `dst .. dst + num / 2 - 1`,
      whether or not they overlap the source and whether or not it faults. */
  lemma CrushFrame(m: seq<bv8>, dst: nat, src: nat, num: nat, a: nat)
    requires a < |m| && !(dst <= a < dst + num / 2)
    ensures CrushRun(m, dst, src, num).mem[a] == m[a]
  {
    CrushFromFrame(m, dst, src, num / 2, 0, a);
  }

  /** From iteration i on, when the bytes still to be loaded are those of
      the original memory, the run completes the packed block. */
  lemma {:induction false} CrushFromPacks(m: seq<bv8>, dst: nat, src: nat, pairs: nat, i: nat)
    requires i <= pairs && src + 2 * pairs <= |m| && dst + pairs <= |m|
    requires dst <= src + 1 || Disjoint(dst, pairs, src, 2 * pairs)
    ensures var c := CrushSeq(m[src..src + 2 * pairs]);
            CrushFrom(Overwrite(m, dst, c[..i]), dst, src, pairs, i) == Run(Done, Overwrite(m, dst, c))
    decreases pairs - i
  {
    if i == pairs {
      var c := CrushSeq(m[src..src + 2 * pairs]);
      assert c[..i] == c;
    } else {
      CrushIteration(m, dst, src, pairs, i);
      CrushFromPacks(m, dst, src, pairs, i + 1);
    }
  }

  /** Iteration i, run after the stores of the iterations before it, makes
      the stores of one more iteration. */
  lemma CrushIteration(m: seq<bv8>, dst: nat, src: nat, pairs: nat, i: nat)
    requires i < pairs && src + 2 * pairs <= |m| && dst + pairs <= |m|
    requires dst <= src + 1 || Disjoint(dst, pairs, src, 2 * pairs)
    ensures var c := CrushSeq(m[src..src + 2 * pairs]);
            CrushFrom(Overwrite(m, dst, c[..i]), dst, src, pairs, i) ==
            CrushFrom(Overwrite(m, dst, c[..i + 1]), dst, src, pairs, i + 1)
  {
    var c := CrushSeq(m[src..src + 2 * pairs]);
    var w := Overwrite(m, dst, c[..i]);
    // The stores so far cover dst .. dst + i - 1, below the pair loaded now.
    OverwriteOutside(m, dst, c[..i], src + 2 * i);
    OverwriteOutside(m, dst, c[..i], src + 2 * i + 1);
    assert c[i] == Pack(w[src + 2 * i], w[src + 2 * i + 1]);
    OverwriteStep(m, dst, c, i);
    CrushFromStep(w, dst, src, pairs, i);
  }

  /** One completed iteration of CRUSH. */
  lemma CrushFromStep(m: seq<bv8>, dst: nat, src: nat, pairs: nat, i: nat)
    requires i < pairs && src + 2 * i + 1 < |m| && dst + i < |m|
    ensures CrushFrom(m, dst, src, pairs, i)
         == CrushFrom(m[dst + i := Pack(m[src + 2 * i], m[src + 2 * i + 1])], dst, src, pairs, i + 1)
  {
  }

  /** When the destination lies wholly apart from the source, or at or below
      it (CRUSH in place included), and both lie in memory, CRUSH stores the
      packed source block at the destination and completes. */
  lemma CrushPacks(m: seq<bv8>, dst: nat, src: nat, num: nat)
    requires src + num / 2 * 2 <= |m| && dst + num / 2 <= |m|
    requires dst <= src + 1 || Disjoint(dst, num / 2, src, num / 2 * 2)
    ensures CrushRun(m, dst, src, num)
            == Run(Done, Overwrite(m, dst, CrushSeq(m[src..src + num / 2 * 2])))
  {
    var pairs := num / 2;
    assert num / 2 * 2 == 2 * pairs;
    var c := CrushSeq(m[src..src + 2 * pairs]);
    assert c[..0] == [];
    assert Overwrite(m, dst, c[..0]) == m;
    assert CrushRun(m, dst, src, num) == CrushFrom(m, dst, src, pairs, 0);
    CrushFromPacks(m, dst, src, pairs, 0);
  }

  /** CRUSH one byte above its source still packs: each store lands on a
      byte already loaded, so [1, 2, 3, 4, 0] becomes [1, 0x21, 0x43, 4, 0]. */
  lemma CrushShiftedByOne()
    ensures CrushRun([0x01, 0x02, 0x03, 0x04, 0x00], 1, 0, 4) == Run(Done, [0x01, 0x21, 0x43, 0x04, 0x00])
  {
    var m: seq<bv8> := [0x01, 0x02, 0x03, 0x04, 0x00];
    assert Pack(0x01, 0x02) == 0x21 && Pack(0x03, 0x04) == 0x43;
    var m1: seq<bv8> := [0x01, 0x21, 0x03, 0x04, 0x00];
    assert m[1 := 0x21] == m1;
    assert CrushFrom(m, 1, 0, 2, 0) == CrushFrom(m1, 1, 0, 2, 1);
    var m2: seq<bv8> := [0x01, 0x21, 0x43, 0x04, 0x00];
    assert m1[2 := 0x43] == m2;
    assert CrushFrom(m1, 1, 0, 2, 1) == CrushFrom(m2, 1, 0, 2, 2);
  }

  /** The CRUSH instruction on a byte memory. */
  method Crush(mem: array<bv8>, dst: nat, src: nat, num: nat) returns (outcome: Outcome)
    modifies mem
    ensures Run(outcome, mem[..]) == CrushRun(old(mem[..]), dst, src, num)
  {
    var pairs := num / 2;
    var i := 0;
    while i < pairs
      invariant i <= pairs
      invariant CrushFrom(mem[..], dst, src, pairs, i) == CrushRun(old(mem[..]), dst, src, num)
    {
      if mem.Length <= src + 2 * i {
        return Fault(src + 2 * i);
      }
      var lo := mem[src + 2 * i] & 0x0F;
      if mem.Length <= src + 2 * i + 1 {
        return Fault(src + 2 * i + 1);
      }
      var hi := mem[src + 2 * i + 1] & 0x0F;
      if mem.Length <= dst + i {
        return Fault(dst + i);
      }
      mem[dst + i] := (hi << 4) | lo;
      i := i + 1;
    }
    return Done;
  }
}
