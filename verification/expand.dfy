/** The EXPAND instruction: unpack `num` bytes at `src` into `2 * num`
    nibbles at `dst`, the low nibble of each byte first.  Memory is
    byte-indexed.  Each byte is loaded and its two nibbles stored before
    the next byte is loaded, so a destination that overlaps the source is
    modelled store by store. */
module ExpandEngine {
  import opened Memory
  import opened Nibbles

  /** Iterations i, i + 1, ..., num - 1 of EXPAND, started on memory `m`:
      each loads `src + i`, then stores its low nibble at `dst + 2i` and its
      high nibble at `dst + 2i + 1`; the first access outside memory ends
      the run with a fault, after the stores already made. */
  function ExpandFrom(m: seq<bv8>, dst: nat, src: nat, num: nat, i: nat): (r: Run<bv8>)
    ensures |r.mem| == |m|
    ensures r.outcome == Done <==> num <= i || (src + num <= |m| && dst + 2 * num <= |m|)
    ensures r.outcome.Fault? ==> |m| <= r.outcome.addr
    decreases num - i
  {
    if num <= i then Run(Done, m)
    else if |m| <= src + i then Run(Fault(src + i), m)
    else if |m| <= dst + 2 * i then Run(Fault(dst + 2 * i), m)
    else if |m| <= dst + 2 * i + 1 then Run(Fault(dst + 2 * i + 1), m[dst + 2 * i := Low(m[src + i])])
    else ExpandFrom(m[dst + 2 * i := Low(m[src + i])][dst + 2 * i + 1 := High(m[src + i])], dst, src, num, i + 1)
  }

  /** One EXPAND instruction with byte count `num`. */
  function ExpandRun(m: seq<bv8>, dst: nat, src: nat, num: nat): (r: Run<bv8>)
    ensures |r.mem| == |m|
    ensures r.outcome == Done <==> Fits(src, num, |m|) && Fits(dst, 2 * num, |m|)
  {
    ExpandFrom(m, dst, src, num, 0)
  }

  /** Iterations from i on store only into `dst + 2i .. dst + 2 * num - 1`. */
  lemma {:induction false} ExpandFromFrame(m: seq<bv8>, dst: nat, src: nat, num: nat, i: nat, a: nat)
    requires a < |m| && !(dst + 2 * i <= a < dst + 2 * num)
    ensures ExpandFrom(m, dst, src, num, i).mem[a] == m[a]
    decreases num - i
  {
    if i < num && src + i < |m| && dst + 2 * i + 1 < |m| {
      var v := m[src + i];
      ExpandFromFrame(m[dst + 2 * i := Low(v)][dst + 2 * i + 1 := High(v)], dst, src, num, i + 1, a);
    }
  }

  /** EXPAND stores only into its destination bytes `dst .. dst + 2 * num - 1`,
      whether or not they overlap the source and whether or not it faults. */
  lemma ExpandFrame(m: seq<bv8>, dst: nat, src: nat, num: nat, a: nat)
    requires a < |m| && !(dst <= a < dst + 2 * num)
    ensures ExpandRun(m, dst, src, num).mem[a] == m[a]
  {
    ExpandFromFrame(m, dst, src, num, 0, a);
  }

  /** Every source byte is loaded before any store reaches it: the
      destination lies above the source, or starts at least `num - 1` bytes
      below it. */
  predicate LoadsBeforeStores(dst: nat, src: nat, num: nat) {
    src + num <= dst || dst + num <= src + 1
  }

  /** From iteration i on, when the bytes still to be loaded are those of
      the original memory, the run completes the unpacked block. */
  lemma {:induction false} ExpandFromUnpacks(m: seq<bv8>, dst: nat, src: nat, num: nat, i: nat, e: seq<bv8>)
    requires i <= num && src + num <= |m| && dst + 2 * num <= |m|
    requires LoadsBeforeStores(dst, src, num) && e == ExpandSeq(m[src..src + num])
    ensures ExpandFrom(Overwrite(m, dst, e[..2 * i]), dst, src, num, i) == Run(Done, Overwrite(m, dst, e))
    decreases num - i
  {
    if i == num {
      assert e[..2 * i] == e;
    } else {
      ExpandIteration(m, dst, src, num, i);
      ExpandFromUnpacks(m, dst, src, num, i + 1, e);
    }
  }

  /** Iteration i, run after the stores of the iterations before it, makes
      the stores of one more iteration. */
  lemma ExpandIteration(m: seq<bv8>, dst: nat, src: nat, num: nat, i: nat)
    requires i < num && src + num <= |m| && dst + 2 * num <= |m|
    requires LoadsBeforeStores(dst, src, num)
    ensures var e := ExpandSeq(m[src..src + num]);
            ExpandFrom(Overwrite(m, dst, e[..2 * i]), dst, src, num, i) ==
            ExpandFrom(Overwrite(m, dst, e[..2 * (i + 1)]), dst, src, num, i + 1)
  {
    var e := ExpandSeq(m[src..src + num]);
    var w := Overwrite(m, dst, e[..2 * i]);
    // The stores so far cover dst .. dst + 2i - 1, which misses src + i.
    OverwriteOutside(m, dst, e[..2 * i], src + i);
    NibblesOfSource(m, src, num, i);
    ExpandFromStep(w, dst, src, num, i, e[2 * i], e[2 * i + 1]);
    StoreNibbles(m, dst, e, i);
    assert 2 * (i + 1) == 2 * i + 2;
  }

  /** One completed iteration of EXPAND, storing nibbles `lo` and `hi`. */
  lemma ExpandFromStep(m: seq<bv8>, dst: nat, src: nat, num: nat, i: nat, lo: bv8, hi: bv8)
    requires i < num && src + i < |m| && dst + 2 * i + 1 < |m|
    requires lo == Low(m[src + i]) && hi == High(m[src + i])
    ensures ExpandFrom(m, dst, src, num, i) == ExpandFrom(m[dst + 2 * i := lo][dst + 2 * i + 1 := hi], dst, src, num, i + 1)
  {
  }

  /** Source byte i expands to cells 2i and 2i + 1 of the unpacked block. */
  lemma NibblesOfSource(m: seq<bv8>, src: nat, num: nat, i: nat)
    requires i < num && src + num <= |m|
    ensures var e := ExpandSeq(m[src..src + num]);
            e[2 * i] == Low(m[src + i]) && e[2 * i + 1] == High(m[src + i])
  {
    assert m[src..src + num][i] == m[src + i];
    ExpandSeqAt(m[src..src + num], i);
  }

  /** Storing the two nibbles of iteration i extends the stores of the
      iterations before it. */
  lemma StoreNibbles(m: seq<bv8>, dst: nat, e: seq<bv8>, i: nat)
    requires 2 * i + 1 < |e| && dst + 2 * i + 1 < |m|
    ensures Overwrite(m, dst, e[..2 * i])[dst + 2 * i := e[2 * i]][dst + 2 * i + 1 := e[2 * i + 1]]
            == Overwrite(m, dst, e[..2 * i + 2])
  {
    OverwriteStep(m, dst, e, 2 * i);
    OverwriteStep(m, dst, e, 2 * i + 1);
  }

  /** When every source byte is loaded before a store reaches it (which
      holds whenever source and destination are disjoint) and both lie in
      memory, EXPAND stores the unpacked source block at the destination
      and completes. */
  lemma ExpandUnpacks(m: seq<bv8>, dst: nat, src: nat, num: nat)
    requires src + num <= |m| && dst + 2 * num <= |m|
    requires LoadsBeforeStores(dst, src, num)
    ensures ExpandRun(m, dst, src, num) == Run(Done, Overwrite(m, dst, ExpandSeq(m[src..src + num])))
  {
    var e := ExpandSeq(m[src..src + num]);
    assert e[..0] == [];
    assert Overwrite(m, dst, e[..0]) == m;
    ExpandFromUnpacks(m, dst, src, num, 0, e);
  }

  /** Expanding in place does not unpack: the nibbles stored for the first
      byte overwrite the second byte before it is loaded, so [0x21, 0x43]
      becomes [1, 2, 2, 0] rather than [1, 2, 3, 4]. */
  lemma ExpandInPlace()
    ensures ExpandRun([0x21, 0x43, 0x00, 0x00], 0, 0, 2) == Run(Done, [0x01, 0x02, 0x02, 0x00])
  {
    var m: seq<bv8> := [0x21, 0x43, 0x00, 0x00];
    assert Low(0x21) == 0x01 && High(0x21) == 0x02;
    var m1: seq<bv8> := [0x01, 0x02, 0x00, 0x00];
    assert m[0 := 0x01][1 := 0x02] == m1;
    assert ExpandFrom(m, 0, 0, 2, 0) == ExpandFrom(m1, 0, 0, 2, 1);
    assert Low(0x02) == 0x02 && High(0x02) == 0x00;
    var m2: seq<bv8> := [0x01, 0x02, 0x02, 0x00];
    assert m1[2 := 0x02][3 := 0x00] == m2;
    assert ExpandFrom(m1, 0, 0, 2, 1) == ExpandFrom(m2, 0, 0, 2, 2);
  }

  /** The EXPAND instruction on a byte memory. */
  method Expand(mem: array<bv8>, dst: nat, src: nat, num: nat) returns (outcome: Outcome)
    modifies mem
    ensures Run(outcome, mem[..]) == ExpandRun(old(mem[..]), dst, src, num)
  {
    var i := 0;
    while i < num
      invariant i <= num
      invariant ExpandFrom(mem[..], dst, src, num, i) == ExpandRun(old(mem[..]), dst, src, num)
    {
      if mem.Length <= src + i {
        return Fault(src + i);
      }
      var v := mem[src + i];
      var low := v & 0x0F;
      var high := (v >> 4) & 0x0F;
      if mem.Length <= dst + 2 * i {
        return Fault(dst + 2 * i);
      }
      mem[dst + 2 * i] := low;
      if mem.Length <= dst + 2 * i + 1 {
        return Fault(dst + 2 * i + 1);
      }
      mem[dst + 2 * i + 1] := high;
      i := i + 1;
    }
    return Done;
  }
}
