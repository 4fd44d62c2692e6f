/** The DMA instruction: transpose an N×N matrix of 32-bit words from `src`
    to `dst`, where N is chosen by a grain selector.  Memory is word-indexed:
    word k of a block at `base` sits at address `base + k`. */
module DmaEngine {
  import opened Memory

  /** Matrix dimension selected by the grain operand; codes other than
      0, 1 and 2 fall back to 8, so the dimension is never taken from the
      operand itself and a transfer never exceeds 32×32 words. */
  function GrainSize(grain: nat): (n: nat)
    ensures n == 8 || n == 16 || n == 32
  {
    match grain
    case 0 => 8
    case 1 => 16
    case 2 => 32
    case _ => 8
  }

  /** Grain codes 0, 1 and 2 select 8, 16 and 32; every other code falls
      back to 8. */
  lemma GrainSizeTable(grain: nat)
    ensures GrainSize(0) == 8 && GrainSize(1) == 16 && GrainSize(2) == 32
    ensures grain > 2 ==> GrainSize(grain) == 8
  {
  }

  /** Row-major offset of cell (i, j) of an n×n matrix: it lies inside the block. */
  function Offset(n: nat, i: nat, j: nat): (k: nat)
    requires i < n && j < n
    ensures k < n * n
  {
    MulMono(i, n - 1, n);
    i * n + j
  }

  /** Euclidean division is determined by quotient and remainder. */
  lemma DivModUnique(k: nat, n: nat, q: nat, r: nat)
    requires r < n && k == q * n + r
    ensures k / n == q && k % n == r
  {
    var q', r' := k / n, k % n;
    assert k == q' * n + r';
    if q' < q {
      MulMono(q' + 1, q, n);
      assert false;
    } else if q < q' {
      MulMono(q + 1, q', n);
      assert false;
    }
  }

  /** Row i of an n×n block ends inside the block. */
  lemma RowInBlock(i: nat, n: nat)
    requires i < n
    ensures i * n + n <= n * n
  {
    MulMono(i + 1, n, n);
  }

  lemma NextRow(i: nat, n: nat)
    ensures i * n + n == (i + 1) * n
  {
  }

  lemma MulMono(a: nat, b: nat, c: nat)
    requires a <= b
    ensures a * c <= b * c
  {
  }

  /** Row and column can be recovered from an offset, and every offset inside
      an n×n block is the offset of some cell. */
  lemma OffsetCell(n: nat, k: nat)
    requires k < n * n
    ensures k / n < n && k % n < n && Offset(n, k / n, k % n) == k
  {
    assert n > 0;
    if k / n >= n {
      MulMono(n, k / n, n);
      assert false;
    }
  }

  lemma OffsetRowColumn(n: nat, i: nat, j: nat)
    requires i < n && j < n
    ensures Offset(n, i, j) / n == i && Offset(n, i, j) % n == j
  {
    DivModUnique(i * n + j, n, i, j);
  }

  lemma OffsetsRowColumn(n: nat)
    ensures forall i, j :: 0 <= i < n && 0 <= j < n ==>
              Offset(n, i, j) / n == i && Offset(n, i, j) % n == j
  {
    forall i, j | 0 <= i < n && 0 <= j < n
      ensures Offset(n, i, j) / n == i && Offset(n, i, j) % n == j
    {
      OffsetRowColumn(n, i, j);
    }
  }

  /** The transpose of a row-major n×n block. */
  function Transposed(block: seq<Word>, n: nat): (t: seq<Word>)
    requires |block| == n * n
    ensures |t| == n * n
    ensures forall i, j {:trigger t[Offset(n, i, j)]} :: 0 <= i < n && 0 <= j < n ==>
              t[Offset(n, i, j)] == block[Offset(n, j, i)]
  {
    OffsetsRowColumn(n);
    seq(n * n, k requires 0 <= k < n * n =>
      OffsetCell(n, k); block[Offset(n, k % n, k / n)])
  }

  /** Transposing twice gives back the original block. */
  lemma {:induction false} TransposedTwice(block: seq<Word>, n: nat)
    requires |block| == n * n
    ensures Transposed(Transposed(block, n), n) == block
  {
    var tt := Transposed(Transposed(block, n), n);
    forall k | 0 <= k < n * n
      ensures tt[k] == block[k]
    {
      OffsetCell(n, k);
      OffsetRowColumn(n, k / n, k % n);
      OffsetRowColumn(n, k % n, k / n);
    }
  }

  /** What one DMA instruction does to memory `m`: the whole source block is
      loaded before the first store, so a source block that runs out of
      memory faults with memory untouched; otherwise the transpose of the
      source block is stored at `dst` cell by cell, up to the first store
      that faults. */
  function DmaRun(m: seq<Word>, dst: nat, src: nat, grain: nat): (r: Run<Word>)
    ensures |r.mem| == |m|
    ensures r.outcome == Done <==>
              src + GrainSize(grain) * GrainSize(grain) <= |m| &&
              dst + GrainSize(grain) * GrainSize(grain) <= |m|
  {
    var n := GrainSize(grain);
    if !Fits(src, n * n, |m|) then Run(Fault(FirstFault(src, |m|)), m)
    else
      Run(if Fits(dst, n * n, |m|) then Done else Fault(FirstFault(dst, |m|)),
          Overwrite(m, dst, Transposed(m[src..src + n * n], n)))
  }

  /** Cell (i, j) of the destination holds cell (j, i) of the source as it
      was before the instruction, even when the two blocks overlap. */
  lemma DmaTransposes(m: seq<Word>, dst: nat, src: nat, grain: nat, i: nat, j: nat)
    requires DmaRun(m, dst, src, grain).outcome == Done
    requires i < GrainSize(grain) && j < GrainSize(grain)
    ensures dst + Offset(GrainSize(grain), i, j) < |m|
    ensures DmaRun(m, dst, src, grain).mem[dst + Offset(GrainSize(grain), i, j)]
         == m[src + Offset(GrainSize(grain), j, i)]
  {
    var n := GrainSize(grain);
    var block := m[src..src + n * n];
    var t := Transposed(block, n);
    assert DmaRun(m, dst, src, grain).mem == Overwrite(m, dst, t);
    var k := Offset(n, i, j);
    assert dst + n * n <= |m| && k < n * n && |t| == n * n;
    OverwriteAt(m, dst, t, dst + k);
    assert t[k] == block[Offset(n, j, i)];
  }

  /** DMA stores only into the N² destination words; on a fault in the load
      phase it stores nothing at all. */
  lemma DmaFrame(m: seq<Word>, dst: nat, src: nat, grain: nat)
    ensures forall a :: 0 <= a < |m| && !(dst <= a < dst + GrainSize(grain) * GrainSize(grain))
              ==> DmaRun(m, dst, src, grain).mem[a] == m[a]
    ensures src + GrainSize(grain) * GrainSize(grain) > |m| ==> DmaRun(m, dst, src, grain).mem == m
  {
  }

  /** Transposing from `src` to `dst` and then back from `dst` to `src`
      restores the source block, whether or not the two blocks overlap. */
  lemma {:induction false} DmaTwice(m: seq<Word>, dst: nat, src: nat, grain: nat)
    requires DmaRun(m, dst, src, grain).outcome == Done
    ensures var n := GrainSize(grain);
            var back := DmaRun(DmaRun(m, dst, src, grain).mem, src, dst, grain);
            back.outcome == Done && back.mem[src..src + n * n] == m[src..src + n * n]
  {
    var n := GrainSize(grain);
    var m1 := DmaRun(m, dst, src, grain).mem;
    DmaStores(m, dst, src, grain);
    DmaStores(m1, src, dst, grain);
    TransposedTwice(m[src..src + n * n], n);
  }

  /** A completed DMA leaves the transpose of the source block in the
      destination block. */
  lemma DmaStores(m: seq<Word>, dst: nat, src: nat, grain: nat)
    requires DmaRun(m, dst, src, grain).outcome == Done
    ensures var n := GrainSize(grain);
            DmaRun(m, dst, src, grain).mem[dst..dst + n * n] == Transposed(m[src..src + n * n], n)
  {
    var n := GrainSize(grain);
    OverwriteRead(m, dst, Transposed(m[src..src + n * n], n));
  }

  /** The DMA instruction: load the N×N source matrix into a local buffer,
      then store its transpose to the destination. */
  method Dma(mem: array<Word>, dst: nat, src: nat, grain: nat) returns (outcome: Outcome)
    modifies mem
    ensures Run(outcome, mem[..]) == DmaRun(old(mem[..]), dst, src, grain)
  {
    var n := GrainSize(grain);
    var temp := new Word[n * n];
    ghost var m0 := mem[..];
    outcome := LoadMatrix(mem, src, n, temp);
    if outcome != Done {
      assert mem[..] == m0 && !Fits(src, n * n, mem.Length);
      return;
    }
    ghost var block := temp[..];
    assert block == m0[src..src + n * n];
    outcome := StoreTransposed(mem, dst, n, temp);
    assert temp[..] == block;
    assert mem[..] == Overwrite(m0, dst, Transposed(m0[src..src + n * n], n));
  }

  /** Load phase of DMA: the n×n words at `src`, in row-major order, into
      `temp`; a load past the end of memory faults. */
  method LoadMatrix(mem: array<Word>, src: nat, n: nat, temp: array<Word>) returns (outcome: Outcome)
    requires 0 < n && temp.Length == n * n && temp != mem
    modifies temp
    ensures outcome == if Fits(src, n * n, mem.Length) then Done else Fault(FirstFault(src, mem.Length))
    ensures outcome == Done ==> temp[..] == mem[src..src + n * n]
  {
    // `done` counts the words loaded so far.
    ghost var done: nat := 0;
    var i := 0;
    while i < n
      invariant i <= n && done == i * n && done <= n * n
      invariant done == 0 || src + done <= mem.Length
      invariant forall q :: 0 <= q < done ==> src + q < mem.Length && temp[q] == mem[src + q]
    {
      var j := 0;
      while j < n
        invariant j <= n && done == i * n + j && done <= n * n
        invariant done == 0 || src + done <= mem.Length
        invariant forall q :: 0 <= q < done ==> src + q < mem.Length && temp[q] == mem[src + q]
      {
        var k := Offset(n, i, j);
        if src + k >= mem.Length {
          assert src + k == FirstFault(src, mem.Length) && !Fits(src, n * n, mem.Length);
          return Fault(src + k);
        }
        temp[k] := mem[src + k];
        j, done := j + 1, done + 1;
      }
      NextRow(i, n);
      i := i + 1;
    }
    assert done == n * n;
    assert temp[..] == mem[src..src + n * n];
    return Done;
  }

  /** Store phase of DMA: cell (i, j) of the destination receives cell (j, i)
      of `temp`, row by row; a store past the end of memory faults, keeping
      the stores made before it. */
  method StoreTransposed(mem: array<Word>, dst: nat, n: nat, temp: array<Word>) returns (outcome: Outcome)
    requires 0 < n && temp.Length == n * n && temp != mem
    modifies mem
    ensures outcome == if Fits(dst, n * n, mem.Length) then Done else Fault(FirstFault(dst, mem.Length))
    ensures mem[..] == Overwrite(old(mem[..]), dst, Transposed(temp[..], n))
  {
    ghost var m0 := mem[..];
    ghost var t := Transposed(temp[..], n);
    var i := 0;
    while i < n
      invariant i <= n
      invariant i == 0 || dst + i * n <= mem.Length
      invariant mem[..] == Overwrite(m0, dst, t[..i * n])
    {
      MulMono(i + 1, n, n);
      NextRow(i, n);
      ghost var before := mem[..];
      outcome := StoreRow(mem, dst, n, i, temp);
      assert t[..(i + 1) * n] == t[..i * n] + t[i * n..(i + 1) * n];
      OverwriteAppend(m0, dst, t[..i * n], t[i * n..(i + 1) * n]);
      if outcome != Done {
        OverwriteBeyond(m0, dst, t, (i + 1) * n);
        return outcome;
      }
      i := i + 1;
    }
    assert t[..n * n] == t;
    return Done;
  }

  /** Row i of the store phase: destination cells (i, 0), ..., (i, n - 1)
      receive cells (0, i), ..., (n - 1, i) of `temp`, in that order. */
  method StoreRow(mem: array<Word>, dst: nat, n: nat, i: nat, temp: array<Word>) returns (outcome: Outcome)
    requires i < n && temp.Length == n * n && temp != mem
    modifies mem
    ensures outcome == if Fits(dst + i * n, n, mem.Length) then Done else Fault(FirstFault(dst + i * n, mem.Length))
    ensures var t := Transposed(temp[..], n);
            i * n + n <= n * n &&
            mem[..] == Overwrite(old(mem[..]), dst + i * n, t[i * n..i * n + n])
  {
    ghost var m0 := mem[..];
    ghost var t := Transposed(temp[..], n);
    RowInBlock(i, n);
    var row := i * n;
    ghost var cells := t[row..row + n];
    var j := 0;
    while j < n
      invariant j <= n
      invariant j == 0 || dst + row + j <= mem.Length
      invariant mem[..] == Overwrite(m0, dst + row, cells[..j])
    {
      var k := Offset(n, i, j);
      if dst + k >= mem.Length {
        OverwriteBeyond(m0, dst + row, cells, j);
        return Fault(dst + k);
      }
      assert t[k] == temp[..][Offset(n, j, i)];
      assert cells[j] == t[k];
      OverwriteStep(m0, dst + row, cells, j);
      mem[dst + k] := temp[Offset(n, j, i)];
      j := j + 1;
    }
    assert cells[..n] == cells;
    return Done;
  }
}
