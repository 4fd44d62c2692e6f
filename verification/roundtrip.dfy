/** CRUSH and EXPAND undo each other on memory: expanding bytes and
    crushing the nibbles gives the bytes back, and crushing a block of
    nibbles and expanding the result gives the nibbles back. */
module NibbleRoundTrip {
  import opened Memory
  import opened Nibbles
  import opened CrushEngine
  import opened ExpandEngine

  /** EXPAND `n` bytes from `a` to `b`, then CRUSH the `2 * n` nibbles at `b`
      to `c`: the `n` bytes originally at `a` are stored at `c`. */
  lemma ExpandThenCrush(m: seq<bv8>, a: nat, b: nat, c: nat, n: nat)
    requires a + n <= |m| && b + 2 * n <= |m| && c + n <= |m|
    requires Disjoint(b, 2 * n, a, n)
    requires c <= b + 1 || Disjoint(c, n, b, 2 * n)
    ensures var m1 := ExpandRun(m, b, a, n);
            m1.outcome == Done && CrushRun(m1.mem, c, b, 2 * n) == Run(Done, Overwrite(m1.mem, c, m[a..a + n]))
  {
    var m1 := ExpandRun(m, b, a, n).mem;
    ExpandStores(m, a, b, n);
    var p := CrushSeq(m1[b..b + 2 * n]);
    assert (2 * n) / 2 == n;
    assert CrushRun(m1, c, b, 2 * n) == CrushFrom(m1, c, b, n, 0);
    assert p[..0] == [] && Overwrite(m1, c, p[..0]) == m1;
    CrushFromPacks(m1, c, b, n, 0);
    CrushExpand(m[a..a + n]);
  }

  /** After a completed EXPAND the destination holds the unpacked source. */
  lemma ExpandStores(m: seq<bv8>, a: nat, b: nat, n: nat)
    requires a + n <= |m| && b + 2 * n <= |m| && Disjoint(b, 2 * n, a, n)
    ensures ExpandRun(m, b, a, n).outcome == Done
    ensures ExpandRun(m, b, a, n).mem[b..b + 2 * n] == ExpandSeq(m[a..a + n])
  {
    ExpandUnpacks(m, b, a, n);
    OverwriteRead(m, b, ExpandSeq(m[a..a + n]));
  }

  /** Expanding bytes and crushing the nibbles back onto the same bytes
      leaves memory as EXPAND left it. */
  lemma ExpandThenCrushBack(m: seq<bv8>, a: nat, b: nat, n: nat)
    requires a + n <= |m| && b + 2 * n <= |m| && Disjoint(b, 2 * n, a, n)
    ensures var m1 := ExpandRun(m, b, a, n).mem;
            CrushRun(m1, a, b, 2 * n) == Run(Done, m1)
  {
    ExpandThenCrush(m, a, b, a, n);
    var m1 := ExpandRun(m, b, a, n).mem;
    forall x | a <= x < a + n
      ensures m1[x] == m[x]
    {
      ExpandFrame(m, b, a, n, x);
    }
    assert m1[a..a + n] == m[a..a + n];
    OverwriteSame(m1, a, n);
  }

  /** CRUSH `2 * h` nibbles from `a` to `b`, then EXPAND the `h` bytes at
      `b` to `c`: the nibbles originally at `a` are stored at `c`. */
  lemma CrushThenExpand(m: seq<bv8>, a: nat, b: nat, c: nat, h: nat)
    requires a + 2 * h <= |m| && b + h <= |m| && c + 2 * h <= |m|
    requires AllNibbles(m[a..a + 2 * h])
    requires b <= a + 1 || Disjoint(b, h, a, 2 * h)
    requires LoadsBeforeStores(c, b, h)
    ensures var m1 := CrushRun(m, b, a, 2 * h);
            m1.outcome == Done && ExpandRun(m1.mem, c, b, h) == Run(Done, Overwrite(m1.mem, c, m[a..a + 2 * h]))
  {
    var m1 := CrushRun(m, b, a, 2 * h).mem;
    CrushStores(m, a, b, h);
    ExpandUnpacks(m1, c, b, h);
    ExpandCrush(m[a..a + 2 * h]);
  }

  /** After a completed CRUSH of `2 * h` bytes the destination holds the
      packed source. */
  lemma CrushStores(m: seq<bv8>, a: nat, b: nat, h: nat)
    requires a + 2 * h <= |m| && b + h <= |m|
    requires b <= a + 1 || Disjoint(b, h, a, 2 * h)
    ensures CrushRun(m, b, a, 2 * h).outcome == Done
    ensures CrushRun(m, b, a, 2 * h).mem[b..b + h] == CrushSeq(m[a..a + 2 * h])
  {
    var p := CrushSeq(m[a..a + 2 * h]);
    assert (2 * h) / 2 == h;
    assert CrushRun(m, b, a, 2 * h) == CrushFrom(m, b, a, h, 0);
    assert p[..0] == [] && Overwrite(m, b, p[..0]) == m;
    CrushFromPacks(m, b, a, h, 0);
    OverwriteRead(m, b, p);
  }
}
