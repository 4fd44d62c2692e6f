/** The SORT instruction: sort, in ascending unsigned order, the first
    min(sort_num, array_num) words of an array of `array_num` 32-bit words at
    `addr`, leaving the rest of the array as it was.  Memory is
    word-indexed: element k of the array sits at address `addr + k`. */
module SortEngine {
  import opened Memory

  /** Ascending order of 32-bit words, compared as unsigned integers. */
  predicate Sorted(s: seq<Word>) {
    forall p, q :: 0 <= p < q < |s| ==> s[p] <= s[q]
  }

  /** `x` inserted into a sequence before its first element not below `x`. */
  function Insert(x: Word, s: seq<Word>): (r: seq<Word>)
    ensures |r| == |s| + 1
  {
    if s == [] || x <= s[0] then [x] + s
    else [s[0]] + Insert(x, s[1..])
  }

  /** Inserting into a sorted sequence keeps it sorted and adds exactly `x`. */
  lemma {:induction false} InsertSorted(x: Word, s: seq<Word>)
    requires Sorted(s)
    ensures Sorted(Insert(x, s)) && multiset(Insert(x, s)) == multiset(s) + multiset{x}
    ensures Insert(x, s)[0] == x || Insert(x, s)[0] == s[0]
  {
    if s == [] || x <= s[0] {
      SortedCons(x, s);
    } else {
      var r := Insert(x, s[1..]);
      InsertSorted(x, s[1..]);
      SortedCons(s[0], r);
      assert s == [s[0]] + s[1..];
    }
  }

  /** Putting an element no greater than the head in front of a sorted
      sequence keeps it sorted. */
  lemma SortedCons(x: Word, s: seq<Word>)
    requires Sorted(s) && (s == [] || x <= s[0])
    ensures Sorted([x] + s)
  {
    var r := [x] + s;
    forall p, q | 0 <= p < q < |r|
      ensures r[p] <= r[q]
    {
      if p == 0 {
        assert r[q] == s[q - 1];
        assert s[0] <= s[q - 1];
      } else {
        assert r[p] == s[p - 1] && r[q] == s[q - 1];
      }
    }
  }

  /** The ascending rearrangement of `s` by repeated insertion: a reference
      sort, independent of the adjacent-swap algorithm the instruction runs. */
  function SortSeq(s: seq<Word>): (r: seq<Word>)
    ensures |r| == |s|
  {
    if s == [] then [] else Insert(s[0], SortSeq(s[1..]))
  }

  /** SortSeq yields an ascending rearrangement of its input. */
  lemma {:induction false} SortSeqSorted(s: seq<Word>)
    ensures Sorted(SortSeq(s)) && multiset(SortSeq(s)) == multiset(s)
  {
    if s != [] {
      SortSeqSorted(s[1..]);
      InsertSorted(s[0], SortSeq(s[1..]));
      assert s == [s[0]] + s[1..];
    }
  }

  /** A sorted sequence is determined by its multiset of elements. */
  lemma {:induction false} SortedUnique(a: seq<Word>, b: seq<Word>)
    requires Sorted(a) && Sorted(b) && multiset(a) == multiset(b)
    ensures a == b
    decreases |a|
  {
    assert |b| == |a| by { assert |multiset(b)| == |multiset(a)|; }
    if a != [] {
      // Each head occurs in the other sequence, so each is below the other.
      assert a[0] in multiset(a);
      SortedHeadMin(b, a[0]);
      assert b[0] in multiset(b);
      SortedHeadMin(a, b[0]);
      assert a[0] == b[0];
      assert multiset(a) == multiset{a[0]} + multiset(a[1..]) by { assert a == [a[0]] + a[1..]; }
      assert multiset(b) == multiset{b[0]} + multiset(b[1..]) by { assert b == [b[0]] + b[1..]; }
      assert multiset(a[1..]) == multiset(a) - multiset{a[0]};
      assert multiset(b[1..]) == multiset(b) - multiset{b[0]};
      SortedTail(a);
      SortedTail(b);
      SortedUnique(a[1..], b[1..]);
    }
  }

  /** The head of a sorted sequence is below every element of it. */
  lemma SortedHeadMin(a: seq<Word>, x: Word)
    requires Sorted(a) && x in multiset(a)
    ensures a[0] <= x
  {
    var i :| 0 <= i < |a| && a[i] == x;
  }

  lemma SortedTail(a: seq<Word>)
    requires Sorted(a) && a != []
    ensures Sorted(a[1..])
  {
    forall p, q | 0 <= p < q < |a| - 1
      ensures a[1..][p] <= a[1..][q]
    {
      assert a[1..][p] == a[p + 1] && a[1..][q] == a[q + 1];
    }
  }

  /** The number of leading elements that are sorted: sort_num clamped to
      array_num. */
  function SortSize(arrayNum: nat, sortNum: nat): (k: nat)
    ensures k <= arrayNum && k <= sortNum && (k == arrayNum || k == sortNum)
  {
    if sortNum > arrayNum then arrayNum else sortNum
  }

  /** What one SORT instruction does to memory `m`: the whole array is
      loaded before anything is stored, so an array that runs out of memory
      faults with memory untouched; otherwise the array is stored back with
      its first SortSize elements in ascending order. */
  function SortRun(m: seq<Word>, addr: nat, arrayNum: nat, sortNum: nat): (r: Run<Word>)
    ensures |r.mem| == |m|
    ensures r.outcome == Done <==> Fits(addr, arrayNum, |m|)
  {
    if !Fits(addr, arrayNum, |m|) then Run(Fault(FirstFault(addr, |m|)), m)
    else if arrayNum == 0 then Run(Done, m)
    else
      var k := SortSize(arrayNum, sortNum);
      Run(Done, Overwrite(m, addr, SortSeq(m[addr..addr + k]) + m[addr + k..addr + arrayNum]))
  }

  /** After SORT the first SortSize elements are ascending and are a
      rearrangement of the first SortSize elements before it. */
  lemma SortRunSortsPrefix(m: seq<Word>, addr: nat, arrayNum: nat, sortNum: nat)
    requires addr + arrayNum <= |m|
    ensures var k := SortSize(arrayNum, sortNum);
            var r := SortRun(m, addr, arrayNum, sortNum).mem;
            Sorted(r[addr..addr + k]) && multiset(r[addr..addr + k]) == multiset(m[addr..addr + k])
  {
    var k := SortSize(arrayNum, sortNum);
    var r := SortRun(m, addr, arrayNum, sortNum).mem;
    if arrayNum > 0 {
      assert r[addr..addr + k] == SortSeq(m[addr..addr + k]);
      SortSeqSorted(m[addr..addr + k]);
    }
  }

  /** SORT leaves the elements of the array past SortSize, and every word
      outside the array, as they were. */
  lemma SortRunFrame(m: seq<Word>, addr: nat, arrayNum: nat, sortNum: nat)
    ensures forall a :: 0 <= a < |m| && !(addr <= a < addr + SortSize(arrayNum, sortNum))
              ==> SortRun(m, addr, arrayNum, sortNum).mem[a] == m[a]
  {
  }

  /** With sort_num 0 or 1 nothing is reordered: the array is written back
      as it was read. */
  lemma SortRunTrivial(m: seq<Word>, addr: nat, arrayNum: nat, sortNum: nat)
    requires sortNum <= 1
    ensures SortRun(m, addr, arrayNum, sortNum).mem == m
  {
    if Fits(addr, arrayNum, |m|) && arrayNum > 0 {
      var k := SortSize(arrayNum, sortNum);
      var s := m[addr..addr + k];
      assert SortSeq(s) == s by {
        if k == 1 { assert SortSeq(s) == Insert(s[0], []); }
      }
      assert SortSeq(s) + m[addr + k..addr + arrayNum] == m[addr..addr + arrayNum];
      OverwriteSame(m, addr, arrayNum);
    }
  }

  /** Running SORT a second time on the same operands changes nothing. */
  lemma SortRunTwice(m: seq<Word>, addr: nat, arrayNum: nat, sortNum: nat)
    ensures var r := SortRun(m, addr, arrayNum, sortNum).mem;
            SortRun(r, addr, arrayNum, sortNum).mem == r
  {
    if Fits(addr, arrayNum, |m|) && arrayNum > 0 {
      SortRunSortsPrefix(m, addr, arrayNum, sortNum);
      SortRunSorted(SortRun(m, addr, arrayNum, sortNum).mem, addr, arrayNum, sortNum);
    }
  }

  /** SORT on an array whose first SortSize elements are already ascending
      changes nothing. */
  lemma SortRunSorted(m: seq<Word>, addr: nat, arrayNum: nat, sortNum: nat)
    requires addr + arrayNum <= |m| && Sorted(m[addr..addr + SortSize(arrayNum, sortNum)])
    ensures SortRun(m, addr, arrayNum, sortNum).mem == m
  {
    if arrayNum > 0 {
      var k := SortSize(arrayNum, sortNum);
      SortSeqFixed(m[addr..addr + k]);
      SortRunStoresBlock(m, addr, arrayNum, sortNum);
      SliceSplit(m, addr, addr + k, addr + arrayNum);
      OverwriteSame(m, addr, arrayNum);
    }
  }

  /** SORT on an array in memory stores the sorted prefix followed by the
      rest of the array (an empty array stores nothing). */
  lemma SortRunStoresBlock(m: seq<Word>, addr: nat, arrayNum: nat, sortNum: nat)
    requires addr + arrayNum <= |m|
    ensures var k := SortSize(arrayNum, sortNum);
            SortRun(m, addr, arrayNum, sortNum).mem ==
            Overwrite(m, addr, SortSeq(m[addr..addr + k]) + m[addr + k..addr + arrayNum])
  {
  }

  /** After SORT on an array in memory, the array holds the sorted prefix
      followed by the untouched rest. */
  lemma SortRunStores(m: seq<Word>, addr: nat, arrayNum: nat, sortNum: nat)
    requires addr + arrayNum <= |m|
    ensures var k := SortSize(arrayNum, sortNum);
            var r := SortRun(m, addr, arrayNum, sortNum).mem;
            r[addr..addr + k] == SortSeq(m[addr..addr + k]) &&
            r[addr + k..addr + arrayNum] == m[addr + k..addr + arrayNum]
  {
    var k := SortSize(arrayNum, sortNum);
    var x := SortSeq(m[addr..addr + k]);
    var y := m[addr + k..addr + arrayNum];
    var r := SortRun(m, addr, arrayNum, sortNum).mem;
    SortRunStoresBlock(m, addr, arrayNum, sortNum);
    OverwriteRead(m, addr, x + y);
    SliceParts(r, addr, k, addr + arrayNum);
    assert (x + y)[..k] == x && (x + y)[k..] == y;
  }

  /** Sorting a sequence that is already ascending changes nothing. */
  lemma SortSeqFixed(s: seq<Word>)
    requires Sorted(s)
    ensures SortSeq(s) == s
  {
    SortSeqSorted(s);
    SortedUnique(SortSeq(s), s);
  }

  /** The worked example: [5, 3, 1, 4, 2] with sort_num 3 becomes
      [1, 3, 5, 4, 2]. */
  lemma SortRunExample()
    ensures SortRun([5, 3, 1, 4, 2], 0, 5, 3) == Run(Done, [1, 3, 5, 4, 2])
  {
    assert [5, 3, 1, 4, 2][0..3] == [5, 3, 1];
    assert SortSeq([5, 3, 1]) == [1, 3, 5] by {
      assert [5, 3, 1][1..] == [3, 1];
      assert [3, 1][1..] == [1];
      assert SortSeq([1]) == [1] by { assert [1 as Word][1..] == []; }
      assert SortSeq([3, 1]) == [1, 3];
    }
    assert [5, 3, 1, 4, 2][3..5] == [4, 2];
  }

  /** The SORT instruction: load the array into a local buffer, sort its
      first SortSize elements with adjacent-swap passes, and store the
      whole buffer back. */
  method Sort(mem: array<Word>, addr: nat, arrayNum: nat, sortNum: nat) returns (outcome: Outcome)
    modifies mem
    ensures Run(outcome, mem[..]) == SortRun(old(mem[..]), addr, arrayNum, sortNum)
  {
    var sortSize := SortSize(arrayNum, sortNum);
    var arr;
    outcome, arr := LoadArray(mem, addr, arrayNum);
    if outcome != Done {
      return;
    }
    if arrayNum == 0 {
      return;
    }
    ghost var loaded := arr[..];
    BubbleSortPrefix(arr, sortSize);
    SortedPrefix(loaded, arr[..], sortSize);
    SortRunOfLoaded(mem[..], addr, arrayNum, sortNum, arr[..]);
    StoreArray(mem, addr, arr);
  }

  /** SORT completes by storing SortSeq of the loaded prefix followed by the
      rest of the loaded array. */
  lemma SortRunOfLoaded(m: seq<Word>, addr: nat, arrayNum: nat, sortNum: nat, stored: seq<Word>)
    requires addr + arrayNum <= |m|
    requires var loaded := m[addr..addr + arrayNum];
             var k := SortSize(arrayNum, sortNum);
             stored == SortSeq(loaded[..k]) + loaded[k..]
    ensures SortRun(m, addr, arrayNum, sortNum) == Run(Done, Overwrite(m, addr, stored))
  {
    SliceParts(m, addr, SortSize(arrayNum, sortNum), addr + arrayNum);
    SortRunStoresBlock(m, addr, arrayNum, sortNum);
  }

  /** A sorted rearrangement of the first k elements, followed by the rest
      unchanged, is what SortSeq yields on the prefix. */
  lemma SortedPrefix(before: seq<Word>, after: seq<Word>, k: nat)
    requires k <= |before| == |after|
    requires Sorted(after[..k]) && multiset(after[..k]) == multiset(before[..k])
    requires after[k..] == before[k..]
    ensures after == SortSeq(before[..k]) + before[k..]
  {
    var sorted := SortSeq(before[..k]);
    SortSeqSorted(before[..k]);
    SortedUnique(after[..k], sorted);
    assert after == after[..k] + after[k..];
  }

  /** Load phase of SORT: `count` words from `addr` into a new buffer; a
      load past the end of memory faults. */
  method LoadArray(mem: array<Word>, addr: nat, count: nat) returns (outcome: Outcome, arr: array<Word>)
    ensures fresh(arr) && arr.Length == count
    ensures outcome == if Fits(addr, count, mem.Length) then Done else Fault(FirstFault(addr, mem.Length))
    ensures outcome == Done && count > 0 ==> arr[..] == mem[addr..addr + count]
  {
    arr := new Word[count];
    var i := 0;
    while i < count
      invariant i <= count
      modifies arr
      invariant i == 0 || addr + i <= mem.Length
      invariant forall q :: 0 <= q < i ==> addr + q < mem.Length && arr[q] == mem[addr + q]
    {
      if addr + i >= mem.Length {
        return Fault(addr + i), arr;
      }
      arr[i] := mem[addr + i];
      i := i + 1;
    }
    if count > 0 {
      assert arr[..] == mem[addr..addr + count];
    }
    return Done, arr;
  }

  /** Store phase of SORT: the whole buffer back to `addr`, in order. */
  method StoreArray(mem: array<Word>, addr: nat, arr: array<Word>)
    requires arr != mem && addr + arr.Length <= mem.Length
    modifies mem
    ensures mem[..] == Overwrite(old(mem[..]), addr, arr[..])
  {
    ghost var m0 := mem[..];
    var i := 0;
    while i < arr.Length
      invariant i <= arr.Length
      invariant mem[..] == Overwrite(m0, addr, arr[..i])
    {
      OverwriteStep(m0, addr, arr[..], i);
      mem[addr + i] := arr[i];
      i := i + 1;
    }
    assert arr[..i] == arr[..];
  }

  /** Adjacent-swap passes over `a[..k]`: after pass i the largest i
      elements of the prefix sit in order at its end. */
  method BubbleSortPrefix(a: array<Word>, k: nat)
    requires k <= a.Length
    modifies a
    ensures Sorted(a[..k])
    ensures multiset(a[..k]) == multiset(old(a[..k]))
    ensures a[k..] == old(a[k..])
  {
    var i := 0;
    while i + 1 < k
      invariant i <= k && (k == 0 || i < k)
      invariant forall p, q :: k - i <= p < q < k ==> a[p] <= a[q]
      invariant forall p, q :: 0 <= p < k - i <= q < k ==> a[p] <= a[q]
      invariant multiset(a[..k]) == multiset(old(a[..k]))
      invariant forall p :: k <= p < a.Length ==> a[p] == old(a[p])
    {
      BubblePass(a, k, i);
      i := i + 1;
    }
    assert a[k..] == old(a[k..]);
  }

  /** Pass i of the sort: compare and swap neighbours from the front up to
      position k - i - 1, carrying the largest element of `a[..k - i]` to
      that position without disturbing anything from k - i on. */
  method BubblePass(a: array<Word>, k: nat, i: nat)
    requires i + 1 < k <= a.Length
    requires forall p, q :: 0 <= p < k - i <= q < k ==> a[p] <= a[q]
    modifies a
    ensures forall p, q :: 0 <= p < k - i <= q < k ==> a[p] <= a[q]
    ensures forall p :: 0 <= p < k - i - 1 ==> a[p] <= a[k - i - 1]
    ensures forall p :: k - i <= p < a.Length ==> a[p] == old(a[p])
    ensures multiset(a[..k]) == multiset(old(a[..k]))
  {
    var j := 0;
    while j < k - i - 1
      invariant j <= k - i - 1
      invariant forall p :: 0 <= p < j ==> a[p] <= a[j]
      invariant forall p, q :: 0 <= p < k - i <= q < k ==> a[p] <= a[q]
      invariant forall p :: k - i <= p < a.Length ==> a[p] == old(a[p])
      invariant multiset(a[..k]) == multiset(old(a[..k]))
    {
      if a[j] > a[j + 1] {
        SwapNext(a, j, k);
      }
      j := j + 1;
    }
  }

  /** Exchanges `a[j]` and `a[j + 1]`, both inside the prefix `a[..k]`. */
  method SwapNext(a: array<Word>, j: nat, k: nat)
    requires j + 1 < k <= a.Length
    modifies a
    ensures a[j] == old(a[j + 1]) && a[j + 1] == old(a[j])
    ensures forall p :: 0 <= p < a.Length && p != j && p != j + 1 ==> a[p] == old(a[p])
    ensures multiset(a[..k]) == multiset(old(a[..k]))
  {
    a[j], a[j + 1] := a[j + 1], a[j];
    assert a[..k] == old(a[..k])[j := old(a[j + 1])][j + 1 := old(a[j])];
  }
}
