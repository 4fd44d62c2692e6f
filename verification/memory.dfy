/** The target memory as the helpers see it through the load/store interface.

    A memory state is a sequence of cells (32-bit words for DMA and SORT, bytes
    for CRUSH and EXPAND).  The cells [0, |m|) are mapped; a load or store at an
    address at or beyond |m| raises an address fault, which ends the helper
    immediately and leaves every store already made in place.
 */
module Memory {

  /** A 32-bit unsigned word, as loaded and stored by the word accesses. */
  newtype Word = w: int | 0 <= w < 0x1_0000_0000

  /** How a helper invocation ends: normally, or with a trap at the first
      address that could not be accessed. */
  datatype Outcome = Done | Fault(addr: nat)

  /** The outcome of an invocation together with the memory it leaves behind. */
  datatype Run<T> = Run(outcome: Outcome, mem: seq<T>)

  /** `count` consecutive accesses starting at `base` all hit mapped memory. */
  predicate Fits(base: nat, count: nat, size: nat) {
    count == 0 || base + count <= size
  }

  /** Ranges [a, a + la) and [b, b + lb) share no address. */
  predicate Disjoint(a: nat, la: nat, b: nat, lb: nat) {
    a + la <= b || b + lb <= a
  }

  /** The address of the first fault when consecutive accesses from `base`
      run past the end of a memory of `size` cells: the first address at or
      after `base` that is unmapped, every address before it (from `base` on)
      being mapped. */
  function FirstFault(base: nat, size: nat): (a: nat)
    ensures base <= a && size <= a && (base < a ==> a - 1 < size)
  {
    if base < size then size else base
  }

  /** The memory after `block[0]`, `block[1]`, ... are stored at `base`,
      `base + 1`, ...; a store that falls outside the memory changes nothing. */
  function Overwrite<T>(m: seq<T>, base: nat, block: seq<T>): (r: seq<T>)
    ensures |r| == |m|
  {
    seq(|m|, a requires 0 <= a < |m| =>
      if base <= a < base + |block| then block[a - base] else m[a])
  }

  /** Adjacent slices join into one. */
  lemma SliceSplit<T>(m: seq<T>, a: nat, b: nat, c: nat)
    requires a <= b <= c <= |m|
    ensures m[a..b] + m[b..c] == m[a..c]
  {
  }

  /** The two parts of a slice split at k are slices themselves. */
  lemma SliceParts<T>(m: seq<T>, a: nat, k: nat, b: nat)
    requires a + k <= b <= |m|
    ensures m[a..b][..k] == m[a..a + k] && m[a..b][k..] == m[a + k..b]
  {
  }

  /** A cell inside the stored block holds the block's cell. */
  lemma OverwriteAt<T>(m: seq<T>, base: nat, block: seq<T>, a: nat)
    requires base <= a < base + |block| && a < |m|
    ensures Overwrite(m, base, block)[a] == block[a - base]
  {
  }

  /** A cell outside the stored block keeps its value. */
  lemma OverwriteOutside<T>(m: seq<T>, base: nat, block: seq<T>, a: nat)
    requires a < |m| && !(base <= a < base + |block|)
    ensures Overwrite(m, base, block)[a] == m[a]
  {
  }

  /** Storing one more cell of a block extends the previous stores by that cell. */
  lemma OverwriteSnoc<T>(m: seq<T>, base: nat, block: seq<T>, x: T)
    requires base + |block| < |m|
    ensures Overwrite(m, base, block + [x]) == Overwrite(m, base, block)[base + |block| := x]
  {
  }

  /** Storing cell k of a block after its first k cells stores its first k + 1 cells. */
  lemma OverwriteStep<T>(m: seq<T>, base: nat, block: seq<T>, k: nat)
    requires k < |block| && base + k < |m|
    ensures Overwrite(m, base, block[..k])[base + k := block[k]] == Overwrite(m, base, block[..k + 1])
  {
    assert block[..k + 1] == block[..k] + [block[k]];
    OverwriteSnoc(m, base, block[..k], block[k]);
  }

  /** Storing two blocks one after the other stores their concatenation. */
  lemma OverwriteAppend<T>(m: seq<T>, base: nat, p: seq<T>, q: seq<T>)
    ensures Overwrite(Overwrite(m, base, p), base + |p|, q) == Overwrite(m, base, p + q)
  {
  }

  /** Once a block runs past the end of memory, the rest of it stores nothing. */
  lemma OverwriteBeyond<T>(m: seq<T>, base: nat, block: seq<T>, k: nat)
    requires k <= |block| && |m| <= base + k
    ensures Overwrite(m, base, block[..k]) == Overwrite(m, base, block)
  {
  }

  /** A block stored wholly inside memory can be read back from it. */
  lemma OverwriteRead<T>(m: seq<T>, base: nat, block: seq<T>)
    requires base + |block| <= |m|
    ensures Overwrite(m, base, block)[base..base + |block|] == block
  {
  }

  /** Stores of a block at addresses it already holds change nothing. */
  lemma OverwriteSame<T>(m: seq<T>, base: nat, count: nat)
    requires base + count <= |m|
    ensures Overwrite(m, base, m[base..base + count]) == m
  {
  }
}
