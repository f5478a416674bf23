/** The 32-bit word of the dynamic seqlock (src/core/seqcount.h:75-90):

      | free bit (31) | lock bit (30) | sequence count (29..0) |

    `Word` names the three fields. The functions `...Word` say what each store or
    compare-and-swap of src/core/seqcount.cc does to them; the functions `Mask...` are the same
    operations as the source writes them, with bitwise masks on a number below 2^32. The lemmas
    `Mask...Agree` relate the two, so that everything proved about `Word` holds of the packed word: in
    particular no carry out of the count reaches the lock or the free bit. */
module SeqlockWord {
  import opened BitMasks

  const COUNT_SPAN := 0x4000_0000   // 2^30, the number of values of the count
  const LOCK_BIT := 0x4000_0000
  const FREE_BIT := 0x8000_0000
  const WORD_SPAN := 0x1_0000_0000

  // Write sections after which the count returns to the value it had.
  const SECTION_SPAN := 0x2000_0000   // 2^29

  type Count = c: int | 0 <= c < COUNT_SPAN

  datatype Word = Word(free: bool, locked: bool, count: Count) {

    predicate Odd() {
      count % 2 == 1
    }

    // read_seqlock_retry: reject a changed count or a free record.
    predicate RetryPasses(start: Count) {
      start == count && !free
    }
  }

  function Succ(c: Count): Count {
    (c + 1) % COUNT_SPAN
  }

  // seqlock_init, and WriteMetadata(alloc = false)
  const INITIAL := Word(true, false, 0)

  // write_seqlock_begin
  function BeginWord(w: Word): Word {
    Word(false, true, Succ(w.count))
  }

  // write_seqlock_end
  function EndWord(w: Word): Word {
    Word(false, false, Succ(w.count))
  }

  // write_seqlock_only
  function LockWord(w: Word): Word {
    w.(locked := true)
  }

  // write_sequnlock_only
  function UnlockWord(w: Word): Word {
    Word(false, false, w.count)
  }

  // free_seqlock and free_seqlock_with_lock: an odd count is rounded up to even
  function FreeWord(w: Word): Word {
    Word(true, false, if w.Odd() then Succ(w.count) else w.count)
  }

  // try_allocate_seqlock: the count restarts
  function AllocatedWord(withLock: bool): Word {
    Word(false, withLock, if withLock then 1 else 0)
  }

  // ---------------------------------------------------------------- counting sections

  lemma SuccFacts(c: Count, p: nat)
    requires c == p % COUNT_SPAN
    ensures Succ(c) == (p + 1) % COUNT_SPAN
    ensures Succ(c) % 2 == 1 <==> c % 2 == 0
  {
  }

  lemma DoubleMod(k: nat)
    ensures (2 * k) % COUNT_SPAN == 2 * (k % SECTION_SPAN)
  {
  }

  lemma OddMod(k: nat)
    ensures (2 * k + 1) % COUNT_SPAN == 2 * (k % SECTION_SPAN) + 1
  {
  }

  lemma SameResidue(a: nat, b: nat)
    ensures a % SECTION_SPAN == b % SECTION_SPAN <==> (b - a) % SECTION_SPAN == 0
  {
    var q := b / SECTION_SPAN - a / SECTION_SPAN;
    assert b - a == q * SECTION_SPAN + (b % SECTION_SPAN - a % SECTION_SPAN);
  }

  /** When the count after b sections, one more being `open`, is the count after a sections. */
  lemma CountsMatch(a: nat, b: nat, open: bool)
    ensures (2 * a) % COUNT_SPAN == (2 * b + (if open then 1 else 0)) % COUNT_SPAN <==>
              !open && (b - a) % SECTION_SPAN == 0
  {
    DoubleMod(a);
    if open {
      OddMod(b);
    } else {
      DoubleMod(b);
      SameResidue(a, b);
    }
  }

  // ---------------------------------------------------------------- the packed word

  type Raw = r: int | 0 <= r < WORD_SPAN

  function Pack(w: Word): Raw {
    (if w.free then FREE_BIT else 0) + (if w.locked then LOCK_BIT else 0) + w.count
  }

  function Unpack(r: Raw): Word {
    Word(r >= FREE_BIT, (r / LOCK_BIT) % 2 == 1, r % COUNT_SPAN)
  }

  lemma PackIsBijective(w: Word, r: Raw)
    ensures Unpack(Pack(w)) == w
    ensures Pack(Unpack(r)) == r
  {
    if w.free && w.locked {
      assert Pack(w) == w.count + 3 * LOCK_BIT;
    } else if w.free {
      assert Pack(w) == w.count + 2 * LOCK_BIT;
    } else if w.locked {
      assert Pack(w) == w.count + LOCK_BIT;
    }
  }

  // ---------------------------------------------------------------- the operations as masks

  const SEQ_MASK := COUNT_SPAN - 1
  const NOT_LOCK := WORD_SPAN - 1 - LOCK_BIT
  const NOT_FREE := WORD_SPAN - 1 - FREE_BIT

  // write_seqlock_begin
  function MaskBegin(curr: Raw): nat {
    Or(And(And(curr, SEQ_MASK) + 1, SEQ_MASK), LOCK_BIT)
  }

  // write_seqlock_end
  function MaskEnd(curr: Raw): nat {
    And((curr + 1) % WORD_SPAN, SEQ_MASK)
  }

  // write_seqlock_only
  function MaskLock(curr: Raw): nat {
    Or(curr, LOCK_BIT)
  }

  // write_sequnlock_only
  function MaskUnlock(curr: Raw): nat {
    And(curr, SEQ_MASK)
  }

  function MaskEven(c: nat): nat {
    if And(c, 1) != 0 then And(c + 1, SEQ_MASK) else c
  }

  // free_seqlock
  function MaskFree(curr: Raw): nat {
    Or(MaskEven(And(curr, SEQ_MASK)), FREE_BIT)
  }

  // free_seqlock_with_lock
  function MaskFreeLocked(curr: Raw): nat {
    And(MaskFree(curr), NOT_LOCK)
  }

  // try_allocate_seqlock, which starts from newSeq == 0
  function MaskAllocate(newSeq: Count, withLock: bool): nat {
    And(if withLock then Or(And(newSeq + 1, SEQ_MASK), LOCK_BIT) else newSeq, NOT_FREE)
  }

  // read_seqlock_retry, negated
  predicate MaskRetryPasses(curr: Raw, start: Count) {
    !(start != And(curr, SEQ_MASK) || And(curr, FREE_BIT) != 0)
  }

  lemma Powers()
    ensures Pow2(0) == 1 && Pow2(30) == COUNT_SPAN && Pow2(31) == FREE_BIT && Pow2(32) == WORD_SPAN
  {
    assert Pow2(10) == 0x400;
    assert Pow2(20) == 0x10_0000 by {
      assert Pow2(15) == 0x8000;
    }
    assert Pow2(25) == 0x200_0000;
  }

  lemma MaskCount(w: nat)
    ensures And(w, SEQ_MASK) == w % COUNT_SPAN
    ensures And(w, 1) != 0 <==> w % 2 == 1
  {
    Powers();
    AndLow(w, 30);
    BitsAreRemainder(w, 30);
    AndBit(w, 0);
  }

  /** The three tests of a packed word read its three fields. */
  lemma MaskTestsAgree(r: Raw)
    ensures And(r, FREE_BIT) != 0 <==> Unpack(r).free
    ensures And(r, LOCK_BIT) != 0 <==> Unpack(r).locked
    ensures And(r, 1) != 0 <==> Unpack(r).Odd()
  {
    Powers();
    AndBit(r, 31);
    AndBit(r, 30);
    BitsAreRemainder(r, 31);
    BitsAreRemainder(r, 30);
    MaskCount(r);
    CountParity(r);
  }

  lemma CountParity(r: Raw)
    ensures r % COUNT_SPAN % 2 == r % 2
  {
    assert r == r / COUNT_SPAN * COUNT_SPAN + r % COUNT_SPAN;
  }

  /** Setting the lock or the free bit of a bare count. */
  lemma OrLock(c: Count)
    ensures Or(c, LOCK_BIT) == c + LOCK_BIT
  {
    Powers();
    OrAbove(c, 30);
  }

  lemma OrFree(c: Count)
    ensures Or(c, FREE_BIT) == c + FREE_BIT
  {
    Powers();
    OrAbove(c, 31);
  }

  /** Opening, closing and unlocking: no carry leaves the count. */
  lemma MaskSectionsAgree(r: Raw)
    ensures MaskBegin(r) == Pack(BeginWord(Unpack(r)))
    ensures MaskEnd(r) == Pack(EndWord(Unpack(r)))
    ensures MaskUnlock(r) == Pack(UnlockWord(Unpack(r)))
  {
    var c := r % COUNT_SPAN;
    MaskCount(r);
    MaskCount(c + 1);
    OrLock(Succ(c));
    MaskCount((r + 1) % WORD_SPAN);
    EndCount(r);
  }

  lemma EndCount(r: Raw)
    ensures (r + 1) % WORD_SPAN % COUNT_SPAN == (r % COUNT_SPAN + 1) % COUNT_SPAN
  {
    var q := r / COUNT_SPAN;
    assert r == q * COUNT_SPAN + r % COUNT_SPAN;
    assert q == 0 || q == 1 || q == 2 || q == 3;
  }

  lemma MaskLockAgrees(r: Raw)
    ensures MaskLock(r) == Pack(LockWord(Unpack(r)))
  {
    Powers();
    OrBit(r, 30);
    BitsAreRemainder(r, 30);
    PackIsBijective(INITIAL, r);
  }

  lemma MaskEvenAgrees(c: Count)
    ensures MaskEven(c) == if c % 2 == 1 then Succ(c) else c
  {
    MaskCount(c);
    MaskCount(c + 1);
  }

  lemma MaskFreeAgrees(r: Raw)
    ensures MaskFree(r) == Pack(FreeWord(Unpack(r)))
  {
    var c := r % COUNT_SPAN;
    MaskCount(r);
    MaskEvenAgrees(c);
    OrFree(MaskEven(c));
  }

  /** Clearing a bit that is not set changes nothing. */
  lemma ClearLock(c: Count)
    ensures And(c + FREE_BIT, NOT_LOCK) == c + FREE_BIT
  {
    var w: nat := c + FREE_BIT;
    Powers();
    AndComplement(w, LOCK_BIT, 32);
    AndBit(w, 30);
    BitsAreRemainder(w, 30);
    assert w / LOCK_BIT == 2;
  }

  lemma ClearFree(w: nat)
    requires w < FREE_BIT
    ensures And(w, NOT_FREE) == w
  {
    Powers();
    AndComplement(w, FREE_BIT, 32);
    AndBit(w, 31);
    BitsAreRemainder(w, 31);
  }

  /** Freeing under the lock clears the lock bit and gives the same word. */
  lemma MaskFreeLockedAgrees(r: Raw)
    ensures MaskFreeLocked(r) == Pack(FreeWord(Unpack(r)))
  {
    MaskFreeAgrees(r);
    ClearLock(FreeWord(Unpack(r)).count);
  }

  lemma MaskTaken(newSeq: Count)
    ensures Or(And(newSeq + 1, SEQ_MASK), LOCK_BIT) == Succ(newSeq) + LOCK_BIT
  {
    MaskCount(newSeq + 1);
    OrLock(Succ(newSeq));
  }

  lemma MaskAllocateAgrees(newSeq: Count, withLock: bool)
    ensures MaskAllocate(newSeq, withLock) == Pack(Word(false, withLock, if withLock then Succ(newSeq) else newSeq))
    ensures newSeq == 0 ==> MaskAllocate(newSeq, withLock) == Pack(AllocatedWord(withLock))
  {
    MaskTaken(newSeq);
    ClearFree(if withLock then Succ(newSeq) + LOCK_BIT else newSeq);
  }

  lemma MaskRetryAgrees(r: Raw, start: Count)
    ensures MaskRetryPasses(r, start) <==> Unpack(r).RetryPasses(start)
  {
    MaskCount(r);
    MaskTestsAgree(r);
  }
}
