/** The table of coherence records: reserving a free record by a scan that wraps around, and recycling
    one (src/core/write_meta.cc:29-41 and 141-188, src/core/write_meta.h:108-156). */
module RecordTable {
  import opened Common
  import opened NrDirectory
  import opened SeqlockWord

  datatype Slot = Slot(word: Word, block: BlockId)

  /** The number of records that are not free. */
  ghost function InUse(s: seq<Slot>): nat {
    if s == [] then 0 else InUse(s[..|s| - 1]) + One(!s[|s| - 1].word.free)
  }

  lemma {:induction false} InUseUpdate(s: seq<Slot>, i: nat, v: Slot)
    requires i < |s|
    ensures InUse(s[i := v]) == InUse(s) + One(!v.word.free) - One(!s[i].word.free)
  {
    var n := |s| - 1;
    if i < n {
      InUseUpdate(s[..n], i, v);
      assert s[i := v][..n] == s[..n][i := v];
    } else {
      assert s[i := v][..n] == s[..n];
    }
  }

  lemma {:induction false} InUseBounds(s: seq<Slot>)
    ensures InUse(s) <= |s|
    ensures InUse(s) == 0 <==> forall i :: 0 <= i < |s| ==> s[i].word.free
  {
    if s != [] {
      var front := s[..|s| - 1];
      InUseBounds(front);
      assert forall i :: 0 <= i < |front| ==> front[i] == s[i];
    }
  }

  // ---------------------------------------------------------------- the table

  /** A record that try_allocate_seqlock takes. */
  predicate Available(s: Slot) {
    s.word.free && !s.word.locked
  }

  /** More than 95% of the records are allocated. */
  predicate Crowded(count: int, n: nat)
    requires n > 0
  {
    count as real / n as real > 0.95
  }

  lemma ProductSign(a: real, b: real)
    requires b > 0.0
    ensures a * b > 0.0 <==> a > 0.0
  {
  }

  /** The guard in whole numbers. */
  lemma CrowdedExactly(count: int, n: nat)
    requires n > 0
    ensures Crowded(count, n) <==> 100 * count > 95 * n
  {
    var c, m, d := count as real, n as real, 100 * count - 95 * n;
    assert d as real == 100.0 * c - 95.0 * m;
    assert (c / m - 0.95) * m == c - 0.95 * m == d as real / 100.0;
    ProductSign(c / m - 0.95, m);
  }

  class SharedMetadata {
    const slots: array<Slot>
    var allocatedSlotNum: int
    var allocateCount: nat
    var reclaimCount: nat

    /** The counter is the number of records that are not free. */
    ghost predicate Counted()
      reads this, slots
    {
      allocatedSlotNum == InUse(slots[..])
    }

    constructor (wmetaSlotLen: nat)
      requires wmetaSlotLen > 0
      ensures fresh(slots) && slots.Length == wmetaSlotLen && Counted()
      ensures forall i :: 0 <= i < wmetaSlotLen ==> slots[i].word == INITIAL
    {
      slots := new Slot[wmetaSlotLen](_ => Slot(INITIAL, NULL_KEY));
      allocatedSlotNum, allocateCount, reclaimCount := 0, 0, 0;
      new;
      InUseBounds(slots[..]);
    }

    /** Without a hint a crowded table is refused at once. Otherwise the free record nearest after the
        start is taken, and only a table without one gives nothing. */
    method CheckReserveWmeta(block: BlockId, withLock: bool, hint: Option<nat>, rng: nat) returns (r: Option<nat>)
      requires slots.Length > 0 && Counted()
      modifies this, slots
      ensures Counted() && reclaimCount == old(reclaimCount)
      ensures r.None? <==>
        || (hint.None? && 100 * old(allocatedSlotNum) > 95 * slots.Length)
        || forall j :: 0 <= j < slots.Length ==> !old(slots[j].word.free) || old(slots[j].word.locked)
      ensures r.None? ==> slots[..] == old(slots[..]) && allocateCount == old(allocateCount)
      ensures r.Some? ==>
        && r.value < slots.Length && old(slots[r.value].word.free) && !old(slots[r.value].word.locked)
        && slots[..] == old(slots[..])[r.value := Slot(AllocatedWord(withLock), block)]
        && allocateCount == old(allocateCount) + 1
      ensures var start := if hint.Some? then hint.value else rng;
        r.Some? ==> forall j :: 0 <= j < slots.Length && old(slots[j].word.free) && !old(slots[j].word.locked) ==>
          (r.value - start) % slots.Length <= (j - start) % slots.Length
    {
      var n := slots.Length;
      var start := rng;
      CrowdedExactly(allocatedSlotNum, n);
      if hint.Some? {
        start := hint.value;
      } else {
        if Crowded(allocatedSlotNum, n) {
          return None;
        }
      }
      for i := 0 to n
        invariant slots[..] == old(slots[..])
        invariant allocatedSlotNum == old(allocatedSlotNum) && allocateCount == old(allocateCount)
        invariant reclaimCount == old(reclaimCount)
        invariant forall j :: 0 <= j < n && Available(slots[j]) ==> i <= (j - start) % n
      {
        var index := (i + start) % n;
        ScanPosition(n, start, i, index);
        if Available(slots[index]) {
          InUseUpdate(slots[..], index, Slot(AllocatedWord(withLock), block));
          slots[index] := Slot(AllocatedWord(withLock), block);
          assert slots[..] == old(slots[..])[index := Slot(AllocatedWord(withLock), block)];
          allocatedSlotNum := allocatedSlotNum + 1;
          allocateCount := allocateCount + 1;
          return Some(index);
        }
        forall j | 0 <= j < n && Available(slots[j])
          ensures i + 1 <= (j - start) % n
        {
          ScanPosition(n, start, i, j);
        }
      }
      return None;
    }

    /** A record that was already free is counted down again, so the counter stays right exactly when
        it was not; a record that is neither free nor locked is refused when the lock is said to be
        held. The unlocked form waits while the record is locked. */
    method RecycleWmeta(index: nat, withLock: bool) returns (r: bool)
      requires index < slots.Length && Counted() && (withLock || !slots[index].word.locked)
      modifies this, slots
      ensures var word := old(slots[index].word);
        && r == (word.free || word.locked || !withLock)
        && slots[..] == (if r && !word.free then old(slots[..])[index := Slot(FreeWord(word), old(slots[index].block))]
                         else old(slots[..]))
        && allocatedSlotNum == old(allocatedSlotNum) - One(r) && reclaimCount == old(reclaimCount) + One(r)
        && (Counted() <==> !word.free)
      ensures allocateCount == old(allocateCount)
    {
      var slot := slots[index];
      if withLock {
        if !slot.word.free && !slot.word.locked {
          return false;
        }
      }
      if !slot.word.free {
        InUseUpdate(slots[..], index, slot.(word := FreeWord(slot.word)));
        slots[index] := slot.(word := FreeWord(slot.word));
        assert slots[..] == old(slots[..])[index := slot.(word := FreeWord(slot.word))];
      }
      allocatedSlotNum := allocatedSlotNum - 1;
      reclaimCount := reclaimCount + 1;
      return true;
    }

    /** How many records are allocated beyond the threshold. */
    function OverThreshold(threshold: nat): nat
      reads this
    {
      if allocatedSlotNum - threshold > 0 then allocatedSlotNum - threshold else 0
    }
  }

  lemma NearestIsStart(n: nat, start: nat, r: nat)
    requires start < n && r < n && (r - start) % n <= (start - start) % n
    ensures r == start
  {
    ModUnique(start, n, 0, start);
    ScanPosition(n, start, 0, r);
  }

  /** A record that was reserved and recycled can be reserved again, whatever sections it has seen. */
  method ReserveAgain(meta: SharedMetadata, block: BlockId, withLock: bool, hint: nat)
    returns (first: Option<nat>, again: Option<nat>)
    requires meta.slots.Length > 0 && meta.Counted()
    modifies meta, meta.slots
    ensures again == first && meta.Counted()
    ensures first.None? <==> forall j :: 0 <= j < meta.slots.Length ==>
      !old(meta.slots[j].word.free) || old(meta.slots[j].word.locked)
  {
    first := meta.CheckReserveWmeta(block, withLock, Some(hint), 0);
    if first.Some? {
      var _ := meta.RecycleWmeta(first.value, withLock);
      assert meta.slots[first.value].word.free && !meta.slots[first.value].word.locked;
      again := meta.CheckReserveWmeta(block, withLock, Some(first.value), 0);
      NearestIsStart(meta.slots.Length, first.value, again.value);
    } else {
      again := None;
    }
  }

  /** Recycling a record twice: the counter is then one below the number of records in use. */
  method RecycleTwice(records: nat, block: BlockId) returns (meta: SharedMetadata)
    requires records > 0
    ensures fresh(meta) && !meta.Counted() && meta.allocatedSlotNum == InUse(meta.slots[..]) - 1
  {
    meta := new SharedMetadata(records);
    assert Available(meta.slots[0]);
    var w := meta.CheckReserveWmeta(block, true, Some(0), 0);
    var _ := meta.RecycleWmeta(w.value, true);
    var _ := meta.RecycleWmeta(w.value, true);
  }
}
