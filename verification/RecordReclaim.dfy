/** The background reclaim of coherence records (src/manager/wmeta_manager.cc:59-101 and 141-168): a scan
    over the record table that switches blocks back to read-only mode and frees their records.

    The scan runs while no other thread holds a record, so locking one that is not free succeeds at
    once. Its start index moves during the scan, next to the loop counter. */
module RecordReclaim {
  import opened Common
  import opened NrDirectory
  import opened NrHandlers
  import opened NrInvariants
  import opened RecordTable
  import opened SeqlockWord
  import Simulation = DirectorySimulation

  datatype Table = Table(slots: seq<Slot>, dir: Storage)

  /** Directory and table agree: a record in use is named by its block's entry, an entry's record is in
      use for that block. */
  ghost predicate Agrees(t: Table) {
    && (forall w :: 0 <= w < |t.slots| && !t.slots[w].word.free ==> Named(t, w))
    && (forall id <- t.dir :: t.dir[id].wmeta == -1 || Names(t, id))
  }

  ghost predicate Named(t: Table, w: nat)
    requires w < |t.slots|
  {
    var id := t.slots[w].block.Id();
    !t.slots[w].word.locked && id in t.dir && t.dir[id].wmeta == w
  }

  ghost predicate Names(t: Table, id: Ident)
    requires id in t.dir
  {
    var w := t.dir[id].wmeta;
    0 <= w < |t.slots| && !t.slots[w].word.free && t.slots[w].block.Id() == id
  }

  // ---------------------------------------------------------------- one step of the scan

  /** SwitchToReadOnly: the entry loses its record and the caller learns which it was. */
  function Detach(dir: Storage, block: BlockId): (Storage, Option<nat>) {
    var id := block.Id();
    if id in dir then (dir[id := dir[id].(wmeta := -1)], Simulation.ToOption(dir[id].wmeta)) else (dir, None)
  }

  lemma DetachIsSwitchOperation(dir: Storage, block: BlockId)
    ensures var r := Apply(dir, CheckSwitchWmetaArray(block, -1));
      r.reply.Answer? && Detach(dir, block) == (r.storage, Simulation.DecodeDetach(r.reply.resp))
  {
  }

  /** RecycleWmeta with the lock held, on values. */
  function Recycled(slots: seq<Slot>, w: nat): seq<Slot>
    requires w < |slots|
  {
    var word := slots[w].word;
    if word.free || !word.locked then slots else slots[w := slots[w].(word := FreeWord(word))]
  }

  /** Locks record w, detaches its block and frees the record the directory named; without one the
      record is unlocked again. Nothing happens to a free record. */
  function Reclaim(t: Table, w: nat): (Table, bool)
    requires w < |t.slots|
  {
    var slot := t.slots[w];
    if slot.word.free then (t, false)
    else
      var slots := t.slots[w := slot.(word := LockWord(slot.word))];
      var (dir, got) := Detach(t.dir, slot.block);
      if got.Some? then (Table(if got.value < |slots| then Recycled(slots, got.value) else slots, dir), true)
      else (Table(slots[w := slot.(word := UnlockWord(slots[w].word))], dir), false)
  }

  /** What reclaiming a record in use comes to when directory and table agree. */
  ghost function Released(t: Table, w: nat): Table
    requires w < |t.slots| && t.slots[w].block.Id() in t.dir
  {
    var slot, id := t.slots[w], t.slots[w].block.Id();
    Table(t.slots[w := slot.(word := FreeWord(LockWord(slot.word)))], t.dir[id := t.dir[id].(wmeta := -1)])
  }

  lemma ReclaimReleases(t: Table, w: nat)
    requires Agrees(t) && w < |t.slots| && !t.slots[w].word.free
    ensures Named(t, w) && Reclaim(t, w) == (Released(t, w), true)
    ensures Agrees(Released(t, w)) && InUse(Released(t, w).slots) == InUse(t.slots) - 1
  {
    assert Named(t, w);
    var t' := Released(t, w);
    InUseUpdate(t.slots, w, t'.slots[w]);
    assert Reclaim(t, w).0.slots == t'.slots;
    forall v | 0 <= v < |t'.slots| && !t'.slots[v].word.free
      ensures Named(t', v)
    {
      assert Named(t, v);
    }
    forall id | id in t'.dir && t'.dir[id].wmeta != -1
      ensures Names(t', id)
    {
      assert Names(t, id);
    }
  }

  // ---------------------------------------------------------------- the scan

  datatype Outcome = Outcome(table: Table, curr: nat, left: nat)

  /** One iteration, at record w: a reclaimed record moves the start behind it. */
  function Iteration(t: Table, curr: nat, left: nat, w: nat): Outcome
    requires w < |t.slots| && left > 0
  {
    var (t', freed) := Reclaim(t, w);
    if freed then Outcome(t', (w + 1) % |t.slots|, left - 1) else Outcome(t', curr, left)
  }

  function Position(t: Table, curr: nat, i: nat): (w: nat)
    requires t.slots != []
    ensures w < |t.slots|
  {
    (curr + i) % |t.slots|
  }

  /** Iterations i, i + 1, ... of the loop, with `left` records still wanted. */
  function Scan(t: Table, curr: nat, left: nat, i: nat): Outcome
    decreases |t.slots| - i
  {
    if i >= |t.slots| || left == 0 then Outcome(t, curr, left)
    else
      var o := Iteration(t, curr, left, Position(t, curr, i));
      Scan(o.table, o.curr, o.left, i + 1)
  }

  lemma ScanStep(t: Table, curr: nat, left: nat, i: nat, t': Table, freed: bool)
    requires i < |t.slots| && left > 0 && Reclaim(t, (curr + i) % |t.slots|) == (t', freed)
    ensures Scan(t, curr, left, i) ==
      if freed then Scan(t', ((curr + i) % |t.slots| + 1) % |t.slots|, left - 1, i + 1) else Scan(t', curr, left, i + 1)
  {
  }

  lemma IterationSkips(t: Table, curr: nat, left: nat, w: nat)
    requires w < |t.slots| && left > 0 && t.slots[w].word.free
    ensures Iteration(t, curr, left, w) == Outcome(t, curr, left)
  {
  }

  lemma IterationReleases(t: Table, curr: nat, left: nat, w: nat)
    requires Agrees(t) && w < |t.slots| && left > 0 && !t.slots[w].word.free
    ensures var o := Iteration(t, curr, left, w);
      && Named(t, w) && o.table == Released(t, w) && o.left == left - 1 && o.curr == (w + 1) % |t.slots|
      && Agrees(o.table) && |o.table.slots| == |t.slots| && InUse(o.table.slots) == InUse(t.slots) - 1
  {
    ReclaimReleases(t, w);
  }

  ghost predicate Freed(t: Table, t': Table, w: int)
    requires |t.slots| == |t'.slots|
  {
    0 <= w < |t.slots| && !t.slots[w].word.free && t'.slots[w].word.free
  }

  ghost predicate SlotChange(t: Table, t': Table, w: nat)
    requires w < |t.slots| == |t'.slots|
  {
    t'.slots[w] == if Freed(t, t', w) then t.slots[w].(word := FreeWord(LockWord(t.slots[w].word))) else t.slots[w]
  }

  ghost predicate EntryChange(t: Table, t': Table, id: Ident)
    requires |t.slots| == |t'.slots| && id in t.dir && id in t'.dir
  {
    t'.dir[id] == if Freed(t, t', t.dir[id].wmeta) then t.dir[id].(wmeta := -1) else t.dir[id]
  }

  /** From t to t' some records were freed, and exactly the entries that named them were detached;
      nothing else changed. */
  ghost predicate FreedOnly(t: Table, t': Table) {
    && |t.slots| == |t'.slots| && t.dir.Keys == t'.dir.Keys
    && (forall w :: 0 <= w < |t.slots| ==> SlotChange(t, t', w))
    && (forall id <- t.dir :: EntryChange(t, t', id))
  }

  lemma ReleasedFreesOnly(t: Table, w: nat)
    requires Agrees(t) && w < |t.slots| && !t.slots[w].word.free && Named(t, w)
    ensures FreedOnly(t, Released(t, w))
  {
    var t' := Released(t, w);
    forall id | id in t.dir
      ensures EntryChange(t, t', id)
    {
      assert t.dir[id].wmeta == -1 || Names(t, id);
    }
  }

  lemma FreedOnlyComposes(t: Table, t1: Table, t2: Table)
    requires FreedOnly(t, t1) && FreedOnly(t1, t2)
    ensures FreedOnly(t, t2)
  {
    forall w | 0 <= w < |t.slots|
      ensures SlotChange(t, t2, w)
    {
      assert SlotChange(t, t1, w) && SlotChange(t1, t2, w);
    }
    forall id | id in t.dir
      ensures EntryChange(t, t2, id)
    {
      assert EntryChange(t, t1, id) && EntryChange(t1, t2, id);
      var w := t.dir[id].wmeta;
      if 0 <= w < |t.slots| {
        assert SlotChange(t, t1, w) && SlotChange(t1, t2, w);
      }
    }
  }

  lemma {:induction false} ScanCounts(t: Table, curr: nat, left: nat, i: nat)
    requires Agrees(t)
    ensures var o := Scan(t, curr, left, i);
      Agrees(o.table) && o.left <= left && InUse(o.table.slots) == InUse(t.slots) - (left - o.left)
    decreases |t.slots| - i
  {
    if i < |t.slots| && left > 0 {
      var w := Position(t, curr, i);
      var o := Iteration(t, curr, left, w);
      if t.slots[w].word.free {
        IterationSkips(t, curr, left, w);
      } else {
        IterationReleases(t, curr, left, w);
      }
      ScanCounts(o.table, o.curr, o.left, i + 1);
    }
  }

  lemma {:induction false} ScanFreesOnly(t: Table, curr: nat, left: nat, i: nat)
    requires Agrees(t)
    ensures FreedOnly(t, Scan(t, curr, left, i).table)
    decreases |t.slots| - i
  {
    if i < |t.slots| && left > 0 {
      var w := Position(t, curr, i);
      var o := Iteration(t, curr, left, w);
      if t.slots[w].word.free {
        IterationSkips(t, curr, left, w);
        ScanFreesOnly(t, curr, left, i + 1);
      } else {
        IterationReleases(t, curr, left, w);
        ReleasedFreesOnly(t, w);
        ScanFreesOnly(o.table, o.curr, o.left, i + 1);
        FreedOnlyComposes(t, o.table, Scan(o.table, o.curr, o.left, i + 1).table);
      }
    }
  }

  /** The scan keeps the agreement, frees as many records as it takes off the request, and detaches
      exactly the blocks of the records it frees. */
  lemma ReclaimFreesExactly(t: Table, curr: nat, request: nat)
    requires Agrees(t)
    ensures var o := Scan(t, curr, request, 0);
      && Agrees(o.table) && FreedOnly(t, o.table)
      && 0 <= Reclaimed(t, curr, request) <= request
      && InUse(o.table.slots) == InUse(t.slots) - Reclaimed(t, curr, request)
  {
    ScanCounts(t, curr, request, 0);
    ScanFreesOnly(t, curr, request, 0);
  }

  // ---------------------------------------------------------------- what the scan misses

  /** One of the iterations from i on, with the start where it is, looks at a record in use. */
  ghost predicate Ahead(t: Table, curr: nat, i: nat) {
    exists j :: i <= j < |t.slots| && InUseAt(t, curr, j)
  }

  ghost predicate InUseAt(t: Table, curr: nat, j: nat)
    requires j < |t.slots|
  {
    !t.slots[Position(t, curr, j)].word.free
  }

  lemma AheadStep(t: Table, curr: nat, i: nat)
    requires i < |t.slots|
    ensures Ahead(t, curr, i) <==> InUseAt(t, curr, i) || Ahead(t, curr, i + 1)
  {
  }

  lemma {:induction false} ScanFindsWhatIsAhead(t: Table, curr: nat, left: nat, i: nat)
    requires Agrees(t) && left > 0
    ensures Scan(t, curr, left, i).left < left <==> Ahead(t, curr, i)
    decreases |t.slots| - i
  {
    if i < |t.slots| {
      var w := Position(t, curr, i);
      var o := Iteration(t, curr, left, w);
      AheadStep(t, curr, i);
      if t.slots[w].word.free {
        IterationSkips(t, curr, left, w);
        ScanFindsWhatIsAhead(t, curr, left, i + 1);
      } else {
        IterationReleases(t, curr, left, w);
        ScanCounts(o.table, o.curr, o.left, i + 1);
      }
    }
  }

  /** A whole round looks at every record. */
  lemma WholeRoundLooksEverywhere(t: Table, curr: nat)
    ensures Ahead(t, curr, 0) <==> InUse(t.slots) > 0
  {
    InUseBounds(t.slots);
    var n := |t.slots|;
    if Ahead(t, curr, 0) {
      var j :| 0 <= j < n && InUseAt(t, curr, j);
    }
    forall w | 0 <= w < n && !t.slots[w].word.free
      ensures Ahead(t, curr, 0)
    {
      var j := (w - curr) % n;
      ScanPosition(n, curr, j, w);
      assert InUseAt(t, curr, j);
    }
  }

  /** How many records IterativeReclaim frees. */
  function Reclaimed(t: Table, curr: nat, request: nat): int {
    request - Scan(t, curr, request, 0).left
  }

  /** It frees nothing only when nothing is asked for or nothing is allocated. */
  lemma ReclaimsNothingExactly(t: Table, curr: nat, request: nat)
    requires Agrees(t)
    ensures Reclaimed(t, curr, request) == 0 <==> request == 0 || InUse(t.slots) == 0
  {
    if request > 0 {
      ScanFindsWhatIsAhead(t, curr, request, 0);
      WholeRoundLooksEverywhere(t, curr);
      ScanCounts(t, curr, request, 0);
    }
  }

  /** On every table of n records with a directory in order, a call frees all that it could. */
  ghost predicate AlwaysMeets(n: nat, request: nat) {
    forall t: Table, curr: nat :: Agrees(t) && Safe(t.dir) && |t.slots| == n && curr < n ==>
      Reclaimed(t, curr, request) == Min(request, InUse(t.slots))
  }

  // Records 0 and 1 are in use for two blocks, which were admitted with them.
  const LOW: BlockId := BlockId(0, 0, 0)
  const HIGH: BlockId := BlockId(0, 1, 0)
  const PUBLISHED: Word := Word(false, false, 2)

  ghost function TwoInUse(n: nat): (t: Table)
    requires n >= 2
    ensures |t.slots| == n
    ensures t.slots[0] == Slot(PUBLISHED, LOW) && t.slots[1] == Slot(PUBLISHED, HIGH)
    ensures forall w :: 2 <= w < n ==> t.slots[w].word.free
  {
    Table([Slot(PUBLISHED, LOW), Slot(PUBLISHED, HIGH)] + seq(n - 2, _ => Slot(INITIAL, NULL_KEY)),
          map[LOW.Id() := InitEntry(0, NUMA_MEM).(wmeta := 0), HIGH.Id() := InitEntry(1, NUMA_MEM).(wmeta := 1)])
  }

  lemma TwoInUseCount(n: nat)
    requires n >= 2
    ensures Agrees(TwoInUse(n)) && InUse(TwoInUse(n).slots) == 2
  {
    var t := TwoInUse(n);
    assert Named(t, 0) && Named(t, 1);
    var s := t.slots[0 := Slot(INITIAL, LOW)];
    InUseUpdate(t.slots, 0, s[0]);
    InUseUpdate(s, 1, Slot(INITIAL, HIGH));
    InUseBounds(s[1 := Slot(INITIAL, HIGH)]);
  }

  /** The directory of that table is reached by admitting the two blocks. */
  lemma TwoInUseIsReached(n: nat)
    requires n >= 2
    ensures TwoInUse(n).dir ==
      After(map[], [CheckPutArrayWmeta(LOW, 0, NUMA_MEM, 0), CheckPutArrayWmeta(HIGH, 1, NUMA_MEM, 1)])
    ensures Safe(TwoInUse(n).dir)
  {
    AfterTwo(CheckPutArrayWmeta(LOW, 0, NUMA_MEM, 0), CheckPutArrayWmeta(HIGH, 1, NUMA_MEM, 1));
    assert !NoCopy(InitEntry(0, NUMA_MEM).cn) by {
      assert InitEntry(0, NUMA_MEM).cn[NUMA_MEM].cnIdx != -1;
    }
    assert !NoCopy(InitEntry(1, NUMA_MEM).cn) by {
      assert InitEntry(1, NUMA_MEM).cn[NUMA_MEM].cnIdx != -1;
    }
  }

  lemma NeverBackAtOne(n: nat, j: nat)
    requires 1 <= j < n
    ensures (1 + j) % n != 1
  {
    ModUnique(1 + j, n, if j + 1 < n then 0 else 1, if j + 1 < n then j + 1 else 0);
  }

  lemma NothingAheadOfOne(t: Table)
    requires |t.slots| >= 2 && forall w :: 0 <= w < |t.slots| && w != 1 ==> t.slots[w].word.free
    ensures !Ahead(t, 1, 1)
  {
    forall j | 1 <= j < |t.slots|
      ensures !InUseAt(t, 1, j)
    {
      NeverBackAtOne(|t.slots|, j);
    }
  }

  /** After freeing record 0 the scan skips record 1 and comes back to record 0. */
  lemma SecondIsMissed(t: Table, request: nat)
    requires Agrees(t) && request >= 2 && |t.slots| >= 2 && !t.slots[0].word.free
    requires forall w :: 2 <= w < |t.slots| ==> t.slots[w].word.free
    ensures Reclaimed(t, 0, request) == 1
  {
    var o := Iteration(t, 0, request, 0);
    IterationReleases(t, 0, request, 0);
    NothingAheadOfOne(o.table);
    ScanFindsWhatIsAhead(o.table, 1, request - 1, 1);
    ScanCounts(o.table, 1, request - 1, 1);
    ModUnique(1, |t.slots|, 0, 1);
    ModUnique(0, |t.slots|, 0, 0);
    assert Scan(t, 0, request, 0) == Scan(o.table, 1, request - 1, 1);
  }

  /** A request for one record, or a table of one, is always met, whatever the directory holds besides. */
  lemma SmallRequestIsMet(t: Table, curr: nat, request: nat)
    requires Agrees(t) && (request <= 1 || |t.slots| == 1)
    ensures Reclaimed(t, curr, request) == Min(request, InUse(t.slots))
  {
    InUseBounds(t.slots);
    ScanCounts(t, curr, request, 0);
    ReclaimsNothingExactly(t, curr, request);
  }

  /** A call always frees all it could exactly when it is asked for one record at most or there is one
      record only: a second record may be skipped, because the start index and the loop counter both
      move past the first. */
  lemma MeetsRequestExactly(n: nat, request: nat)
    requires n > 0
    ensures AlwaysMeets(n, request) <==> request <= 1 || n == 1
  {
    if request <= 1 || n == 1 {
      forall t: Table, curr: nat | Agrees(t) && Safe(t.dir) && |t.slots| == n && curr < n
        ensures Reclaimed(t, curr, request) == Min(request, InUse(t.slots))
      {
        SmallRequestIsMet(t, curr, request);
      }
    } else {
      TwoInUseCount(n);
      TwoInUseIsReached(n);
      SecondIsMissed(TwoInUse(n), request);
      assert Reclaimed(TwoInUse(n), 0, request) != Min(request, InUse(TwoInUse(n).slots));
    }
  }

  // ---------------------------------------------------------------- the manager

  class WriteMetadataManager {
    const meta: SharedMetadata
    const gcd: NrHashMap
    var currSwitchIdx: nat
    var reclaimCnt: nat

    constructor (meta: SharedMetadata, gcd: NrHashMap)
      ensures this.meta == meta && this.gcd == gcd && currSwitchIdx == 0 && reclaimCnt == 0
    {
      this.meta, this.gcd := meta, gcd;
      currSwitchIdx, reclaimCnt := 0, 0;
    }

    ghost function Both(): Table
      reads meta.slots, gcd
    {
      Table(meta.slots[..], gcd.storage)
    }

    ghost predicate Valid()
      reads this, meta, meta.slots, gcd
    {
      meta.slots.Length > 0 && meta.Counted() && Agrees(Both())
    }

    /** Locks record w, detaches its block and frees the record that the directory named, or unlocks w
        if it named none. When table and directory agree, that branch is not taken and they still agree. */
    method ReclaimAt(w: nat) returns (freed: bool)
      requires w < meta.slots.Length && meta.Counted()
      requires forall id <- gcd.storage :: gcd.storage[id].wmeta < meta.slots.Length
      modifies meta, meta.slots, gcd
      ensures (Both(), freed) == Reclaim(old(Both()), w)
      ensures old(Agrees(Both())) ==> Agrees(Both()) && meta.Counted() && freed == !old(meta.slots[w].word.free)
    {
      if Agrees(Both()) && !meta.slots[w].word.free {
        ReclaimReleases(Both(), w);
      }
      var slot := meta.slots[w];
      if slot.word.free {
        return false;
      }
      InUseUpdate(meta.slots[..], w, slot.(word := LockWord(slot.word)));
      meta.slots[w] := slot.(word := LockWord(slot.word));
      assert meta.slots[..] == old(meta.slots[..])[w := slot.(word := LockWord(slot.word))];
      DetachIsSwitchOperation(gcd.storage, slot.block);
      var reply := gcd.CheckSwitch(slot.block, -1);
      var got := Simulation.DecodeDetach(reply.resp);
      if got.Some? {
        var _ := meta.RecycleWmeta(got.value, true);
        freed := true;
      } else {
        meta.slots[w] := slot.(word := UnlockWord(meta.slots[w].word));
        assert meta.slots[..] == old(meta.slots[..])[w := slot.(word := LockWord(slot.word))]
                                                    [w := slot.(word := UnlockWord(LockWord(slot.word)))];
        freed := false;
      }
    }

    /** The body of the loop. */
    method Iterate(i: nat, left: nat) returns (left': nat)
      requires Valid() && i < meta.slots.Length && left > 0
      modifies this`currSwitchIdx, meta, meta.slots, gcd
      ensures Valid() && left' <= left
      ensures Scan(Both(), currSwitchIdx, left', i + 1) == Scan(old(Both()), old(currSwitchIdx), left, i)
    {
      left' := left;
      var n := meta.slots.Length;
      var w := (currSwitchIdx + i) % n;
      assert forall id <- gcd.storage :: gcd.storage[id].wmeta == -1 || Names(Both(), id);
      var freed := ReclaimAt(w);
      ScanStep(old(Both()), currSwitchIdx, left, i, Both(), freed);
      if freed {
        left' := left - 1;
        currSwitchIdx := (w + 1) % n;
      }
    }

    method IterativeReclaim(count: nat) returns (freed: nat)
      requires Valid()
      modifies this`currSwitchIdx, meta, meta.slots, gcd
      ensures Valid() && freed == Reclaimed(old(Both()), old(currSwitchIdx), count)
      ensures Scan(old(Both()), old(currSwitchIdx), count, 0) == Outcome(Both(), currSwitchIdx, count - freed)
    {
      var left: nat := count;
      ghost var goal := Scan(Both(), currSwitchIdx, count, 0);
      for i := 0 to meta.slots.Length
        invariant Valid() && left <= count
        invariant Scan(Both(), currSwitchIdx, left, i) == goal
      {
        if left <= 0 {
          break;
        }
        left := Iterate(i, left);
      }
      freed := count - left;
    }

    /** Never reclaims below the threshold. */
    method DoReclaim(threshold: nat) returns (missed: nat)
      requires Valid()
      modifies this, meta, meta.slots, gcd
      ensures Valid() && FreedOnly(old(Both()), Both())
      ensures reclaimCnt == old(reclaimCnt) + (old(meta.allocatedSlotNum) - meta.allocatedSlotNum)
      ensures old(meta.allocatedSlotNum) <= threshold ==> missed == 0 && Both() == old(Both())
      ensures old(meta.allocatedSlotNum) > threshold ==>
        meta.allocatedSlotNum == threshold + missed <= old(meta.allocatedSlotNum)
    {
      var over := meta.OverThreshold(threshold);
      ReclaimFreesExactly(Both(), currSwitchIdx, over);
      var freed := IterativeReclaim(over);
      reclaimCnt := reclaimCnt + freed;
      missed := over - freed;
    }
  }
}
