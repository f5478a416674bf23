/** Writing dirty slots back to disk (src/manager/flush_manager.cc:61-142, src/core/c3.cc:521-574,
    lib/shm_obj_handle.cc:919-954) on a build whose memory is coherent.

    Any number of writers and one flusher work on one slot, chunk by chunk. The flusher copies the
    slot between two looks at the sequence count, writes the copy to disk, takes the lock without
    opening a write section, looks at the count a third time and only then clears the dirty bit.
    The record is not reallocated, and fewer than 2^29 sections complete during one flush. */
module FlushProtocol {
  import opened Common
  import opened SeqlockWord

  type Value = nat
  type Thread = nat

  datatype WriterPc =
    | Idle
    | Locked       // write_seq_start passed WSeqBegin, nothing stored yet
    | Copying      // storing into the slot
    | Marked       // SetDirty(true) done, write_seq_end next

  datatype FlusherPc =
    | Waiting
    | SawDirty
    | CopyingOut(start: Count, since: nat, buf: seq<Value>)
    | Persisting(start: Count, since: nat, buf: seq<Value>, written: nat)   // pwrite
    | Relocking(start: Count, since: nat, buf: seq<Value>)                  // before WLockOnly
    | Rechecking(start: Count, since: nat, buf: seq<Value>)                 // holds the lock
    | Clearing
    | Unlocking

  /** `sections` (completed write sections), `writer`, the flusher's `since`, the page at the start of the
      last section and the stores of that section are history. */
  datatype State = State(word: Word, page: seq<Value>, disk: seq<Value>, dirty: bool,
                         writers: map<Thread, WriterPc>, flusher: FlusherPc,
                         sections: nat, writer: Option<Thread>,
                         pageAtStart: seq<Value>, stores: seq<(nat, Value)>)

  datatype Action =
    | BeginWrite(t: Thread) | AbortWrite(t: Thread) | StoreChunk(t: Thread, i: nat, v: Value)
    | MarkDirty(t: Thread) | EndWrite(t: Thread)
    | SeeDirty | StartCopy | CopyChunk | CheckCopy | PersistChunk | PersistDone
    | Relock | Recheck | ClearDirty | Unlock

  predicate Flushing(f: FlusherPc) {
    f.CopyingOut? || f.Persisting? || f.Relocking? || f.Rechecking?
  }

  ghost predicate Init(s: State) {
    && !s.word.free && !s.word.locked && !s.word.Odd() && s.word.count == (2 * s.sections) % COUNT_SPAN
    && !s.dirty && s.disk == s.page
    && (forall t <- s.writers :: s.writers[t] == Idle)
    && s.flusher == Waiting && s.writer == None
  }

  predicate Enabled(s: State, a: Action) {
    var f := s.flusher;
    match a
    case BeginWrite(t) =>
      && t in s.writers && s.writers[t].Idle? && !s.word.free && !s.word.locked
      && (Flushing(f) ==> s.sections + 1 < f.since + SECTION_SPAN)
    case AbortWrite(t) => t in s.writers && s.writers[t].Locked?
    case StoreChunk(t, i, _) => t in s.writers && (s.writers[t].Locked? || s.writers[t].Copying?) && i < |s.page|
    case MarkDirty(t) => t in s.writers && s.writers[t].Copying?
    case EndWrite(t) => t in s.writers && s.writers[t].Marked?
    case SeeDirty => f.Waiting? && s.dirty
    case StartCopy => f.SawDirty? && !s.word.Odd()
    case CopyChunk => f.CopyingOut? && |f.buf| < |s.page|
    case CheckCopy => f.CopyingOut? && |f.buf| == |s.page|
    case PersistChunk => f.Persisting? && f.written < |f.buf| && f.written < |s.disk|
    case PersistDone => f.Persisting? && f.written == |f.buf|
    case Relock => f.Relocking? && !s.word.free && !s.word.locked
    case Recheck => f.Rechecking?
    case ClearDirty => f.Clearing?
    case Unlock => f.Unlocking?
  }

  function Do(s: State, a: Action): State
    requires Enabled(s, a)
  {
    var f := s.flusher;
    match a
    case BeginWrite(t) =>
      s.(writers := s.writers[t := Locked], word := BeginWord(s.word), writer := Some(t),
         pageAtStart := s.page, stores := [])
    case AbortWrite(t) =>
      s.(writers := s.writers[t := Idle], word := EndWord(s.word), writer := None, sections := s.sections + 1)
    case StoreChunk(t, i, v) =>
      s.(writers := s.writers[t := Copying], page := s.page[i := v], stores := s.stores + [(i, v)])
    case MarkDirty(t) => s.(writers := s.writers[t := Marked], dirty := true)
    case EndWrite(t) =>
      s.(writers := s.writers[t := Idle], word := EndWord(s.word), writer := None, sections := s.sections + 1)
    case SeeDirty => s.(flusher := SawDirty)
    case StartCopy => s.(flusher := CopyingOut(s.word.count, s.sections, []))
    case CopyChunk => s.(flusher := CopyingOut(f.start, f.since, f.buf + [s.page[|f.buf|]]))
    case CheckCopy =>
      s.(flusher := if s.word.RetryPasses(f.start) then Persisting(f.start, f.since, f.buf, 0) else Waiting)
    case PersistChunk =>
      s.(disk := s.disk[f.written := f.buf[f.written]],
         flusher := Persisting(f.start, f.since, f.buf, f.written + 1))
    case PersistDone => s.(flusher := Relocking(f.start, f.since, f.buf))
    case Relock => s.(word := LockWord(s.word), flusher := Rechecking(f.start, f.since, f.buf))
    case Recheck => s.(flusher := if s.word.RetryPasses(f.start) then Clearing else Unlocking)
    case ClearDirty => s.(dirty := false, flusher := Unlocking)
    case Unlock => s.(word := UnlockWord(s.word), flusher := Waiting)
  }

  ghost predicate Next(s: State, s': State) {
    exists a :: Enabled(s, a) && s' == Do(s, a)
  }

  ghost predicate Run(tr: seq<State>) {
    && |tr| > 0
    && Init(tr[0])
    && forall i :: 0 < i < |tr| ==> Next(tr[i - 1], tr[i])
  }

  // ---------------------------------------------------------------- the invariant

  predicate FlusherHolds(f: FlusherPc) {
    f.Rechecking? || f.Clearing? || f.Unlocking?
  }

  ghost predicate LockInv(s: State) {
    && !s.word.free
    && (s.word.locked <==> s.writer.Some? || FlusherHolds(s.flusher))
    && !(s.writer.Some? && FlusherHolds(s.flusher))
    && s.word.count == (2 * s.sections + One(s.writer.Some?)) % COUNT_SPAN
    && (forall t <- s.writers :: !s.writers[t].Idle? <==> s.writer == Some(t))
    && (s.writer.Some? ==> s.writer.value in s.writers)
  }

  /** No chunk has been stored since the last section completed. */
  ghost predicate Settled(s: State) {
    s.writer.Some? ==> s.writer.value in s.writers && s.writers[s.writer.value].Locked?
  }

  /** No section has completed since the copy started, and no chunk has been stored. */
  ghost predicate Undisturbed(s: State, since: nat) {
    s.sections == since && Settled(s)
  }

  ghost predicate StartOk(s: State, start: Count, since: nat) {
    && since <= s.sections && s.sections + One(s.writer.Some?) < since + SECTION_SPAN
    && start == (2 * since) % COUNT_SPAN
  }

  ghost predicate FlusherInv(s: State) {
    && |s.disk| == |s.page|
    && match s.flusher
       case Waiting => true
       case SawDirty => s.dirty
       case CopyingOut(start, since, buf) =>
         && s.dirty && StartOk(s, start, since) && |buf| <= |s.page|
         && (Undisturbed(s, since) ==> buf == s.page[..|buf|])
       case Persisting(start, since, buf, written) =>
         && s.dirty && StartOk(s, start, since) && |buf| == |s.page| && written <= |buf|
         && (Undisturbed(s, since) ==> buf == s.page)
         && s.disk[..written] == buf[..written]
       case Relocking(start, since, buf) =>
         && s.dirty && StartOk(s, start, since)
         && (Undisturbed(s, since) ==> buf == s.page)
         && s.disk == buf
       case Rechecking(start, since, buf) =>
         && s.dirty && StartOk(s, start, since)
         && (Undisturbed(s, since) ==> buf == s.page)
         && s.disk == buf
       case Clearing => s.dirty && s.disk == s.page
       case Unlocking => true
  }

  ghost predicate CleanInv(s: State) {
    && (!s.dirty && Settled(s) ==> s.disk == s.page)
    && (s.writer.Some? && s.writer.value in s.writers && s.writers[s.writer.value].Marked? ==> s.dirty)
  }

  ghost predicate Inv(s: State) {
    LockInv(s) && FlusherInv(s) && CleanInv(s)
  }

  lemma StepKeepsLock(s: State, a: Action)
    requires LockInv(s) && Enabled(s, a)
    ensures LockInv(Do(s, a))
  {
    SuccFacts(s.word.count, 2 * s.sections + One(s.writer.Some?));
  }

  /** A passing check proves that the slot still is what it was when the copy started. */
  lemma PassingCheck(s: State, start: Count, since: nat)
    requires LockInv(s) && StartOk(s, start, since) && s.word.RetryPasses(start)
    ensures Undisturbed(s, since)
  {
    CountsMatch(since, s.sections, s.writer.Some?);
    var d := s.sections - since;
    assert 0 <= d < SECTION_SPAN && d % SECTION_SPAN == 0;
  }

  predicate ByWriter(a: Action) {
    a.BeginWrite? || a.AbortWrite? || a.StoreChunk? || a.MarkDirty? || a.EndWrite?
  }

  lemma WriterKeepsFlusher(s: State, a: Action)
    requires Inv(s) && Enabled(s, a) && ByWriter(a)
    ensures FlusherInv(Do(s, a))
  {
  }

  lemma FlusherKeepsFlusher(s: State, a: Action)
    requires Inv(s) && Enabled(s, a) && !ByWriter(a)
    ensures FlusherInv(Do(s, a))
  {
    var f := s.flusher;
    if a.StartCopy? {
      OddMod(s.sections);
    } else if (a.CheckCopy? || a.Recheck?) && s.word.RetryPasses(f.start) {
      PassingCheck(s, f.start, f.since);
    }
  }

  lemma StepKeepsClean(s: State, a: Action)
    requires Inv(s) && Enabled(s, a)
    ensures CleanInv(Do(s, a))
  {
  }

  lemma StepKeepsInv(s: State, a: Action)
    requires Inv(s) && Enabled(s, a)
    ensures Inv(Do(s, a))
  {
    StepKeepsLock(s, a);
    if ByWriter(a) {
      WriterKeepsFlusher(s, a);
    } else {
      FlusherKeepsFlusher(s, a);
    }
    StepKeepsClean(s, a);
  }

  lemma {:induction false} RunKeepsInv(tr: seq<State>, i: nat)
    requires Run(tr) && i < |tr|
    ensures Inv(tr[i])
  {
    if i > 0 {
      RunKeepsInv(tr, i - 1);
      assert Next(tr[i - 1], tr[i]);
      var a :| Enabled(tr[i - 1], a) && tr[i] == Do(tr[i - 1], a);
      StepKeepsInv(tr[i - 1], a);
    }
  }

  ghost predicate WriteOpen(s: State) {
    exists t :: t in s.writers && !s.writers[t].Idle?
  }

  /** Whenever the dirty bit is clear and no write section is open, the disk block is the page. */
  lemma CleanMeansOnDisk(tr: seq<State>, i: nat)
    requires Run(tr) && i < |tr| && !tr[i].dirty && !WriteOpen(tr[i])
    ensures tr[i].disk == tr[i].page
  {
    RunKeepsInv(tr, i);
  }

  /** The flusher clears the dirty bit only when what it wrote is what the slot holds now. */
  lemma ClearsOnlyWhatItWrote(tr: seq<State>, i: nat)
    requires Run(tr) && i < |tr| && tr[i].flusher.Clearing?
    ensures tr[i].disk == tr[i].page && !WriteOpen(tr[i])
  {
    RunKeepsInv(tr, i);
  }

  // ---------------------------------------------------------------- what a section stores

  /** The page after stores, in order. */
  ghost function Replay(page: seq<Value>, stores: seq<(nat, Value)>): (r: seq<Value>)
    ensures |r| == |page|
  {
    if stores == [] then page
    else
      var before, last := Replay(page, stores[..|stores| - 1]), stores[|stores| - 1];
      if last.0 < |before| then before[last.0 := last.1] else before
  }

  ghost predicate StoresInv(s: State) {
    s.writer.Some? ==> s.page == Replay(s.pageAtStart, s.stores)
  }

  lemma StepKeepsStores(s: State, a: Action)
    requires LockInv(s) && StoresInv(s) && Enabled(s, a)
    ensures StoresInv(Do(s, a))
    ensures !ByWriter(a) ==> Do(s, a).page == s.page
  {
    if a.StoreChunk? {
      assert (s.stores + [(a.i, a.v)])[..|s.stores|] == s.stores;
    }
  }

  lemma {:induction false} RunKeepsStores(tr: seq<State>, i: nat)
    requires Run(tr) && i < |tr|
    ensures StoresInv(tr[i])
  {
    if i > 0 {
      RunKeepsStores(tr, i - 1);
      RunKeepsInv(tr, i - 1);
      assert Next(tr[i - 1], tr[i]);
      var a :| Enabled(tr[i - 1], a) && tr[i] == Do(tr[i - 1], a);
      StepKeepsStores(tr[i - 1], a);
    }
  }

  /** In every run, while a write section is open, and so when it ends, the page is the page at the start of
      the section with the writer's stores applied in order. */
  lemma SectionStores(tr: seq<State>, i: nat, t: Thread)
    requires Run(tr) && i < |tr| && t in tr[i].writers && !tr[i].writers[t].Idle?
    ensures tr[i].page == Replay(tr[i].pageAtStart, tr[i].stores)
  {
    RunKeepsStores(tr, i);
    RunKeepsInv(tr, i);
  }

  // ---------------------------------------------------------------- undisturbed writers and flushers

  /** The writer that acts, or nobody if it is the flusher. */
  function Actor(a: Action): Option<Thread> {
    if ByWriter(a) then Some(a.t) else None
  }

  ghost predicate StepOf(who: Option<Thread>, s: State, s': State) {
    exists a :: Actor(a) == who && Enabled(s, a) && s' == Do(s, a)
  }

  /** One actor's own steps from s to s'. */
  ghost predicate RunOf(who: Option<Thread>, tr: seq<State>, s: State, s': State) {
    && |tr| > 0 && tr[0] == s && tr[|tr| - 1] == s'
    && forall i :: 0 < i < |tr| ==> StepOf(who, tr[i - 1], tr[i])
  }

  lemma Then(tr: seq<State>, s: State, s': State, a: Action) returns (tr': seq<State>)
    requires RunOf(Actor(a), tr, s, s') && Enabled(s', a)
    ensures RunOf(Actor(a), tr', s, Do(s', a))
  {
    tr' := tr + [Do(s', a)];
    assert StepOf(Actor(a), s', Do(s', a));
  }

  /** Copies what is left of the slot. */
  lemma {:induction false} CopyAll(tr: seq<State>, s: State, s': State) returns (tr': seq<State>, r: State)
    requires RunOf(None, tr, s, s') && s'.flusher.CopyingOut? && |s'.flusher.buf| <= |s'.page|
    requires s'.flusher.buf == s'.page[..|s'.flusher.buf|]
    ensures RunOf(None, tr', s, r)
    ensures r == s'.(flusher := CopyingOut(s'.flusher.start, s'.flusher.since, s'.page))
    decreases |s'.page| - |s'.flusher.buf|
  {
    if |s'.flusher.buf| == |s'.page| {
      tr', r := tr, s';
    } else {
      var next := Then(tr, s, s', CopyChunk);
      tr', r := CopyAll(next, s, Do(s', CopyChunk));
    }
  }

  /** Writes what is left of the copy to disk. */
  lemma {:induction false} PersistAll(tr: seq<State>, s: State, s': State) returns (tr': seq<State>, r: State)
    requires RunOf(None, tr, s, s') && s'.flusher.Persisting? && |s'.flusher.buf| == |s'.disk|
    requires s'.flusher.written <= |s'.disk|
    requires s'.disk[..s'.flusher.written] == s'.flusher.buf[..s'.flusher.written]
    ensures RunOf(None, tr', s, r)
    ensures var f := s'.flusher; r == s'.(disk := f.buf, flusher := Persisting(f.start, f.since, f.buf, |f.buf|))
    decreases |s'.disk| - s'.flusher.written
  {
    if s'.flusher.written == |s'.disk| {
      tr', r := tr, s';
    } else {
      var next := Then(tr, s, s', PersistChunk);
      tr', r := PersistAll(next, s, Do(s', PersistChunk));
    }
  }

  /** From a set dirty bit to the page on disk. */
  lemma CopyAndPersist(s: State) returns (tr: seq<State>, r: State)
    requires s.flusher == Waiting && s.dirty && |s.disk| == |s.page| && !s.word.free && !s.word.Odd()
    ensures RunOf(None, tr, s, r)
    ensures r == s.(disk := s.page, flusher := Relocking(s.word.count, s.sections, s.page))
  {
    tr := Then([s], s, s, SeeDirty);
    r := Do(s, SeeDirty);
    tr := Then(tr, s, r, StartCopy);
    tr, r := CopyAll(tr, s, Do(r, StartCopy));
    tr := Then(tr, s, r, CheckCopy);
    tr, r := PersistAll(tr, s, Do(r, CheckCopy));
    tr := Then(tr, s, r, PersistDone);
    r := Do(r, PersistDone);
  }

  /** From there, under the lock, to a clear dirty bit. */
  lemma RecheckAndClear(tr: seq<State>, s: State, s': State) returns (tr': seq<State>)
    requires RunOf(None, tr, s, s') && s'.flusher.Relocking? && s'.flusher.start == s'.word.count
    requires !s'.word.free && !s'.word.locked
    ensures RunOf(None, tr', s, s'.(dirty := false, flusher := Waiting))
  {
    tr' := Then(tr, s, s', Relock);
    var r := Do(s', Relock);
    tr' := Then(tr', s, r, Recheck);
    r := Do(r, Recheck);
    tr' := Then(tr', s, r, ClearDirty);
    r := Do(r, ClearDirty);
    tr' := Then(tr', s, r, Unlock);
  }

  /** Whenever the slot is dirty, no writer is inside and the flusher waits, the flusher's own steps put the
      page on disk, clear the dirty bit and leave everything else as it was. */
  lemma FlushCompletes(s: State) returns (tr: seq<State>)
    requires Inv(s) && s.flusher == Waiting && s.dirty && s.writer == None
    ensures RunOf(None, tr, s, s.(disk := s.page, dirty := false))
  {
    DoubleMod(s.sections);
    var r;
    tr, r := CopyAndPersist(s);
    tr := RecheckAndClear(tr, s, r);
  }

  /** A copy that a section has disturbed is dropped: the flusher waits again and nothing has changed. */
  lemma DisturbedCopyIsDropped(s: State)
    requires s.flusher.CopyingOut? && |s.flusher.buf| == |s.page| && !s.word.RetryPasses(s.flusher.start)
    ensures Enabled(s, CheckCopy) && Do(s, CheckCopy) == s.(flusher := Waiting)
  {
  }

  /** A flush that a section has disturbed after the copy leaves the slot dirty: the record is unlocked as it
      was and the flusher waits again. */
  lemma DisturbedFlushKeepsDirty(s: State) returns (tr: seq<State>)
    requires s.flusher.Relocking? && !s.word.free && !s.word.locked && s.word.count != s.flusher.start
    ensures RunOf(None, tr, s, s.(flusher := Waiting))
  {
    var s1 := Do(s, Relock);
    var s2 := Do(s1, Recheck);
    assert Actor(Relock) == Actor(Recheck) == Actor(Unlock) == None;
    assert StepOf(None, s, s1) && StepOf(None, s1, s2);
    assert Enabled(s2, Unlock) && Do(s2, Unlock) == s.(flusher := Waiting);
    assert StepOf(None, s2, s.(flusher := Waiting));
    tr := [s, s1, s2, s.(flusher := Waiting)];
  }

  /** A write that is given up before it stores leaves the slot as it was, one section later. */
  lemma AbortedWriteStoresNothing(s: State, t: Thread)
    requires Inv(s) && t in s.writers && !s.word.locked
    requires Flushing(s.flusher) ==> s.sections + 1 < s.flusher.since + SECTION_SPAN
    ensures Enabled(s, BeginWrite(t)) && Enabled(Do(s, BeginWrite(t)), AbortWrite(t))
    ensures Do(Do(s, BeginWrite(t)), AbortWrite(t)) ==
      s.(word := EndWord(BeginWord(s.word)), sections := s.sections + 1, pageAtStart := s.page, stores := [])
  {
    assert s.writers[t := Locked][t := Idle] == s.writers;
  }

  ghost predicate InSlot(s: State, stores: seq<(nat, Value)>) {
    forall j :: 0 <= j < |stores| ==> stores[j].0 < |s.page|
  }

  /** The state after these stores of writer t, which has just begun. */
  ghost function Stored(s: State, t: Thread, stores: seq<(nat, Value)>): State {
    s.(page := Replay(s.page, stores), stores := stores,
       writers := s.writers[t := if stores == [] then Locked else Copying])
  }

  lemma StoreOne(s: State, t: Thread, front: seq<(nat, Value)>, i: nat, v: Value)
    requires t in s.writers && i < |s.page|
    ensures Enabled(Stored(s, t, front), StoreChunk(t, i, v))
    ensures Do(Stored(s, t, front), StoreChunk(t, i, v)) == Stored(s, t, front + [(i, v)])
  {
    assert (front + [(i, v)])[..|front|] == front;
    assert Stored(s, t, front).writers[t := Copying] == s.writers[t := Copying];
  }

  lemma {:induction false} StoreAll(tr: seq<State>, s: State, s': State, t: Thread, stores: seq<(nat, Value)>)
    returns (tr': seq<State>)
    requires RunOf(Some(t), tr, s, s') && t in s'.writers && s' == Stored(s', t, []) && InSlot(s', stores)
    ensures RunOf(Some(t), tr', s, Stored(s', t, stores))
    decreases |stores|
  {
    if stores == [] {
      tr' := tr;
    } else {
      var front, last := stores[..|stores| - 1], stores[|stores| - 1];
      tr' := StoreAll(tr, s, s', t, front);
      StoreOne(s', t, front, last.0, last.1);
      tr' := Then(tr', s, Stored(s', t, front), StoreChunk(t, last.0, last.1));
      assert front + [(last.0, last.1)] == stores;
    }
  }

  /** Whenever nobody holds the record, a writer's own steps make its stores, mark the slot dirty and end the
      section with the count moved on. */
  lemma WriteCompletes(s: State, t: Thread, stores: seq<(nat, Value)>) returns (tr: seq<State>, r: State)
    requires Inv(s) && t in s.writers && !s.word.locked && stores != [] && InSlot(s, stores)
    requires Flushing(s.flusher) ==> s.sections + 1 < s.flusher.since + SECTION_SPAN
    ensures RunOf(Some(t), tr, s, r)
    ensures r == s.(word := EndWord(BeginWord(s.word)), page := Replay(s.page, stores), dirty := true,
                    sections := s.sections + 1, pageAtStart := s.page, stores := stores)
  {
    tr := Then([s], s, s, BeginWrite(t));
    r := Do(s, BeginWrite(t));
    assert r.writers[t := Locked] == r.writers;
    tr := StoreAll(tr, s, r, t, stores);
    r := Stored(r, t, stores);
    tr := Then(tr, s, r, MarkDirty(t));
    r := Do(r, MarkDirty(t));
    tr := Then(tr, s, r, EndWrite(t));
    r := Do(r, EndWrite(t));
    assert r.writers == s.writers;
  }
}
