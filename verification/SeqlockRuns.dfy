/** Every interleaving of any number of threads on one dynamic seqlock
    (src/core/seqcount.cc:32-352, builds with C3_RWLOCK == 0 and DYN_WMETA).

    A step is one atomic access of the source: a load, a strong compare-and-swap or a plain
    store. The value a thread loaded stays in its program counter until the access that uses
    it, so a store that would overwrite somebody else's update is expressible, and is shown
    never to happen. Iterations of a spin loop that change nothing are not steps. Only the
    holder calls the releasing operations. */
module SeqlockRuns {
  import opened Common
  import opened SeqlockWord

  type Thread = nat

  datatype Pc =
    | Idle
    | BeginLoaded(curr: Word)                       // write_seqlock_begin, before the CAS
    | LockLoaded(curr: Word)                        // write_seqlock_only, before the CAS
    | AllocLoaded(curr: Word, withLock: bool)       // try_allocate_seqlock, before the CAS
    | RetireLoaded(curr: Word)                      // free_seqlock, before the CAS
    | Writing                                       // holds a write section
    | LockedOnly                                    // holds a lock-only section
    | EndLoaded(curr: Word)                         // write_seqlock_end, before the store
    | UnlockLoaded(curr: Word)                      // write_sequnlock_only, before the store
    | ReleaseLoaded(curr: Word, fromWrite: bool)    // free_seqlock_with_lock, before the CAS

  /** `holder`, `epoch` (allocations so far) and `sections` (write sections completed since the
      last allocation) are history variables: no step depends on them. */
  datatype State = State(word: Word, pcs: map<Thread, Pc>,
                         holder: Option<Thread>, epoch: nat, sections: nat)

  datatype Action =
    | LoadBegin | CasBegin
    | LoadLock | CasLock
    | LoadAlloc(withLock: bool) | CasAlloc
    | LoadRetire | CasRetire
    | LoadEnd | StoreEnd
    | LoadUnlock | StoreUnlock
    | LoadRelease | CasRelease

  predicate Holds(pc: Pc) {
    pc.Writing? || pc.LockedOnly? || pc.EndLoaded? || pc.UnlockLoaded? || pc.ReleaseLoaded?
  }

  predicate InWriteSection(pc: Pc) {
    pc.Writing? || pc.EndLoaded? || (pc.ReleaseLoaded? && pc.fromWrite)
  }

  predicate InLockOnlySection(pc: Pc) {
    Holds(pc) && !InWriteSection(pc)
  }

  predicate Init(s: State) {
    s.word == INITIAL && s.holder == None && forall t <- s.pcs :: s.pcs[t] == Idle
  }

  /** The checks between the load and the access that uses it are part of the load step. */
  predicate Enabled(s: State, t: Thread, a: Action) {
    t in s.pcs &&
    var pc := s.pcs[t];
    match a
    case LoadBegin => pc.Idle? && !s.word.free && !s.word.locked
    case CasBegin => pc.BeginLoaded?
    case LoadLock => pc.Idle? && !s.word.free && !s.word.locked
    case CasLock => pc.LockLoaded?
    case LoadAlloc(_) => pc.Idle? && s.word.free && !s.word.locked
    case CasAlloc => pc.AllocLoaded?
    case LoadRetire => pc.Idle? && !s.word.locked && !s.word.free
    case CasRetire => pc.RetireLoaded?
    case LoadEnd => pc.Writing?
    case StoreEnd => pc.EndLoaded?
    case LoadUnlock => pc.LockedOnly?
    case StoreUnlock => pc.UnlockLoaded?
    case LoadRelease => (pc.Writing? || pc.LockedOnly?) && !s.word.free && s.word.locked
    case CasRelease => pc.ReleaseLoaded?
  }

  function Goto(s: State, t: Thread, pc: Pc): State {
    s.(pcs := s.pcs[t := pc])
  }

  function Do(s: State, t: Thread, a: Action): State
    requires Enabled(s, t, a)
  {
    var pc := s.pcs[t];
    match a
    case LoadBegin => Goto(s, t, BeginLoaded(s.word))
    case LoadLock => Goto(s, t, LockLoaded(s.word))
    case LoadAlloc(withLock) => Goto(s, t, AllocLoaded(s.word, withLock))
    case LoadRetire => Goto(s, t, RetireLoaded(s.word))
    case LoadEnd => Goto(s, t, EndLoaded(s.word))
    case LoadUnlock => Goto(s, t, UnlockLoaded(s.word))
    case LoadRelease => Goto(s, t, ReleaseLoaded(s.word, pc.Writing?))
    case CasBegin =>
      if s.word == pc.curr then
        Goto(s, t, Writing).(word := BeginWord(pc.curr), holder := Some(t))
      else Goto(s, t, Idle)
    case CasLock =>
      if s.word == pc.curr then
        Goto(s, t, LockedOnly).(word := LockWord(pc.curr), holder := Some(t))
      else Goto(s, t, Idle)
    case CasAlloc =>
      if s.word == pc.curr then
        Goto(s, t, if pc.withLock then Writing else Idle).(
          word := AllocatedWord(pc.withLock),
          holder := if pc.withLock then Some(t) else s.holder,
          epoch := s.epoch + 1, sections := 0)
      else Goto(s, t, Idle)
    case CasRetire =>
      if s.word == pc.curr then Goto(s, t, Idle).(word := FreeWord(pc.curr))
      else Goto(s, t, Idle)
    case StoreEnd =>
      Goto(s, t, Idle).(word := EndWord(pc.curr), holder := None, sections := s.sections + 1)
    case StoreUnlock =>
      Goto(s, t, Idle).(word := UnlockWord(pc.curr), holder := None)
    case CasRelease =>
      if s.word == pc.curr then Goto(s, t, Idle).(word := FreeWord(pc.curr), holder := None)
      else Goto(s, t, if pc.fromWrite then Writing else LockedOnly)
  }

  ghost predicate Next(s: State, s': State) {
    exists t, a :: Enabled(s, t, a) && s' == Do(s, t, a)
  }

  ghost predicate Run(tr: seq<State>) {
    && |tr| > 0
    && Init(tr[0])
    && forall i :: 0 < i < |tr| ==> Next(tr[i - 1], tr[i])
  }

  // ---------------------------------------------------------------- the invariant

  ghost predicate LoadedOk(s: State, t: Thread)
    requires t in s.pcs
  {
    var pc := s.pcs[t];
    && (pc.BeginLoaded? || pc.LockLoaded? || pc.RetireLoaded? ==> !pc.curr.free && !pc.curr.locked)
    && (pc.AllocLoaded? ==> pc.curr.free && !pc.curr.locked)
    && (pc.EndLoaded? || pc.UnlockLoaded? || pc.ReleaseLoaded? ==> pc.curr == s.word)
  }

  /** What the word says, in terms of the holder. */
  ghost predicate WordInv(s: State) {
    && (s.word.locked <==> s.holder.Some?)
    && (s.word.free ==> !s.word.locked)
    && (!s.word.locked ==> !s.word.Odd())
    && (s.holder.Some? ==> s.holder.value in s.pcs)
    && (s.holder.Some? ==> (s.word.Odd() <==> InWriteSection(s.pcs[s.holder.value])))
    && (!s.word.free ==> s.word.count == Progress(s) % COUNT_SPAN)
  }

  ghost predicate ThreadInv(s: State, t: Thread)
    requires t in s.pcs
  {
    LoadedOk(s, t) && (Holds(s.pcs[t]) <==> s.holder == Some(t))
  }

  ghost predicate Inv(s: State) {
    WordInv(s) && forall t <- s.pcs :: ThreadInv(s, t)
  }

  /** Twice the completed sections, plus one while a section is open. */
  ghost function Progress(s: State): nat {
    2 * s.sections + (if s.word.Odd() then 1 else 0)
  }

  lemma StepKeepsWord(s: State, t: Thread, a: Action)
    requires Inv(s) && Enabled(s, t, a)
    ensures WordInv(Do(s, t, a))
  {
    assert ThreadInv(s, t);
    if !s.word.free {
      SuccFacts(s.word.count, Progress(s));
    }
  }

  lemma StepKeepsThread(s: State, t: Thread, a: Action, u: Thread)
    requires Inv(s) && Enabled(s, t, a) && u in s.pcs
    ensures u in Do(s, t, a).pcs && ThreadInv(Do(s, t, a), u)
  {
    assert ThreadInv(s, t) && ThreadInv(s, u);
  }

  lemma StepKeepsInv(s: State, t: Thread, a: Action)
    requires Inv(s) && Enabled(s, t, a)
    ensures Inv(Do(s, t, a))
  {
    StepKeepsWord(s, t, a);
    var s' := Do(s, t, a);
    forall u <- s'.pcs
      ensures ThreadInv(s', u)
    {
      StepKeepsThread(s, t, a, u);
    }
  }

  lemma {:induction false} RunKeepsInv(tr: seq<State>, i: nat)
    requires Run(tr) && i < |tr|
    ensures Inv(tr[i])
  {
    if i > 0 {
      RunKeepsInv(tr, i - 1);
      assert Next(tr[i - 1], tr[i]);
      var t, a :| Enabled(tr[i - 1], t, a) && tr[i] == Do(tr[i - 1], t, a);
      StepKeepsInv(tr[i - 1], t, a);
    }
  }

  // ---------------------------------------------------------------- what every run keeps

  ghost predicate WriteOpen(s: State) {
    exists t :: t in s.pcs && InWriteSection(s.pcs[t])
  }

  ghost predicate LockOnlyOpen(s: State) {
    exists t :: t in s.pcs && InLockOnlySection(s.pcs[t])
  }

  /** Mutual exclusion, and the exact meaning of every combination of the three fields. */
  lemma WordTellsSections(tr: seq<State>, i: nat)
    requires Run(tr) && i < |tr|
    ensures var s := tr[i];
            && (forall t, u :: t in s.pcs && u in s.pcs && Holds(s.pcs[t]) && Holds(s.pcs[u]) ==> t == u)
            && (WriteOpen(s) <==> s.word.locked && s.word.Odd())
            && (LockOnlyOpen(s) <==> s.word.locked && !s.word.Odd())
            && (s.word.free ==> !s.word.locked)
            && (!s.word.locked ==> !s.word.Odd())
  {
    RunKeepsInv(tr, i);
    var s := tr[i];
    if s.holder.Some? {
      var t := s.holder.value;
      assert Holds(s.pcs[t]);
      assert InWriteSection(s.pcs[t]) || InLockOnlySection(s.pcs[t]);
    }
  }

  /** A plain store of write_seqlock_end or write_sequnlock_only, and the CAS of
      free_seqlock_with_lock, act on exactly the word their thread loaded. */
  lemma ReleasesNeverOverwrite(tr: seq<State>, i: nat, t: Thread)
    requires Run(tr) && i < |tr| && t in tr[i].pcs
    requires var pc := tr[i].pcs[t]; pc.EndLoaded? || pc.UnlockLoaded? || pc.ReleaseLoaded?
    ensures tr[i].pcs[t].curr == tr[i].word
  {
    RunKeepsInv(tr, i);
    assert LoadedOk(tr[i], t);
  }

  /** With k sections completed since the allocation the count of an unlocked, allocated record is
      2k mod 2^30, whatever lock-only sections ran in between. */
  lemma CountAfterSections(tr: seq<State>, i: nat)
    requires Run(tr) && i < |tr| && !tr[i].word.free
    ensures tr[i].word.count == (2 * tr[i].sections + (if WriteOpen(tr[i]) then 1 else 0)) % COUNT_SPAN
  {
    RunKeepsInv(tr, i);
    WordTellsSections(tr, i);
  }

  /** write_seqlock_end returns 0 exactly when the sections completed since the allocation,
      this one included, are a multiple of 2^29. */
  lemma EndReturnsZeroOnWrap(tr: seq<State>, i: nat, t: Thread)
    requires Run(tr) && i < |tr| && t in tr[i].pcs && tr[i].pcs[t].EndLoaded?
    ensures EndWord(tr[i].pcs[t].curr).count == 0 <==> (tr[i].sections + 1) % SECTION_SPAN == 0
  {
    RunKeepsInv(tr, i);
    var s := tr[i];
    assert LoadedOk(s, t) && Holds(s.pcs[t]);
    assert s.word.count == (2 * s.sections + 1) % COUNT_SPAN;
    DoubleMod(s.sections + 1);
  }

  // ---------------------------------------------------------------- readers

  lemma StepProgress(s: State, t: Thread, a: Action)
    requires Inv(s) && Enabled(s, t, a)
    ensures var s' := Do(s, t, a);
            && s.epoch <= s'.epoch
            && (s'.epoch == s.epoch && !s'.word.free ==>
                  !s.word.free && Progress(s) <= Progress(s') <= Progress(s) + 1)
  {
  }

  lemma RunProgress(tr: seq<State>, i: nat)
    requires Run(tr) && 0 < i < |tr|
    ensures var s, s' := tr[i - 1], tr[i];
            && s.epoch <= s'.epoch
            && (s'.epoch == s.epoch && !s'.word.free ==>
                  !s.word.free && Progress(s) <= Progress(s') <= Progress(s) + 1)
  {
    RunKeepsInv(tr, i - 1);
    assert Next(tr[i - 1], tr[i]);
    var t, a :| Enabled(tr[i - 1], t, a) && tr[i] == Do(tr[i - 1], t, a);
    StepProgress(tr[i - 1], t, a);
  }

  /** Without a reallocation a record that is not free at the end was free at no moment before,
      and its progress never went back. */
  lemma {:induction false} WindowProgress(tr: seq<State>, i: nat, j: nat)
    requires Run(tr) && i <= j < |tr|
    ensures tr[i].epoch <= tr[j].epoch
    ensures tr[i].epoch == tr[j].epoch && !tr[j].word.free ==>
              !tr[i].word.free && Progress(tr[i]) <= Progress(tr[j])
    decreases j
  {
    if i < j {
      RunProgress(tr, j);
      WindowProgress(tr, i, j - 1);
    }
  }

  /** The progress of a window grows only through an open write section. */
  lemma {:induction false} ProgressNeedsSection(tr: seq<State>, i: nat, j: nat)
    requires Run(tr) && i <= j < |tr|
    requires tr[i].epoch == tr[j].epoch && !tr[j].word.free
    requires Progress(tr[i]) < Progress(tr[j])
    ensures exists k :: i <= k <= j && tr[k].word.Odd()
    decreases j
  {
    if !tr[j].word.Odd() && !tr[j - 1].word.Odd() {
      RunProgress(tr, j);
      WindowProgress(tr, i, j - 1);
      ProgressNeedsSection(tr, i, j - 1);
    }
  }

  /** Exactly when read_seqlock_retry accepts, for a record that was allocated when the read began or
      has not been reallocated since. */
  lemma RetryExact(tr: seq<State>, i: nat, j: nat)
    requires Run(tr) && i <= j < |tr|
    requires !tr[i].word.Odd()
    requires !tr[i].word.free || tr[i].epoch == tr[j].epoch
    ensures tr[j].word.RetryPasses(tr[i].word.count) <==>
              && !tr[j].word.free
              && !WriteOpen(tr[j])
              && (tr[j].sections - tr[i].sections) % SECTION_SPAN == 0
  {
    WordTellsSections(tr, j);
    WindowProgress(tr, i, j);
    if !tr[j].word.free {
      WordTellsSections(tr, i);
      CountAfterSections(tr, i);
      CountAfterSections(tr, j);
      CountsMatch(tr[i].sections, tr[j].sections, WriteOpen(tr[j]));
    }
  }

  ghost predicate Undisturbed(tr: seq<State>, i: nat, j: nat)
    requires i <= j < |tr|
  {
    forall k :: i <= k <= j ==> !tr[k].word.free && !WriteOpen(tr[k])
  }

  lemma AcceptedIsUndisturbed(tr: seq<State>, i: nat, j: nat, k: nat)
    requires Run(tr) && i <= k <= j < |tr|
    requires !tr[i].word.Odd() && tr[i].epoch == tr[j].epoch
    requires !tr[j].word.free && !tr[j].word.Odd() && tr[j].sections == tr[i].sections
    ensures !tr[k].word.free && !WriteOpen(tr[k])
  {
    WindowProgress(tr, i, k);
    WindowProgress(tr, k, j);
    WordTellsSections(tr, k);
  }

  /** Fewer than 2^29 sections apart, an accepted read saw no write section open at any moment of
      its window, and a window without one that never met a free record is accepted. A record that
      was free at the start, or became free, is rejected. */
  lemma RetrySoundAndComplete(tr: seq<State>, i: nat, j: nat)
    requires Run(tr) && i <= j < |tr|
    requires !tr[i].word.Odd()
    requires tr[i].epoch == tr[j].epoch
    requires tr[j].sections < tr[i].sections + SECTION_SPAN
    ensures tr[j].word.RetryPasses(tr[i].word.count) <==> Undisturbed(tr, i, j)
  {
    RetryExact(tr, i, j);
    WindowProgress(tr, i, j);
    WordTellsSections(tr, j);
    if tr[j].word.RetryPasses(tr[i].word.count) {
      forall k | i <= k <= j
        ensures !tr[k].word.free && !WriteOpen(tr[k])
      {
        AcceptedIsUndisturbed(tr, i, j, k);
      }
    } else if !tr[j].word.free && !WriteOpen(tr[j]) {
      ProgressNeedsSection(tr, i, j);
      var k :| i <= k <= j && tr[k].word.Odd();
      WordTellsSections(tr, k);
    }
  }

  // ---------------------------------------------------------------- when the check misleads

  lemma StepAllocatesFree(s: State, t: Thread, a: Action)
    requires Inv(s) && Enabled(s, t, a) && Do(s, t, a).epoch != s.epoch
    ensures s.word.free
  {
    assert LoadedOk(s, t);
  }

  /** A reallocation passes through a free record. */
  lemma {:induction false} EpochNeedsFree(tr: seq<State>, i: nat, j: nat)
    requires Run(tr) && i <= j < |tr| && tr[i].epoch != tr[j].epoch
    ensures exists k :: i <= k <= j && tr[k].word.free
    decreases j
  {
    if tr[j - 1].epoch != tr[j].epoch {
      RunKeepsInv(tr, j - 1);
      assert Next(tr[j - 1], tr[j - 1 + 1]);
      var t, a :| Enabled(tr[j - 1], t, a) && tr[j] == Do(tr[j - 1], t, a);
      StepAllocatesFree(tr[j - 1], t, a);
    } else {
      EpochNeedsFree(tr, i, j - 1);
    }
  }

  /** An undisturbed window stays in one allocation and completes no section. */
  lemma UndisturbedStays(tr: seq<State>, i: nat, j: nat)
    requires Run(tr) && i <= j < |tr| && Undisturbed(tr, i, j)
    ensures tr[i].epoch == tr[j].epoch && tr[i].sections == tr[j].sections
  {
    if tr[i].epoch != tr[j].epoch {
      EpochNeedsFree(tr, i, j);
    }
    WindowProgress(tr, i, j);
    WordTellsSections(tr, i);
    WordTellsSections(tr, j);
    if Progress(tr[i]) < Progress(tr[j]) {
      ProgressNeedsSection(tr, i, j);
      var k :| i <= k <= j && tr[k].word.Odd();
      WordTellsSections(tr, k);
    }
  }

  /** For a read that began on an allocated record, the check tells whether the window was undisturbed
      exactly unless, at the end, no write is open on an allocated record, a multiple of 2^29 separates
      the section counts, and the record was reallocated or sections completed. */
  lemma RetryMisleadsExactly(tr: seq<State>, i: nat, j: nat)
    requires Run(tr) && i <= j < |tr| && !tr[i].word.free && !tr[i].word.Odd()
    ensures (tr[j].word.RetryPasses(tr[i].word.count) <==> Undisturbed(tr, i, j)) <==>
              !(&& !tr[j].word.free && !WriteOpen(tr[j])
                && (tr[j].sections - tr[i].sections) % SECTION_SPAN == 0
                && (tr[i].epoch != tr[j].epoch || tr[i].sections != tr[j].sections))
  {
    RetryExact(tr, i, j);
    WordTellsSections(tr, j);
    if Undisturbed(tr, i, j) {
      UndisturbedStays(tr, i, j);
    } else if && !tr[j].word.free && !WriteOpen(tr[j])
              && tr[i].epoch == tr[j].epoch && tr[i].sections == tr[j].sections {
      var k :| i <= k <= j && !(!tr[k].word.free && !WriteOpen(tr[k]));
      AcceptedIsUndisturbed(tr, i, j, k);
    }
  }

  /** A read that began on a free record was never undisturbed, and is accepted exactly when the record
      is allocated at the end, no write is open and its sections bring the count back to that value. */
  lemma RetryFromFreeExactly(tr: seq<State>, i: nat, j: nat)
    requires Run(tr) && i <= j < |tr| && tr[i].word.free
    ensures !Undisturbed(tr, i, j)
    ensures tr[j].word.RetryPasses(tr[i].word.count) <==>
              !tr[j].word.free && !WriteOpen(tr[j]) && tr[i].word.count == 2 * (tr[j].sections % SECTION_SPAN)
  {
    WordTellsSections(tr, i);
    WordTellsSections(tr, j);
    if !tr[j].word.free {
      CountAfterSections(tr, j);
      DoubleMod(tr[j].sections);
      OddMod(tr[j].sections);
    }
  }

  // ---------------------------------------------------------------- a run that misleads it

  ghost function Solo(word: Word, pc: Pc, epoch: nat, sections: nat): State {
    State(word, map[0 := pc], if Holds(pc) then Some(0) else None, epoch, sections)
  }

  /** Extends a run of thread 0 alone by one action. */
  lemma SoloStep(tr: seq<State>, a: Action, word: Word, pc: Pc, epoch: nat, sections: nat) returns (tr': seq<State>)
    requires Run(tr) && tr[|tr| - 1].pcs.Keys == {0} && Enabled(tr[|tr| - 1], 0, a)
    requires var d, s' := Do(tr[|tr| - 1], 0, a), Solo(word, pc, epoch, sections);
             d.(pcs := s'.pcs) == s' && d.pcs[0] == pc
    ensures Run(tr') && tr' == tr + [Solo(word, pc, epoch, sections)]
  {
    var s, s' := tr[|tr| - 1], Solo(word, pc, epoch, sections);
    assert Do(s, 0, a).pcs == s'.pcs;
    assert Next(s, s');
    tr' := tr + [s'];
  }

  /** One allocation and its first write section, by thread 0 alone. */
  lemma SoloSection(tr: seq<State>, w: Word, epoch: nat, sections: nat) returns (tr': seq<State>)
    requires Run(tr) && tr[|tr| - 1] == Solo(w, Idle, epoch, sections) && w.free && !w.locked
    ensures Run(tr') && |tr'| == |tr| + 4 && tr <= tr'
    ensures tr'[|tr| + 1] == Solo(Word(false, true, 1), Writing, epoch + 1, 0)
    ensures tr'[|tr| + 3] == Solo(Word(false, false, 2), Idle, epoch + 1, 1)
  {
    var held, done := Word(false, true, 1), Word(false, false, 2);
    tr' := SoloStep(tr, LoadAlloc(true), w, AllocLoaded(w, true), epoch, sections);
    tr' := SoloStep(tr', CasAlloc, held, Writing, epoch + 1, 0);
    tr' := SoloStep(tr', LoadEnd, held, EndLoaded(held), epoch + 1, 0);
    tr' := SoloStep(tr', StoreEnd, done, Idle, epoch + 1, 1);
  }

  /** A reallocation restarts the count, so a reader whose record was freed, reallocated and
      written in between can be told that nothing happened. */
  lemma ReallocationFoolsRetry() returns (tr: seq<State>, i: nat, j: nat)
    ensures Run(tr) && i <= j < |tr|
    ensures !tr[i].word.Odd() && tr[j].epoch == tr[i].epoch + 1
    ensures tr[j].word.RetryPasses(tr[i].word.count)
    ensures exists k :: i <= k <= j && WriteOpen(tr[k])
  {
    var done, retired := Word(false, false, 2), Word(true, false, 2);
    tr := [Solo(INITIAL, Idle, 0, 0)];
    tr := SoloSection(tr, INITIAL, 0, 0);
    i := |tr| - 1;
    tr := SoloStep(tr, LoadRetire, done, RetireLoaded(done), 1, 1);
    tr := SoloStep(tr, CasRetire, retired, Idle, 1, 1);
    var k := |tr| + 1;
    tr := SoloSection(tr, retired, 1, 1);
    j := |tr| - 1;
    assert 0 in tr[k].pcs && InWriteSection(tr[k].pcs[0]);
  }

  // ---------------------------------------------------------------- undisturbed operations succeed

  /** An operation whose load and access are not separated by another thread takes s to s'. */
  ghost predicate Performs(s: State, t: Thread, load: Action, access: Action, s': State) {
    && Enabled(s, t, load)
    && Enabled(Do(s, t, load), t, access)
    && Do(Do(s, t, load), t, access) == s'
  }

  ghost predicate PerformsBoth(s: State, t: Thread, load1: Action, access1: Action, load2: Action, access2: Action,
                               s': State)
  {
    exists m :: Performs(s, t, load1, access1, m) && Performs(m, t, load2, access2, s')
  }

  lemma GotoAgain(s: State, t: Thread, pc: Pc, pc': Pc)
    ensures Goto(Goto(s, t, pc), t, pc') == Goto(s, t, pc')
  {
    assert s.pcs[t := pc][t := pc'] == s.pcs[t := pc'];
  }

  /** Of an allocated, unlocked record: begin opens a write section, lock a lock-only one, and retiring
      frees it. */
  lemma UnlockedOperationsSucceed(s: State, t: Thread)
    requires t in s.pcs && s.pcs[t].Idle? && !s.word.free && !s.word.locked
    ensures Performs(s, t, LoadBegin, CasBegin, Goto(s, t, Writing).(word := BeginWord(s.word), holder := Some(t)))
    ensures Performs(s, t, LoadLock, CasLock, Goto(s, t, LockedOnly).(word := LockWord(s.word), holder := Some(t)))
    ensures Performs(s, t, LoadRetire, CasRetire, Goto(s, t, Idle).(word := FreeWord(s.word)))
  {
    GotoAgain(s, t, BeginLoaded(s.word), Writing);
    GotoAgain(s, t, LockLoaded(s.word), LockedOnly);
    GotoAgain(s, t, RetireLoaded(s.word), Idle);
  }

  /** A free record is allocated, into a write section if the lock is asked for. */
  lemma AllocationSucceeds(s: State, t: Thread, withLock: bool)
    requires t in s.pcs && s.pcs[t].Idle? && s.word.free && !s.word.locked
    ensures Performs(s, t, LoadAlloc(withLock), CasAlloc,
                     Goto(s, t, if withLock then Writing else Idle).(
                       word := AllocatedWord(withLock), holder := if withLock then Some(t) else s.holder,
                       epoch := s.epoch + 1, sections := 0))
  {
    GotoAgain(s, t, AllocLoaded(s.word, withLock), if withLock then Writing else Idle);
  }

  /** The holder of a write section ends it or frees the record. */
  lemma SectionHolderSucceeds(s: State, t: Thread)
    requires t in s.pcs && s.pcs[t].Writing? && !s.word.free && s.word.locked
    ensures Performs(s, t, LoadEnd, StoreEnd,
                     Goto(s, t, Idle).(word := EndWord(s.word), holder := None, sections := s.sections + 1))
    ensures Performs(s, t, LoadRelease, CasRelease, Goto(s, t, Idle).(word := FreeWord(s.word), holder := None))
  {
    GotoAgain(s, t, EndLoaded(s.word), Idle);
    GotoAgain(s, t, ReleaseLoaded(s.word, true), Idle);
  }

  /** The holder of a lock-only section unlocks or frees the record. */
  lemma LockHolderSucceeds(s: State, t: Thread)
    requires t in s.pcs && s.pcs[t].LockedOnly? && !s.word.free && s.word.locked
    ensures Performs(s, t, LoadUnlock, StoreUnlock, Goto(s, t, Idle).(word := UnlockWord(s.word), holder := None))
    ensures Performs(s, t, LoadRelease, CasRelease, Goto(s, t, Idle).(word := FreeWord(s.word), holder := None))
  {
    GotoAgain(s, t, UnlockLoaded(s.word), Idle);
    GotoAgain(s, t, ReleaseLoaded(s.word, false), Idle);
  }

  /** A whole write section moves the count on by two and completes one section; a whole lock-only section
      leaves everything as it was. */
  lemma SectionsComplete(s: State, t: Thread)
    requires Inv(s) && t in s.pcs && s.pcs[t].Idle? && !s.word.free && !s.word.locked
    ensures PerformsBoth(s, t, LoadBegin, CasBegin, LoadEnd, StoreEnd,
                         s.(word := Word(false, false, Succ(Succ(s.word.count))), sections := s.sections + 1))
    ensures PerformsBoth(s, t, LoadLock, CasLock, LoadUnlock, StoreUnlock, s)
  {
    UnlockedOperationsSucceed(s, t);
    var m1 := Goto(s, t, Writing).(word := BeginWord(s.word), holder := Some(t));
    var m2 := Goto(s, t, LockedOnly).(word := LockWord(s.word), holder := Some(t));
    SectionHolderSucceeds(m1, t);
    LockHolderSucceeds(m2, t);
    assert s.pcs[t := Writing][t := Idle] == s.pcs && s.pcs[t := LockedOnly][t := Idle] == s.pcs;
  }

  predicate SwapsAfter(load: Action, swap: Action) {
    match load
    case LoadBegin => swap.CasBegin?
    case LoadLock => swap.CasLock?
    case LoadAlloc(_) => swap.CasAlloc?
    case LoadRetire => swap.CasRetire?
    case LoadRelease => swap.CasRelease?
    case _ => false
  }

  /** A swap that finds the word changed takes nothing: its thread is where it was before the load. */
  lemma LostSwapsChangeNothing(s: State, t: Thread, load: Action, swap: Action, word: Word)
    requires Enabled(s, t, load) && SwapsAfter(load, swap) && word != s.word
    ensures var moved := Do(s, t, load).(word := word);
      Enabled(moved, t, swap) && Do(moved, t, swap) == s.(word := word)
  {
    var moved := Do(s, t, load).(word := word);
    assert s.pcs[t := moved.pcs[t]][t := s.pcs[t]] == s.pcs;
  }
}
