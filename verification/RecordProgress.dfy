/** Operations on records that are not disturbed complete: from every state with the invariant, the steps of
    one thread alone attach a record, give back a refused one, write through one and reclaim one. Each lemma
    names the whole state that they end in. */
module RecordProgress {
  import opened Common
  import opened SeqlockWord
  import opened RecordLifecycle
  import opened RecordAgreement

  ghost predicate OwnStep(creator: map<Key, Thread>, t: Thread, s: State, s': State) {
    exists a :: Enabled(creator, s, t, a) && s' == Do(creator, s, t, a)
  }

  /** The steps of thread t from s to s'. */
  ghost predicate OwnRun(creator: map<Key, Thread>, t: Thread, tr: seq<State>, s: State, s': State) {
    && |tr| > 0 && tr[0] == s && tr[|tr| - 1] == s'
    && forall i :: 0 < i < |tr| ==> OwnStep(creator, t, tr[i - 1], tr[i])
  }

  /** What one thread and one record may change of a state. */
  datatype View = View(pc: Pc, rec: Record, dir: map<Key, Option<Rec>>, slotsInUse: int)

  function Put(s: State, t: Thread, w: Rec, v: View): State {
    State(v.dir, s.recs[w := v.rec], s.pcs[t := v.pc], v.slotsInUse)
  }

  lemma PutAgain(s: State, t: Thread, w: Rec, v: View, v': View)
    ensures Put(Put(s, t, w, v), t, w, v') == Put(s, t, w, v')
  {
    assert s.recs[w := v.rec][w := v'.rec] == s.recs[w := v'.rec];
    assert s.pcs[t := v.pc][t := v'.pc] == s.pcs[t := v'.pc];
  }

  lemma PutSame(s: State, t: Thread, w: Rec)
    requires t in s.pcs && w in s.recs
    ensures Put(s, t, w, View(s.pcs[t], s.recs[w], s.dir, s.slotsInUse)) == s
  {
    assert s.recs[w := s.recs[w]] == s.recs && s.pcs[t := s.pcs[t]] == s.pcs;
  }

  /** One more step, of which it is known what it does to the view. */
  lemma Then(creator: map<Key, Thread>, t: Thread, tr: seq<State>, s: State, w: Rec, v: View, a: Action, v': View)
    returns (tr': seq<State>)
    requires OwnRun(creator, t, tr, s, Put(s, t, w, v)) && Enabled(creator, Put(s, t, w, v), t, a)
    requires Do(creator, Put(s, t, w, v), t, a) == Put(Put(s, t, w, v), t, w, v')
    ensures OwnRun(creator, t, tr', s, Put(s, t, w, v'))
  {
    PutAgain(s, t, w, v, v');
    tr' := tr + [Put(s, t, w, v')];
    assert OwnStep(creator, t, Put(s, t, w, v), Put(s, t, w, v'));
  }

  // ---------------------------------------------------------------- one step

  lemma StartStep(creator: map<Key, Thread>, s: State, t: Thread, k: Key, p: Purpose, w: Rec)
    requires t in s.pcs && s.pcs[t].Idle? && w in s.recs
    requires p.Create? ==> k in creator && creator[k] == t && k !in s.dir
    ensures var a := if p.Switch? then StartSwitch(k) else StartCreate(k);
      && Enabled(creator, s, t, a)
      && Do(creator, s, t, a) == Put(s, t, w, View(Reserving(k, p), s.recs[w], s.dir, s.slotsInUse))
  {
    assert s.recs[w := s.recs[w]] == s.recs;
  }

  lemma ReserveStep(creator: map<Key, Thread>, s: State, t: Thread, k: Key, p: Purpose, w: Rec)
    requires t in s.pcs && s.pcs[t] == Reserving(k, p) && w in s.recs
    requires s.recs[w].word.free && !s.recs[w].word.locked
    ensures Enabled(creator, s, t, Reserve(w))
    ensures Do(creator, s, t, Reserve(w)) ==
      Put(s, t, w, View(Reserved(w, k, p), Record(AllocatedWord(true), s.recs[w].key, Some(t)), s.dir, s.slotsInUse))
  {
  }

  lemma StoreKeyStep(creator: map<Key, Thread>, s: State, t: Thread, k: Key, p: Purpose, w: Rec)
    requires t in s.pcs && s.pcs[t] == Reserved(w, k, p) && w in s.recs
    ensures Enabled(creator, s, t, StoreKey)
    ensures Do(creator, s, t, StoreKey) == Put(s, t, w, View(Keyed(w, k, p), s.recs[w].(key := k), s.dir, s.slotsInUse))
  {
  }

  lemma CountUpStep(creator: map<Key, Thread>, s: State, t: Thread, k: Key, p: Purpose, w: Rec)
    requires t in s.pcs && s.pcs[t] == Keyed(w, k, p) && w in s.recs
    ensures Enabled(creator, s, t, CountUp)
    ensures Do(creator, s, t, CountUp) == Put(s, t, w, View(Ready(w, k, p), s.recs[w], s.dir, s.slotsInUse + 1))
  {
    assert s.recs[w := s.recs[w]] == s.recs;
  }

  /** Reservation up to the point of publication. */
  lemma ReserveRecord(creator: map<Key, Thread>, s: State, t: Thread, k: Key, p: Purpose, w: Rec)
    returns (tr: seq<State>)
    requires t in s.pcs && s.pcs[t].Idle? && w in s.recs && s.recs[w].word.free && !s.recs[w].word.locked
    requires p.Create? ==> k in creator && creator[k] == t && k !in s.dir
    ensures OwnRun(creator, t, tr, s,
                   Put(s, t, w, View(Ready(w, k, p), Record(AllocatedWord(true), k, Some(t)), s.dir, s.slotsInUse + 1)))
  {
    var r := s.recs[w];
    var v0 := View(Idle, r, s.dir, s.slotsInUse);
    var v1 := v0.(pc := Reserving(k, p));
    var v2 := v1.(pc := Reserved(w, k, p), rec := Record(AllocatedWord(true), r.key, Some(t)));
    var v3 := v2.(pc := Keyed(w, k, p), rec := Record(AllocatedWord(true), k, Some(t)));
    var v4 := v3.(pc := Ready(w, k, p), slotsInUse := s.slotsInUse + 1);
    PutSame(s, t, w);
    StartStep(creator, s, t, k, p, w);
    tr := Then(creator, t, [s], s, w, v0, if p.Switch? then StartSwitch(k) else StartCreate(k), v1);
    ReserveStep(creator, Put(s, t, w, v1), t, k, p, w);
    tr := Then(creator, t, tr, s, w, v1, Reserve(w), v2);
    StoreKeyStep(creator, Put(s, t, w, v2), t, k, p, w);
    tr := Then(creator, t, tr, s, w, v2, StoreKey, v3);
    CountUpStep(creator, Put(s, t, w, v3), t, k, p, w);
    tr := Then(creator, t, tr, s, w, v3, CountUp, v4);
  }

  // ---------------------------------------------------------------- whole operations

  /** The key can take the record: a switch needs an entry without one, a creation no entry. */
  predicate Publishable(s: State, k: Key, p: Purpose) {
    if p.Switch? then k in s.dir && s.dir[k] == None else k !in s.dir
  }

  lemma PublishStep(creator: map<Key, Thread>, s: State, t: Thread, k: Key, p: Purpose, w: Rec)
    requires t in s.pcs && s.pcs[t] == Ready(w, k, p) && w in s.recs && Publishable(s, k, p)
    ensures Enabled(creator, s, t, Publish)
    ensures Do(creator, s, t, Publish) == Put(s, t, w, View(Published(w), s.recs[w], s.dir[k := Some(w)], s.slotsInUse))
  {
    assert s.recs[w := s.recs[w]] == s.recs;
  }

  lemma CommitStep(creator: map<Key, Thread>, s: State, t: Thread, w: Rec)
    requires t in s.pcs && s.pcs[t] == Published(w) && w in s.recs
    ensures Enabled(creator, s, t, Commit)
    ensures Do(creator, s, t, Commit) ==
      Put(s, t, w, View(Idle, Record(EndWord(s.recs[w].word), s.recs[w].key, None), s.dir, s.slotsInUse))
  {
  }

  /** A switch or a creation with a free record: the key names the record, which is allocated for it and
      unlocked with count 2, and is counted; nothing else changes. */
  lemma AttachCompletes(creator: map<Key, Thread>, s: State, t: Thread, k: Key, p: Purpose, w: Rec)
    returns (tr: seq<State>)
    requires t in s.pcs && s.pcs[t].Idle? && w in s.recs && s.recs[w].word.free && !s.recs[w].word.locked
    requires Publishable(s, k, p) && (p.Create? ==> k in creator && creator[k] == t)
    ensures OwnRun(creator, t, tr, s, State(s.dir[k := Some(w)], s.recs[w := Record(Word(false, false, 2), k, None)],
                                            s.pcs, s.slotsInUse + 1))
  {
    var v0 := View(Ready(w, k, p), Record(AllocatedWord(true), k, Some(t)), s.dir, s.slotsInUse + 1);
    var v1 := v0.(pc := Published(w), dir := s.dir[k := Some(w)]);
    var v2 := v1.(pc := Idle, rec := Record(EndWord(AllocatedWord(true)), k, None));
    tr := ReserveRecord(creator, s, t, k, p, w);
    PublishStep(creator, Put(s, t, w, v0), t, k, p, w);
    tr := Then(creator, t, tr, s, w, v0, Publish, v1);
    CommitStep(creator, Put(s, t, w, v1), t, w);
    tr := Then(creator, t, tr, s, w, v1, Commit, v2);
    assert s.pcs[t := Idle] == s.pcs;
  }

  lemma RejectStep(creator: map<Key, Thread>, s: State, t: Thread, k: Key, w: Rec)
    requires t in s.pcs && s.pcs[t] == Ready(w, k, Switch) && w in s.recs && !Publishable(s, k, Switch)
    ensures Enabled(creator, s, t, Publish)
    ensures Do(creator, s, t, Publish) == Put(s, t, w, View(Rejected(w), s.recs[w], s.dir, s.slotsInUse))
  {
    assert s.recs[w := s.recs[w]] == s.recs;
  }

  lemma DiscardStep(creator: map<Key, Thread>, s: State, t: Thread, w: Rec)
    requires t in s.pcs && s.pcs[t] == Rejected(w) && w in s.recs
    requires s.recs[w].word.locked && !s.recs[w].word.free
    ensures Enabled(creator, s, t, Discard)
    ensures Do(creator, s, t, Discard) ==
      Put(s, t, w, View(Freed(Nothing), Record(FreeWord(s.recs[w].word), s.recs[w].key, None), s.dir, s.slotsInUse))
  {
  }

  lemma CountDownStep(creator: map<Key, Thread>, s: State, t: Thread, w: Rec)
    requires t in s.pcs && s.pcs[t].Freed? && w in s.recs
    ensures Enabled(creator, s, t, CountDown)
    ensures Do(creator, s, t, CountDown) ==
      Put(s, t, w, View(Back(s.pcs[t].resume), s.recs[w], s.dir, s.slotsInUse - 1))
  {
    assert s.recs[w := s.recs[w]] == s.recs;
  }

  /** A switch that the directory refuses gives its record back: it is free again, and neither directory nor
      counter has changed. */
  lemma RefusedSwitchCompletes(creator: map<Key, Thread>, s: State, t: Thread, k: Key, w: Rec) returns (tr: seq<State>)
    requires t in s.pcs && s.pcs[t].Idle? && w in s.recs && s.recs[w].word.free && !s.recs[w].word.locked
    requires !Publishable(s, k, Switch)
    ensures OwnRun(creator, t, tr, s, s.(recs := s.recs[w := Record(Word(true, false, 2), k, None)]))
  {
    var v0 := View(Ready(w, k, Switch), Record(AllocatedWord(true), k, Some(t)), s.dir, s.slotsInUse + 1);
    var v1 := v0.(pc := Rejected(w));
    var v2 := v1.(pc := Freed(Nothing), rec := Record(FreeWord(AllocatedWord(true)), k, None));
    var v3 := v2.(pc := Idle, slotsInUse := s.slotsInUse);
    tr := ReserveRecord(creator, s, t, k, Switch, w);
    RejectStep(creator, Put(s, t, w, v0), t, k, w);
    tr := Then(creator, t, tr, s, w, v0, Publish, v1);
    DiscardStep(creator, Put(s, t, w, v1), t, w);
    tr := Then(creator, t, tr, s, w, v1, Discard, v2);
    CountDownStep(creator, Put(s, t, w, v2), t, w);
    tr := Then(creator, t, tr, s, w, v2, CountDown, v3);
    assert s.pcs[t := Idle] == s.pcs;
  }

  /** A key created without data. */
  lemma ReadOnlyCreationCompletes(creator: map<Key, Thread>, s: State, t: Thread, k: Key) returns (tr: seq<State>)
    requires t in s.pcs && s.pcs[t].Idle? && k in creator && creator[k] == t && k !in s.dir
    ensures OwnRun(creator, t, tr, s, s.(dir := s.dir[k := None]))
  {
    var s1 := Do(creator, s, t, StartCreateReadOnly(k));
    var s2 := Do(creator, s1, t, InsertReadOnly);
    assert s2 == s.(dir := s.dir[k := None]) by {
      assert s.pcs[t := InsertingReadOnly(k)][t := Idle] == s.pcs;
    }
    tr := [s, s1, s2];
    assert OwnStep(creator, t, s, s1) && OwnStep(creator, t, s1, s2);
  }

  lemma AnchorStep(creator: map<Key, Thread>, s: State, t: Thread, k: Key, w: Rec)
    requires t in s.pcs && s.pcs[t].Idle? && w in s.recs && k in s.dir && s.dir[k] == Some(w)
    ensures Enabled(creator, s, t, Anchor(k))
    ensures Do(creator, s, t, Anchor(k)) == Put(s, t, w, View(Anchored(k, w), s.recs[w], s.dir, s.slotsInUse))
  {
    assert s.recs[w := s.recs[w]] == s.recs;
  }

  lemma BeginStep(creator: map<Key, Thread>, s: State, t: Thread, k: Key, w: Rec)
    requires t in s.pcs && s.pcs[t] == Anchored(k, w) && w in s.recs && !s.recs[w].word.free && !s.recs[w].word.locked
    ensures Enabled(creator, s, t, BeginWrite)
    ensures Do(creator, s, t, BeginWrite) ==
      Put(s, t, w, View(WriterLocked(k, w), Record(BeginWord(s.recs[w].word), s.recs[w].key, Some(t)),
                        s.dir, s.slotsInUse))
  {
  }

  lemma PassStep(creator: map<Key, Thread>, s: State, t: Thread, k: Key, w: Rec)
    requires t in s.pcs && s.pcs[t] == WriterLocked(k, w) && w in s.recs && k in s.dir && s.dir[k] == Some(w)
    ensures Enabled(creator, s, t, NotificationPasses)
    ensures Do(creator, s, t, NotificationPasses) == Put(s, t, w, View(Writing(k, w), s.recs[w], s.dir, s.slotsInUse))
  {
    assert s.recs[w := s.recs[w]] == s.recs;
  }

  lemma EndStep(creator: map<Key, Thread>, s: State, t: Thread, k: Key, w: Rec)
    requires t in s.pcs && s.pcs[t] == Writing(k, w) && w in s.recs
    ensures Enabled(creator, s, t, EndWrite)
    ensures Do(creator, s, t, EndWrite) ==
      Put(s, t, w, View(Idle, Record(EndWord(s.recs[w].word), s.recs[w].key, None), s.dir, s.slotsInUse))
  {
  }

  /** A write through the record of a key: the record's count moves on by one section and nothing else
      changes. */
  lemma WriteCompletes(creator: map<Key, Thread>, s: State, t: Thread, k: Key) returns (tr: seq<State>)
    requires Inv(creator, s) && t in s.pcs && s.pcs[t].Idle? && k in s.dir && s.dir[k].Some?
    requires !s.recs[s.dir[k].value].word.locked
    ensures var w := s.dir[k].value;
      OwnRun(creator, t, tr, s, s.(recs := s.recs[w := s.recs[w].(word := EndWord(BeginWord(s.recs[w].word)))]))
  {
    var w := s.dir[k].value;
    var r := s.recs[w];
    assert RecInv(s, w);
    var v0 := View(Idle, r, s.dir, s.slotsInUse);
    var v1 := v0.(pc := Anchored(k, w));
    var v2 := v1.(pc := WriterLocked(k, w), rec := Record(BeginWord(r.word), r.key, Some(t)));
    var v3 := v2.(pc := Writing(k, w));
    var v4 := v3.(pc := Idle, rec := Record(EndWord(BeginWord(r.word)), r.key, None));
    PutSame(s, t, w);
    AnchorStep(creator, s, t, k, w);
    tr := Then(creator, t, [s], s, w, v0, Anchor(k), v1);
    BeginStep(creator, Put(s, t, w, v1), t, k, w);
    tr := Then(creator, t, tr, s, w, v1, BeginWrite, v2);
    PassStep(creator, Put(s, t, w, v2), t, k, w);
    tr := Then(creator, t, tr, s, w, v2, NotificationPasses, v3);
    EndStep(creator, Put(s, t, w, v3), t, k, w);
    tr := Then(creator, t, tr, s, w, v3, EndWrite, v4);
    assert s.pcs[t := Idle] == s.pcs;
  }

  lemma LockStep(creator: map<Key, Thread>, s: State, t: Thread, w: Rec)
    requires t in s.pcs && (s.pcs[t].Idle? || s.pcs[t].Reserving?)
    requires w in s.recs && !s.recs[w].word.free && !s.recs[w].word.locked
    ensures Enabled(creator, s, t, LockVictim(w))
    ensures Do(creator, s, t, LockVictim(w)) ==
      Put(s, t, w, View(VictimLocked(w, ResumeOf(s.pcs[t])), Record(LockWord(s.recs[w].word), s.recs[w].key, Some(t)),
                        s.dir, s.slotsInUse))
    ensures Back(ResumeOf(s.pcs[t])) == s.pcs[t]
  {
  }

  lemma ReadKeyStep(creator: map<Key, Thread>, s: State, t: Thread, w: Rec)
    requires t in s.pcs && s.pcs[t].VictimLocked? && s.pcs[t].w == w && w in s.recs
    ensures Enabled(creator, s, t, ReadVictimKey)
    ensures Do(creator, s, t, ReadVictimKey) ==
      Put(s, t, w, View(VictimKeyed(w, s.recs[w].key, s.pcs[t].resume), s.recs[w], s.dir, s.slotsInUse))
  {
    assert s.recs[w := s.recs[w]] == s.recs;
  }

  lemma DetachStep(creator: map<Key, Thread>, s: State, t: Thread, k: Key, w: Rec)
    requires t in s.pcs && s.pcs[t].VictimKeyed? && s.pcs[t].w == w && s.pcs[t].key == k
    requires w in s.recs && k in s.dir && s.dir[k] == Some(w)
    ensures Enabled(creator, s, t, Detach)
    ensures Do(creator, s, t, Detach) ==
      Put(s, t, w, View(VictimDetached(w, w, s.pcs[t].resume), s.recs[w], s.dir[k := None], s.slotsInUse))
  {
    assert s.recs[w := s.recs[w]] == s.recs;
  }

  lemma FreeStep(creator: map<Key, Thread>, s: State, t: Thread, w: Rec)
    requires t in s.pcs && s.pcs[t].VictimDetached? && s.pcs[t].got == w && w in s.recs
    requires !s.recs[w].word.free && s.recs[w].word.locked
    ensures Enabled(creator, s, t, FreeVictim)
    ensures Do(creator, s, t, FreeVictim) ==
      Put(s, t, w, View(Freed(s.pcs[t].resume), Record(FreeWord(s.recs[w].word), s.recs[w].key, None),
                        s.dir, s.slotsInUse))
  {
  }

  /** A reclaim of an allocated, unlocked record, by an idle thread or by one that waits for a record: its key
      is read-only again, the record is free with its count kept, and is counted down; nothing else changes. */
  lemma ReclaimCompletes(creator: map<Key, Thread>, s: State, t: Thread, w: Rec) returns (tr: seq<State>)
    requires Inv(creator, s) && t in s.pcs && (s.pcs[t].Idle? || s.pcs[t].Reserving?)
    requires w in s.recs && !s.recs[w].word.free && !s.recs[w].word.locked
    ensures OwnRun(creator, t, tr, s,
                   State(s.dir[s.recs[w].key := None],
                         s.recs[w := s.recs[w].(word := FreeWord(LockWord(s.recs[w].word)))], s.pcs, s.slotsInUse - 1))
  {
    var r, was := s.recs[w], s.pcs[t];
    var k, resume := r.key, ResumeOf(was);
    assert RecInv(s, w);
    var v0 := View(was, r, s.dir, s.slotsInUse);
    var v1 := v0.(pc := VictimLocked(w, resume), rec := Record(LockWord(r.word), k, Some(t)));
    var v2 := v1.(pc := VictimKeyed(w, k, resume));
    var v3 := v2.(pc := VictimDetached(w, w, resume), dir := s.dir[k := None]);
    var v4 := v3.(pc := Freed(resume), rec := Record(FreeWord(LockWord(r.word)), k, None));
    var v5 := v4.(pc := was, slotsInUse := s.slotsInUse - 1);
    PutSame(s, t, w);
    LockStep(creator, s, t, w);
    tr := Then(creator, t, [s], s, w, v0, LockVictim(w), v1);
    ReadKeyStep(creator, Put(s, t, w, v1), t, w);
    tr := Then(creator, t, tr, s, w, v1, ReadVictimKey, v2);
    DetachStep(creator, Put(s, t, w, v2), t, k, w);
    tr := Then(creator, t, tr, s, w, v2, Detach, v3);
    FreeStep(creator, Put(s, t, w, v3), t, w);
    tr := Then(creator, t, tr, s, w, v3, FreeVictim, v4);
    CountDownStep(creator, Put(s, t, w, v4), t, w);
    tr := Then(creator, t, tr, s, w, v4, CountDown, v5);
    assert s.pcs[t := was] == s.pcs;
  }

  /** A victim that the directory does not name, which no run meets, would be unlocked as it was. */
  lemma KeptVictimIsUnlocked(creator: map<Key, Thread>, s: State, t: Thread, w: Rec)
    requires t in s.pcs && s.pcs[t].VictimKept? && s.pcs[t].w == w && w in s.recs
    ensures Enabled(creator, s, t, UnlockVictim)
    ensures Do(creator, s, t, UnlockVictim) ==
      Put(s, t, w, View(Back(s.pcs[t].resume), Record(UnlockWord(s.recs[w].word), s.recs[w].key, None),
                        s.dir, s.slotsInUse))
  {
  }

  /** A writer whose entry changed while it waited leaves the record as it found it, one section later. */
  lemma FailedWriteCompletes(creator: map<Key, Thread>, s: State, t: Thread, k: Key, w: Rec)
    requires t in s.pcs && s.pcs[t] == WriterLocked(k, w) && w in s.recs
    ensures Enabled(creator, s, t, NotificationFails)
    ensures var s1 := Do(creator, s, t, NotificationFails);
      && Enabled(creator, s1, t, EndWrite)
      && Do(creator, s1, t, EndWrite) ==
           Put(s, t, w, View(Idle, Record(EndWord(s.recs[w].word), s.recs[w].key, None), s.dir, s.slotsInUse))
  {
    assert s.pcs[t := WriterLeaving(w)][t := Idle] == s.pcs[t := Idle];
  }
}
