/** Directory and records agree in every interleaving. */
module RecordAgreement {
  import opened Common
  import opened SeqlockWord
  import opened RecordLifecycle

  // ---------------------------------------------------------------- the invariant

  /** The record's own key names it. */
  ghost predicate Named(s: State, w: Rec) {
    w in s.recs && s.recs[w].key in s.dir && s.dir[s.recs[w].key] == Some(w)
  }

  /** The record a thread holds, if any. */
  function Held(pc: Pc): Option<Rec> {
    if pc.Reserved? || pc.Keyed? || pc.Ready? || pc.Published? || pc.Rejected? || pc.Raced?
       || pc.VictimLocked? || pc.VictimKeyed? || pc.VictimDetached? || pc.VictimKept?
       || pc.WriterLocked? || pc.Writing? || pc.WriterLeaving?
    then Some(pc.w) else None
  }

  /** Held but not in the directory: not yet published, refused, or already detached. */
  predicate Unattached(pc: Pc) {
    pc.Reserved? || pc.Keyed? || pc.Ready? || pc.Rejected? || pc.VictimDetached?
  }

  ghost predicate DirInv(s: State) {
    forall k <- s.dir :: s.dir[k].Some? ==>
      s.dir[k].value in s.recs && s.recs[s.dir[k].value].key == k && !s.recs[s.dir[k].value].word.free
  }

  ghost predicate RecInv(s: State, w: Rec)
    requires w in s.recs
  {
    var r := s.recs[w];
    && (r.word.free ==> !r.word.locked)
    && (r.word.locked <==> r.holder.Some?)
    && (r.holder.Some? ==> r.holder.value in s.pcs && Held(s.pcs[r.holder.value]) == Some(w))
    && (!r.word.free && !r.word.locked ==> Named(s, w))
  }

  /** A creator of key k works on a key that is not in the directory. */
  ghost predicate CreatorOk(creator: map<Key, Thread>, s: State, t: Thread, k: Key) {
    k in creator && creator[k] == t && k !in s.dir
  }

  ghost predicate ResumeOk(creator: map<Key, Thread>, s: State, t: Thread, r: Resume) {
    r.Want? && r.purpose.Create? ==> CreatorOk(creator, s, t, r.key)
  }

  ghost predicate ThreadInv(creator: map<Key, Thread>, s: State, t: Thread)
    requires t in s.pcs
  {
    var pc := s.pcs[t];
    && (Held(pc).Some? ==>
          && pc.w in s.recs && s.recs[pc.w].holder == Some(t)
          && (Named(s, pc.w) <==> !Unattached(pc)))
    && (pc.Keyed? || pc.Ready? || pc.VictimKeyed? ==> s.recs[pc.w].key == pc.key)
    && (pc.VictimDetached? ==> pc.got == pc.w)
    && (pc.Writing? ==> pc.key in s.dir && s.dir[pc.key] == Some(pc.w))
    && (pc.Reserving? || pc.Reserved? || pc.Keyed? || pc.Ready? ==>
          pc.purpose.Create? ==> CreatorOk(creator, s, t, pc.key))
    && (pc.InsertingReadOnly? ==> CreatorOk(creator, s, t, pc.key))
    && (pc.VictimLocked? || pc.VictimKeyed? || pc.VictimDetached? || pc.VictimKept? || pc.Freed? ==>
          ResumeOk(creator, s, t, pc.resume))
    && !pc.Raced? && !pc.RacedReadOnly? && !pc.VictimKept?
  }

  ghost predicate Inv(creator: map<Key, Thread>, s: State) {
    && DirInv(s)
    && (forall w <- s.recs :: RecInv(s, w))
    && (forall t <- s.pcs :: ThreadInv(creator, s, t))
  }

  // ---------------------------------------------------------------- one step

  /** The part of the invariant that the acting thread sees. */
  ghost predicate Here(creator: map<Key, Thread>, s: State, t: Thread) {
    DirInv(s) && t in s.pcs && ThreadInv(creator, s, t)
  }

  lemma StepKeepsDir(creator: map<Key, Thread>, s: State, t: Thread, a: Action)
    requires Inv(creator, s) && Enabled(creator, s, t, a)
    ensures DirInv(Do(creator, s, t, a))
  {
    assert ThreadInv(creator, s, t);
    if Held(s.pcs[t]).Some? {
      assert RecInv(s, s.pcs[t].w);
    }
  }

  predicate VictimAction(a: Action) {
    a.LockVictim? || a.ReadVictimKey? || a.Detach? || a.FreeVictim? || a.UnlockVictim? || a.CountDown?
  }

  predicate WriterAction(a: Action) {
    a.Anchor? || a.BeginWrite? || a.NotificationPasses? || a.NotificationFails? || a.EndWrite?
  }

  lemma VictimKeepsRec(creator: map<Key, Thread>, s: State, t: Thread, a: Action, w: Rec)
    requires Here(creator, s, t) && Enabled(creator, s, t, a) && w in s.recs && RecInv(s, w)
    requires VictimAction(a)
    ensures w in Do(creator, s, t, a).recs && RecInv(Do(creator, s, t, a), w)
  {
  }

  lemma WriterKeepsRec(creator: map<Key, Thread>, s: State, t: Thread, a: Action, w: Rec)
    requires Here(creator, s, t) && Enabled(creator, s, t, a) && w in s.recs && RecInv(s, w)
    requires WriterAction(a)
    ensures w in Do(creator, s, t, a).recs && RecInv(Do(creator, s, t, a), w)
  {
  }

  lemma ReserverKeepsRec(creator: map<Key, Thread>, s: State, t: Thread, a: Action, w: Rec)
    requires Here(creator, s, t) && Enabled(creator, s, t, a) && w in s.recs && RecInv(s, w)
    requires !VictimAction(a) && !WriterAction(a)
    ensures w in Do(creator, s, t, a).recs && RecInv(Do(creator, s, t, a), w)
  {
  }

  /** The record an action takes from the pool or from the unlocked ones. */
  function Taken(s: State, t: Thread, a: Action): Option<Rec> {
    match a
    case Reserve(w) => Some(w)
    case LockVictim(w) => Some(w)
    case BeginWrite => if t in s.pcs && s.pcs[t].Anchored? then Some(s.pcs[t].w) else None
    case _ => None
  }

  ghost predicate TakenOk(s: State, t: Thread, a: Action) {
    Taken(s, t, a).Some? && Taken(s, t, a).value in s.recs ==> RecInv(s, Taken(s, t, a).value)
  }

  lemma LockerKeepsActor(creator: map<Key, Thread>, s: State, t: Thread, a: Action)
    requires Here(creator, s, t) && TakenOk(s, t, a) && Enabled(creator, s, t, a)
    requires a.LockVictim? || a.ReadVictimKey? || a.Detach?
    ensures ThreadInv(creator, Do(creator, s, t, a), t)
  {
  }

  lemma FreerKeepsActor(creator: map<Key, Thread>, s: State, t: Thread, a: Action)
    requires Here(creator, s, t) && Enabled(creator, s, t, a)
    requires a.FreeVictim? || a.UnlockVictim? || a.CountDown?
    ensures ThreadInv(creator, Do(creator, s, t, a), t)
  {
  }

  lemma BeginnerKeepsActor(creator: map<Key, Thread>, s: State, t: Thread, a: Action)
    requires Here(creator, s, t) && TakenOk(s, t, a) && Enabled(creator, s, t, a)
    requires a.Anchor? || a.BeginWrite?
    ensures ThreadInv(creator, Do(creator, s, t, a), t)
  {
  }

  lemma WriterKeepsActor(creator: map<Key, Thread>, s: State, t: Thread, a: Action)
    requires Here(creator, s, t) && Enabled(creator, s, t, a)
    requires a.NotificationPasses? || a.NotificationFails? || a.EndWrite?
    ensures ThreadInv(creator, Do(creator, s, t, a), t)
  {
  }

  lemma ReserverKeepsActor(creator: map<Key, Thread>, s: State, t: Thread, a: Action)
    requires Here(creator, s, t) && TakenOk(s, t, a) && Enabled(creator, s, t, a)
    requires !VictimAction(a) && !WriterAction(a)
    ensures ThreadInv(creator, Do(creator, s, t, a), t)
  {
  }

  lemma StepKeepsActor(creator: map<Key, Thread>, s: State, t: Thread, a: Action)
    requires Here(creator, s, t) && TakenOk(s, t, a) && Enabled(creator, s, t, a)
    ensures ThreadInv(creator, Do(creator, s, t, a), t)
  {
    if a.LockVictim? || a.ReadVictimKey? || a.Detach? {
      LockerKeepsActor(creator, s, t, a);
    } else if VictimAction(a) {
      FreerKeepsActor(creator, s, t, a);
    } else if a.Anchor? || a.BeginWrite? {
      BeginnerKeepsActor(creator, s, t, a);
    } else if WriterAction(a) {
      WriterKeepsActor(creator, s, t, a);
    } else {
      ReserverKeepsActor(creator, s, t, a);
    }
  }

  /** A record held by another thread keeps its word, its key and its place in the directory. */
  lemma HeldUndisturbed(creator: map<Key, Thread>, s: State, t: Thread, a: Action, w: Rec)
    requires Here(creator, s, t) && Enabled(creator, s, t, a)
    requires w in s.recs && RecInv(s, w) && s.recs[w].holder.Some? && s.recs[w].holder.value != t
    ensures w in Do(creator, s, t, a).recs && Do(creator, s, t, a).recs[w] == s.recs[w]
    ensures Named(Do(creator, s, t, a), w) <==> Named(s, w)
  {
  }

  lemma CreationUndisturbed(creator: map<Key, Thread>, s: State, t: Thread, a: Action, u: Thread, k: Key)
    requires Here(creator, s, t) && Enabled(creator, s, t, a) && u != t && CreatorOk(creator, s, u, k)
    ensures CreatorOk(creator, Do(creator, s, t, a), u, k)
  {
  }

  lemma StepKeepsOther(creator: map<Key, Thread>, s: State, t: Thread, a: Action, u: Thread)
    requires Inv(creator, s) && Enabled(creator, s, t, a) && u in s.pcs && u != t
    ensures u in Do(creator, s, t, a).pcs && ThreadInv(creator, Do(creator, s, t, a), u)
  {
    var s', pc := Do(creator, s, t, a), s.pcs[u];
    assert ThreadInv(creator, s, u);
    assert s'.pcs[u] == pc;
    if Held(pc).Some? {
      HeldUndisturbed(creator, s, t, a, pc.w);
    }
    forall k | CreatorOk(creator, s, u, k)
      ensures CreatorOk(creator, s', u, k)
    {
      CreationUndisturbed(creator, s, t, a, u, k);
    }
    if pc.Writing? {
      assert Named(s, pc.w) && s.recs[pc.w].key == pc.key;
    }
  }

  lemma StepKeepsInv(creator: map<Key, Thread>, s: State, t: Thread, a: Action)
    requires Inv(creator, s) && Enabled(creator, s, t, a)
    ensures Inv(creator, Do(creator, s, t, a))
  {
    var s' := Do(creator, s, t, a);
    StepKeepsDir(creator, s, t, a);
    forall w <- s'.recs
      ensures RecInv(s', w)
    {
      if VictimAction(a) {
        VictimKeepsRec(creator, s, t, a, w);
      } else if WriterAction(a) {
        WriterKeepsRec(creator, s, t, a, w);
      } else {
        ReserverKeepsRec(creator, s, t, a, w);
      }
    }
    forall u <- s'.pcs
      ensures ThreadInv(creator, s', u)
    {
      if u != t {
        StepKeepsOther(creator, s, t, a, u);
      } else {
        StepKeepsActor(creator, s, t, a);
      }
    }
  }

  lemma {:induction false} RunKeepsInv(creator: map<Key, Thread>, tr: seq<State>, i: nat)
    requires Run(creator, tr) && i < |tr|
    ensures Inv(creator, tr[i])
  {
    if i > 0 {
      RunKeepsInv(creator, tr, i - 1);
      assert Next(creator, tr[i - 1], tr[i]);
      var t, a :| Enabled(creator, tr[i - 1], t, a) && tr[i] == Do(creator, tr[i - 1], t, a);
      StepKeepsInv(creator, tr[i - 1], t, a);
    }
  }

  // ---------------------------------------------------------------- what every run keeps

  /** A key that names a record names an allocated one that carries the key, so no two keys share a
      record; and every allocated, unlocked record is named by the key it carries. */
  lemma DirectoryAndRecordsAgree(creator: map<Key, Thread>, tr: seq<State>, i: nat)
    requires Run(creator, tr) && i < |tr|
    ensures var s := tr[i];
            && (forall k <- s.dir :: s.dir[k].Some? ==>
                  var w := s.dir[k].value; w in s.recs && !s.recs[w].word.free && s.recs[w].key == k)
            && (forall k1 <- s.dir, k2 <- s.dir :: s.dir[k1].Some? && s.dir[k1] == s.dir[k2] ==> k1 == k2)
            && (forall w <- s.recs :: !s.recs[w].word.free && !s.recs[w].word.locked ==> Named(s, w))
  {
    RunKeepsInv(creator, tr, i);
    var s := tr[i];
    forall w <- s.recs | !s.recs[w].word.free && !s.recs[w].word.locked
      ensures Named(s, w)
    {
      assert RecInv(s, w);
    }
  }

  /** A reclaimer's SwitchToReadOnly always returns the very record it locked, and the record it
      then frees is held by it and named by no key. */
  lemma ReclaimerGetsItsRecord(creator: map<Key, Thread>, tr: seq<State>, i: nat, t: Thread)
    requires Run(creator, tr) && i < |tr| && t in tr[i].pcs
    ensures var s, pc := tr[i], tr[i].pcs[t];
            && (pc.VictimKeyed? ==> pc.key in s.dir && s.dir[pc.key] == Some(pc.w))
            && !pc.VictimKept?
            && (pc.VictimDetached? ==>
                  && pc.got == pc.w && pc.w in s.recs && s.recs[pc.w].holder == Some(t)
                  && forall k <- s.dir :: s.dir[k] != Some(pc.w))
  {
    RunKeepsInv(creator, tr, i);
    assert ThreadInv(creator, tr[i], t);
  }

  /** From write_seq_start to write_seq_end a writer holds the record the directory names for its
      key, and it alone, whatever the other threads do. */
  lemma WriterHoldsNamedRecord(creator: map<Key, Thread>, tr: seq<State>, i: nat, t: Thread)
    requires Run(creator, tr) && i < |tr| && t in tr[i].pcs && tr[i].pcs[t].Writing?
    ensures var s, pc := tr[i], tr[i].pcs[t];
            && pc.key in s.dir && s.dir[pc.key] == Some(pc.w)
            && pc.w in s.recs && s.recs[pc.w].key == pc.key
            && s.recs[pc.w].word.locked && !s.recs[pc.w].word.free
            && (forall u <- s.pcs :: Held(s.pcs[u]) == Some(pc.w) ==> u == t)
            && (forall u <- s.pcs :: s.pcs[u].Writing? && s.pcs[u].key == pc.key ==> u == t)
  {
    RunKeepsInv(creator, tr, i);
    var s, pc := tr[i], tr[i].pcs[t];
    assert ThreadInv(creator, s, t) && RecInv(s, pc.w);
    forall u <- s.pcs
      ensures Held(s.pcs[u]) == Some(pc.w) ==> u == t
      ensures s.pcs[u].Writing? && s.pcs[u].key == pc.key ==> u == t
    {
      assert ThreadInv(creator, s, u);
    }
  }

  /** With one creator per key, creation never meets an existing entry. */
  lemma CreationNeverRaces(creator: map<Key, Thread>, tr: seq<State>, i: nat, t: Thread)
    requires Run(creator, tr) && i < |tr| && t in tr[i].pcs
    ensures !tr[i].pcs[t].Raced? && !tr[i].pcs[t].RacedReadOnly?
  {
    RunKeepsInv(creator, tr, i);
    assert ThreadInv(creator, tr[i], t);
  }

  // ---------------------------------------------------------------- the counter of allocated records

  predicate CountsUpNext(pc: Pc) {
    pc.Reserved? || pc.Keyed?
  }

  predicate CountsDownNext(pc: Pc) {
    pc.Freed?
  }

  predicate IsAllocated(r: Record) {
    !r.word.free
  }

  ghost predicate Conserved(s: State) {
    s.slotsInUse + |Where(s.pcs, CountsUpNext)| - |Where(s.pcs, CountsDownNext)| == |Where(s.recs, IsAllocated)|
  }

  lemma StepMovesActor(creator: map<Key, Thread>, s: State, t: Thread, a: Action)
    requires Enabled(creator, s, t, a)
    ensures var s' := Do(creator, s, t, a); t in s'.pcs && s'.pcs == s.pcs[t := s'.pcs[t]]
  {
  }

  /** The record whose word or key a step changes. */
  function Changed(s: State, t: Thread, a: Action): Option<Rec>
    requires t in s.pcs
  {
    var pc := s.pcs[t];
    if a.Reserve? || a.LockVictim? then Some(a.rec)
    else if a.FreeVictim? && pc.VictimDetached? then Some(pc.got)
    else if a.BeginWrite? && pc.Anchored? then Some(pc.w)
    else if a.StoreKey? || a.Commit? || a.Discard? || a.UnlockVictim? || a.EndWrite? then Held(pc)
    else None
  }

  /** Records leave the free pool exactly by Reserve and return to it exactly by a release. */
  ghost predicate MovesRecord(s: State, s': State, a: Action, c: Option<Rec>) {
    && (c == None ==> s'.recs == s.recs && !a.Reserve? && !a.Discard? && !a.FreeVictim?)
    && (c.Some? ==>
          && c.value in s.recs && c.value in s'.recs && s'.recs == s.recs[c.value := s'.recs[c.value]]
          && IsAllocated(s.recs[c.value]) == (if a.Reserve? then false
               else if a.Discard? || a.FreeVictim? then true else IsAllocated(s'.recs[c.value]))
          && (a.Reserve? ==> IsAllocated(s'.recs[c.value]))
          && (a.Discard? || a.FreeVictim? ==> !IsAllocated(s'.recs[c.value])))
  }

  ghost predicate HeldOk(s: State, t: Thread)
    requires t in s.pcs
  {
    Held(s.pcs[t]).Some? ==> s.pcs[t].w in s.recs && RecInv(s, s.pcs[t].w)
  }

  lemma VictimMovesRecord(creator: map<Key, Thread>, s: State, t: Thread, a: Action)
    requires Here(creator, s, t) && HeldOk(s, t) && Enabled(creator, s, t, a) && VictimAction(a)
    ensures MovesRecord(s, Do(creator, s, t, a), a, Changed(s, t, a))
  {
  }

  lemma OtherMovesRecord(creator: map<Key, Thread>, s: State, t: Thread, a: Action)
    requires Here(creator, s, t) && HeldOk(s, t) && Enabled(creator, s, t, a) && !VictimAction(a)
    ensures MovesRecord(s, Do(creator, s, t, a), a, Changed(s, t, a))
  {
  }

  lemma StepMovesRecord(creator: map<Key, Thread>, s: State, t: Thread, a: Action)
    requires Inv(creator, s) && Enabled(creator, s, t, a)
    ensures MovesRecord(s, Do(creator, s, t, a), a, Changed(s, t, a))
  {
    assert ThreadInv(creator, s, t);
    if VictimAction(a) {
      VictimMovesRecord(creator, s, t, a);
    } else {
      OtherMovesRecord(creator, s, t, a);
    }
  }

  /** How a step changes the counter and the acting thread's outstanding count. */
  lemma CountsFollow(creator: map<Key, Thread>, s: State, t: Thread, a: Action)
    requires Inv(creator, s) && Enabled(creator, s, t, a)
    ensures var s' := Do(creator, s, t, a);
            && s'.slotsInUse == s.slotsInUse + One(a.CountUp?) - One(a.CountDown?)
            && One(CountsUpNext(s'.pcs[t])) == One(CountsUpNext(s.pcs[t])) + One(a.Reserve?) - One(a.CountUp?)
            && One(CountsDownNext(s'.pcs[t])) ==
                 One(CountsDownNext(s.pcs[t])) + One(a.Discard? || a.FreeVictim?) - One(a.CountDown?)
  {
  }

  lemma StepConserves(creator: map<Key, Thread>, s: State, t: Thread, a: Action)
    requires Inv(creator, s) && Enabled(creator, s, t, a) && Conserved(s)
    ensures Conserved(Do(creator, s, t, a))
  {
    var s' := Do(creator, s, t, a);
    StepMovesActor(creator, s, t, a);
    WhereUpdate(s.pcs, t, s'.pcs[t], CountsUpNext);
    WhereUpdate(s.pcs, t, s'.pcs[t], CountsDownNext);
    StepMovesRecord(creator, s, t, a);
    var c := Changed(s, t, a);
    if c.Some? {
      WhereUpdate(s.recs, c.value, s'.recs[c.value], IsAllocated);
    }
    CountsFollow(creator, s, t, a);
  }

  /** allocated_slot_num_, corrected by the increments and decrements still to be performed, is the
      number of records that are not free; it equals it whenever none is outstanding. */
  lemma {:induction false} CounterCountsNonFree(creator: map<Key, Thread>, tr: seq<State>, i: nat)
    requires Run(creator, tr) && i < |tr|
    ensures Conserved(tr[i])
  {
    if i == 0 {
      assert Where(tr[0].pcs, CountsUpNext) == {} && Where(tr[0].pcs, CountsDownNext) == {};
      assert Where(tr[0].recs, IsAllocated) == {};
    } else {
      CounterCountsNonFree(creator, tr, i - 1);
      RunKeepsInv(creator, tr, i - 1);
      assert Next(creator, tr[i - 1], tr[i]);
      var t, a :| Enabled(creator, tr[i - 1], t, a) && tr[i] == Do(creator, tr[i - 1], t, a);
      StepConserves(creator, tr[i - 1], t, a);
    }
  }

  // ---------------------------------------------------------------- write sections

  /** The thread has the record in a write section: from its reservation on, or from WSeqBegin on. */
  predicate InSection(pc: Pc) {
    || pc.Reserved? || pc.Keyed? || pc.Ready? || pc.Published? || pc.Rejected? || pc.Raced?
    || pc.WriterLocked? || pc.Writing? || pc.WriterLeaving?
  }

  ghost predicate SectionInv(s: State, w: Rec)
    requires w in s.recs
  {
    var r := s.recs[w];
    r.word.Odd() <==> r.holder.Some? && r.holder.value in s.pcs && InSection(s.pcs[r.holder.value])
  }

  lemma VictimKeepsSection(creator: map<Key, Thread>, s: State, t: Thread, a: Action, w: Rec)
    requires Here(creator, s, t) && HeldOk(s, t) && Enabled(creator, s, t, a) && VictimAction(a)
    requires w in s.recs && RecInv(s, w) && SectionInv(s, w)
    ensures w in Do(creator, s, t, a).recs && SectionInv(Do(creator, s, t, a), w)
  {
    SuccParity(s.recs[w].word.count);
  }

  lemma WriterKeepsSection(creator: map<Key, Thread>, s: State, t: Thread, a: Action, w: Rec)
    requires Here(creator, s, t) && HeldOk(s, t) && Enabled(creator, s, t, a) && WriterAction(a)
    requires w in s.recs && RecInv(s, w) && SectionInv(s, w)
    ensures w in Do(creator, s, t, a).recs && SectionInv(Do(creator, s, t, a), w)
  {
    SuccParity(s.recs[w].word.count);
  }

  lemma ReserverKeepsSection(creator: map<Key, Thread>, s: State, t: Thread, a: Action, w: Rec)
    requires Here(creator, s, t) && HeldOk(s, t) && Enabled(creator, s, t, a)
    requires !VictimAction(a) && !WriterAction(a)
    requires w in s.recs && RecInv(s, w) && SectionInv(s, w)
    ensures w in Do(creator, s, t, a).recs && SectionInv(Do(creator, s, t, a), w)
  {
    SuccParity(s.recs[w].word.count);
  }

  lemma SuccParity(c: Count)
    ensures Succ(c) % 2 == 1 <==> c % 2 == 0
  {
    SuccFacts(c, c);
  }

  lemma StepKeepsSection(creator: map<Key, Thread>, s: State, t: Thread, a: Action, w: Rec)
    requires Inv(creator, s) && Enabled(creator, s, t, a) && w in s.recs && SectionInv(s, w)
    ensures w in Do(creator, s, t, a).recs && SectionInv(Do(creator, s, t, a), w)
  {
    assert ThreadInv(creator, s, t) && RecInv(s, w);
    if VictimAction(a) {
      VictimKeepsSection(creator, s, t, a, w);
    } else if WriterAction(a) {
      WriterKeepsSection(creator, s, t, a, w);
    } else {
      ReserverKeepsSection(creator, s, t, a, w);
    }
  }

  lemma {:induction false} RunKeepsSection(creator: map<Key, Thread>, tr: seq<State>, i: nat, w: Rec)
    requires Run(creator, tr) && i < |tr| && w in tr[0].recs
    ensures w in tr[i].recs && SectionInv(tr[i], w)
  {
    if i > 0 {
      RunKeepsSection(creator, tr, i - 1, w);
      RunKeepsInv(creator, tr, i - 1);
      assert Next(creator, tr[i - 1], tr[i]);
      var t, a :| Enabled(creator, tr[i - 1], t, a) && tr[i] == Do(creator, tr[i - 1], t, a);
      StepKeepsSection(creator, tr[i - 1], t, a, w);
    }
  }

  lemma {:induction false} RecordsStay(creator: map<Key, Thread>, tr: seq<State>, i: nat)
    requires Run(creator, tr) && i < |tr|
    ensures tr[i].recs.Keys == tr[0].recs.Keys
  {
    if i > 0 {
      RecordsStay(creator, tr, i - 1);
      RunKeepsInv(creator, tr, i - 1);
      assert Next(creator, tr[i - 1], tr[i]);
      var t, a :| Enabled(creator, tr[i - 1], t, a) && tr[i] == Do(creator, tr[i - 1], t, a);
      StepMovesRecord(creator, tr[i - 1], t, a);
    }
  }

  /** In every run the count of a record is odd exactly while its holder is in a write section: a writer
      holds its record odd, so no reader accepts what it reads meanwhile; a reclaimer holds it even; and
      nobody holds a record with an odd count otherwise. */
  lemma CountTellsSections(creator: map<Key, Thread>, tr: seq<State>, i: nat, w: Rec)
    requires Run(creator, tr) && i < |tr| && w in tr[i].recs
    ensures var s := tr[i]; var r := s.recs[w];
      && (r.word.Odd() <==> exists t :: t in s.pcs && Held(s.pcs[t]) == Some(w) && InSection(s.pcs[t]))
      && (forall t <- s.pcs :: Held(s.pcs[t]) == Some(w) ==> r.word.locked && (r.word.Odd() <==> InSection(s.pcs[t])))
      && (!r.word.locked ==> !r.word.Odd())
  {
    RecordsStay(creator, tr, i);
    RunKeepsSection(creator, tr, i, w);
    RunKeepsInv(creator, tr, i);
    var s := tr[i];
    assert RecInv(s, w);
    forall t <- s.pcs | Held(s.pcs[t]) == Some(w)
      ensures s.recs[w].holder == Some(t)
    {
      assert ThreadInv(creator, s, t);
    }
  }
}
