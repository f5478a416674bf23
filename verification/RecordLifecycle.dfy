/** The life of a coherence record (wmeta) next to the directory: reserved locked, published,
    unlocked, written through, locked again, detached and freed (lib/shm_obj_handle.cc:514-682,
    src/core/write_meta.cc:29-41 and 141-188, src/manager/wmeta_manager.cc:59-101,
    src/core/c3.cc:577-671).

    Any number of threads run these operations at once. The directory is one atomic map from
    key to an optional record. A step is one atomic access to the directory, to a record's word
    or to its block id. The change-notification check of a writer may fail at any time and
    passes only if the entry is what the writer read. Each key is created by one thread. */
module RecordLifecycle {
  import opened Common
  import opened SeqlockWord

  type Key = nat
  type Rec = nat
  type Thread = nat

  datatype Record = Record(word: Word, key: Key, holder: Option<Thread>)   // holder: history variable

  datatype Purpose = Switch | Create

  /** What a thread goes back to after reclaiming a victim on its own critical path. */
  datatype Resume = Nothing | Want(key: Key, purpose: Purpose)

  datatype Pc =
    | Idle
    | Reserving(key: Key, purpose: Purpose)              // in the reserve loop of SwitchRW or CreateEntry
    | Reserved(w: Rec, key: Key, purpose: Purpose)       // try_allocate_seqlock succeeded
    | Keyed(w: Rec, key: Key, purpose: Purpose)          // block id stored
    | Ready(w: Rec, key: Key, purpose: Purpose)          // counted as allocated
    | Published(w: Rec)                                  // in the directory; WSeqEnd next
    | Rejected(w: Rec)                                   // the directory refused; RecycleWmeta next
    | Raced(w: Rec)                                      // creation met an existing entry
    | InsertingReadOnly(key: Key)                        // CreateEntry without data
    | RacedReadOnly                                      // the same, met an existing entry
    | VictimLocked(w: Rec, resume: Resume)               // WLockOnly succeeded
    | VictimKeyed(w: Rec, key: Key, resume: Resume)      // block id read
    | VictimDetached(w: Rec, got: Rec, resume: Resume)   // SwitchToReadOnly returned `got`
    | VictimKept(w: Rec, resume: Resume)                 // SwitchToReadOnly returned nothing
    | Freed(resume: Resume)                              // freed, not yet uncounted
    | Anchored(key: Key, w: Rec)                         // a writer read the entry
    | WriterLocked(key: Key, w: Rec)                     // WSeqBegin succeeded
    | Writing(key: Key, w: Rec)                          // past write_seq_start
    | WriterLeaving(w: Rec)                              // notification check failed; WSeqEnd next

  datatype State = State(dir: map<Key, Option<Rec>>, recs: map<Rec, Record>, pcs: map<Thread, Pc>,
                         slotsInUse: int)

  datatype Action =
    | StartSwitch(key: Key) | StartCreate(key: Key) | StartCreateReadOnly(key: Key)
    | Reserve(rec: Rec) | StoreKey | CountUp | Publish | Commit | Discard
    | InsertReadOnly
    | LockVictim(rec: Rec) | ReadVictimKey | Detach | FreeVictim | UnlockVictim | CountDown
    | Anchor(key: Key) | BeginWrite | NotificationPasses | NotificationFails | EndWrite

  function Back(r: Resume): Pc {
    match r
    case Nothing => Idle
    case Want(k, p) => Reserving(k, p)
  }

  function ResumeOf(pc: Pc): Resume {
    if pc.Reserving? then Want(pc.key, pc.purpose) else Nothing
  }

  ghost predicate Init(s: State) {
    && s.dir == map[]
    && (forall w <- s.recs :: s.recs[w].word == INITIAL && s.recs[w].holder == None)
    && (forall t <- s.pcs :: s.pcs[t] == Idle)
    && s.slotsInUse == 0
  }

  /** creator[k] is the one thread that creates key k. */
  predicate Enabled(creator: map<Key, Thread>, s: State, t: Thread, a: Action) {
    && t in s.pcs
    && var pc := s.pcs[t];
       match a
       case StartSwitch(k) => pc.Idle?
       case StartCreate(k) => pc.Idle? && k in creator && creator[k] == t && k !in s.dir
       case StartCreateReadOnly(k) => pc.Idle? && k in creator && creator[k] == t && k !in s.dir
       case Reserve(w) => pc.Reserving? && w in s.recs && s.recs[w].word.free && !s.recs[w].word.locked
       case StoreKey => pc.Reserved? && pc.w in s.recs
       case CountUp => pc.Keyed?
       case Publish => pc.Ready?
       case Commit => pc.Published? && pc.w in s.recs
       case Discard => pc.Rejected? && pc.w in s.recs
       case InsertReadOnly => pc.InsertingReadOnly?
       case LockVictim(w) =>
         (pc.Idle? || pc.Reserving?) && w in s.recs && !s.recs[w].word.free && !s.recs[w].word.locked
       case ReadVictimKey => pc.VictimLocked? && pc.w in s.recs
       case Detach => pc.VictimKeyed?
       case FreeVictim => pc.VictimDetached? && pc.got in s.recs
       case UnlockVictim => pc.VictimKept? && pc.w in s.recs
       case CountDown => pc.Freed?
       case Anchor(k) => pc.Idle? && k in s.dir && s.dir[k].Some?
       case BeginWrite => pc.Anchored? && pc.w in s.recs && (s.recs[pc.w].word.free || !s.recs[pc.w].word.locked)
       case NotificationPasses => pc.WriterLocked? && pc.key in s.dir && s.dir[pc.key] == Some(pc.w)
       case NotificationFails => pc.WriterLocked?
       case EndWrite => (pc.Writing? || pc.WriterLeaving?) && pc.w in s.recs
  }

  function Goto(s: State, t: Thread, pc: Pc): State {
    s.(pcs := s.pcs[t := pc])
  }

  function SetWord(s: State, w: Rec, word: Word, holder: Option<Thread>): State
    requires w in s.recs
  {
    s.(recs := s.recs[w := s.recs[w].(word := word, holder := holder)])
  }

  /** RecycleWmeta with the lock held: nothing on a free record, refused on an unlocked one. */
  function Recycle(s: State, w: Rec): State
    requires w in s.recs
  {
    var word := s.recs[w].word;
    if word.free || !word.locked then s else SetWord(s, w, FreeWord(word), None)
  }

  function Do(creator: map<Key, Thread>, s: State, t: Thread, a: Action): State
    requires Enabled(creator, s, t, a)
  {
    var pc := s.pcs[t];
    match a
    case StartSwitch(k) => Goto(s, t, Reserving(k, Switch))
    case StartCreate(k) => Goto(s, t, Reserving(k, Create))
    case StartCreateReadOnly(k) => Goto(s, t, InsertingReadOnly(k))
    case Reserve(w) => SetWord(Goto(s, t, Reserved(w, pc.key, pc.purpose)), w, AllocatedWord(true), Some(t))
    case StoreKey =>
      Goto(s, t, Keyed(pc.w, pc.key, pc.purpose)).(recs := s.recs[pc.w := s.recs[pc.w].(key := pc.key)])
    case CountUp => Goto(s, t, Ready(pc.w, pc.key, pc.purpose)).(slotsInUse := s.slotsInUse + 1)
    case Publish =>
      if pc.purpose.Switch? then
        // InvalidateSwitchToRWShared
        if pc.key !in s.dir || s.dir[pc.key].Some? then Goto(s, t, Rejected(pc.w))
        else Goto(s, t, Published(pc.w)).(dir := s.dir[pc.key := Some(pc.w)])
      else
        // CheckAndInsert
        if pc.key in s.dir then Goto(s, t, Raced(pc.w))
        else Goto(s, t, Published(pc.w)).(dir := s.dir[pc.key := Some(pc.w)])
    case Commit => SetWord(Goto(s, t, Idle), pc.w, EndWord(s.recs[pc.w].word), None)
    case Discard => Recycle(Goto(s, t, Freed(Nothing)), pc.w)
    case InsertReadOnly =>
      if pc.key in s.dir then Goto(s, t, RacedReadOnly) else Goto(s, t, Idle).(dir := s.dir[pc.key := None])
    case LockVictim(w) =>
      SetWord(Goto(s, t, VictimLocked(w, ResumeOf(pc))), w, LockWord(s.recs[w].word), Some(t))
    case ReadVictimKey => Goto(s, t, VictimKeyed(pc.w, s.recs[pc.w].key, pc.resume))
    case Detach =>
      // SwitchToReadOnly
      if pc.key in s.dir && s.dir[pc.key].Some? then
        Goto(s, t, VictimDetached(pc.w, s.dir[pc.key].value, pc.resume)).(dir := s.dir[pc.key := None])
      else Goto(s, t, VictimKept(pc.w, pc.resume))
    case FreeVictim => Recycle(Goto(s, t, Freed(pc.resume)), pc.got)
    case UnlockVictim => SetWord(Goto(s, t, Back(pc.resume)), pc.w, UnlockWord(s.recs[pc.w].word), None)
    case CountDown => Goto(s, t, Back(pc.resume)).(slotsInUse := s.slotsInUse - 1)
    case Anchor(k) => Goto(s, t, Anchored(k, s.dir[k].value))
    case BeginWrite =>
      if s.recs[pc.w].word.free then Goto(s, t, Idle)
      else SetWord(Goto(s, t, WriterLocked(pc.key, pc.w)), pc.w, BeginWord(s.recs[pc.w].word), Some(t))
    case NotificationPasses => Goto(s, t, Writing(pc.key, pc.w))
    case NotificationFails => Goto(s, t, WriterLeaving(pc.w))
    case EndWrite => SetWord(Goto(s, t, Idle), pc.w, EndWord(s.recs[pc.w].word), None)
  }

  ghost predicate Next(creator: map<Key, Thread>, s: State, s': State) {
    exists t, a :: Enabled(creator, s, t, a) && s' == Do(creator, s, t, a)
  }

  ghost predicate Run(creator: map<Key, Thread>, tr: seq<State>) {
    && |tr| > 0
    && Init(tr[0])
    && forall i :: 0 < i < |tr| ==> Next(creator, tr[i - 1], tr[i])
  }
}
