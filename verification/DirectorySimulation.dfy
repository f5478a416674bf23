/** The replicated directory behind its foreign interface (src/index/gcd_nr.cc:90-209 over
    third-party/nr_rust/ffi/ffi_nr_hashmap.rs:705-894) behaves as the plain one. */
module DirectorySimulation {
  import opened Common
  import opened NrDirectory
  import opened NrInvariants
  import Plain = PlainDirectory

  // ---------------------------------------------------------------- sentinels and optionals

  function FromOption(o: Option<nat>): int {
    if o.Some? then o.value else -1
  }

  function ToOption(i: int): Option<nat> {
    if i < 0 then None else Some(i)
  }

  function DecodeCopies(cn: Copies): Plain.StatusArray {
    seq(SLOTS, (i: int) requires 0 <= i < SLOTS => Plain.Status(ToOption(cn[i].cnIdx), cn[i].invalidate))
  }

  // gcd_nr.cc, Get: -1 becomes "no value"
  function DecodeEntry(e: Entry): Plain.PlainEntry {
    Plain.PlainEntry(ToOption(e.wmeta), DecodeCopies(e.cn))
  }

  /** The plain map that a replicated map stands for. */
  ghost function Abs(m: Storage): Plain.PlainMap {
    map id <- m :: DecodeEntry(m[id])
  }

  // ---------------------------------------------------------------- the foreign interface

  // CheckPutArray and the cast to NrGcdError
  function DecodeCheckPut(resp: Option<Response>): Plain.GcdError {
    match resp
    case Some(r) => if r.key.Id() == NULL_KEY.Id() then Plain.SlotUpdateFailed else Plain.NoError
    case None => Plain.SlotWmetaUpdateFailed
  }

  // InvalidateExceptArrayUpdateWmeta and the switch over its code
  function DecodeSwitch(resp: Option<Response>): Plain.GcdError {
    match resp
    case Some(r) => if r.key.Id() == NULL_KEY.Id() then Plain.SlotWmetaUpdateFailed else Plain.NoError
    case None => Plain.EntryNoExist
  }

  // DeleteIfArray and the cast to NrGcdDeleteError
  function DecodeDeleteIf(resp: Option<Response>): Plain.DeleteError {
    match resp
    case Some(r) =>
      if r.key.Id() == NULL_KEY.Id() then
        if r.value == EMPTY_ENTRY then Plain.AlreadyDeleted else Plain.WmetaValid
      else Plain.Success
    case None => Plain.NoEntry
  }

  // CheckSwitchWmetaArray(-1) and SwitchToReadOnly
  function DecodeDetach(resp: Option<Response>): Option<nat> {
    match resp
    case Some(r) => ToOption(r.value.wmeta)
    case None => None
  }

  // Delete: nothing if there was no entry, -1 if the entry had no record
  function DecodeDelete(resp: Option<Response>): Option<int> {
    match resp
    case Some(r) => Some(r.value.wmeta)
    case None => None
  }

  // DeleteArray: whether there was an entry
  function DecodeDeleteLocal(resp: Option<Response>): bool {
    resp.Some?
  }

  // CheckSwitchWmetaArray with a record, and SwitchToRWShared
  function DecodeAttach(resp: Option<Response>): bool {
    resp.Some? && resp.value.value.wmeta >= 0
  }

  // ---------------------------------------------------------------- calls on both directories

  datatype Call =
    | Get(key: BlockId)
    | Insert(key: BlockId, cn: nat, nid: nat)
    | CheckAndInsert(key: BlockId, cn: nat, nid: nat, wmeta: Option<nat>)
    | Remove(key: BlockId)
    | DeleteLocal(key: BlockId, nid: nat)
    | DeleteIfReadOnly(key: BlockId, nid: nat)
    | SwitchToReadOnly(key: BlockId)
    | SwitchToRWShared(key: BlockId, rec: nat)
    | InvalidateSwitchToRWShared(key: BlockId, rec: nat)
  {
    predicate InRange() {
      Insert? || CheckAndInsert? || DeleteLocal? || DeleteIfReadOnly? ==> nid < SLOTS
    }

    /** The operation sent to the log; Get sends none. */
    function Op(): (op: Modify)
      requires !Get?
      ensures op.key == key && (InRange() ==> op.InRange()) && SaneOp(op) && RealCopy(op)
    {
      match this
      case Insert(key, cn, nid) => PutArrayWmeta(key, cn, nid, -1)
      case CheckAndInsert(key, cn, nid, wmeta) => CheckPutArrayWmeta(key, cn, nid, FromOption(wmeta))
      case Remove(key) => Delete(key)
      case DeleteLocal(key, nid) => DeleteArray(key, nid)
      case DeleteIfReadOnly(key, nid) => DeleteIfArray(key, nid)
      case SwitchToReadOnly(key) => CheckSwitchWmetaArray(key, -1)
      case SwitchToRWShared(key, rec) => CheckSwitchWmetaArray(key, rec)
      case InvalidateSwitchToRWShared(key, rec) => InvalidateExceptArrayUpdateWmeta(key, NUMA_MEM, rec)
    }
  }

  datatype Answered =
    | Found(entry: Plain.PlainEntry)
    | Inserted(error: Plain.GcdError)
    | Deleted(status: Plain.DeleteError)
    | Removed(was: Option<int>)
    | Told(b: bool)
    | Done
    | Aborted

  function NrCall(m: Storage, c: Call): (Storage, Answered)
    requires c.InRange()
  {
    if c.Get? then
      (m, Found(DecodeEntry(if c.key.Id() in m then m[c.key.Id()] else EMPTY_ENTRY)))
    else
      var r := Apply(m, c.Op());
      if r.reply.Panic? then (m, Aborted)
      else
        (r.storage,
         match c
         case CheckAndInsert(_, _, _, _) => Inserted(DecodeCheckPut(r.reply.resp))
         case InvalidateSwitchToRWShared(_, _) => Inserted(DecodeSwitch(r.reply.resp))
         case DeleteIfReadOnly(_, _) => Deleted(DecodeDeleteIf(r.reply.resp))
         case Remove(_) => Removed(DecodeDelete(r.reply.resp))
         case DeleteLocal(_, _) => Told(DecodeDeleteLocal(r.reply.resp))
         case SwitchToRWShared(_, _) => Told(DecodeAttach(r.reply.resp))
         case _ => Done)
  }

  function PlainCall(m: Plain.PlainMap, c: Call): (Plain.PlainMap, Answered)
    requires c.InRange()
  {
    var id := c.key.Id();
    match c
    case Get(_) => (m, Found(Plain.Get(m, id)))
    case Insert(_, cn, nid) => (Plain.Insert(m, id, cn, nid), Done)
    case CheckAndInsert(_, cn, nid, wmeta) =>
      var (m', e) := Plain.CheckAndInsert(m, id, cn, nid, wmeta);
      (m', if e.Some? then Inserted(e.value) else Aborted)
    case Remove(_) => (m - {id}, Removed(Plain.DeletedRecord(m, id)))
    case DeleteLocal(_, nid) =>
      var (m', erased) := Plain.DeleteLocal(m, id, nid);
      (m', Told(erased))
    case DeleteIfReadOnly(_, nid) =>
      var (m', e) := Plain.DeleteIfReadOnly(m, id, nid);
      (m', Deleted(e))
    case SwitchToReadOnly(_) => (Plain.SwitchToReadOnly(m, id), Done)
    case SwitchToRWShared(_, rec) =>
      var (m', found) := Plain.SwitchToRWShared(m, id, rec);
      (m', Told(found))
    case InvalidateSwitchToRWShared(_, rec) =>
      var (m', e) := Plain.InvalidateSwitchToRWShared(m, id, rec);
      (m', Inserted(e))
  }

  // ---------------------------------------------------------------- one call

  lemma CallKeepsSane(m: Storage, c: Call)
    requires Sane(m) && c.InRange()
    ensures Sane(NrCall(m, c).0)
  {
    if !c.Get? {
      StepKeepsSane(m, c.Op());
    }
  }

  lemma DecodeUpdate(cn: Copies, i: nat, s: CNStatus)
    requires i < SLOTS
    ensures DecodeCopies(cn[i := s]) == DecodeCopies(cn)[i := Plain.Status(ToOption(s.cnIdx), s.invalidate)]
  {
  }

  lemma DecodeInvalidate(cn: Copies)
    requires forall i :: 0 <= i < SLOTS ==> cn[i].cnIdx >= -1
    ensures DecodeCopies(InvalidateExcept(cn, NUMA_MEM)) == Plain.InvalidateLocal(DecodeCopies(cn))
  {
  }

  lemma DecodeNone(cn: Copies)
    requires forall i :: 0 <= i < SLOTS ==> cn[i].cnIdx >= -1
    ensures NoCopy(cn) <==> Plain.NonePresent(DecodeCopies(cn))
  {
    forall i | 0 <= i < SLOTS
      ensures cn[i].cnIdx == -1 <==> DecodeCopies(cn)[i].cnIdx == None
    {
    }
  }

  lemma AbsUpdate(m: Storage, id: Ident, e: Entry)
    ensures Abs(m[id := e]) == Abs(m)[id := DecodeEntry(e)]
    ensures Abs(m - {id}) == Abs(m) - {id}
  {
  }

  lemma DecodeNothing()
    ensures DecodeEntry(EMPTY_ENTRY) == Plain.NO_ENTRY
  {
    assert DecodeCopies(NO_COPIES) == Plain.NONE_PRESENT;
  }

  /** Eviction of a valid local copy beside a record, which only the replicated directory refuses. */
  predicate EvictsValidCopy(m: Storage, c: Call)
    requires c.InRange()
  {
    && c.DeleteIfReadOnly? && c.nid != NUMA_MEM && c.key.Id() in m
    && var e := m[c.key.Id()]; e.wmeta != -1 && e.cn[c.nid] != NULL_STATUS && !e.cn[c.nid].invalidate
  }

  /** The null key is also the marker of a refusal, so a success for it is misread. */
  predicate NullKeyMisread(m: Storage, c: Call)
    requires c.InRange()
  {
    && c.key.Id() == NULL_KEY.Id()
    && var id := c.key.Id();
       match c
       case CheckAndInsert(_, _, nid, _) =>
         id !in m || (m[id].cn[nid] == NULL_STATUS && (nid == NUMA_MEM || m[id].wmeta == -1))
       case DeleteIfReadOnly(_, nid) =>
         id in m && !(nid == NUMA_MEM && m[id].wmeta != -1) && m[id].cn[nid] != NULL_STATUS
       case InvalidateSwitchToRWShared(_, _) => id in m && m[id].wmeta == -1
       case _ => false
  }

  /** The two report the same outcome differently: a local copy that is already there, an entry removed
      without a record, a copy cleared that was not the last, a record that is already attached. */
  predicate ReportedApart(m: Storage, c: Call)
    requires c.InRange()
  {
    && c.key.Id() in m
    && var e := m[c.key.Id()];
       match c
       case CheckAndInsert(_, _, nid, _) => nid != NUMA_MEM && e.cn[nid].cnIdx != -1
       case Remove(_) => e.wmeta == -1
       case DeleteLocal(_, nid) => AnotherCopy(e.cn, nid)
       case SwitchToRWShared(_, _) => e.wmeta != -1
       case _ => false
  }

  predicate Agreeing(m: Storage, c: Call)
    requires c.InRange()
  {
    !EvictsValidCopy(m, c) && !NullKeyMisread(m, c) && !ReportedApart(m, c)
  }

  lemma InsertSimulates(m: Storage, c: Call)
    requires Sane(m) && c.InRange() && c.Insert?
    ensures NrCall(m, c).1 == PlainCall(Abs(m), c).1 && Agreeing(m, c)
    ensures Abs(NrCall(m, c).0) == PlainCall(Abs(m), c).0
  {
    var id := c.key.Id();
    DecodeNothing();
    AbsUpdate(m, id, NrCall(m, c).0[id]);
    DecodeUpdate(if id in m then m[id].cn else NO_COPIES, c.nid, CNStatus(c.cn, false));
  }

  lemma CreationSimulates(m: Storage, c: Call)
    requires Sane(m) && c.InRange() && c.CheckAndInsert? && c.key.Id() !in m
    ensures NrCall(m, c).1 == PlainCall(Abs(m), c).1 <==> Agreeing(m, c)
    ensures Abs(NrCall(m, c).0) == PlainCall(Abs(m), c).0
  {
    DecodeNothing();
    AbsUpdate(m, c.key.Id(), NrCall(m, c).0[c.key.Id()]);
    DecodeUpdate(NO_COPIES, c.nid, CNStatus(c.cn, false));
  }

  lemma AdmissionSimulates(m: Storage, c: Call)
    requires Sane(m) && c.InRange() && c.CheckAndInsert? && c.key.Id() in m
    ensures NrCall(m, c).1 == PlainCall(Abs(m), c).1 <==> Agreeing(m, c)
    ensures Abs(NrCall(m, c).0) == PlainCall(Abs(m), c).0
  {
    var e := m[c.key.Id()];
    AbsUpdate(m, c.key.Id(), NrCall(m, c).0[c.key.Id()]);
    DecodeUpdate(e.cn, c.nid, CNStatus(c.cn, false));
    assert DecodeEntry(e).cn[c.nid] == Plain.Status(ToOption(e.cn[c.nid].cnIdx), e.cn[c.nid].invalidate);
  }

  lemma DeleteSimulates(m: Storage, c: Call)
    requires Sane(m) && c.InRange() && c.DeleteIfReadOnly?
    ensures NrCall(m, c).1 == PlainCall(Abs(m), c).1 <==> Agreeing(m, c)
    ensures !EvictsValidCopy(m, c) ==> Abs(NrCall(m, c).0) == PlainCall(Abs(m), c).0
  {
    var id, nid := c.key.Id(), c.nid;
    if id in m {
      ClearSimulates(m, id, nid);
      assert InitEntry(2, 1).cn[1] != EMPTY_ENTRY.cn[1];
    }
  }

  /** Clearing a copy, in both directories. */
  lemma ClearSimulates(m: Storage, id: Ident, nid: nat)
    requires Sane(m) && id in m && nid < SLOTS
    ensures var e, p := m[id].cn[nid := NULL_STATUS], DecodeEntry(m[id]).cn[nid := Plain.ABSENT];
      && DecodeCopies(e) == p && (NoCopy(e) <==> Plain.NonePresent(p)) && (NoCopy(e) <==> !AnotherCopy(m[id].cn, nid))
      && Abs(Without(m, id, nid)) ==
           if Plain.NonePresent(p) then Abs(m) - {id} else Abs(m)[id := DecodeEntry(m[id]).(cn := p)]
    ensures DecodeEntry(m[id]).cn[nid] == Plain.Status(ToOption(m[id].cn[nid].cnIdx), m[id].cn[nid].invalidate)
  {
    var e := m[id].(cn := m[id].cn[nid := NULL_STATUS]);
    AbsUpdate(m, id, e);
    DecodeUpdate(m[id].cn, nid, NULL_STATUS);
    DecodeNone(e.cn);
    assert forall i :: 0 <= i < SLOTS && i != nid ==> e.cn[i] == m[id].cn[i];
  }

  lemma RemoveSimulates(m: Storage, c: Call)
    requires Sane(m) && c.InRange() && c.Remove?
    ensures NrCall(m, c).1 == PlainCall(Abs(m), c).1 <==> Agreeing(m, c)
    ensures Abs(NrCall(m, c).0) == PlainCall(Abs(m), c).0
  {
    AbsUpdate(m, c.key.Id(), EMPTY_ENTRY);
    if c.key.Id() !in m {
      assert Abs(m) - {c.key.Id()} == Abs(m);
    }
  }

  lemma DeleteLocalSimulates(m: Storage, c: Call)
    requires Sane(m) && c.InRange() && c.DeleteLocal?
    ensures NrCall(m, c).1 == PlainCall(Abs(m), c).1 <==> Agreeing(m, c)
    ensures Abs(NrCall(m, c).0) == PlainCall(Abs(m), c).0
  {
    if c.key.Id() in m {
      ClearSimulates(m, c.key.Id(), c.nid);
    }
  }

  lemma SwitchSimulates(m: Storage, c: Call)
    requires Sane(m) && c.InRange()
    requires c.Get? || c.SwitchToReadOnly? || c.SwitchToRWShared? || c.InvalidateSwitchToRWShared?
    ensures NrCall(m, c).1 == PlainCall(Abs(m), c).1 <==> Agreeing(m, c)
    ensures Abs(NrCall(m, c).0) == PlainCall(Abs(m), c).0
  {
    var id, m' := c.key.Id(), NrCall(m, c).0;
    DecodeNothing();
    if id in m {
      AbsUpdate(m, id, m'[id]);
      DecodeInvalidate(m[id].cn);
    }
  }

  /** From related states, for every call of the interface and every key, the two directories answer the
      same exactly unless the call evicts a valid copy beside a record, succeeds for the null key or is
      one that they report apart; and only such an eviction leaves states that are not related. */
  lemma CallSimulates(m: Storage, c: Call)
    requires Sane(m) && c.InRange()
    ensures NrCall(m, c).1 == PlainCall(Abs(m), c).1 <==> Agreeing(m, c)
    ensures !EvictsValidCopy(m, c) ==> Abs(NrCall(m, c).0) == PlainCall(Abs(m), c).0
  {
    if c.Insert? {
      InsertSimulates(m, c);
    } else if c.CheckAndInsert? && c.key.Id() in m {
      AdmissionSimulates(m, c);
    } else if c.CheckAndInsert? {
      CreationSimulates(m, c);
    } else if c.DeleteIfReadOnly? {
      DeleteSimulates(m, c);
    } else if c.Remove? {
      RemoveSimulates(m, c);
    } else if c.DeleteLocal? {
      DeleteLocalSimulates(m, c);
    } else {
      SwitchSimulates(m, c);
    }
  }

  // ---------------------------------------------------------------- every run

  ghost predicate Legal(calls: seq<Call>) {
    forall c <- calls :: c.InRange()
  }

  ghost function NrRun(m: Storage, calls: seq<Call>): (Storage, seq<Answered>)
    requires Legal(calls)
    decreases |calls|
  {
    if calls == [] then (m, [])
    else
      var (m1, a) := NrCall(m, calls[0]);
      var (m2, rest) := NrRun(m1, calls[1..]);
      (m2, [a] + rest)
  }

  ghost function PlainRun(m: Plain.PlainMap, calls: seq<Call>): (Plain.PlainMap, seq<Answered>)
    requires Legal(calls)
    decreases |calls|
  {
    if calls == [] then (m, [])
    else
      var (m1, a) := PlainCall(m, calls[0]);
      var (m2, rest) := PlainRun(m1, calls[1..]);
      (m2, [a] + rest)
  }

  ghost predicate AgreeingRun(m: Storage, calls: seq<Call>)
    requires Legal(calls)
    decreases |calls|
  {
    calls == [] || (Agreeing(m, calls[0]) && AgreeingRun(NrCall(m, calls[0]).0, calls[1..]))
  }

  /** A run of calls answers the same on both directories exactly when each of its calls does, and then
      it ends in related states. */
  lemma {:induction false} RunSimulates(m: Storage, calls: seq<Call>)
    requires Sane(m) && Legal(calls)
    ensures NrRun(m, calls).1 == PlainRun(Abs(m), calls).1 <==> AgreeingRun(m, calls)
    ensures AgreeingRun(m, calls) ==> Abs(NrRun(m, calls).0) == PlainRun(Abs(m), calls).0
    decreases |calls|
  {
    if calls != [] {
      var (m1, a) := NrCall(m, calls[0]);
      var (p1, b) := PlainCall(Abs(m), calls[0]);
      CallSimulates(m, calls[0]);
      CallKeepsSane(m, calls[0]);
      RunSimulates(m1, calls[1..]);
      FirstAndRest(a, NrRun(m1, calls[1..]).1, b, PlainRun(p1, calls[1..]).1);
    }
  }

  lemma FirstAndRest<T>(a: T, s: seq<T>, b: T, r: seq<T>)
    ensures [a] + s == [b] + r <==> a == b && s == r
  {
    if [a] + s == [b] + r {
      assert ([a] + s)[0] == a && ([b] + r)[0] == b;
      assert s == ([a] + s)[1..] && r == ([b] + r)[1..];
    }
  }

  // ---------------------------------------------------------------- runs that keep records exclusive

  /** A local copy is admitted to an entry that has a record and no such copy; both directories abort. */
  predicate AdmitsBesideRecord(m: Storage, c: Call)
    requires c.InRange()
  {
    && c.CheckAndInsert? && c.nid != NUMA_MEM && c.key.Id() in m
    && m[c.key.Id()].wmeta != -1 && m[c.key.Id()].cn[c.nid].cnIdx == -1
  }

  /** Records and local copies are kept apart by the caller: no record is attached beside a valid local
      copy, and no local copy is admitted beside a record. */
  ghost predicate DisciplinedCall(m: Storage, c: Call) {
    c.InRange() && (!c.Get? ==> KeepsExclusive(m, c.Op())) && !AdmitsBesideRecord(m, c)
  }

  ghost predicate DisciplinedCalls(m: Storage, calls: seq<Call>)
    decreases |calls|
  {
    calls == [] || (DisciplinedCall(m, calls[0]) && DisciplinedCalls(NrCall(m, calls[0]).0, calls[1..]))
  }

  /** From a safe directory only such an admission aborts. */
  lemma AbortsExactly(m: Storage, c: Call)
    requires Safe(m) && c.InRange()
    ensures NrCall(m, c).1 == Aborted <==> AdmitsBesideRecord(m, c)
    ensures !EvictsValidCopy(m, c)
  {
    if c.key.Id() in m {
      assert Exclusive(m[c.key.Id()]) && EntryOk(m[c.key.Id()]);
    }
  }

  lemma CallKeepsSafe(m: Storage, c: Call)
    requires Safe(m) && DisciplinedCall(m, c)
    ensures Safe(NrCall(m, c).0) && NrCall(m, c).1 != Aborted
  {
    AbortsExactly(m, c);
    CallKeepsSane(m, c);
    if !c.Get? {
      StepKeepsCopies(m, c.Op());
      KeepsExclusiveExactly(m, c.Op());
    }
  }

  lemma {:induction false} SafeRunRelated(m: Storage, calls: seq<Call>)
    requires Safe(m) && DisciplinedCalls(m, calls)
    ensures Legal(calls) && Aborted !in NrRun(m, calls).1
    ensures Abs(NrRun(m, calls).0) == PlainRun(Abs(m), calls).0
    decreases |calls|
  {
    if calls != [] {
      AbortsExactly(m, calls[0]);
      CallKeepsSafe(m, calls[0]);
      CallSimulates(m, calls[0]);
      SafeRunRelated(NrCall(m, calls[0]).0, calls[1..]);
      assert forall c <- calls :: c == calls[0] || c in calls[1..];
    }
  }

  /** From the empty directory, a run that keeps records and local copies apart never aborts and leaves
      the two directories related, and they give the same answers exactly when no call is misread or
      reported apart. */
  lemma DisciplinedRunSimulates(calls: seq<Call>)
    requires DisciplinedCalls(map[], calls)
    ensures Legal(calls) && Aborted !in NrRun(map[], calls).1
    ensures Abs(NrRun(map[], calls).0) == PlainRun(map[], calls).0
    ensures NrRun(map[], calls).1 == PlainRun(map[], calls).1 <==> AgreeingRun(map[], calls)
  {
    SafeRunRelated(map[], calls);
    RunSimulates(map[], calls);
    assert Abs(map[]) == map[];
  }

  // ---------------------------------------------------------------- where the two differ

  /** Detaching returns exactly the record the entry had. */
  lemma DetachReturnsRecord(m: Storage, key: BlockId)
    requires Sane(m)
    ensures DecodeDetach(Apply(m, CheckSwitchWmetaArray(key, -1)).reply.resp) == Plain.Get(Abs(m), key.Id()).wmeta
  {
  }

  /** A run of two calls answers differently if its second call, after the first, does. */
  lemma SecondDiffers(first: Call, second: Call)
    requires first.InRange() && second.InRange() && !Agreeing(NrCall(map[], first).0, second)
    ensures Legal([first, second]) && NrRun(map[], [first, second]).1 != PlainRun(map[], [first, second]).1
  {
    var calls, m := [first, second], NrCall(map[], first).0;
    assert calls[1..] == [second];
    assert !AgreeingRun(m, [second]);
    RunSimulates(map[], calls);
    assert Abs(map[]) == map[];
  }

  /** Runs from the empty directory that are answered differently: a local copy is admitted twice; */
  lemma AdmissionDiffers(key: BlockId, cn: nat, nid: nat)
    requires NUMA_MEM < nid < SLOTS
    ensures var c := CheckAndInsert(key, cn, nid, None);
      Legal([c, c]) && NrRun(map[], [c, c]).1 != PlainRun(map[], [c, c]).1
  {
    SecondDiffers(CheckAndInsert(key, cn, nid, None), CheckAndInsert(key, cn, nid, None));
  }

  /** a key is inserted and removed; */
  lemma DeleteDiffers(key: BlockId, cn: nat, nid: nat)
    requires nid < SLOTS
    ensures var calls := [Insert(key, cn, nid), Remove(key)];
      Legal(calls) && NrRun(map[], calls).1 != PlainRun(map[], calls).1
  {
    SecondDiffers(Insert(key, cn, nid), Remove(key));
  }

  /** a copy is cleared where there never was one; */
  lemma DeleteLocalDiffers(key: BlockId, cn: nat, nid: nat, other: nat)
    requires nid < SLOTS && other < SLOTS && nid != other
    ensures var calls := [Insert(key, cn, nid), DeleteLocal(key, other)];
      Legal(calls) && NrRun(map[], calls).1 != PlainRun(map[], calls).1
  {
    assert NrCall(map[], Insert(key, cn, nid)).0[key.Id()].cn[nid].cnIdx != -1;
    SecondDiffers(Insert(key, cn, nid), DeleteLocal(key, other));
  }

  /** a record is attached to a key that was created with one; */
  lemma AttachDiffers(key: BlockId, cn: nat, rec: nat, other: nat)
    ensures var calls := [CheckAndInsert(key, cn, NUMA_MEM, Some(rec)), SwitchToRWShared(key, other)];
      Legal(calls) && NrRun(map[], calls).1 != PlainRun(map[], calls).1
  {
    SecondDiffers(CheckAndInsert(key, cn, NUMA_MEM, Some(rec)), SwitchToRWShared(key, other));
  }

  /** the null key is admitted; */
  lemma NullKeyDiffers(cn: nat)
    ensures var c := CheckAndInsert(NULL_KEY, cn, NUMA_MEM, None); NrCall(map[], c).1 != PlainCall(map[], c).1
  {
    CallSimulates(map[], CheckAndInsert(NULL_KEY, cn, NUMA_MEM, None));
    assert Abs(map[]) == map[];
  }

  /** a copy is inserted, a record is attached beside it by an admission, and the copy is evicted, which
      aborts on the replicated directory only. */
  lemma EvictionDiffers(key: BlockId, cn: nat, nid: nat, rec: nat)
    requires NUMA_MEM < nid < SLOTS
    ensures var calls :=
        [Insert(key, cn, nid), CheckAndInsert(key, cn, NUMA_MEM, Some(rec)), DeleteIfReadOnly(key, nid)];
      Legal(calls) && NrRun(map[], calls).1 != PlainRun(map[], calls).1
  {
    var c1, c2, c3 := Insert(key, cn, nid), CheckAndInsert(key, cn, NUMA_MEM, Some(rec)), DeleteIfReadOnly(key, nid);
    var calls := [c1, c2, c3];
    assert calls[1..] == [c2, c3] && [c2, c3][1..] == [c3];
    var m1 := NrCall(map[], c1).0;
    var m2 := NrCall(m1, c2).0;
    assert EvictsValidCopy(m2, c3);
    assert !AgreeingRun(m2, [c3]) && !AgreeingRun(m1, [c2, c3]);
    RunSimulates(map[], calls);
    assert Abs(map[]) == map[];
  }
}
