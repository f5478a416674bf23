/** What every run of directory operations keeps, whatever their order. */
module NrInvariants {
  import opened Common
  import opened NrDirectory

  /** The map after a run; an operation that panics changes nothing. */
  ghost function After(m: Storage, ops: seq<Modify>): Storage
    requires forall op <- ops :: op.InRange()
  {
    if ops == [] then m else Apply(After(m, ops[..|ops| - 1]), ops[|ops| - 1]).storage
  }

  /** Stored indices are sentinels or real ones. */
  ghost predicate SaneEntry(e: Entry) {
    e.wmeta >= -1 && forall i :: 0 <= i < SLOTS ==> e.cn[i].cnIdx >= -1
  }

  ghost predicate Sane(m: Storage) {
    forall id <- m :: SaneEntry(m[id])
  }

  /** The operation stores indices of these kinds only. */
  predicate SaneOp(op: Modify) {
    && (StoresCopy(op) ==> op.cn >= -1)
    && (op.PutArrayWmeta? || op.CheckPutArrayWmeta? || op.CheckSwitchWmetaArray? || op.InvalidateExceptArrayUpdateWmeta?
        ==> op.wmeta >= -1)
  }

  lemma PutKeepsSane(m: Storage, op: Modify)
    requires op.InRange() && SaneOp(op) && StoresCopy(op) && (op.key.Id() in m ==> SaneEntry(m[op.key.Id()]))
    ensures op.key.Id() in Apply(m, op).storage ==> SaneEntry(Apply(m, op).storage[op.key.Id()])
  {
  }

  lemma OtherKeepsSane(m: Storage, op: Modify)
    requires op.InRange() && SaneOp(op) && !StoresCopy(op) && (op.key.Id() in m ==> SaneEntry(m[op.key.Id()]))
    ensures op.key.Id() in Apply(m, op).storage ==> SaneEntry(Apply(m, op).storage[op.key.Id()])
  {
  }

  lemma StepKeepsSane(m: Storage, op: Modify)
    requires Sane(m) && op.InRange() && SaneOp(op)
    ensures Sane(Apply(m, op).storage)
  {
    if StoresCopy(op) {
      PutKeepsSane(m, op);
    } else {
      OtherKeepsSane(m, op);
    }
    forall id | id in Apply(m, op).storage && id != op.key.Id()
      ensures SaneEntry(Apply(m, op).storage[id])
    {
      OthersUntouched(m, op, id);
    }
  }

  // ---------------------------------------------------------------- copies

  /** An invalidated copy is a present one, and a stored entry has a present copy. */
  ghost predicate EntryOk(e: Entry) {
    && (forall i :: 0 <= i < SLOTS ==> e.cn[i].invalidate ==> e.cn[i].cnIdx != -1)
    && !NoCopy(e.cn)
  }

  ghost predicate CopiesOk(m: Storage) {
    forall id <- m :: EntryOk(m[id])
  }

  /** Operations that store a copy store a real index, never the "none" value. */
  predicate RealCopy(op: Modify) {
    StoresCopy(op) ==> op.cn != -1
  }

  predicate StoresCopy(op: Modify) {
    op.PutArray? || op.CheckPutArray? || op.PutArrayWmeta? || op.CheckPutArrayWmeta? || op.CheckPutSwapArray?
  }

  /** Unless it panics, a put leaves a present copy at its index: its own, or the one it found. */
  lemma PutLeavesCopy(m: Storage, op: Modify)
    requires CopiesOk(m) && op.InRange() && StoresCopy(op) && RealCopy(op) && Apply(m, op).storage != m
    ensures op.key.Id() in Apply(m, op).storage
    ensures Apply(m, op).storage[op.key.Id()].cn[op.idx].cnIdx != -1
  {
  }

  /** Only the operation's own entry changes. */
  lemma OthersUntouched(m: Storage, op: Modify, id: Ident)
    requires op.InRange() && id != op.key.Id()
    ensures id in Apply(m, op).storage <==> id in m
    ensures id in m ==> Apply(m, op).storage[id] == m[id]
  {
  }

  lemma PutKeepsFlags(m: Storage, op: Modify, i: nat)
    requires CopiesOk(m) && op.InRange() && StoresCopy(op) && RealCopy(op)
    requires op.key.Id() in Apply(m, op).storage && i < SLOTS
    ensures var s := Apply(m, op).storage[op.key.Id()].cn[i]; s.invalidate ==> s.cnIdx != -1
  {
    assert op.key.Id() in m ==> EntryOk(m[op.key.Id()]);
  }

  lemma OtherKeepsFlags(m: Storage, op: Modify, i: nat)
    requires CopiesOk(m) && op.InRange() && !StoresCopy(op)
    requires op.key.Id() in Apply(m, op).storage && i < SLOTS
    ensures var s := Apply(m, op).storage[op.key.Id()].cn[i]; s.invalidate ==> s.cnIdx != -1
  {
    assert op.key.Id() in m ==> EntryOk(m[op.key.Id()]);
  }

  /** Other operations keep an entry only with a copy in it. */
  lemma OthersLeaveCopy(m: Storage, op: Modify, id: Ident)
    requires CopiesOk(m) && op.InRange() && !StoresCopy(op) && id in Apply(m, op).storage
    ensures !NoCopy(Apply(m, op).storage[id].cn)
  {
    var i :| 0 <= i < SLOTS && m[id].cn[i].cnIdx != -1;
    if !op.DeleteArray? && !op.DeleteIfArray? {
      assert Apply(m, op).storage[id].cn[i].cnIdx != -1;
    }
  }

  lemma StepKeepsCopies(m: Storage, op: Modify)
    requires CopiesOk(m) && op.InRange() && RealCopy(op)
    ensures CopiesOk(Apply(m, op).storage)
    ensures Apply(m, op).reply != Panic(PutIntoInvalidated)
  {
    var m', id := Apply(m, op).storage, op.key.Id();
    forall other <- m'
      ensures EntryOk(m'[other])
    {
      if other != id {
        OthersUntouched(m, op, other);
      } else if m' != m {
        forall i | 0 <= i < SLOTS
          ensures m'[id].cn[i].invalidate ==> m'[id].cn[i].cnIdx != -1
        {
          if StoresCopy(op) {
            PutKeepsFlags(m, op, i);
          } else {
            OtherKeepsFlags(m, op, i);
          }
        }
        if StoresCopy(op) {
          PutLeavesCopy(m, op);
        } else {
          OthersLeaveCopy(m, op, id);
        }
      }
    }
  }

  lemma {:induction false} RunKeepsCopies(m: Storage, ops: seq<Modify>)
    requires CopiesOk(m) && forall op <- ops :: op.InRange() && RealCopy(op)
    ensures CopiesOk(After(m, ops))
  {
    if ops != [] {
      RunKeepsCopies(m, ops[..|ops| - 1]);
      StepKeepsCopies(After(m, ops[..|ops| - 1]), ops[|ops| - 1]);
    }
  }

  /** From an empty directory the "put into an invalidated entry" panic is unreachable. */
  lemma NeverPutsIntoInvalidated(ops: seq<Modify>, op: Modify)
    requires (forall o <- ops :: o.InRange() && RealCopy(o)) && op.InRange() && RealCopy(op)
    ensures CopiesOk(After(map[], ops))
    ensures Apply(After(map[], ops), op).reply != Panic(PutIntoInvalidated)
  {
    RunKeepsCopies(map[], ops);
    StepKeepsCopies(After(map[], ops), op);
  }

  // ---------------------------------------------------------------- what single operations do

  predicate ValidCopy(s: CNStatus) {
    s.cnIdx != -1 && !s.invalidate
  }

  ghost predicate SameCopyAt(m: Storage, m': Storage, id: Ident, i: nat)
    requires i < SLOTS
  {
    id in m' && m'[id].cn[i] == if id in m then m[id].cn[i] else NULL_STATUS
  }

  /** A put stores a valid copy at its index, keeps the others, and leaves the record it says. */
  lemma PutMeans(m: Storage, op: Modify, i: nat)
    requires op.InRange() && (op.PutArray? || op.PutArrayWmeta?) && i < SLOTS
    ensures var m', id := Apply(m, op).storage, op.key.Id();
      && id in m' && m'[id].cn[op.idx] == CNStatus(op.cn, false)
      && (i != op.idx ==> SameCopyAt(m, m', id, i))
      && m'[id].wmeta == if op.PutArrayWmeta? then op.wmeta else if id in m then m[id].wmeta else -1
  {
  }

  /** A checked put does so where no copy is present, and otherwise changes nothing and answers nothing. */
  lemma CheckPutMeans(m: Storage, key: BlockId, cn: int, idx: nat)
    requires idx < SLOTS
    ensures var r, id := Apply(m, CheckPutArray(key, cn, idx)), key.Id();
      if id in m && m[id].cn[idx].cnIdx != -1 then r == Result(m, Answer(None))
      else r.storage == Apply(m, PutArray(key, cn, idx)).storage && r.reply.Answer? && r.reply.resp.Some?
  {
  }

  /** A swap clears one copy of an entry that exists and then puts its own if its place is empty. */
  lemma SwapMeans(m: Storage, key: BlockId, cn: int, idx: nat, from: nat, i: nat)
    requires idx < SLOTS && from < SLOTS && i < SLOTS
    ensures var m', id := Apply(m, CheckPutSwapArray(key, cn, idx, from)).storage, key.Id();
      && id in m' && m'[id].wmeta == (if id in m then m[id].wmeta else -1)
      && (i == idx && (id !in m || i == from || m[id].cn[i].cnIdx == -1) ==> m'[id].cn[i] == CNStatus(cn, false))
      && (i == idx && id in m && i != from && m[id].cn[i].cnIdx != -1 ==> SameCopyAt(m, m', id, i))
      && (i != idx && i == from ==> m'[id].cn[i] == NULL_STATUS)
      && (i != idx && i != from ==> SameCopyAt(m, m', id, i))
  {
  }

  /** Invalidation leaves every copy where it is and takes the validity of exactly the ones it names. */
  lemma InvalidationMeans(m: Storage, op: Modify, i: nat)
    requires op.InRange() && i < SLOTS && op.key.Id() in m
    requires op.InvalidateArray? || op.InvalidateExceptArray? || op.InvalidateExceptArrayUpdateWmeta?
    ensures var m', id := Apply(m, op).storage, op.key.Id();
      && id in m' && m'[id].cn[i].cnIdx == m[id].cn[i].cnIdx
      && (if op.InvalidateArray? <==> i == op.idx then !ValidCopy(m'[id].cn[i]) else m'[id].cn[i] == m[id].cn[i])
      && (!op.InvalidateExceptArrayUpdateWmeta? || m[id].wmeta != -1 ==> m'[id].wmeta == m[id].wmeta)
  {
  }

  /** Puts, attachments, switches and lookups answer under the caller's key with the entry as it now is. */
  predicate AnswersEntry(op: Modify) {
    match op
    case CheckSwitchWmetaArray(_, wmeta) => wmeta != -1
    case DeleteArray(_, _) => false
    case DeleteIfArray(_, _) => false
    case Delete(_) => false
    case _ => true
  }

  /** What an answer tells: the entry as it now is; the copy that was cleared; the record that was detached
      or removed. An admission that only updates the record tells the entry under the null key. */
  lemma AnswersMean(m: Storage, op: Modify)
    requires op.InRange() && op.key != NULL_KEY && Apply(m, op).reply.Answer? && Apply(m, op).reply.resp.Some?
    ensures var m', id, r := Apply(m, op).storage, op.key.Id(), Apply(m, op).reply.resp.value;
      && (r.key == op.key || r.key == NULL_KEY)
      && (AnswersEntry(op) && (r.key == op.key || op.CheckPutArrayWmeta?) ==> id in m' && r.value == m'[id])
      && (!AnswersEntry(op) ==> id in m)
      && ((op.DeleteArray? || op.DeleteIfArray?) && r.key == op.key ==>
            r.value.cn[NUMA_MEM].cnIdx == m[id].cn[op.idx].cnIdx && (id in m' ==> m'[id].cn[op.idx] == NULL_STATUS))
      && (op.Delete? || (op.CheckSwitchWmetaArray? && op.wmeta == -1) ==> r.value.wmeta == m[id].wmeta)
  {
  }

  // ---------------------------------------------------------------- records

  /** While an entry has a record, no node-local copy is both present and valid. */
  ghost predicate Exclusive(e: Entry) {
    e.wmeta != -1 ==> forall i :: NUMA_MEM < i < SLOTS ==> !ValidCopy(e.cn[i])
  }

  ghost predicate RecordsExclusive(m: Storage) {
    forall id <- m :: Exclusive(m[id])
  }

  ghost predicate NoValidLocal(m: Storage, id: Ident) {
    id in m ==> forall i :: NUMA_MEM < i < SLOTS ==> !ValidCopy(m[id].cn[i])
  }

  /** The entry has no valid local copy but, perhaps, the one at idx. */
  ghost predicate NoOtherValidLocal(m: Storage, id: Ident, idx: nat) {
    id in m ==> forall i :: NUMA_MEM < i < SLOTS && i != idx ==> !ValidCopy(m[id].cn[i])
  }

  /** Storing this copy adds no valid local copy beside a record. */
  predicate StoresBesideNoRecord(m: Storage, id: Ident, cn: int, idx: nat) {
    id !in m || m[id].wmeta == -1 || idx == NUMA_MEM || cn == -1
  }

  /** What a caller checks so that the operation leaves no valid local copy beside a record: a record is
      attached only where there is no valid local copy, or together with the invalidation of all, and a
      local copy is stored only where there is no record. */
  ghost predicate KeepsExclusive(m: Storage, op: Modify)
    requires op.InRange()
  {
    var id := op.key.Id();
    match op
    case PutArray(_, cn, idx) => StoresBesideNoRecord(m, id, cn, idx)
    case CheckPutArray(_, cn, idx) => StoresBesideNoRecord(m, id, cn, idx) || m[id].cn[idx].cnIdx != -1
    case CheckPutSwapArray(_, cn, idx, o) =>
      StoresBesideNoRecord(m, id, cn, idx) || (idx != o && m[id].cn[idx].cnIdx != -1)
    case PutArrayWmeta(_, cn, idx, wmeta) =>
      wmeta == -1 || ((idx == NUMA_MEM || cn == -1) && NoOtherValidLocal(m, id, idx))
    case CheckPutArrayWmeta(_, _, idx, wmeta) => wmeta == -1 || idx != NUMA_MEM || NoValidLocal(m, id)
    case CheckSwitchWmetaArray(_, wmeta) => wmeta == -1 || NoValidLocal(m, id)
    case InvalidateExceptArrayUpdateWmeta(_, idx, wmeta) =>
      id !in m || wmeta == -1 || idx == NUMA_MEM || !ValidCopy(m[id].cn[idx])
    case _ => true
  }

  ghost predicate ExclusiveAt(m: Storage, id: Ident) {
    id in m ==> Exclusive(m[id])
  }

  /** An operation can break the property at its own entry only. */
  lemma ExclusiveElsewhere(m: Storage, op: Modify)
    requires RecordsExclusive(m) && op.InRange()
    ensures RecordsExclusive(Apply(m, op).storage) <==> ExclusiveAt(Apply(m, op).storage, op.key.Id())
  {
    forall other | other in Apply(m, op).storage && other != op.key.Id()
      ensures Exclusive(Apply(m, op).storage[other])
    {
      OthersUntouched(m, op, other);
    }
  }

  predicate PlainPut(op: Modify) {
    op.PutArray? || op.CheckPutArray? || op.CheckPutSwapArray?
  }

  predicate Attaches(op: Modify) {
    op.PutArrayWmeta? || op.CheckPutArrayWmeta? || op.CheckSwitchWmetaArray? || op.InvalidateExceptArrayUpdateWmeta?
  }

  lemma PutExclusiveExactly(m: Storage, op: Modify)
    requires ExclusiveAt(m, op.key.Id()) && op.InRange() && PlainPut(op)
    ensures ExclusiveAt(Apply(m, op).storage, op.key.Id()) <==> KeepsExclusive(m, op)
  {
    var m', id := Apply(m, op).storage, op.key.Id();
    assert id in m';
    var kept := m'[id].cn[op.idx];
    assert ValidCopy(kept) ==> kept == CNStatus(op.cn, false) || (id in m && kept == m[id].cn[op.idx]);
    assert id in m ==>
        forall i :: NUMA_MEM < i < SLOTS && i != op.idx && ValidCopy(m'[id].cn[i]) ==> ValidCopy(m[id].cn[i]);
  }

  lemma AttachExclusiveExactly(m: Storage, op: Modify)
    requires ExclusiveAt(m, op.key.Id()) && op.InRange() && Attaches(op)
    ensures KeepsExclusive(m, op) ==> ExclusiveAt(Apply(m, op).storage, op.key.Id())
    ensures CopiesOk(m) && ExclusiveAt(Apply(m, op).storage, op.key.Id()) ==> KeepsExclusive(m, op)
  {
    var m', id := Apply(m, op).storage, op.key.Id();
    var idx := if op.CheckSwitchWmetaArray? then NUMA_MEM else op.idx;
    assert CopiesOk(m) && id in m ==> EntryOk(m[id]);
    if id in m' {
      assert op.PutArrayWmeta? ==> m'[id].cn[idx] == CNStatus(op.cn, false);
      assert op.InvalidateExceptArrayUpdateWmeta? ==> m'[id].cn[idx] == m[id].cn[idx];
      assert id in m && !op.InvalidateExceptArrayUpdateWmeta? ==>
          forall i :: NUMA_MEM < i < SLOTS && i != idx ==> m'[id].cn[i] == m[id].cn[i];
    }
  }

  /** The check suffices in every directory, and where copies are in order these are exactly the
      operations that keep the property. */
  lemma KeepsExclusiveExactly(m: Storage, op: Modify)
    requires RecordsExclusive(m) && op.InRange()
    ensures KeepsExclusive(m, op) ==> RecordsExclusive(Apply(m, op).storage)
    ensures CopiesOk(m) ==> (RecordsExclusive(Apply(m, op).storage) <==> KeepsExclusive(m, op))
  {
    ExclusiveElsewhere(m, op);
    if PlainPut(op) {
      PutExclusiveExactly(m, op);
    } else if Attaches(op) {
      AttachExclusiveExactly(m, op);
    }
  }

  ghost predicate KeepsExclusiveAt(m: Storage, ops: seq<Modify>, i: nat)
    requires (forall op <- ops :: op.InRange()) && i < |ops|
  {
    KeepsExclusive(After(m, ops[..i]), ops[i])
  }

  /** Every operation of the run passes the check. */
  ghost predicate KeepsExclusiveAlong(m: Storage, ops: seq<Modify>) {
    && (forall op <- ops :: op.InRange())
    && forall i :: 0 <= i < |ops| ==> KeepsExclusiveAt(m, ops, i)
  }

  lemma KeepsExclusiveEarlier(m: Storage, ops: seq<Modify>, n: nat)
    requires (forall op <- ops :: op.InRange()) && n <= |ops|
    ensures KeepsExclusiveAlong(m, ops[..n]) <==> forall i :: 0 <= i < n ==> KeepsExclusiveAt(m, ops, i)
  {
    forall i | 0 <= i < n
      ensures KeepsExclusiveAt(m, ops[..n], i) == KeepsExclusiveAt(m, ops, i)
    {
      assert ops[..n][..i] == ops[..i];
    }
  }

  lemma {:induction false} RunKeepsExclusive(m: Storage, ops: seq<Modify>)
    requires RecordsExclusive(m) && KeepsExclusiveAlong(m, ops)
    ensures RecordsExclusive(After(m, ops))
  {
    if ops != [] {
      var n := |ops| - 1;
      KeepsExclusiveEarlier(m, ops, n);
      RunKeepsExclusive(m, ops[..n]);
      assert KeepsExclusiveAt(m, ops, n);
      KeepsExclusiveExactly(After(m, ops[..n]), ops[n]);
    }
  }

  ghost predicate ExclusiveThroughout(m: Storage, ops: seq<Modify>)
    requires forall op <- ops :: op.InRange()
  {
    forall n :: 0 <= n <= |ops| ==> RecordsExclusive(After(m, ops[..n]))
  }

  /** Over a whole run: no state has a valid local copy beside a record exactly when every operation
      passes the check. */
  lemma RunExclusiveExactly(m: Storage, ops: seq<Modify>)
    requires CopiesOk(m) && RecordsExclusive(m) && forall op <- ops :: op.InRange() && RealCopy(op)
    ensures ExclusiveThroughout(m, ops) <==> KeepsExclusiveAlong(m, ops)
  {
    if KeepsExclusiveAlong(m, ops) {
      forall n | 0 <= n <= |ops|
        ensures RecordsExclusive(After(m, ops[..n]))
      {
        KeepsExclusiveEarlier(m, ops, n);
        RunKeepsExclusive(m, ops[..n]);
      }
    } else {
      var i :| 0 <= i < |ops| && !KeepsExclusiveAt(m, ops, i);
      RunKeepsCopies(m, ops[..i]);
      if RecordsExclusive(After(m, ops[..i])) {
        KeepsExclusiveExactly(After(m, ops[..i]), ops[i]);
        assert ops[..i + 1][..i] == ops[..i];
        assert !RecordsExclusive(After(m, ops[..i + 1]));
      }
    }
  }

  /** In such a run from the empty directory no local copy is valid beside a record, and an eviction never
      meets one. */
  lemma NoValidCopyBesideRecord(ops: seq<Modify>, op: Modify, id: Ident, i: nat)
    requires KeepsExclusiveAlong(map[], ops) && op.InRange()
    ensures Apply(After(map[], ops), op).reply != Panic(ValidReplicaWhileShared)
    ensures id in After(map[], ops) && After(map[], ops)[id].wmeta != -1 && NUMA_MEM < i < SLOTS ==>
              !ValidCopy(After(map[], ops)[id].cn[i])
  {
    RunKeepsExclusive(map[], ops);
  }

  lemma AfterOne(op: Modify)
    requires op.InRange()
    ensures After(map[], [op]) == Apply(map[], op).storage
  {
    assert [op][..0] == [];
  }

  lemma AfterTwo(first: Modify, second: Modify)
    requires first.InRange() && second.InRange()
    ensures After(map[], [first, second]) == Apply(Apply(map[], first).storage, second).storage
  {
    assert [first, second][..1] == [first];
    AfterOne(first);
  }

  /** Three runs from the empty directory that break it: a local copy is admitted, then a CXL copy with a
      record; */
  lemma LateAttachBreaks(key: BlockId, copy: int, node: nat, cxl: int, wmeta: int)
    requires copy != -1 && cxl != -1 && wmeta != -1 && NUMA_MEM < node < SLOTS
    ensures !RecordsExclusive(After(map[], [CheckPutArrayWmeta(key, copy, node, -1),
                                            CheckPutArrayWmeta(key, cxl, NUMA_MEM, wmeta)]))
  {
    var first, second := CheckPutArrayWmeta(key, copy, node, -1), CheckPutArrayWmeta(key, cxl, NUMA_MEM, wmeta);
    AfterTwo(first, second);
    assert ValidCopy(Apply(Apply(map[], first).storage, second).storage[key.Id()].cn[node]);
  }

  /** a key is created by a local copy that comes with a record; */
  lemma CreationBreaks(key: BlockId, copy: int, node: nat, wmeta: int)
    requires copy != -1 && wmeta != -1 && NUMA_MEM < node < SLOTS
    ensures !RecordsExclusive(After(map[], [PutArrayWmeta(key, copy, node, wmeta)]))
  {
    var op := PutArrayWmeta(key, copy, node, wmeta);
    AfterOne(op);
    assert ValidCopy(Apply(map[], op).storage[key.Id()].cn[node]);
  }

  /** a key is created with a record, and a local copy is swapped in. */
  lemma SwapBreaks(key: BlockId, cxl: int, node: nat, copy: int, wmeta: int)
    requires copy != -1 && cxl != -1 && wmeta != -1 && NUMA_MEM < node < SLOTS
    ensures !RecordsExclusive(After(map[], [CheckPutArrayWmeta(key, cxl, NUMA_MEM, wmeta),
                                            CheckPutSwapArray(key, copy, node, node)]))
  {
    var first, second := CheckPutArrayWmeta(key, cxl, NUMA_MEM, wmeta), CheckPutSwapArray(key, copy, node, node);
    AfterTwo(first, second);
    assert ValidCopy(Apply(Apply(map[], first).storage, second).storage[key.Id()].cn[node]);
  }

  /** What runs whose operations pass the checks keep. */
  ghost predicate Safe(m: Storage) {
    Sane(m) && CopiesOk(m) && RecordsExclusive(m)
  }

  // ---------------------------------------------------------------- competing switches

  /** Another copy than the one at idx is present. */
  predicate AnotherCopy(cn: Copies, idx: nat) {
    exists i :: 0 <= i < SLOTS && i != idx && cn[i].cnIdx != -1
  }

  predicate Holds(m: Storage, id: Ident, wmeta: int) {
    id in m && m[id].wmeta == wmeta
  }

  /** The operation does not detach or replace the record of `id`: not by a detach, not by a put or an
      admission that stores another record, and not by removing the entry or its last copy. */
  predicate KeepsRecord(m: Storage, op: Modify, id: Ident)
    requires op.InRange() && id in m
  {
    op.key.Id() == id ==>
      var e := m[id];
      match op
      case CheckSwitchWmetaArray(_, wmeta) => wmeta != -1
      case PutArrayWmeta(_, _, _, wmeta) => wmeta == e.wmeta
      case CheckPutArrayWmeta(_, _, idx, wmeta) =>
        || idx != NUMA_MEM
        || wmeta == e.wmeta
        || (if e.cn[idx].cnIdx == -1 then e.cn[idx].invalidate else wmeta != -1)
      case DeleteArray(_, idx) => AnotherCopy(e.cn, idx)
      case DeleteIfArray(_, idx) =>
        idx == NUMA_MEM || e.cn[idx] == NULL_STATUS || !e.cn[idx].invalidate || AnotherCopy(e.cn, idx)
      case Delete(_) => false
      case _ => true
  }

  /** These are exactly the operations after which the record is still there. */
  lemma KeepsRecordExactly(m: Storage, op: Modify, id: Ident, wmeta: int)
    requires Holds(m, id, wmeta) && wmeta != -1 && op.InRange()
    ensures Holds(Apply(m, op).storage, id, wmeta) <==> KeepsRecord(m, op, id)
  {
    if op.DeleteArray? || op.DeleteIfArray? {
      var cn := m[id].cn[op.idx := NULL_STATUS];
      assert NoCopy(cn) <==> !AnotherCopy(m[id].cn, op.idx) by {
        assert forall i :: 0 <= i < SLOTS && i != op.idx ==> cn[i] == m[id].cn[i];
      }
    }
  }

  ghost predicate KeepsRecordAt(m: Storage, ops: seq<Modify>, i: nat, id: Ident)
    requires (forall op <- ops :: op.InRange()) && i < |ops|
  {
    var before := After(m, ops[..i]);
    id in before && KeepsRecord(before, ops[i], id)
  }

  ghost predicate KeepsRecordAlong(m: Storage, ops: seq<Modify>, id: Ident) {
    && (forall op <- ops :: op.InRange())
    && forall i :: 0 <= i < |ops| ==> KeepsRecordAt(m, ops, i, id)
  }

  lemma KeepsRecordEarlier(m: Storage, ops: seq<Modify>, id: Ident, n: nat, i: nat)
    requires (forall op <- ops :: op.InRange()) && i < n <= |ops| && KeepsRecordAt(m, ops, i, id)
    ensures KeepsRecordAt(m, ops[..n], i, id)
  {
    assert ops[..n][..i] == ops[..i];
  }

  lemma {:induction false} RecordStays(m: Storage, ops: seq<Modify>, id: Ident, wmeta: int)
    requires Holds(m, id, wmeta) && wmeta != -1 && KeepsRecordAlong(m, ops, id)
    ensures Holds(After(m, ops), id, wmeta)
  {
    if ops != [] {
      var n := |ops| - 1;
      forall i | 0 <= i < n
        ensures KeepsRecordAt(m, ops[..n], i, id)
      {
        KeepsRecordEarlier(m, ops, id, n, i);
      }
      RecordStays(m, ops[..n], id, wmeta);
      assert KeepsRecordAt(m, ops, n, id);
      KeepsRecordExactly(After(m, ops[..n]), ops[n], id, wmeta);
    }
  }

  /** Of several switches to RW mode with no detach in between exactly the first succeeds: it answers
      with its key, every later one with the null key, and the first record stays. */
  lemma OnlyFirstSwitchSucceeds(m: Storage, first: Modify, between: seq<Modify>, later: Modify)
    requires first.InvalidateExceptArrayUpdateWmeta? && later.InvalidateExceptArrayUpdateWmeta?
    requires first.InRange() && later.InRange() && first.wmeta != -1
    requires first.key.Id() == later.key.Id()
    requires Holds(m, first.key.Id(), -1)
    requires KeepsRecordAlong(Apply(m, first).storage, between, first.key.Id())
    ensures var m1 := Apply(m, first);
            var m2 := After(m1.storage, between);
            && m1.reply.Answer? && m1.reply.resp.Some? && m1.reply.resp.value.key == first.key
            && Apply(m2, later).reply == Answer(Some(Response(NULL_KEY, EMPTY_ENTRY)))
            && Holds(Apply(m2, later).storage, first.key.Id(), first.wmeta)
  {
    RecordStays(Apply(m, first).storage, between, first.key.Id(), first.wmeta);
  }
}
