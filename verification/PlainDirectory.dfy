/** The directory as a plain concurrent map with the same interface (src/index/gcd.cc:80-260). Each
    operation runs under the lock of its map bucket, so it is one atomic change of the map. */
module PlainDirectory {
  import opened Common
  import opened NrDirectory

  datatype Status = Status(cnIdx: Option<nat>, invalidate: bool)

  const ABSENT := Status(None, false)

  function BlankStatus(n: nat): (s: seq<Status>)
    ensures |s| == n && forall i :: 0 <= i < n ==> s[i] == ABSENT
  {
    seq(n, _ => ABSENT)
  }

  type StatusArray = s: seq<Status> | |s| == SLOTS witness BlankStatus(SLOTS)

  const NONE_PRESENT: StatusArray := BlankStatus(SLOTS)

  datatype PlainEntry = PlainEntry(wmeta: Option<nat>, cn: StatusArray)

  const NO_ENTRY := PlainEntry(None, NONE_PRESENT)

  type PlainMap = map<Ident, PlainEntry>

  datatype GcdError = NoError | SlotWmetaUpdateFailed | SlotUpdateFailed | EntryNoExist

  datatype DeleteError = Success | WmetaValid | NoEntry | AlreadyDeleted

  predicate NonePresent(cn: StatusArray) {
    forall i :: 0 <= i < SLOTS ==> cn[i].cnIdx == None
  }

  /** Every present copy but the CXL one is invalidated. */
  function InvalidateLocal(cn: StatusArray): StatusArray {
    seq(SLOTS, (i: int) requires 0 <= i < SLOTS =>
      if cn[i].cnIdx.Some? && i != NUMA_MEM then cn[i].(invalidate := true) else cn[i])
  }

  // ---------------------------------------------------------------- the operations, as functions

  function Get(m: PlainMap, id: Ident): PlainEntry {
    if id in m then m[id] else NO_ENTRY
  }

  function Insert(m: PlainMap, id: Ident, cn: nat, nid: nat): PlainMap
    requires nid < SLOTS
  {
    m[id := PlainEntry(None, Get(m, id).cn[nid := Status(Some(cn), false)])]
  }

  /** None stands for the exception the source throws. */
  function CheckAndInsert(m: PlainMap, id: Ident, cn: nat, nid: nat, wmeta: Option<nat>): (PlainMap, Option<GcdError>)
    requires nid < SLOTS
  {
    var e := Get(m, id);
    if id !in m || (e.cn[nid].cnIdx == None && !e.cn[nid].invalidate && (e.wmeta == None || nid == NUMA_MEM)) then
      (m[id := PlainEntry(if nid == NUMA_MEM then wmeta else e.wmeta, e.cn[nid := Status(Some(cn), false)])],
       Some(NoError))
    else if e.cn[nid].cnIdx == None then (m, None)
    else if nid != NUMA_MEM then (m, Some(NoError))
    else if wmeta == None || e.wmeta == None then (m[id := e.(wmeta := wmeta)], Some(SlotUpdateFailed))
    else (m, Some(SlotWmetaUpdateFailed))
  }

  function DeleteIfReadOnly(m: PlainMap, id: Ident, nid: nat): (PlainMap, DeleteError)
    requires nid < SLOTS
  {
    if id !in m then (m, NoEntry)
    else if nid == NUMA_MEM && m[id].wmeta.Some? then (m, WmetaValid)
    else if m[id].cn[nid] == ABSENT then (m, AlreadyDeleted)
    else
      var e := m[id].(cn := m[id].cn[nid := ABSENT]);
      (if NonePresent(e.cn) then m - {id} else m[id := e], Success)
  }

  function SwitchToReadOnly(m: PlainMap, id: Ident): PlainMap {
    if id in m then m[id := m[id].(wmeta := None)] else m
  }

  function InvalidateSwitchToRWShared(m: PlainMap, id: Ident, wmeta: nat): (PlainMap, GcdError) {
    if id !in m then (m, EntryNoExist)
    else
      var e := m[id].(cn := InvalidateLocal(m[id].cn));
      if e.wmeta == None then (m[id := e.(wmeta := Some(wmeta))], NoError)
      else (m[id := e], SlotWmetaUpdateFailed)
  }

  /** Clears the copy at nid; answers whether the entry was erased, which is when no copy is left. */
  function DeleteLocal(m: PlainMap, id: Ident, nid: nat): (PlainMap, bool)
    requires nid < SLOTS
  {
    if id !in m then (m, false)
    else
      var e := m[id].(cn := m[id].cn[nid := ABSENT]);
      if NonePresent(e.cn) then (m - {id}, true) else (m[id := e], false)
  }

  /** Attaches the record if there is none; answers whether the entry exists. */
  function SwitchToRWShared(m: PlainMap, id: Ident, wmeta: nat): (PlainMap, bool) {
    if id !in m then (m, false)
    else (if m[id].wmeta == None then m[id := m[id].(wmeta := Some(wmeta))] else m, true)
  }

  /** The record of the removed entry, if there was an entry and it had one. */
  function DeletedRecord(m: PlainMap, id: Ident): Option<int> {
    if id in m && m[id].wmeta.Some? then Some(m[id].wmeta.value) else None
  }

  // ---------------------------------------------------------------- what the operations keep

  predicate ValidLocal(e: PlainEntry, i: nat)
    requires i < SLOTS
  {
    i != NUMA_MEM && e.cn[i].cnIdx.Some? && !e.cn[i].invalidate
  }

  ghost predicate NoValidLocal(e: PlainEntry) {
    forall i :: 0 <= i < SLOTS ==> !ValidLocal(e, i)
  }

  /** An invalidated copy is a present one, an entry has a present copy, and an entry with a record has
      no valid local copy. */
  ghost predicate EntryOk(e: PlainEntry) {
    && (forall i :: 0 <= i < SLOTS ==> e.cn[i].invalidate ==> e.cn[i].cnIdx.Some?)
    && !NonePresent(e.cn)
    && (e.wmeta.Some? ==> NoValidLocal(e))
  }

  ghost predicate EntriesOk(m: PlainMap) {
    forall id <- m :: EntryOk(m[id])
  }

  lemma SwitchKeepsEntries(m: PlainMap, id: Ident, wmeta: nat)
    requires EntriesOk(m)
    ensures EntriesOk(InvalidateSwitchToRWShared(m, id, wmeta).0)
  {
    if id in m {
      var i :| 0 <= i < SLOTS && m[id].cn[i].cnIdx.Some?;
      assert InvalidateLocal(m[id].cn)[i].cnIdx.Some?;
    }
  }

  lemma DeleteKeepsEntries(m: PlainMap, id: Ident, nid: nat)
    requires EntriesOk(m) && nid < SLOTS
    ensures EntriesOk(DeleteIfReadOnly(m, id, nid).0)
  {
    if id in m {
      var e := m[id].(cn := m[id].cn[nid := ABSENT]);
      assert EntryOk(m[id]);
      assert forall i :: 0 <= i < SLOTS ==> e.cn[i] == if i == nid then ABSENT else m[id].cn[i];
      assert forall i :: 0 <= i < SLOTS ==> ValidLocal(e, i) ==> ValidLocal(m[id], i);
      assert EntryOk(e) || NonePresent(e.cn);
    }
  }

  /** Admission keeps the invariant exactly unless it is one of a CXL copy that brings a record to an
      entry with a valid local copy. */
  lemma AdmissionKeepsEntriesExactly(m: PlainMap, id: Ident, cn: nat, nid: nat, wmeta: Option<nat>)
    requires EntriesOk(m) && nid < SLOTS
    ensures EntriesOk(CheckAndInsert(m, id, cn, nid, wmeta).0) <==>
              wmeta.None? || nid != NUMA_MEM || id !in m || NoValidLocal(m[id])
  {
    var m' := CheckAndInsert(m, id, cn, nid, wmeta).0;
    if m' != m {
      assert m'[id].cn[nid].cnIdx.Some?;
      if id in m {
        assert EntryOk(m[id]);
        assert forall i :: 0 <= i < SLOTS && i != nid ==> m'[id].cn[i] == m[id].cn[i];
        assert forall i :: 0 <= i < SLOTS && i != nid ==> ValidLocal(m'[id], i) == ValidLocal(m[id], i);
      }
    }
  }

  // ---------------------------------------------------------------- the operations, in place

  class GlobalCacheDirectory {
    var entries: PlainMap

    ghost predicate Valid()
      reads this
    {
      EntriesOk(entries)
    }

    constructor ()
      ensures Valid() && entries == map[]
    {
      entries := map[];
    }

    method CheckAndInsertEntry(id: Ident, cn: nat, nid: nat, wmeta: Option<nat>) returns (status: Option<GcdError>)
      requires nid < SLOTS
      modifies this
      ensures (entries, status) == CheckAndInsert(old(entries), id, cn, nid, wmeta)
      ensures old(Valid()) ==>
        && (Valid() <==> wmeta.None? || nid != NUMA_MEM || id !in old(entries) || NoValidLocal(old(entries)[id]))
        && (status.None? <==>
              && nid != NUMA_MEM && id in old(entries)
              && old(entries)[id].wmeta.Some? && old(entries)[id].cn[nid].cnIdx.None?)
    {
      if Valid() {
        AdmissionKeepsEntriesExactly(entries, id, cn, nid, wmeta);
        assert id in entries ==> EntryOk(entries[id]);
      }
      if id in entries {
        var entry := entries[id];
        status := Some(NoError);
        if entry.cn[nid].cnIdx == None {
          if entry.cn[nid].invalidate {
            return None;
          }
          if entry.wmeta.Some? && nid != NUMA_MEM {
            return None;
          }
          entry := entry.(cn := entry.cn[nid := Status(Some(cn), false)]);
          if nid == NUMA_MEM {
            entry := entry.(wmeta := wmeta);
          }
        } else if nid == NUMA_MEM {
          if wmeta == None {
            entry := entry.(wmeta := wmeta);
            status := Some(SlotUpdateFailed);
          } else if entry.wmeta == None {
            entry := entry.(wmeta := wmeta);
            status := Some(SlotUpdateFailed);
          } else {
            status := Some(SlotWmetaUpdateFailed);
          }
        }
        entries := entries[id := entry];
        assert entry == old(entries)[id] ==> entries == old(entries);
      } else {
        var entry := PlainEntry(None, NONE_PRESENT[nid := Status(Some(cn), false)]);
        if nid == NUMA_MEM {
          entry := entry.(wmeta := wmeta);
        }
        entries := entries[id := entry];
        return Some(NoError);
      }
    }

    method SwitchToRW(id: Ident, wmeta: nat) returns (status: GcdError)
      modifies this
      ensures (entries, status) == InvalidateSwitchToRWShared(old(entries), id, wmeta)
      ensures old(Valid()) ==> Valid()
    {
      if Valid() {
        SwitchKeepsEntries(entries, id, wmeta);
      }
      if id !in entries {
        return EntryNoExist;
      }
      var cn := entries[id].cn;
      for i := 0 to SLOTS
        invariant forall j :: 0 <= j < i ==> cn[j] == InvalidateLocal(entries[id].cn)[j]
        invariant forall j :: i <= j < SLOTS ==> cn[j] == entries[id].cn[j]
        invariant entries == old(entries)
      {
        if cn[i].cnIdx.Some? && i != NUMA_MEM {
          cn := cn[i := cn[i].(invalidate := true)];
        }
      }
      assert cn == InvalidateLocal(entries[id].cn);
      entries := entries[id := entries[id].(cn := cn)];
      if entries[id].wmeta == None {
        entries := entries[id := entries[id].(wmeta := Some(wmeta))];
        assert entries == old(entries)[id := entries[id]];
        status := NoError;
      } else {
        status := SlotWmetaUpdateFailed;
      }
    }

    method DeleteCopy(id: Ident, nid: nat) returns (status: DeleteError)
      requires nid < SLOTS
      modifies this
      ensures (entries, status) == DeleteIfReadOnly(old(entries), id, nid)
      ensures old(Valid()) ==> Valid()
    {
      if Valid() {
        DeleteKeepsEntries(entries, id, nid);
      }
      if id !in entries {
        return NoEntry;
      }
      var entry := entries[id];
      if nid == NUMA_MEM && entry.wmeta.Some? {
        return WmetaValid;
      }
      if entry.cn[nid].cnIdx == None && !entry.cn[nid].invalidate {
        return AlreadyDeleted;
      }
      entry := entry.(cn := entry.cn[nid := ABSENT]);
      var empty := true;
      for i := 0 to SLOTS
        invariant empty <==> forall j :: 0 <= j < i ==> entry.cn[j].cnIdx == None
      {
        empty := empty && entry.cn[i].cnIdx == None;
      }
      entries := if empty then entries - {id} else entries[id := entry];
      return Success;
    }
  }
}
