/** The handlers of the replicated directory, working on the map in place with the loops of the source
    (third-party/nr_rust/ffi/ffi_nr_hashmap.rs:250-480). Each does what `Apply` says; beyond that, each
    says what it keeps and which panics it can end in. */
module NrHandlers {
  import opened Common
  import opened NrDirectory
  import opened NrInvariants

  /** The loop of InvalidateExceptArray and InvalidateExceptArrayUpdateWmeta. */
  method InvalidateLoop(cn: Copies, idx: nat) returns (r: Copies)
    ensures r == InvalidateExcept(cn, idx)
  {
    r := cn;
    for i := 0 to SLOTS
      invariant forall j :: 0 <= j < i ==> r[j] == InvalidateExcept(cn, idx)[j]
      invariant forall j :: i <= j < SLOTS ==> r[j] == cn[j]
    {
      if r[i].cnIdx != -1 && idx != i {
        r := r[i := r[i].(invalidate := true)];
      }
    }
  }

  method AllAbsent(cn: Copies) returns (b: bool)
    ensures b <==> NoCopy(cn)
  {
    for i := 0 to SLOTS
      invariant forall j :: 0 <= j < i ==> cn[j].cnIdx == -1
    {
      if cn[i].cnIdx != -1 {
        return false;
      }
    }
    return true;
  }

  class NrHashMap {
    var storage: Storage

    ghost predicate Valid()
      reads this
    {
      Safe(storage)
    }

    constructor ()
      ensures Valid() && storage == map[]
    {
      storage := map[];
    }

    /** Clears one copy and drops the entry if none is left. */
    method ClearCopy(id: Ident, idx: nat) returns (was: int)
      requires id in storage && idx < SLOTS
      modifies this
      ensures storage == Without(old(storage), id, idx) && was == old(storage)[id].cn[idx].cnIdx
    {
      var entry := storage[id];
      was := entry.cn[idx].cnIdx;
      entry := entry.(cn := entry.cn[idx := NULL_STATUS]);
      storage := storage[id := entry];
      var empty := AllAbsent(entry.cn);
      if empty {
        storage := storage - {id};
        assert storage == old(storage) - {id};
      }
    }

    /** InvalidateExceptArrayUpdateWmeta: the switch of an entry to RW mode. */
    method SwitchToRW(key: BlockId, idx: nat, wmeta: int) returns (reply: Reply)
      requires idx < SLOTS
      modifies this
      ensures Result(storage, reply) == Apply(old(storage), InvalidateExceptArrayUpdateWmeta(key, idx, wmeta))
      ensures reply.Answer?
      ensures old(Valid()) && wmeta >= -1 ==>
        (Valid() <==> KeepsExclusive(old(storage), InvalidateExceptArrayUpdateWmeta(key, idx, wmeta)))
    {
      ghost var op := InvalidateExceptArrayUpdateWmeta(key, idx, wmeta);
      if Valid() && wmeta >= -1 {
        StepKeepsSane(storage, op);
        StepKeepsCopies(storage, op);
        KeepsExclusiveExactly(storage, op);
      }
      var id := key.Id();
      if id !in storage {
        return Answer(None);
      }
      var cn := InvalidateLoop(storage[id].cn, idx);
      storage := storage[id := storage[id].(cn := cn)];
      if storage[id].wmeta == -1 {
        storage := storage[id := storage[id].(wmeta := wmeta)];
        assert storage == old(storage)[id := storage[id]];
        return Answer(Some(Response(key, storage[id])));
      }
      return Answer(Some(Response(NULL_KEY, EMPTY_ENTRY)));
    }

    /** CheckPutArrayWmeta: admission of a copy, with a record if it is the CXL copy. */
    method CheckPut(key: BlockId, cn: int, idx: nat, wmeta: int) returns (reply: Reply)
      requires idx < SLOTS
      modifies this
      ensures Result(storage, reply) == Apply(old(storage), CheckPutArrayWmeta(key, cn, idx, wmeta))
      ensures old(Valid()) && cn >= 0 && wmeta >= -1 ==>
        && Sane(storage) && CopiesOk(storage)
        && (Valid() <==> wmeta == -1 || idx != NUMA_MEM || NoValidLocal(old(storage), key.Id()))
        && (reply.Panic? <==>
              && idx != NUMA_MEM && key.Id() in old(storage)
              && old(storage)[key.Id()].wmeta != -1 && old(storage)[key.Id()].cn[idx].cnIdx == -1)
    {
      ghost var op := CheckPutArrayWmeta(key, cn, idx, wmeta);
      if Valid() && cn >= 0 && wmeta >= -1 {
        StepKeepsSane(storage, op);
        StepKeepsCopies(storage, op);
        KeepsExclusiveExactly(storage, op);
      }
      var id := key.Id();
      if id !in storage {
        var value := InitEntry(cn, idx);
        if idx == NUMA_MEM {
          value := value.(wmeta := wmeta);
        }
        storage := storage[id := value];
        return Answer(Some(Response(key, value)));
      }
      var entry := storage[id];
      if entry.cn[idx].cnIdx == -1 {
        if entry.cn[idx].invalidate {
          return Panic(PutIntoInvalidated);
        }
        if entry.wmeta != -1 && idx != NUMA_MEM {
          return Panic(ReplicaWhileShared);
        }
        entry := entry.(cn := entry.cn[idx := CNStatus(cn, false)]);
        if idx == NUMA_MEM {
          entry := entry.(wmeta := wmeta);
        }
        storage := storage[id := entry];
        return Answer(Some(Response(key, entry)));
      }
      if idx == NUMA_MEM {
        if wmeta == -1 || entry.wmeta == -1 {
          entry := entry.(wmeta := wmeta);
          storage := storage[id := entry];
          return Answer(Some(Response(NULL_KEY, entry)));
        }
      }
      return Answer(None);
    }

    /** CheckSwitchWmetaArray: detach (-1) or attach a record. */
    method CheckSwitch(key: BlockId, wmeta: int) returns (reply: Reply)
      modifies this
      ensures Result(storage, reply) == Apply(old(storage), CheckSwitchWmetaArray(key, wmeta))
      ensures reply.Answer?
      ensures old(Valid()) && wmeta >= -1 ==> (Valid() <==> wmeta == -1 || NoValidLocal(old(storage), key.Id()))
    {
      ghost var op := CheckSwitchWmetaArray(key, wmeta);
      if Valid() && wmeta >= -1 {
        StepKeepsSane(storage, op);
        StepKeepsCopies(storage, op);
        KeepsExclusiveExactly(storage, op);
      }
      var id := key.Id();
      if id in storage {
        var entry := storage[id];
        if wmeta == -1 {
          var dummy := EMPTY_ENTRY.(wmeta := entry.wmeta);
          storage := storage[id := entry.(wmeta := wmeta)];
          return Answer(Some(Response(key, dummy)));
        } else if entry.wmeta == -1 {
          entry := entry.(wmeta := wmeta);
          storage := storage[id := entry];
          return Answer(Some(Response(key, entry)));
        }
      }
      return Answer(None);
    }

    /** DeleteIfArray: eviction of a copy. */
    method DeleteIf(key: BlockId, idx: nat) returns (reply: Reply)
      requires idx < SLOTS
      modifies this
      ensures Result(storage, reply) == Apply(old(storage), DeleteIfArray(key, idx))
      ensures old(Valid()) ==> Valid() && reply.Answer?
    {
      ghost var op := DeleteIfArray(key, idx);
      if Valid() {
        StepKeepsSane(storage, op);
        StepKeepsCopies(storage, op);
        KeepsExclusiveExactly(storage, op);
        assert key.Id() in storage ==> Exclusive(storage[key.Id()]) && EntryOk(storage[key.Id()]);
      }
      var id := key.Id();
      if id !in storage {
        return Answer(None);
      }
      var entry := storage[id];
      if idx == NUMA_MEM && entry.wmeta != -1 {
        return Answer(Some(Response(NULL_KEY, InitEntry(2, NUMA_MEM + 1))));
      }
      if entry.cn[idx] == NULL_STATUS {
        return Answer(Some(Response(NULL_KEY, EMPTY_ENTRY)));
      }
      if idx != NUMA_MEM && !entry.cn[idx].invalidate && entry.wmeta != -1 {
        return Panic(ValidReplicaWhileShared);
      }
      var val := ClearCopy(id, idx);
      return Answer(Some(Response(key, InitEntry(val, NUMA_MEM))));
    }
  }
}
