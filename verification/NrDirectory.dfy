/** The replicated global cache directory: the hash map that every replica applies its log to
    (third-party/nr_rust/ffi/ffi_nr_hashmap.rs:138-527, third-party/nr_rust/ffi/types.rs).

    `Apply` says what one operation does to the map and what it answers. */
module NrDirectory {
  import opened Common

  /** One slot for each logical node and one for CXL memory. The number of logical nodes is configured,
      so it is any positive number here. */
  type SlotCount = n: int | n > 1 witness 4

  const SLOTS: SlotCount   // LOGICAL_NODE_NUM + 1
  const NUMA_MEM := 0      // the slot of the copy in CXL memory

  /** Two block ids are equal when inode and offset are: `Ident` is what the map is keyed by. */
  datatype BlockId = BlockId(server: nat, inode: nat, offset: int) {
    function Id(): Ident {
      Ident(inode, offset)
    }
  }

  datatype Ident = Ident(inode: nat, offset: int)

  const NULL_KEY := BlockId(0, 0, -1)

  datatype CNStatus = CNStatus(cnIdx: int, invalidate: bool)

  const NULL_STATUS := CNStatus(-1, false)

  function Blank(n: nat): (s: seq<CNStatus>)
    ensures |s| == n && forall i :: 0 <= i < n ==> s[i] == NULL_STATUS
  {
    seq(n, _ => NULL_STATUS)
  }

  type Copies = s: seq<CNStatus> | |s| == SLOTS witness Blank(SLOTS)

  const NO_COPIES: Copies := Blank(SLOTS)

  datatype Entry = Entry(wmeta: int, cn: Copies)

  // init_gcd_entry
  function InitEntry(cn: int, idx: nat): Entry {
    Entry(-1, if idx < SLOTS then NO_COPIES[idx := CNStatus(cn, false)] else NO_COPIES)
  }

  // init_empty_gcd_entry
  const EMPTY_ENTRY := Entry(-1, NO_COPIES)

  type Storage = map<Ident, Entry>

  datatype Modify =
    | PutArray(key: BlockId, cn: int, idx: nat)
    | CheckPutArray(key: BlockId, cn: int, idx: nat)
    | PutArrayWmeta(key: BlockId, cn: int, idx: nat, wmeta: int)
    | CheckPutArrayWmeta(key: BlockId, cn: int, idx: nat, wmeta: int)
    | CheckSwitchWmetaArray(key: BlockId, wmeta: int)
    | CheckPutSwapArray(key: BlockId, cn: int, idx: nat, from: nat)
    | InvalidateArray(key: BlockId, idx: nat)
    | InvalidateExceptArray(key: BlockId, idx: nat)
    | InvalidateExceptArrayUpdateWmeta(key: BlockId, idx: nat, wmeta: int)
    | DeleteArray(key: BlockId, idx: nat)
    | DeleteIfArray(key: BlockId, idx: nat)
    | Delete(key: BlockId)
    | DummyLog(key: BlockId)
  {
    /** Indices address the copy array; indexing past it would abort the source. */
    predicate InRange() {
      match this
      case CheckSwitchWmetaArray(_, _) => true
      case CheckPutSwapArray(_, _, i, o) => i < SLOTS && o < SLOTS
      case Delete(_) => true
      case DummyLog(_) => true
      case _ => idx < SLOTS
    }
  }

  datatype Response = Response(key: BlockId, value: Entry)

  datatype Bug = PutIntoInvalidated | ReplicaWhileShared | ValidReplicaWhileShared

  datatype Reply = Panic(bug: Bug) | Answer(resp: Option<Response>)

  datatype Result = Result(storage: Storage, reply: Reply)

  // ---------------------------------------------------------------- the operations, as functions

  predicate NoCopy(cn: Copies) {
    forall i :: 0 <= i < SLOTS ==> cn[i].cnIdx == -1
  }

  /** Every present copy but the one at `idx` is invalidated. */
  function InvalidateExcept(cn: Copies, idx: nat): Copies {
    seq(SLOTS, (i: int) requires 0 <= i < SLOTS =>
      if cn[i].cnIdx != -1 && idx != i then cn[i].(invalidate := true) else cn[i])
  }

  function Answered(m: Storage, key: BlockId, value: Entry): Result {
    Result(m, Answer(Some(Response(key, value))))
  }

  function Stored(m: Storage, key: BlockId, value: Entry): Result {
    Answered(m[key.Id() := value], key, value)
  }

  function Silent(m: Storage): Result {
    Result(m, Answer(None))
  }

  /** Clears the copy at `idx`; an entry without copies goes away. */
  function Without(m: Storage, id: Ident, idx: nat): Storage
    requires id in m && idx < SLOTS
  {
    var e := m[id].(cn := m[id].cn[idx := NULL_STATUS]);
    if NoCopy(e.cn) then m - {id} else m[id := e]
  }

  function ApplyCheckPutWmeta(m: Storage, key: BlockId, cn: int, idx: nat, wmeta: int): Result
    requires idx < SLOTS
  {
    var id := key.Id();
    if id !in m then
      var e := InitEntry(cn, idx);
      Stored(m, key, if idx == NUMA_MEM then e.(wmeta := wmeta) else e)
    else
      var e := m[id];
      if e.cn[idx].cnIdx == -1 then
        if e.cn[idx].invalidate then Result(m, Panic(PutIntoInvalidated))
        else if e.wmeta != -1 && idx != NUMA_MEM then Result(m, Panic(ReplicaWhileShared))
        else
          var e' := e.(cn := e.cn[idx := CNStatus(cn, false)]);
          Stored(m, key, if idx == NUMA_MEM then e'.(wmeta := wmeta) else e')
      else if idx == NUMA_MEM && (wmeta == -1 || e.wmeta == -1) then
        var e' := e.(wmeta := wmeta);
        Answered(m[id := e'], NULL_KEY, e')
      else Silent(m)
  }

  function ApplyDeleteIf(m: Storage, key: BlockId, idx: nat): Result
    requires idx < SLOTS
  {
    var id := key.Id();
    if id !in m then Silent(m)
    else
      var e := m[id];
      if idx == NUMA_MEM && e.wmeta != -1 then Answered(m, NULL_KEY, InitEntry(2, NUMA_MEM + 1))
      else if e.cn[idx] == NULL_STATUS then Answered(m, NULL_KEY, EMPTY_ENTRY)
      else if idx != NUMA_MEM && !e.cn[idx].invalidate && e.wmeta != -1 then
        Result(m, Panic(ValidReplicaWhileShared))
      else Answered(Without(m, id, idx), key, InitEntry(e.cn[idx].cnIdx, NUMA_MEM))
  }

  function Apply(m: Storage, op: Modify): Result
    requires op.InRange()
  {
    var id := op.key.Id();
    match op
    case PutArray(key, cn, idx) =>
      if id !in m then Stored(m, key, InitEntry(cn, idx))
      else Stored(m, key, m[id].(cn := m[id].cn[idx := CNStatus(cn, false)]))
    case CheckPutArray(key, cn, idx) =>
      if id !in m then Stored(m, key, InitEntry(cn, idx))
      else if m[id].cn[idx].cnIdx == -1 then Stored(m, key, m[id].(cn := m[id].cn[idx := CNStatus(cn, false)]))
      else Silent(m)
    case PutArrayWmeta(key, cn, idx, wmeta) =>
      if id !in m then Stored(m, key, InitEntry(cn, idx).(wmeta := wmeta))
      else Stored(m, key, Entry(wmeta, m[id].cn[idx := CNStatus(cn, false)]))
    case CheckPutArrayWmeta(key, cn, idx, wmeta) => ApplyCheckPutWmeta(m, key, cn, idx, wmeta)
    case CheckSwitchWmetaArray(key, wmeta) =>
      if id !in m then Silent(m)
      else if wmeta == -1 then
        Answered(m[id := m[id].(wmeta := -1)], key, EMPTY_ENTRY.(wmeta := m[id].wmeta))
      else if m[id].wmeta == -1 then Stored(m, key, m[id].(wmeta := wmeta))
      else Silent(m)
    case CheckPutSwapArray(key, cn, idx, o) =>
      if id !in m then Stored(m, key, InitEntry(cn, idx))
      else
        var e := m[id].(cn := m[id].cn[o := NULL_STATUS]);
        if e.cn[idx].cnIdx == -1 then Stored(m, key, e.(cn := e.cn[idx := CNStatus(cn, false)]))
        else Silent(m[id := e])
    case InvalidateArray(key, idx) =>
      if id !in m || m[id].cn[idx].cnIdx == -1 then Silent(m)
      else Silent(m[id := m[id].(cn := m[id].cn[idx := m[id].cn[idx].(invalidate := true)])])
    case InvalidateExceptArray(key, idx) =>
      if id !in m then Silent(m)
      else Silent(m[id := m[id].(cn := InvalidateExcept(m[id].cn, idx))])
    case InvalidateExceptArrayUpdateWmeta(key, idx, wmeta) =>
      if id !in m then Silent(m)
      else
        var e := m[id].(cn := InvalidateExcept(m[id].cn, idx));
        if e.wmeta == -1 then Stored(m, key, e.(wmeta := wmeta))
        else Answered(m[id := e], NULL_KEY, EMPTY_ENTRY)
    case DeleteArray(key, idx) =>
      if id !in m then Silent(m)
      else Answered(Without(m, id, idx), key, InitEntry(m[id].cn[idx].cnIdx, NUMA_MEM))
    case DeleteIfArray(key, idx) => ApplyDeleteIf(m, key, idx)
    case Delete(key) =>
      if id !in m then Silent(m) else Answered(m - {id}, key, EMPTY_ENTRY.(wmeta := m[id].wmeta))
    case DummyLog(key) =>
      if id !in m then Silent(m) else Answered(m, key, m[id])
  }
}
