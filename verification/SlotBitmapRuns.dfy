/** Threads that share the slot bitmaps (src/core/scr_bitmap.h:39-107, src/core/bitmap.h:33-122 and
    182-197, src/core/bitmap.cc:5-22). Every bit is changed by a compare-and-swap of its 64-bit row, and
    the counters are updated afterwards, so between the two a counter is behind. A step is one atomic
    access to a row or to a counter.

    A bitmap is the set of its set bits. A thread recycles only a slot that was handed out and is not
    being recycled by another thread. */
module SlotBitmapRuns {
  import opened Common
  import opened SlotBitmap

  type Thread = nat

  datatype Pc =
    | Idle
    // ReserveCacheNode
    | Found(i: nat)                                   // the scan or the caller chose slot i
    | Taking(i: nat, snapshot: set<nat>)              // row loaded with bit i set
    | Taken(i: nat)                                   // bit cleared; count not yet raised
    // RecycleCacheNode
    | Returning(i: nat)
    | Giving(i: nat, snapshot: set<nat>)              // row loaded with bit i clear
    | Given                                           // bit set; count not yet lowered
    // SetDirty
    | Marking(i: nat, want: bool)                     // at the head of the loop
    | Trying(i: nat, want: bool)                      // the bit was seen to differ
    | Flipping(i: nat, want: bool, snapshot: set<nat>)
    | Flipped(i: nat, want: bool)                     // bit flipped; dirty count not yet updated
  {
    /** The thread has the slot to itself. */
    predicate Owns() {
      Taken? || Returning? || Giving?
    }

    predicate GivingUp() {
      Returning? || Giving? || Given?
    }

    predicate Raising() {
      Flipped? && want
    }

    predicate Lowering() {
      Flipped? && !want
    }
  }

  /** `slots` are the indices of the bitmap; it does not change. */
  datatype State = State(slots: set<nat>, free: set<nat>, held: set<nat>, count: int,
                         dirty: set<nat>, dirtyCount: int, pcs: map<Thread, Pc>)

  datatype Action =
    | Scan(i: nat) | LoadFree | SwapFree | CountUp
    | StartRecycle(i: nat) | LoadUsed | SwapUsed | CountDown
    | StartDirty(i: nat, want: bool) | Check | LoadDirty | SwapDirty | CountDirty

  function RowOf(bits: set<nat>, i: nat): set<nat> {
    set j <- bits | j / ROW_BITS == i / ROW_BITS
  }

  predicate Has(bits: set<nat>, i: nat) {
    i in bits
  }

  ghost predicate Init(all: set<nat>, s: State) {
    s.slots == all && s.free == all && s.held == {} && s.count == 0 && s.dirty == {} && s.dirtyCount == 0
    && forall t <- s.pcs :: s.pcs[t] == Idle
  }

  predicate Enabled(s: State, t: Thread, a: Action) {
    && t in s.pcs
    && var pc := s.pcs[t];
       match a
       case Scan(i) => pc.Idle? && i in s.slots
       case LoadFree => pc.Found?
       case SwapFree => pc.Taking?
       case CountUp => pc.Taken?
       case StartRecycle(i) => pc.Idle? && i in s.held
       case LoadUsed => pc.Returning?
       case SwapUsed => pc.Giving?
       case CountDown => pc.Given?
       case StartDirty(i, _) => pc.Idle? && i in s.slots
       case Check => pc.Marking?
       case LoadDirty => pc.Trying?
       case SwapDirty => pc.Flipping?
       case CountDirty => pc.Flipped?
  }

  function Goto(s: State, t: Thread, pc: Pc): State {
    s.(pcs := s.pcs[t := pc])
  }

  function Do(s: State, t: Thread, a: Action): State
    requires Enabled(s, t, a)
  {
    var pc := s.pcs[t];
    match a
    case Scan(i) => Goto(s, t, Found(i))
    // try_clearbit_exclusive on the free bitmap; a failure goes back to the scan
    case LoadFree => if pc.i in s.free then Goto(s, t, Taking(pc.i, RowOf(s.free, pc.i))) else Goto(s, t, Idle)
    case SwapFree =>
      if RowOf(s.free, pc.i) == pc.snapshot then Goto(s, t, Taken(pc.i)).(free := s.free - {pc.i}) else Goto(s, t, Idle)
    case CountUp => Goto(s, t, Idle).(count := s.count + 1, held := s.held + {pc.i})
    // try_setbit on the free bitmap; a bit that is already set counts as success
    case StartRecycle(i) => Goto(s, t, Returning(i)).(held := s.held - {i})
    case LoadUsed => if pc.i in s.free then Goto(s, t, Given) else Goto(s, t, Giving(pc.i, RowOf(s.free, pc.i)))
    case SwapUsed =>
      if RowOf(s.free, pc.i) == pc.snapshot then Goto(s, t, Given).(free := s.free + {pc.i})
      else Goto(s, t, Idle).(held := s.held + {pc.i})
    case CountDown => Goto(s, t, Idle).(count := s.count - 1)
    // SetDirty
    case StartDirty(i, want) => Goto(s, t, Marking(i, want))
    case Check => if Has(s.dirty, pc.i) == pc.want then Goto(s, t, Idle) else Goto(s, t, Trying(pc.i, pc.want))
    case LoadDirty =>
      if Has(s.dirty, pc.i) == pc.want then Goto(s, t, Marking(pc.i, pc.want))
      else Goto(s, t, Flipping(pc.i, pc.want, RowOf(s.dirty, pc.i)))
    case SwapDirty =>
      if RowOf(s.dirty, pc.i) == pc.snapshot then
        Goto(s, t, Flipped(pc.i, pc.want)).(dirty := if pc.want then s.dirty + {pc.i} else s.dirty - {pc.i})
      else Goto(s, t, Marking(pc.i, pc.want))
    case CountDirty => Goto(s, t, Idle).(dirtyCount := if pc.want then s.dirtyCount + 1 else s.dirtyCount - 1)
  }

  ghost predicate Next(s: State, s': State) {
    exists t, a :: Enabled(s, t, a) && s' == Do(s, t, a)
  }

  ghost predicate Run(all: set<nat>, tr: seq<State>) {
    && |tr| > 0 && Init(all, tr[0])
    && forall i :: 0 <= i < |tr| - 1 ==> Next(tr[i], tr[i + 1])
  }

  // ---------------------------------------------------------------- what every step keeps

  /** A row that was loaded with bit i set (or clear) still says so if it is unchanged, and a slot with
      a thread is neither free nor handed out. */
  ghost predicate PcOk(all: set<nat>, s: State, t: Thread)
    requires t in s.pcs
  {
    var pc := s.pcs[t];
    && (pc.Owns() ==> pc.i in all && pc.i !in s.free && pc.i !in s.held)
    && (pc.Taking? ==> pc.i in pc.snapshot)
    && (pc.Flipping? ==> Has(pc.snapshot, pc.i) != pc.want)
  }

  ghost predicate Alone(s: State, t: Thread, u: Thread)
    requires t in s.pcs && u in s.pcs
  {
    t != u && s.pcs[t].Owns() && s.pcs[u].Owns() ==> s.pcs[t].i != s.pcs[u].i
  }

  /** Every slot is free, handed out, or with one thread. */
  ghost predicate Exclusive(all: set<nat>, s: State) {
    && s.free <= all && s.held <= all && s.free !! s.held
    && (forall t <- s.pcs :: PcOk(all, s, t))
    && (forall t <- s.pcs, u <- s.pcs :: Alone(s, t, u))
  }

  lemma StepKeepsExclusive(all: set<nat>, s: State, t: Thread, a: Action)
    requires Exclusive(all, s) && Enabled(s, t, a)
    ensures Exclusive(all, Do(s, t, a))
  {
    var s' := Do(s, t, a);
    assert PcOk(all, s, t);
    forall u | u in s'.pcs
      ensures PcOk(all, s', u)
    {
      assert PcOk(all, s, u) && Alone(s, t, u);
    }
    forall u, v | u in s'.pcs && v in s'.pcs
      ensures Alone(s', u, v)
    {
      assert Alone(s, u, v) && PcOk(all, s, u) && PcOk(all, s, v);
    }
  }

  // ---------------------------------------------------------------- the counters

  /** A slot that is not free is handed out or with a thread. */
  ghost predicate SlotsAddUp(all: set<nat>, s: State) {
    |all| == |s.free| + |s.held| + |Where(s.pcs, (pc: Pc) => pc.Owns())|
  }

  /** The slot count, with the decrements still to come. */
  ghost predicate CountRight(s: State) {
    s.count == |s.held| + |Where(s.pcs, (pc: Pc) => pc.GivingUp())|
  }

  /** The dirty count, with the updates still to come. */
  ghost predicate DirtyRight(s: State) {
    s.dirtyCount + |Where(s.pcs, (pc: Pc) => pc.Raising())| - |Where(s.pcs, (pc: Pc) => pc.Lowering())| == |s.dirty|
  }

  lemma TakingKeepsSlots(all: set<nat>, s: State, t: Thread, a: Action)
    requires t in s.pcs && PcOk(all, s, t) && SlotsAddUp(all, s) && Enabled(s, t, a)
    requires a.Scan? || a.LoadFree? || a.SwapFree? || a.CountUp?
    ensures SlotsAddUp(all, Do(s, t, a))
  {
    WhereUpdate(s.pcs, t, Do(s, t, a).pcs[t], (pc: Pc) => pc.Owns());
  }

  lemma GivingKeepsSlots(all: set<nat>, s: State, t: Thread, a: Action)
    requires t in s.pcs && PcOk(all, s, t) && SlotsAddUp(all, s) && Enabled(s, t, a)
    requires a.StartRecycle? || a.LoadUsed? || a.SwapUsed? || a.CountDown?
    ensures SlotsAddUp(all, Do(s, t, a))
  {
    WhereUpdate(s.pcs, t, Do(s, t, a).pcs[t], (pc: Pc) => pc.Owns());
  }

  lemma StepKeepsSlots(all: set<nat>, s: State, t: Thread, a: Action)
    requires t in s.pcs && PcOk(all, s, t) && SlotsAddUp(all, s) && Enabled(s, t, a)
    ensures SlotsAddUp(all, Do(s, t, a))
  {
    if a.Scan? || a.LoadFree? || a.SwapFree? || a.CountUp? {
      TakingKeepsSlots(all, s, t, a);
    } else if a.StartRecycle? || a.LoadUsed? || a.SwapUsed? || a.CountDown? {
      GivingKeepsSlots(all, s, t, a);
    } else {
      WhereUpdate(s.pcs, t, Do(s, t, a).pcs[t], (pc: Pc) => pc.Owns());
    }
  }

  lemma TakingKeepsCount(all: set<nat>, s: State, t: Thread, a: Action)
    requires t in s.pcs && PcOk(all, s, t) && CountRight(s) && Enabled(s, t, a)
    requires a.Scan? || a.LoadFree? || a.SwapFree? || a.CountUp?
    ensures CountRight(Do(s, t, a))
  {
    WhereUpdate(s.pcs, t, Do(s, t, a).pcs[t], (pc: Pc) => pc.GivingUp());
  }

  lemma GivingKeepsCount(all: set<nat>, s: State, t: Thread, a: Action)
    requires t in s.pcs && PcOk(all, s, t) && CountRight(s) && Enabled(s, t, a)
    requires a.StartRecycle? || a.LoadUsed? || a.SwapUsed? || a.CountDown?
    ensures CountRight(Do(s, t, a))
  {
    WhereUpdate(s.pcs, t, Do(s, t, a).pcs[t], (pc: Pc) => pc.GivingUp());
  }

  lemma StepKeepsCount(all: set<nat>, s: State, t: Thread, a: Action)
    requires t in s.pcs && PcOk(all, s, t) && CountRight(s) && Enabled(s, t, a)
    ensures CountRight(Do(s, t, a))
  {
    if a.Scan? || a.LoadFree? || a.SwapFree? || a.CountUp? {
      TakingKeepsCount(all, s, t, a);
    } else if a.StartRecycle? || a.LoadUsed? || a.SwapUsed? || a.CountDown? {
      GivingKeepsCount(all, s, t, a);
    } else {
      WhereUpdate(s.pcs, t, Do(s, t, a).pcs[t], (pc: Pc) => pc.GivingUp());
    }
  }

  lemma MarkingKeepsDirty(all: set<nat>, s: State, t: Thread, a: Action)
    requires t in s.pcs && PcOk(all, s, t) && DirtyRight(s) && Enabled(s, t, a)
    requires a.SwapDirty? || a.CountDirty?
    ensures DirtyRight(Do(s, t, a))
  {
    WhereUpdate(s.pcs, t, Do(s, t, a).pcs[t], (pc: Pc) => pc.Raising());
    WhereUpdate(s.pcs, t, Do(s, t, a).pcs[t], (pc: Pc) => pc.Lowering());
  }

  lemma StepKeepsDirty(all: set<nat>, s: State, t: Thread, a: Action)
    requires t in s.pcs && PcOk(all, s, t) && DirtyRight(s) && Enabled(s, t, a)
    ensures DirtyRight(Do(s, t, a))
  {
    if a.SwapDirty? || a.CountDirty? {
      MarkingKeepsDirty(all, s, t, a);
    } else {
      WhereUpdate(s.pcs, t, Do(s, t, a).pcs[t], (pc: Pc) => pc.Raising());
      WhereUpdate(s.pcs, t, Do(s, t, a).pcs[t], (pc: Pc) => pc.Lowering());
    }
  }

  // ---------------------------------------------------------------- every run

  ghost predicate Inv(all: set<nat>, s: State) {
    Exclusive(all, s) && SlotsAddUp(all, s) && CountRight(s) && DirtyRight(s)
  }

  lemma NoneWhere(s: State, p: Pc -> bool)
    requires forall t <- s.pcs :: !p(s.pcs[t])
    ensures Where(s.pcs, p) == {}
  {
  }

  lemma InitHasInv(all: set<nat>, s: State)
    requires Init(all, s)
    ensures Inv(all, s)
  {
    NoneWhere(s, (pc: Pc) => pc.Owns());
    NoneWhere(s, (pc: Pc) => pc.GivingUp());
    NoneWhere(s, (pc: Pc) => pc.Raising());
    NoneWhere(s, (pc: Pc) => pc.Lowering());
  }

  lemma StepKeepsInv(all: set<nat>, s: State, t: Thread, a: Action)
    requires Inv(all, s) && Enabled(s, t, a)
    ensures Inv(all, Do(s, t, a))
  {
    StepKeepsExclusive(all, s, t, a);
    StepKeepsSlots(all, s, t, a);
    StepKeepsCount(all, s, t, a);
    StepKeepsDirty(all, s, t, a);
  }

  lemma {:induction false} RunKeepsInv(all: set<nat>, tr: seq<State>, i: nat)
    requires Run(all, tr) && i < |tr|
    ensures Inv(all, tr[i])
  {
    if i == 0 {
      InitHasInv(all, tr[0]);
    } else {
      RunKeepsInv(all, tr, i - 1);
      assert Next(tr[i - 1], tr[i - 1 + 1]);
      var t, a :| Enabled(tr[i - 1], t, a) && tr[i] == Do(tr[i - 1], t, a);
      StepKeepsInv(all, tr[i - 1], t, a);
    }
  }

  /** Only a thread's own swap makes it take a slot. */
  lemma TakingStep(s: State, t: Thread, u: Thread, a: Action)
    requires Enabled(s, u, a) && t in s.pcs && s.pcs[t].Taking? && Do(s, u, a).pcs[t].Taken?
    ensures u == t && a == SwapFree && RowOf(s.free, s.pcs[t].i) == s.pcs[t].snapshot
  {
  }

  lemma TakenWasFree(all: set<nat>, s: State, t: Thread)
    requires Exclusive(all, s) && t in s.pcs && s.pcs[t].Taking?
    requires RowOf(s.free, s.pcs[t].i) == s.pcs[t].snapshot
    ensures s.pcs[t].i in s.free
    ensures forall u <- s.pcs :: s.pcs[u].Owns() ==> s.pcs[u].i != s.pcs[t].i
  {
    assert PcOk(all, s, t);
    forall u | u in s.pcs && s.pcs[u].Owns()
      ensures s.pcs[u].i !in s.free
    {
      assert PcOk(all, s, u);
    }
  }

  /** Thread t takes the slot in the step from s to s'. */
  predicate Takes(s: State, s': State, t: Thread, slot: nat) {
    t in s.pcs && t in s'.pcs && s.pcs[t].Taking? && s'.pcs[t] == Taken(slot)
  }

  ghost predicate NoOtherOwner(s: State, t: Thread, slot: nat) {
    forall u <- s.pcs :: s.pcs[u].Owns() && u != t ==> s.pcs[u].i != slot
  }

  /** A slot that a thread takes was in nobody's hands, and is then with that thread only. */
  lemma TakenIsExclusive(all: set<nat>, tr: seq<State>, i: nat, t: Thread, slot: nat)
    requires Run(all, tr) && i + 1 < |tr| && Takes(tr[i], tr[i + 1], t, slot)
    ensures slot in tr[i].free && slot !in tr[i].held && NoOtherOwner(tr[i], t, slot)
    ensures slot !in tr[i + 1].free && slot !in tr[i + 1].held && NoOtherOwner(tr[i + 1], t, slot)
  {
    RunKeepsInv(all, tr, i);
    RunKeepsInv(all, tr, i + 1);
    assert Next(tr[i], tr[i + 1]);
    var u, a :| Enabled(tr[i], u, a) && tr[i + 1] == Do(tr[i], u, a);
    TakingStep(tr[i], t, u, a);
    TakenWasFree(all, tr[i], t);
    OwnerIsAlone(all, tr[i + 1], t);
  }

  lemma OwnerIsAlone(all: set<nat>, s: State, t: Thread)
    requires Exclusive(all, s) && t in s.pcs && s.pcs[t].Owns()
    ensures s.pcs[t].i !in s.free && s.pcs[t].i !in s.held
    ensures NoOtherOwner(s, t, s.pcs[t].i)
  {
    assert PcOk(all, s, t);
    forall u | u in s.pcs && u != t && s.pcs[u].Owns()
      ensures s.pcs[u].i != s.pcs[t].i
    {
      assert Alone(s, t, u);
    }
  }

  predicate Recycles(s: State, s': State, t: Thread, slot: nat) {
    Enabled(s, t, StartRecycle(slot)) && s' == Do(s, t, StartRecycle(slot))
  }

  ghost predicate SomeRecycles(s: State, s': State, slot: nat) {
    exists t :: Recycles(s, s', t, slot)
  }

  /** Step k of the run starts to give the slot back. */
  ghost predicate RecycledAt(tr: seq<State>, k: nat, slot: nat)
    requires k + 1 < |tr|
  {
    SomeRecycles(tr[k], tr[k + 1], slot)
  }

  /** The slot is not free and nobody is giving it back. */
  ghost predicate Out(s: State, slot: nat) {
    slot !in s.free && forall t <- s.pcs :: s.pcs[t].Returning? || s.pcs[t].Giving? ==> s.pcs[t].i != slot
  }

  lemma StepKeepsOut(s: State, t: Thread, a: Action, slot: nat)
    requires Out(s, slot) && Enabled(s, t, a) && a != StartRecycle(slot)
    ensures Out(Do(s, t, a), slot)
  {
  }

  lemma {:induction false} OutUntilRecycled(all: set<nat>, tr: seq<State>, i: nat, j: nat, slot: nat)
    requires Run(all, tr) && i <= j < |tr| && Out(tr[i], slot)
    ensures Out(tr[j], slot) || exists k :: i <= k < j && RecycledAt(tr, k, slot)
    decreases j
  {
    if i < j {
      OutUntilRecycled(all, tr, i, j - 1, slot);
      if Out(tr[j - 1], slot) {
        assert Next(tr[j - 1], tr[j - 1 + 1]);
        var t, a :| Enabled(tr[j - 1], t, a) && tr[j] == Do(tr[j - 1], t, a);
        if a == StartRecycle(slot) {
          assert Recycles(tr[j - 1], tr[j], t, slot);
          assert RecycledAt(tr, j - 1, slot);
        } else {
          StepKeepsOut(tr[j - 1], t, a, slot);
        }
      }
    }
  }

  /** Between two steps that take the same slot, by whatever threads, it is given back. */
  lemma NoSlotIsHandedOutTwice(all: set<nat>, tr: seq<State>, i: nat, t: Thread, j: nat, u: Thread, slot: nat)
    requires Run(all, tr) && i < j && j + 1 < |tr|
    requires Takes(tr[i], tr[i + 1], t, slot) && Takes(tr[j], tr[j + 1], u, slot)
    ensures exists k :: i < k < j && RecycledAt(tr, k, slot)
  {
    TakenIsExclusive(all, tr, i, t, slot);
    TakenIsExclusive(all, tr, j, u, slot);
    assert Out(tr[i + 1], slot);
    OutUntilRecycled(all, tr, i + 1, j, slot);
  }

  /** Once no update is under way, both counters are exact. */
  lemma CountersAreExactAtRest(all: set<nat>, tr: seq<State>, i: nat)
    requires Run(all, tr) && i < |tr| && forall t <- tr[i].pcs :: tr[i].pcs[t].Idle?
    ensures tr[i].count == |all| - |tr[i].free| && tr[i].dirtyCount == |tr[i].dirty|
  {
    RunKeepsInv(all, tr, i);
    NoneWhere(tr[i], (pc: Pc) => pc.Owns());
    NoneWhere(tr[i], (pc: Pc) => pc.GivingUp());
    NoneWhere(tr[i], (pc: Pc) => pc.Raising());
    NoneWhere(tr[i], (pc: Pc) => pc.Lowering());
  }

  lemma SplitWhere(pcs: map<Thread, Pc>, p: Pc -> bool, q: Pc -> bool, r: Pc -> bool)
    requires forall pc :: (p(pc) <==> q(pc) || r(pc)) && !(q(pc) && r(pc))
    ensures |Where(pcs, p)| == |Where(pcs, q)| + |Where(pcs, r)|
  {
    assert Where(pcs, p) == Where(pcs, q) + Where(pcs, r);
    assert Where(pcs, q) !! Where(pcs, r);
  }

  /** The slot count never goes below zero, and differs from the number of slots in use only by the
      updates still to come. */
  lemma SlotCountStaysInRange(all: set<nat>, tr: seq<State>, i: nat)
    requires Run(all, tr) && i < |tr|
    ensures 0 <= tr[i].count
    ensures tr[i].count == |all| - |tr[i].free| - |Where(tr[i].pcs, (pc: Pc) => pc.Taken?)|
                           + |Where(tr[i].pcs, (pc: Pc) => pc.Given?)|
  {
    RunKeepsInv(all, tr, i);
    var pcs := tr[i].pcs;
    SplitWhere(pcs, (pc: Pc) => pc.Owns(), (pc: Pc) => pc.Returning? || pc.Giving?, (pc: Pc) => pc.Taken?);
    SplitWhere(pcs, (pc: Pc) => pc.GivingUp(), (pc: Pc) => pc.Returning? || pc.Giving?, (pc: Pc) => pc.Given?);
  }

  // ---------------------------------------------------------------- the dirty count below zero

  /** In every run of these threads on these slots the dirty count stays at zero or above. */
  ghost predicate DirtyCountNeverNegative(all: set<nat>, threads: set<Thread>) {
    forall tr: seq<State>, i: nat :: Run(all, tr) && i < |tr| && tr[0].pcs.Keys == threads ==> tr[i].dirtyCount >= 0
  }

  /** With one thread, a bit it has just set is still set. */
  ghost predicate OwnBitStands(s: State) {
    && |s.pcs| <= 1
    && forall t <- s.pcs :: s.pcs[t].Raising() ==> s.pcs[t].i in s.dirty
  }

  lemma SubsetSize<T>(a: set<T>, b: set<T>)
    requires a <= b
    ensures |a| <= |b|
  {
    assert b == a + (b - a);
  }

  lemma OnlyThread(s: State, t: Thread)
    requires |s.pcs| <= 1 && t in s.pcs
    ensures s.pcs.Keys == {t}
  {
    assert s.pcs.Keys == {t} + (s.pcs.Keys - {t});
  }

  lemma OwnBitStep(s: State, t: Thread, a: Action)
    requires OwnBitStands(s) && Enabled(s, t, a) && s.pcs.Keys == {t}
    ensures OwnBitStands(Do(s, t, a))
  {
    assert Do(s, t, a).pcs.Keys == {t};
  }

  lemma {:induction false} OneThreadRun(all: set<nat>, tr: seq<State>, i: nat)
    requires Run(all, tr) && i < |tr| && |tr[0].pcs| <= 1
    ensures OwnBitStands(tr[i])
  {
    if i > 0 {
      OneThreadRun(all, tr, i - 1);
      assert Next(tr[i - 1], tr[i - 1 + 1]);
      var s := tr[i - 1];
      var t, a :| Enabled(s, t, a) && tr[i] == Do(s, t, a);
      OnlyThread(s, t);
      OwnBitStep(s, t, a);
    }
  }

  lemma OneThreadStaysAbove(s: State)
    requires OwnBitStands(s) && DirtyRight(s)
    ensures s.dirtyCount >= 0
  {
    var raising := Where(s.pcs, (pc: Pc) => pc.Raising());
    SubsetSize(raising, s.pcs.Keys);
    if raising != {} {
      var t :| t in raising;
      assert s.pcs[t].i in s.dirty;
    }
  }

  /** Thread t flips bit i and stops before it counts. */
  ghost function Flip(s: State, t: Thread, i: nat, want: bool): (tr: seq<State>)
    requires t in s.pcs
    ensures |tr| == 5
  {
    [s, Goto(s, t, Marking(i, want)), Goto(s, t, Trying(i, want)), Goto(s, t, Flipping(i, want, RowOf(s.dirty, i))),
     Goto(s, t, Flipped(i, want)).(dirty := if want then s.dirty + {i} else s.dirty - {i})]
  }

  ghost predicate Steps(tr: seq<State>) {
    |tr| > 0 && forall i :: 0 <= i < |tr| - 1 ==> Next(tr[i], tr[i + 1])
  }

  lemma GotoAgain(s: State, t: Thread, pc: Pc, pc': Pc)
    ensures Goto(Goto(s, t, pc), t, pc') == Goto(s, t, pc')
  {
    assert s.pcs[t := pc][t := pc'] == s.pcs[t := pc'];
  }

  lemma StepIsNext(s: State, t: Thread, a: Action, s': State)
    requires Enabled(s, t, a) && s' == Do(s, t, a)
    ensures Next(s, s')
  {
  }

  lemma FlipSteps(s: State, t: Thread, i: nat, want: bool)
    requires t in s.pcs && s.pcs[t].Idle? && i in s.slots && Has(s.dirty, i) != want
    ensures Steps(Flip(s, t, i, want))
  {
    var tr := Flip(s, t, i, want);
    GotoAgain(s, t, tr[1].pcs[t], tr[2].pcs[t]);
    GotoAgain(s, t, tr[2].pcs[t], tr[3].pcs[t]);
    GotoAgain(s, t, tr[3].pcs[t], tr[4].pcs[t]);
    StepIsNext(tr[0], t, StartDirty(i, want), tr[1]);
    StepIsNext(tr[1], t, Check, tr[2]);
    StepIsNext(tr[2], t, LoadDirty, tr[3]);
    StepIsNext(tr[3], t, SwapDirty, tr[4]);
  }

  lemma JoinSteps(a: seq<State>, b: seq<State>)
    requires Steps(a) && Steps(b) && a[|a| - 1] == b[0]
    ensures Steps(a + b[1..])
  {
    var c := a + b[1..];
    forall i | 0 <= i < |c| - 1
      ensures Next(c[i], c[i + 1])
    {
      if i >= |a| - 1 {
        assert Next(b[i - |a| + 1], b[i - |a| + 2]);
      }
    }
  }

  /** Thread t sets a bit; before it counts, thread u clears the bit and counts. */
  lemma SecondThreadGoesBelow(all: set<nat>, s: State, slot: nat, t: Thread, u: Thread) returns (tr: seq<State>)
    requires Init(all, s) && slot in all && t in s.pcs && u in s.pcs && t != u
    ensures Run(all, tr) && tr[0] == s && tr[|tr| - 1].dirtyCount == -1
  {
    var first := Flip(s, t, slot, true);
    FlipSteps(s, t, slot, true);
    var second := Flip(first[4], u, slot, false);
    FlipSteps(first[4], u, slot, false);
    JoinSteps(first, second);
    var last := [second[4], Do(second[4], u, CountDirty)];
    assert Enabled(second[4], u, CountDirty) && Next(last[0], last[1]);
    JoinSteps(first + second[1..], last);
    tr := first + second[1..] + last[1..];
  }

  /** Without slots nothing is ever marked. */
  ghost predicate Untouched(s: State) {
    && s.slots == {} && s.dirtyCount == 0
    && forall t <- s.pcs :: !s.pcs[t].Marking? && !s.pcs[t].Trying? && !s.pcs[t].Flipping? && !s.pcs[t].Flipped?
  }

  lemma {:induction false} NoSlotsNoMarks(tr: seq<State>, i: nat)
    requires Run({}, tr) && i < |tr|
    ensures Untouched(tr[i])
  {
    if i > 0 {
      NoSlotsNoMarks(tr, i - 1);
      assert Next(tr[i - 1], tr[i - 1 + 1]);
      var t, a :| Enabled(tr[i - 1], t, a) && tr[i] == Do(tr[i - 1], t, a);
    }
  }

  lemma TwoThreadsGoBelow(all: set<nat>, threads: set<Thread>)
    requires all != {} && |threads| > 1
    ensures !DirtyCountNeverNegative(all, threads)
  {
    var slot :| slot in all;
    var t :| t in threads;
    assert |threads - {t}| == |threads| - 1 > 0;
    var u :| u in threads - {t};
    var s := State(all, all, {}, 0, {}, 0, map x <- threads :: Idle);
    var tr := SecondThreadGoesBelow(all, s, slot, t, u);
    assert tr[0].pcs.Keys == threads && tr[|tr| - 1].dirtyCount < 0;
  }

  /** The dirty count stays at zero or above in every run exactly when at most one thread uses the bitmap
      or the bitmap has no slots. */
  lemma DirtyCountNeverNegativeExactly(all: set<nat>, threads: set<Thread>)
    ensures DirtyCountNeverNegative(all, threads) <==> |threads| <= 1 || all == {}
  {
    if |threads| <= 1 || all == {} {
      forall tr: seq<State>, i: nat | Run(all, tr) && i < |tr| && tr[0].pcs.Keys == threads
        ensures tr[i].dirtyCount >= 0
      {
        if all == {} {
          NoSlotsNoMarks(tr, i);
        } else {
          RunKeepsInv(all, tr, i);
          OneThreadRun(all, tr, i);
          OneThreadStaysAbove(tr[i]);
        }
      }
    } else {
      TwoThreadsGoBelow(all, threads);
    }
  }

  // ---------------------------------------------------------------- undisturbed operations complete

  ghost predicate StepOf(t: Thread, s: State, s': State) {
    exists a :: Enabled(s, t, a) && s' == Do(s, t, a)
  }

  /** The steps of thread t from s to s'. */
  ghost predicate RunOf(t: Thread, tr: seq<State>, s: State, s': State) {
    && |tr| > 0 && tr[0] == s && tr[|tr| - 1] == s'
    && forall i :: 0 <= i < |tr| - 1 ==> StepOf(t, tr[i], tr[i + 1])
  }

  lemma StepIsOwn(s: State, t: Thread, a: Action, s': State)
    requires Enabled(s, t, a) && s' == Do(s, t, a)
    ensures StepOf(t, s, s')
  {
  }

  /** A free slot is taken, handed out and counted. */
  lemma ReserveCompletes(s: State, t: Thread, slot: nat) returns (tr: seq<State>)
    requires t in s.pcs && s.pcs[t].Idle? && slot in s.free && slot in s.slots
    ensures RunOf(t, tr, s, s.(free := s.free - {slot}, held := s.held + {slot}, count := s.count + 1))
  {
    var found, taking := Goto(s, t, Found(slot)), Goto(s, t, Taking(slot, RowOf(s.free, slot)));
    var taken := Goto(s, t, Taken(slot)).(free := s.free - {slot});
    GotoAgain(s, t, Found(slot), Taking(slot, RowOf(s.free, slot)));
    GotoAgain(s, t, Taking(slot, RowOf(s.free, slot)), Taken(slot));
    var done := s.(free := s.free - {slot}, held := s.held + {slot}, count := s.count + 1);
    assert s.pcs[t := Taken(slot)][t := Idle] == s.pcs;
    StepIsOwn(s, t, Scan(slot), found);
    StepIsOwn(found, t, LoadFree, taking);
    StepIsOwn(taking, t, SwapFree, taken);
    StepIsOwn(taken, t, CountUp, done);
    tr := [s, found, taking, taken, done];
  }

  /** A slot that was handed out becomes free and is counted down. */
  lemma RecycleCompletes(s: State, t: Thread, slot: nat) returns (tr: seq<State>)
    requires t in s.pcs && s.pcs[t].Idle? && slot in s.held && slot !in s.free
    ensures RunOf(t, tr, s, s.(free := s.free + {slot}, held := s.held - {slot}, count := s.count - 1))
  {
    var out := s.(held := s.held - {slot});
    var returning, giving := Goto(out, t, Returning(slot)), Goto(out, t, Giving(slot, RowOf(s.free, slot)));
    var given := Goto(out, t, Given).(free := s.free + {slot});
    GotoAgain(out, t, Returning(slot), Giving(slot, RowOf(s.free, slot)));
    GotoAgain(out, t, Giving(slot, RowOf(s.free, slot)), Given);
    var done := s.(free := s.free + {slot}, held := s.held - {slot}, count := s.count - 1);
    assert s.pcs[t := Given][t := Idle] == s.pcs;
    StepIsOwn(s, t, StartRecycle(slot), returning);
    StepIsOwn(returning, t, LoadUsed, giving);
    StepIsOwn(giving, t, SwapUsed, given);
    StepIsOwn(given, t, CountDown, done);
    tr := [s, returning, giving, given, done];
  }

  /** A bit that differs is flipped and counted; a bit that does not is left alone. */
  lemma SetDirtyCompletes(s: State, t: Thread, slot: nat, want: bool) returns (tr: seq<State>)
    requires t in s.pcs && s.pcs[t].Idle? && slot in s.slots
    ensures RunOf(t, tr, s, if Has(s.dirty, slot) == want then s
                            else if want then s.(dirty := s.dirty + {slot}, dirtyCount := s.dirtyCount + 1)
                            else s.(dirty := s.dirty - {slot}, dirtyCount := s.dirtyCount - 1))
  {
    var marking, trying := Goto(s, t, Marking(slot, want)), Goto(s, t, Trying(slot, want));
    StepIsOwn(s, t, StartDirty(slot, want), marking);
    if Has(s.dirty, slot) == want {
      assert s.pcs[t := Marking(slot, want)][t := Idle] == s.pcs;
      StepIsOwn(marking, t, Check, s);
      tr := [s, marking, s];
    } else {
      var flipping := Goto(s, t, Flipping(slot, want, RowOf(s.dirty, slot)));
      var flipped := Goto(s, t, Flipped(slot, want)).(dirty := if want then s.dirty + {slot} else s.dirty - {slot});
      GotoAgain(s, t, Marking(slot, want), Trying(slot, want));
      GotoAgain(s, t, Trying(slot, want), Flipping(slot, want, RowOf(s.dirty, slot)));
      GotoAgain(s, t, Flipping(slot, want, RowOf(s.dirty, slot)), Flipped(slot, want));
      StepIsOwn(marking, t, Check, trying);
      StepIsOwn(trying, t, LoadDirty, flipping);
      StepIsOwn(flipping, t, SwapDirty, flipped);
      assert s.pcs[t := Flipped(slot, want)][t := Idle] == s.pcs;
      var done := Do(flipped, t, CountDirty);
      StepIsOwn(flipped, t, CountDirty, done);
      tr := [s, marking, trying, flipping, flipped, done];
    }
  }

  /** The loop of SetDirty is left only where it sees the bit as it should be, or after it flipped the bit. */
  lemma DirtyLoopEndsDone(s: State, t: Thread, a: Action)
    requires Enabled(s, t, a) && (s.pcs[t].Marking? || s.pcs[t].Trying? || s.pcs[t].Flipping?)
    ensures var pc, s' := s.pcs[t], Do(s, t, a);
      && (s'.pcs[t].Idle? ==> a.Check? && s' == Goto(s, t, Idle) && Has(s.dirty, pc.i) == pc.want)
      && (s'.pcs[t].Flipped? ==> Has(s'.dirty, pc.i) == s'.pcs[t].want == pc.want && s'.pcs[t].i == pc.i)
      && (s'.pcs[t].Idle? || s'.pcs[t].Flipped? || s' == Goto(s, t, s'.pcs[t]))
  {
  }

  /** A swap that finds its row changed gives the slot back: the caller of a recycle has it again, the
      caller of a reserve never had it, and nothing is counted. */
  lemma LostSwapsGiveBack(s: State, t: Thread)
    requires t in s.pcs && (s.pcs[t].Taking? || s.pcs[t].Giving?)
    requires RowOf(s.free, s.pcs[t].i) != s.pcs[t].snapshot
    ensures s.pcs[t].Taking? ==> Do(s, t, SwapFree) == Goto(s, t, Idle)
    ensures s.pcs[t].Giving? ==> Do(s, t, SwapUsed) == Goto(s, t, Idle).(held := s.held + {s.pcs[t].i})
  {
  }

  /** Recycling a slot that is free already, which no run does, counts it down all the same. */
  lemma RecycleOfFreeCounts(s: State, t: Thread)
    requires t in s.pcs && s.pcs[t].Returning? && s.pcs[t].i in s.free
    ensures Enabled(Do(s, t, LoadUsed), t, CountDown)
    ensures Do(Do(s, t, LoadUsed), t, CountDown) == Goto(s, t, Idle).(count := s.count - 1)
  {
    GotoAgain(s, t, Given, Idle);
  }
}
