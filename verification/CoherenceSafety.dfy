/** Coherent reads on non-coherent memory: the invariant, and every accepted read returns the
    last completed write when all writes cover the same range. */
module CoherenceSafety {
  import opened Common
  import opened SeqlockWord
  import opened CoherenceProtocol

  // ---------------------------------------------------------------- the invariant

  /** A clean line whose value was committed at sequence number `q`. */
  ghost predicate CommittedAt(s: State, l: Line, e: CacheLine, q: Count) {
    && !e.dirty
    && q % 2 == 0 && q / 2 < |s.history|
    && l in s.history[q / 2] && e.val == s.history[q / 2][l]
  }

  /** The key invariant: a node outside a read or write caches only lines committed at the sequence
      number it remembers, and none if it remembers none. */
  ghost predicate Remembers(s: State, node: Node) {
    forall l <- node.cache :: node.local.Some? && CommittedAt(s, l, node.cache[l], node.local.value)
  }

  ghost predicate AllClean(node: Node) {
    forall l <- node.cache :: !node.cache[l].dirty
  }

  /** A reader: as long as the count it started from is current, all it cached and copied was
      committed at that count. */
  ghost predicate ReadOk(c: Config, s: State, node: Node, start: Count, cached: bool, want: set<Line>, buf: Contents) {
    && start % 2 == 0 && start / 2 < |s.history|
    && node.local == (if cached then Some(start) else None)
    && AllClean(node)
    && buf.Keys <= want <= c.lines
    && (s.word.count == start ==>
          && (forall l <- node.cache :: CommittedAt(s, l, node.cache[l], start))
          && (forall l <- buf :: l in s.history[start / 2] && buf[l] == s.history[start / 2][l]))
  }

  /** A line outside the common range: clean, and with the value it has had all along. */
  ghost predicate Outside(s: State, range: set<Line>, l: Line, e: CacheLine) {
    && !e.dirty && l !in range
    && |s.history| > 0 && l in s.history[0] && e.val == s.history[0][l]
  }

  /** A line the writer has stored: its new value is cached, or already in memory. */
  ghost predicate Stored(s: State, node: Node, data: Contents, l: Line) {
    && l in data && l in s.mem
    && (l in node.cache ==> node.cache[l].val == data[l])
    && ((l in node.cache && node.cache[l].dirty) || s.mem[l] == data[l])
  }

  ghost predicate WriteOk(s: State, range: set<Line>, node: Node, data: Contents, done: set<Line>) {
    && data.Keys == range && done <= range
    && (forall l <- done :: Stored(s, node, data, l))
    && (forall l <- node.cache :: l !in done ==> !node.cache[l].dirty)
    && (forall l <- node.cache :: l !in range ==> Outside(s, range, l, node.cache[l]))
  }

  ghost predicate NodeInv(c: Config, s: State, range: set<Line>, node: Node) {
    && node.cache.Keys <= c.lines
    && match node.pc
       case Idle => Remembers(s, node)
       case WriteLocked => Remembers(s, node)
       case Reading(start, cached, want, buf) => ReadOk(c, s, node, start, cached, want, buf)
       case Checking(start, cached, want, buf) =>
         ReadOk(c, s, node, start, cached, want, buf) && buf.Keys == want
       case Flushing(todo) => AllClean(node) && node.cache.Keys <= todo
       case Writing(data, done) => WriteOk(s, range, node, data, done)
       case WriteFlushing(data, todo) =>
         WriteOk(s, range, node, data, range) && todo <= range && node.cache.Keys !! (range - todo)
       case WriteEnded(start) =>
         && start % 2 == 0 && start / 2 < |s.history|
         && forall l <- node.cache :: Outside(s, range, l, node.cache[l])
  }

  predicate InSection(pc: Pc) {
    pc.WriteLocked? || pc.Writing? || pc.WriteFlushing?
  }

  predicate InData(pc: Pc) {
    pc.Writing? || pc.WriteFlushing?
  }

  ghost predicate HistoryInv(c: Config, s: State, range: set<Line>) {
    && 0 < |s.history| <= SECTION_SPAN
    && (forall v :: 0 <= v < |s.history| ==> s.history[v].Keys == c.lines)
    && (forall v, l :: 0 <= v < |s.history| && l in c.lines && l !in range ==>
          s.history[v][l] == s.history[0][l])
  }

  ghost predicate SectionInv(s: State) {
    && 0 < |s.history| <= SECTION_SPAN
    && !s.word.free
    && s.word.count == 2 * s.Version() + (if s.writer.Some? then 1 else 0)
    && (s.writer.Some? ==> s.word.locked && s.writer.value in s.nodes && |s.history| < SECTION_SPAN)
    && (forall n <- s.nodes :: InSection(s.nodes[n].pc) <==> s.writer == Some(n))
  }

  /** Memory holds the committed contents, except in the range of a writer at work. */
  ghost predicate MemInv(c: Config, s: State, range: set<Line>)
    requires HistoryInv(c, s, range)
  {
    && s.mem.Keys == c.lines
    && forall l <- c.lines ::
         || (l in range && s.writer.Some? && s.writer.value in s.nodes && InData(s.nodes[s.writer.value].pc))
         || s.mem[l] == s.Committed()[l]
  }

  ghost predicate SharedInv(c: Config, s: State, range: set<Line>) {
    SectionInv(s) && HistoryInv(c, s, range) && MemInv(c, s, range)
  }

  ghost predicate Inv(c: Config, s: State, range: set<Line>) {
    && SharedInv(c, s, range)
    && forall n <- s.nodes :: NodeInv(c, s, range, s.nodes[n])
  }

  ghost predicate OnlyRange(c: Config, range: set<Line>) {
    range <= c.lines && forall r <- c.ranges :: r == range
  }

  // ---------------------------------------------------------------- one step

  /** What a step may do to the state other nodes depend on. */
  ghost predicate Frame(s: State, s': State) {
    && 0 < |s.history| <= |s'.history| && s'.history[..|s.history|] == s.history
    && (s'.word.count != s.word.count ==> s'.word.count >= 2 * |s.history| - 1)
  }

  lemma StepFrames(c: Config, s: State, range: set<Line>, n: NodeId, a: Action)
    requires OnlyRange(c, range) && Inv(c, s, range) && Enabled(c, s, n, a)
    ensures Frame(s, Do(c, s, n, a))
  {
  }

  /** Another node, not writing, is not disturbed. */
  lemma FrameKeepsNode(c: Config, s: State, s': State, range: set<Line>, node: Node)
    requires Frame(s, s') && NodeInv(c, s, range, node) && !InData(node.pc)
    ensures NodeInv(c, s', range, node)
  {
    forall l: Line, e: CacheLine, q: Count | CommittedAt(s, l, e, q)
      ensures CommittedAt(s', l, e, q)
    {
      assert s'.history[q / 2] == s.history[q / 2];
    }
  }

  lemma CleanOutsideData(c: Config, s: State, range: set<Line>, node: Node)
    requires NodeInv(c, s, range, node) && !InData(node.pc)
    ensures AllClean(node)
  {
  }

  /** While a node stores its data, no step of another node changes memory or history. */
  lemma DataUndisturbed(c: Config, s: State, range: set<Line>, n: NodeId, a: Action, m: NodeId)
    requires Inv(c, s, range) && Enabled(c, s, n, a)
    requires m in s.nodes && m != n && InData(s.nodes[m].pc)
    ensures Do(c, s, n, a).mem == s.mem && Do(c, s, n, a).history == s.history
  {
    assert s.writer == Some(m);
    CleanOutsideData(c, s, range, s.nodes[n]);
  }

  /** A step of node n leaves every other node's part of the invariant intact. */
  lemma StepKeepsOthers(c: Config, s: State, range: set<Line>, n: NodeId, a: Action, m: NodeId)
    requires OnlyRange(c, range) && Inv(c, s, range) && Enabled(c, s, n, a)
    requires m in s.nodes && m != n
    ensures var s' := Do(c, s, n, a); m in s'.nodes && NodeInv(c, s', range, s'.nodes[m])
  {
    var s' := Do(c, s, n, a);
    StepFrames(c, s, range, n, a);
    assert s'.nodes[m] == s.nodes[m];
    if InData(s.nodes[m].pc) {
      DataUndisturbed(c, s, range, n, a, m);
    } else {
      FrameKeepsNode(c, s, s', range, s.nodes[m]);
    }
  }

  /** The acting node and what it shares with the others. */
  ghost predicate Here(c: Config, s: State, range: set<Line>, n: NodeId) {
    OnlyRange(c, range) && SharedInv(c, s, range) && n in s.nodes && NodeInv(c, s, range, s.nodes[n])
  }

  lemma ReadKeepsNode(c: Config, s: State, range: set<Line>, n: NodeId, a: Action)
    requires Here(c, s, range, n) && Enabled(c, s, n, a)
    requires a.ReadStart? || a.NotificationFails? || a.NotificationPasses? || a.ReadEnd?
    ensures var s' := Do(c, s, n, a); NodeInv(c, s', range, s'.nodes[n])
  {
  }

  lemma ReadLineKeepsNode(c: Config, s: State, range: set<Line>, n: NodeId, a: Action)
    requires Here(c, s, range, n) && Enabled(c, s, n, a) && a.ReadLine?
    ensures var s' := Do(c, s, n, a); NodeInv(c, s', range, s'.nodes[n])
  {
  }

  lemma FlushKeepsNode(c: Config, s: State, range: set<Line>, n: NodeId, a: Action)
    requires Here(c, s, range, n) && Enabled(c, s, n, a)
    requires a.FlushLine? || a.FlushDone?
    ensures var s' := Do(c, s, n, a); NodeInv(c, s', range, s'.nodes[n])
  {
  }

  lemma LockKeepsNode(c: Config, s: State, range: set<Line>, n: NodeId, a: Action)
    requires Here(c, s, range, n) && Enabled(c, s, n, a)
    requires a.WriteStart? || a.WriteAbort? || a.WriteGo? || a.LockOnly? || a.UnlockOnly?
    ensures var s' := Do(c, s, n, a); NodeInv(c, s', range, s'.nodes[n])
  {
  }

  lemma StoreKeepsNode(c: Config, s: State, range: set<Line>, n: NodeId, a: Action)
    requires Here(c, s, range, n) && Enabled(c, s, n, a)
    requires a.StoreLine? || a.StoresDone? || a.WriteFlushLine?
    ensures var s' := Do(c, s, n, a); NodeInv(c, s', range, s'.nodes[n])
  {
  }

  lemma EndKeepsNode(c: Config, s: State, range: set<Line>, n: NodeId, a: Action)
    requires Here(c, s, range, n) && Enabled(c, s, n, a)
    requires a.WriteEnd? || a.WriteRemember?
    ensures var s' := Do(c, s, n, a); NodeInv(c, s', range, s'.nodes[n])
  {
    SuccSmall(s.word.count);
  }

  lemma EvictKeepsNode(c: Config, s: State, range: set<Line>, n: NodeId, a: Action)
    requires Here(c, s, range, n) && Enabled(c, s, n, a) && a.Evict?
    ensures var s' := Do(c, s, n, a); NodeInv(c, s', range, s'.nodes[n])
  {
  }

  lemma WriteBackKeepsNode(c: Config, s: State, range: set<Line>, n: NodeId, a: Action)
    requires Here(c, s, range, n) && Enabled(c, s, n, a) && a.WriteBack?
    ensures var s' := Do(c, s, n, a); NodeInv(c, s', range, s'.nodes[n])
  {
  }

  lemma StepKeepsNode(c: Config, s: State, range: set<Line>, n: NodeId, a: Action)
    requires Here(c, s, range, n) && Enabled(c, s, n, a)
    ensures var s' := Do(c, s, n, a); NodeInv(c, s', range, s'.nodes[n])
  {
    match a {
      case ReadStart(_) => ReadKeepsNode(c, s, range, n, a);
      case ReadLine(_) => ReadLineKeepsNode(c, s, range, n, a);
      case NotificationFails => ReadKeepsNode(c, s, range, n, a);
      case NotificationPasses => ReadKeepsNode(c, s, range, n, a);
      case ReadEnd => ReadKeepsNode(c, s, range, n, a);
      case FlushLine(_) => FlushKeepsNode(c, s, range, n, a);
      case FlushDone => FlushKeepsNode(c, s, range, n, a);
      case StoreLine(_) => StoreKeepsNode(c, s, range, n, a);
      case StoresDone => StoreKeepsNode(c, s, range, n, a);
      case WriteFlushLine(_) => StoreKeepsNode(c, s, range, n, a);
      case WriteEnd => EndKeepsNode(c, s, range, n, a);
      case WriteRemember => EndKeepsNode(c, s, range, n, a);
      case Evict(_) => EvictKeepsNode(c, s, range, n, a);
      case WriteBack(_) => WriteBackKeepsNode(c, s, range, n, a);
      case _ => LockKeepsNode(c, s, range, n, a);
    }
  }

  lemma SuccSmall(x: Count)
    ensures Succ(x) == if x + 1 == COUNT_SPAN then 0 else x + 1
  {
  }

  predicate TouchesWord(a: Action) {
    a.WriteStart? || a.WriteAbort? || a.WriteEnd? || a.LockOnly? || a.UnlockOnly?
  }

  lemma WordStepKeepsSections(c: Config, s: State, n: NodeId, a: Action)
    requires SectionInv(s) && Enabled(c, s, n, a) && TouchesWord(a)
    ensures SectionInv(Do(c, s, n, a))
  {
    SuccSmall(s.word.count);
  }

  lemma OtherStepKeepsSections(c: Config, s: State, n: NodeId, a: Action)
    requires SectionInv(s) && Enabled(c, s, n, a) && !TouchesWord(a)
    ensures SectionInv(Do(c, s, n, a))
  {
    var s' := Do(c, s, n, a);
    assert s'.word == s.word && s'.writer == s.writer && s'.history == s.history;
    assert InSection(s'.nodes[n].pc) == InSection(s.nodes[n].pc);
  }

  lemma StepKeepsHistory(c: Config, s: State, range: set<Line>, n: NodeId, a: Action)
    requires Here(c, s, range, n) && Enabled(c, s, n, a)
    ensures HistoryInv(c, Do(c, s, n, a), range)
  {
  }

  predicate TouchesMem(a: Action) {
    a.FlushLine? || a.WriteFlushLine? || a.Evict? || a.WriteBack?
  }

  lemma MemStepKeepsMem(c: Config, s: State, range: set<Line>, n: NodeId, a: Action)
    requires Here(c, s, range, n) && Enabled(c, s, n, a) && TouchesMem(a)
    requires HistoryInv(c, Do(c, s, n, a), range)
    ensures MemInv(c, Do(c, s, n, a), range)
  {
  }

  lemma OtherStepKeepsMem(c: Config, s: State, range: set<Line>, n: NodeId, a: Action)
    requires Here(c, s, range, n) && Enabled(c, s, n, a) && !TouchesMem(a)
    requires HistoryInv(c, Do(c, s, n, a), range)
    ensures MemInv(c, Do(c, s, n, a), range)
  {
  }

  lemma StepKeepsInv(c: Config, s: State, range: set<Line>, n: NodeId, a: Action)
    requires OnlyRange(c, range) && Inv(c, s, range) && Enabled(c, s, n, a)
    ensures Inv(c, Do(c, s, n, a), range)
  {
    var s' := Do(c, s, n, a);
    if TouchesWord(a) {
      WordStepKeepsSections(c, s, n, a);
    } else {
      OtherStepKeepsSections(c, s, n, a);
    }
    StepKeepsHistory(c, s, range, n, a);
    if TouchesMem(a) {
      MemStepKeepsMem(c, s, range, n, a);
    } else {
      OtherStepKeepsMem(c, s, range, n, a);
    }
    forall m <- s'.nodes
      ensures NodeInv(c, s', range, s'.nodes[m])
    {
      if m == n {
        StepKeepsNode(c, s, range, n, a);
      } else {
        StepKeepsOthers(c, s, range, n, a, m);
      }
    }
  }

  // ---------------------------------------------------------------- every run

  lemma {:induction false} RunKeepsInv(c: Config, tr: seq<State>, range: set<Line>, i: nat)
    requires OnlyRange(c, range) && Run(c, tr) && i < |tr|
    ensures Inv(c, tr[i], range)
  {
    if i > 0 {
      RunKeepsInv(c, tr, range, i - 1);
      assert Next(c, tr[i - 1], tr[i]);
      var n, a :| Enabled(c, tr[i - 1], n, a) && tr[i] == Do(c, tr[i - 1], n, a);
      StepKeepsInv(c, tr[i - 1], range, n, a);
    }
  }

  lemma ReachableInv(c: Config, s: State) returns (range: set<Line>)
    requires c.Ok() && c.SameRange() && Reachable(c, s)
    ensures OnlyRange(c, range) && Inv(c, s, range)
  {
    if c.ranges == {} {
      range := {};
    } else {
      range :| range in c.ranges;
    }
    var tr :| Run(c, tr) && tr[|tr| - 1] == s;
    RunKeepsInv(c, tr, range, |tr| - 1);
  }

  /** A node between operations caches only lines committed at the sequence number it remembers;
      a node that remembers none caches none. */
  lemma IdleNodesCacheCommittedLines(c: Config, s: State, n: NodeId, l: Line)
    requires c.Ok() && c.SameRange() && Reachable(c, s)
    requires n in s.nodes && s.nodes[n].pc.Idle? && l in s.nodes[n].cache
    ensures s.nodes[n].local.Some?
    ensures CommittedAt(s, l, s.nodes[n].cache[l], s.nodes[n].local.value)
  {
    var range := ReachableInv(c, s);
  }

  /** Every accepted read returns exactly what the last completed write left in the lines it asked
      for, and no write section completed or was open since the read started. */
  lemma AcceptedReadsAreCoherent(c: Config, s: State, n: NodeId)
    requires c.Ok() && c.SameRange() && Reachable(c, s) && Accepting(s, n)
    ensures ReadsLastWrite(s, n)
    ensures s.writer == None && s.nodes[n].pc.start == 2 * s.Version()
  {
    var range := ReachableInv(c, s);
    assert NodeInv(c, s, range, s.nodes[n]);
  }
}
