/** Reads and writes that are not disturbed complete: from every reachable state in which a node is idle,
    its own steps carry out the read or the write it is asked for. */
module CoherenceProgress {
  import opened Common
  import opened SeqlockWord
  import opened CoherenceProtocol
  import opened CoherenceSafety

  // ---------------------------------------------------------------- steps of one node

  lemma Extend(c: Config, s: State, n: NodeId, a: Action)
    requires Reachable(c, s) && Enabled(c, s, n, a)
    ensures Reachable(c, Do(c, s, n, a))
  {
    var s' := Do(c, s, n, a);
    var tr :| Run(c, tr) && tr[|tr| - 1] == s;
    assert Next(c, s, s');
    assert Run(c, tr + [s']) && (tr + [s'])[|tr|] == s';
  }

  ghost predicate StepOf(c: Config, n: NodeId, s: State, s': State) {
    exists a :: Enabled(c, s, n, a) && s' == Do(c, s, n, a)
  }

  ghost predicate RunOf(c: Config, n: NodeId, tr: seq<State>, s: State, s': State) {
    && |tr| > 0 && tr[0] == s && tr[|tr| - 1] == s'
    && forall i :: 0 <= i < |tr| - 1 ==> StepOf(c, n, tr[i], tr[i + 1])
  }

  /** Steps of node n alone lead from s to s'. */
  ghost predicate Reaches(c: Config, n: NodeId, s: State, s': State) {
    exists tr :: RunOf(c, n, tr, s, s')
  }

  lemma Stay(c: Config, s: State, n: NodeId)
    ensures Reaches(c, n, s, s)
  {
    assert RunOf(c, n, [s], s, s);
  }

  lemma Step(c: Config, from: State, s: State, n: NodeId, a: Action)
    requires Reaches(c, n, from, s) && Enabled(c, s, n, a)
    ensures Reaches(c, n, from, Do(c, s, n, a))
  {
    var s' := Do(c, s, n, a);
    var tr :| RunOf(c, n, tr, from, s);
    assert StepOf(c, n, s, s');
    assert RunOf(c, n, tr + [s'], from, s');
  }

  lemma ReachesReachable(c: Config, s: State, n: NodeId, s': State)
    requires Reachable(c, s) && Reaches(c, n, s, s')
    ensures Reachable(c, s')
  {
    var tr :| RunOf(c, n, tr, s, s');
    for i := 0 to |tr| - 1
      invariant Reachable(c, tr[i])
    {
      assert StepOf(c, n, tr[i], tr[i + 1]);
      var a :| Enabled(c, tr[i], n, a) && tr[i + 1] == Do(c, tr[i], n, a);
      Extend(c, tr[i], n, a);
    }
  }

  /** Whatever the ranges, memory always has every line of the slot. */
  lemma ReachableMem(c: Config, s: State)
    requires Reachable(c, s)
    ensures c.lines <= s.mem.Keys && s.HasHistory()
  {
    var tr :| Run(c, tr) && tr[|tr| - 1] == s;
    MemGrows(c, tr, |tr| - 1);
  }

  lemma {:induction false} MemGrows(c: Config, tr: seq<State>, i: nat)
    requires Run(c, tr) && i < |tr|
    ensures c.lines <= tr[i].mem.Keys && tr[i].HasHistory()
  {
    if i > 0 {
      MemGrows(c, tr, i - 1);
      assert Next(c, tr[i - 1], tr[i]);
      var n, a :| Enabled(c, tr[i - 1], n, a) && tr[i] == Do(c, tr[i - 1], n, a);
    }
  }

  // ---------------------------------------------------------------- writes

  /** Node n worked on lines of `range` only, and on nothing shared but memory. */
  ghost predicate Kept(s: State, s': State, n: NodeId, range: set<Line>) {
    && s'.word == s.word && s'.history == s.history && s'.writer == s.writer
    && n in s.nodes && s'.nodes.Keys == s.nodes.Keys
    && (forall m <- s.nodes :: m != n ==> s'.nodes[m] == s.nodes[m])
    && s'.nodes[n].local == s.nodes[n].local
    && KeptLines(s.nodes[n], s'.nodes[n], range)
  }

  ghost predicate KeptLines(node: Node, node': Node, range: set<Line>) {
    forall l <- node.cache :: l !in range ==> l in node'.cache && node'.cache[l] == node.cache[l]
  }

  lemma {:induction false} StoreAll(c: Config, from: State, s: State, n: NodeId, rest: set<Line>) returns (s': State)
    requires Reaches(c, n, from, s) && s.HasHistory() && n in s.nodes && s.nodes[n].pc.Writing?
    requires var pc := s.nodes[n].pc; pc.data.Keys - pc.done == rest && pc.done <= pc.data.Keys
    ensures Reaches(c, n, from, s') && Kept(s, s', n, s.nodes[n].pc.data.Keys)
    ensures s'.nodes[n].pc == Writing(s.nodes[n].pc.data, s.nodes[n].pc.data.Keys)
    decreases |rest|
  {
    var pc := s.nodes[n].pc;
    if rest == {} {
      s' := s;
      forall l <- pc.data.Keys
        ensures l in pc.done
      {
        assert l !in pc.data.Keys - pc.done;
      }
      assert pc.done == pc.data.Keys;
    } else {
      var l :| l in rest;
      Step(c, from, s, n, StoreLine(l));
      s' := StoreAll(c, from, Do(c, s, n, StoreLine(l)), n, rest - {l});
    }
  }

  lemma {:induction false} FlushAll(c: Config, from: State, s: State, n: NodeId, rest: set<Line>) returns (s': State)
    requires Reaches(c, n, from, s) && s.HasHistory() && n in s.nodes && s.nodes[n].pc.WriteFlushing?
    requires var pc := s.nodes[n].pc; pc.todo == rest <= pc.data.Keys
    ensures Reaches(c, n, from, s') && Kept(s, s', n, s.nodes[n].pc.data.Keys)
    ensures s'.nodes[n].pc == WriteFlushing(s.nodes[n].pc.data, {})
    decreases |rest|
  {
    if rest == {} {
      s' := s;
    } else {
      var l :| l in rest;
      Step(c, from, s, n, WriteFlushLine(l));
      s' := FlushAll(c, from, Do(c, s, n, WriteFlushLine(l)), n, rest - {l});
    }
  }

  /** A write from WSeqBegin up to WSeqEnd. */
  lemma CopyIn(c: Config, from: State, s: State, n: NodeId, data: Contents) returns (s': State)
    requires Reaches(c, n, from, s) && s.HasHistory() && |s.history| < SECTION_SPAN
    requires n in s.nodes && s.nodes[n].pc == Idle && data.Keys in c.ranges
    requires !s.word.free && !s.word.locked
    ensures Reaches(c, n, from, s')
    ensures Kept(s.(word := BeginWord(s.word), writer := Some(n)), s', n, data.Keys)
    ensures s'.nodes[n].pc == WriteFlushing(data, {})
  {
    Step(c, from, s, n, WriteStart);
    var t := Do(c, s, n, WriteStart);
    Step(c, from, t, n, WriteGo(data));
    t := Do(c, t, n, WriteGo(data));
    t := StoreAll(c, from, t, n, data.Keys);
    Step(c, from, t, n, StoresDone);
    t := Do(c, t, n, StoresDone);
    s' := FlushAll(c, from, t, n, data.Keys);
  }

  /** The end of a write whose lines are flushed. */
  lemma FinishWrite(c: Config, from: State, s: State, n: NodeId) returns (s': State)
    requires Reaches(c, n, from, s) && s.HasHistory() && n in s.nodes
    requires s.nodes[n].pc.WriteFlushing? && s.nodes[n].pc.todo == {}
    ensures Reaches(c, n, from, s') && s'.nodes.Keys == s.nodes.Keys
    ensures s'.word == EndWord(s.word) && s'.history == s.history + [s.Committed() + s.nodes[n].pc.data]
    ensures forall m <- s.nodes :: m != n ==> s'.nodes[m] == s.nodes[m]
    ensures s'.nodes[n] == Node(Some(s'.word.count), s.nodes[n].cache, Idle)
  {
    Step(c, from, s, n, WriteEnd);
    var t := Do(c, s, n, WriteEnd);
    Step(c, from, t, n, WriteRemember);
    s' := Do(c, t, n, WriteRemember);
  }

  /** From every reachable state in which node n is idle and the record is allocated and unlocked, n's own
      steps complete a write of any data: it is committed, the count moves on by two and n remembers it. */
  lemma WriteCompletes(c: Config, s: State, n: NodeId, data: Contents) returns (s': State)
    requires Reachable(c, s) && s.HasHistory() && |s.history| < SECTION_SPAN
    requires n in s.nodes && s.nodes[n].pc == Idle && data.Keys in c.ranges
    requires !s.word.free && !s.word.locked && s.word.count + 2 < COUNT_SPAN
    ensures Reachable(c, s') && Reaches(c, n, s, s') && s'.nodes.Keys == s.nodes.Keys
    ensures s'.word == Word(false, false, s.word.count + 2)
    ensures s'.history == s.history + [s.Committed() + data]
    ensures forall m <- s.nodes :: m != n ==> s'.nodes[m] == s.nodes[m]
    ensures s'.nodes[n].pc == Idle && s'.nodes[n].local == Some(s'.word.count)
    ensures KeptLines(s.nodes[n], s'.nodes[n], data.Keys)
  {
    Stay(c, s, n);
    SuccSmall(s.word.count);
    SuccSmall(s.word.count + 1);
    var t := CopyIn(c, s, s, n, data);
    s' := FinishWrite(c, s, t, n);
    ReachesReachable(c, s, n, s');
  }

  // ---------------------------------------------------------------- reads

  /** Only node n changed, and of what is shared only memory. */
  ghost predicate Alone(s: State, s': State, n: NodeId) {
    && s'.word == s.word && s'.history == s.history && s'.writer == s.writer
    && n in s.nodes && s'.nodes.Keys == s.nodes.Keys
    && forall m <- s.nodes :: m != n ==> s'.nodes[m] == s.nodes[m]
  }

  /** The flush before a retry drops every line. */
  lemma {:induction false} DropAll(c: Config, from: State, s: State, n: NodeId, rest: set<Line>) returns (s': State)
    requires Reaches(c, n, from, s) && s.HasHistory() && n in s.nodes && s.nodes[n].pc == Flushing(rest)
    ensures Reaches(c, n, from, s') && Alone(s, s', n)
    ensures s'.nodes[n].pc == Flushing({}) && s'.nodes[n].local == s.nodes[n].local
    ensures s'.nodes[n].cache.Keys == s.nodes[n].cache.Keys - rest
    decreases |rest|
  {
    if rest == {} {
      s' := s;
    } else {
      var l :| l in rest;
      Step(c, from, s, n, FlushLine(l));
      s' := DropAll(c, from, Do(c, s, n, FlushLine(l)), n, rest - {l});
    }
  }

  /** A read at work on these lines, of which `rest` are still to be copied. */
  ghost predicate ReadingRest(s: State, n: NodeId, start: Count, cached: bool, want: set<Line>, rest: set<Line>) {
    && s.HasHistory() && n in s.nodes && s.nodes[n].pc.Reading? && want <= s.mem.Keys
    && var pc := s.nodes[n].pc;
       pc.start == start && pc.cached == cached && pc.want == want && rest <= want && pc.buf.Keys == want - rest
  }

  lemma CopyOne(c: Config, from: State, s: State, n: NodeId, start: Count, cached: bool, want: set<Line>,
                rest: set<Line>, l: Line)
    returns (s': State)
    requires Reaches(c, n, from, s) && ReadingRest(s, n, start, cached, want, rest) && l in rest
    ensures Reaches(c, n, from, s') && Alone(s, s', n) && ReadingRest(s', n, start, cached, want, rest - {l})
  {
    Step(c, from, s, n, ReadLine(l));
    s' := Do(c, s, n, ReadLine(l));
    assert s'.nodes[n].pc.buf.Keys == want - (rest - {l});
  }

  lemma {:induction false} CopyOut(c: Config, from: State, s: State, n: NodeId, start: Count, cached: bool,
                                   want: set<Line>, rest: set<Line>)
    returns (s': State)
    requires Reaches(c, n, from, s) && ReadingRest(s, n, start, cached, want, rest)
    ensures Reaches(c, n, from, s') && Alone(s, s', n) && ReadingRest(s', n, start, cached, want, {})
    decreases |rest|
  {
    if rest == {} {
      s' := s;
    } else {
      var l :| l in rest;
      var t := CopyOne(c, from, s, n, start, cached, want, rest, l);
      s' := CopyOut(c, from, t, n, start, cached, want, rest - {l});
    }
  }

  /** A read by a node that remembers the current sequence number, or none. */
  lemma ReadFresh(c: Config, from: State, s: State, n: NodeId, want: set<Line>) returns (s': State)
    requires Reaches(c, n, from, s) && s.HasHistory() && want <= c.lines && want <= s.mem.Keys
    requires n in s.nodes && s.nodes[n].pc == Idle && !s.word.Odd() && !s.word.free
    requires s.nodes[n].local == None || s.nodes[n].local == Some(s.word.count)
    ensures Reaches(c, n, from, s') && Alone(s, s', n) && Accepting(s', n) && s'.nodes[n].pc.want == want
  {
    Step(c, from, s, n, ReadStart(want));
    var t := Do(c, s, n, ReadStart(want));
    t := CopyOut(c, from, t, n, s.word.count, s.nodes[n].local.Some?, want, want);
    Step(c, from, t, n, NotificationPasses);
    s' := Do(c, t, n, NotificationPasses);
  }

  /** A node that remembers another number forgets it and flushes before it is idle again. */
  lemma Forget(c: Config, from: State, s: State, n: NodeId) returns (s': State)
    requires Reaches(c, n, from, s) && s.HasHistory() && n in s.nodes && s.nodes[n].pc == Idle && !s.word.Odd()
    requires s.nodes[n].local.Some? && s.nodes[n].local.value != s.word.count
    ensures Reaches(c, n, from, s') && Alone(s, s', n) && s'.nodes[n].pc == Idle && s'.nodes[n].local == None
    ensures s'.nodes[n].cache.Keys == s.nodes[n].cache.Keys - c.lines
  {
    Step(c, from, s, n, ReadStart({}));
    s' := FinishFlush(c, from, Do(c, s, n, ReadStart({})), n);
  }

  lemma FinishFlush(c: Config, from: State, s: State, n: NodeId) returns (s': State)
    requires Reaches(c, n, from, s) && s.HasHistory() && n in s.nodes && s.nodes[n].pc == Flushing(c.lines)
    ensures Reaches(c, n, from, s') && Alone(s, s', n)
    ensures s'.nodes[n].pc == Idle && s'.nodes[n].local == s.nodes[n].local
    ensures s'.nodes[n].cache.Keys == s.nodes[n].cache.Keys - c.lines
  {
    var t := DropAll(c, from, s, n, c.lines);
    Step(c, from, t, n, FlushDone);
    s' := Do(c, t, n, FlushDone);
  }

  /** A read that is rejected leaves its node idle, with nothing of the slot cached and nothing remembered. */
  lemma RejectedReadStartsOver(c: Config, s: State, n: NodeId) returns (s': State)
    requires s.HasHistory() && n in s.nodes && s.nodes[n].pc.Checking? && !Accepting(s, n)
    ensures Reaches(c, n, s, s') && Alone(s, s', n) && s'.nodes[n].pc == Idle && s'.nodes[n].local == None
    ensures s'.nodes[n].cache.Keys == s.nodes[n].cache.Keys - c.lines
  {
    Stay(c, s, n);
    Step(c, s, s, n, ReadEnd);
    s' := FinishFlush(c, s, Do(c, s, n, ReadEnd), n);
  }

  /** A read whose notification fails flushes too, but its node goes on remembering what it remembered. */
  lemma NotifiedReadStartsOver(c: Config, s: State, n: NodeId) returns (s': State)
    requires s.HasHistory() && n in s.nodes
    requires s.nodes[n].pc.Reading? && s.nodes[n].pc.buf.Keys == s.nodes[n].pc.want
    ensures Reaches(c, n, s, s') && Alone(s, s', n)
    ensures s'.nodes[n].pc == Idle && s'.nodes[n].local == s.nodes[n].local
    ensures s'.nodes[n].cache.Keys == s.nodes[n].cache.Keys - c.lines
  {
    Stay(c, s, n);
    Step(c, s, s, n, NotificationFails);
    s' := FinishFlush(c, s, Do(c, s, n, NotificationFails), n);
  }

  /** A lock-only section of another thread leaves no trace. */
  lemma LockOnlyLeavesNoTrace(c: Config, s: State, n: NodeId)
    requires n in s.nodes && s.HasHistory() && !s.word.free && !s.word.locked && s.writer == None
    ensures Enabled(c, s, n, LockOnly) && Enabled(c, Do(c, s, n, LockOnly), n, UnlockOnly)
    ensures Do(c, Do(c, s, n, LockOnly), n, UnlockOnly) == s
  {
  }

  /** Whatever node n remembers, its own steps reach an accepting read of the lines it asks for. */
  lemma ReadCompletes(c: Config, s: State, n: NodeId, want: set<Line>) returns (s': State)
    requires c.Ok() && Reachable(c, s) && want <= c.lines
    requires n in s.nodes && s.nodes[n].pc == Idle && !s.word.Odd() && !s.word.free
    ensures Reachable(c, s') && Reaches(c, n, s, s') && Alone(s, s', n)
    ensures Accepting(s', n) && s'.nodes[n].pc.want == want
    ensures c.SameRange() ==> ReadsLastWrite(s', n)
  {
    Stay(c, s, n);
    ReachableMem(c, s);
    var t := s;
    if s.nodes[n].local.Some? && s.nodes[n].local.value != s.word.count {
      t := Forget(c, s, s, n);
    }
    ReachesReachable(c, s, n, t);
    ReachableMem(c, t);
    s' := ReadFresh(c, s, t, n, want);
    ReachesReachable(c, s, n, s');
    if c.SameRange() {
      AcceptedReadsAreCoherent(c, s', n);
    }
  }

  /** An accepted read ends; its node stays as it was but remembers the sequence number. */
  lemma EndRead(c: Config, s: State, n: NodeId) returns (s': State)
    requires Reachable(c, s) && s.HasHistory() && Accepting(s, n)
    ensures Reachable(c, s') && s'.word == s.word && s'.history == s.history && s'.mem == s.mem
    ensures s'.nodes.Keys == s.nodes.Keys && forall m <- s.nodes :: m != n ==> s'.nodes[m] == s.nodes[m]
    ensures s'.nodes[n].pc == Idle && s'.nodes[n].cache == s.nodes[n].cache
    ensures s'.nodes[n].local == if s.nodes[n].pc.cached then s.nodes[n].local else Some(s.word.count)
  {
    Extend(c, s, n, ReadEnd);
    s' := Do(c, s, n, ReadEnd);
  }
}
