/** How far the coherence of accepted reads goes: with two nodes or more it holds for exactly
    those callers whose writes all cover the same lines. A write that covers other lines than an
    earlier one leaves stale lines in the writer's cache and still records the new sequence
    number for them, so the writer's own next read takes the fast path onto stale data. */
module CoherenceLimits {
  import opened Common
  import opened SeqlockWord
  import opened CoherenceProtocol
  import opened CoherenceSafety
  import opened CoherenceProgress
  import Alone = CoherenceAlone

  /** The same contents on every line of a range. */
  ghost function Fill(range: set<Line>, v: Value): Contents {
    map l | l in range :: v
  }

  /** Reads one line up to the last check of read_seq_end. */
  lemma ReadOne(c: Config, s: State, n: NodeId, l: Line) returns (s': State)
    requires Reachable(c, s) && s.HasHistory() && l in c.lines && l in s.mem
    requires n in s.nodes && s.nodes[n].pc == Idle
    requires !s.word.Odd() && (s.nodes[n].local == None || s.nodes[n].local == Some(s.word.count))
    ensures Reachable(c, s') && s'.nodes.Keys == s.nodes.Keys
    ensures s'.word == s.word && s'.history == s.history && s'.mem == s.mem
    ensures forall m <- s.nodes :: m != n ==> s'.nodes[m] == s.nodes[m]
    ensures var node := s.nodes[n]; var v := if l in node.cache then node.cache[l].val else s.mem[l];
            && s'.nodes[n].local == node.local
            && s'.nodes[n].pc == Checking(s.word.count, node.local.Some?, {l}, map[l := v])
            && l in s'.nodes[n].cache && s'.nodes[n].cache[l].val == v
  {
    Extend(c, s, n, ReadStart({l}));
    var t := Do(c, s, n, ReadStart({l}));
    Extend(c, t, n, ReadLine(l));
    t := Do(c, t, n, ReadLine(l));
    assert t.nodes[n].pc.buf.Keys == {l};
    Extend(c, t, n, NotificationPasses);
    s' := Do(c, t, n, NotificationPasses);
  }

  ghost function Fresh(c: Config): State {
    State(Word(false, false, 2), Fill(c.lines, 0),
          map n | n in c.nodes :: Node(None, map[], Idle),
          [Fill(c.lines, 0), Fill(c.lines, 0)], None)
  }

  lemma FreshIsReachable(c: Config)
    ensures Reachable(c, Fresh(c))
  {
    assert Run(c, [Fresh(c)]);
  }

  /** Node a, idle, caches line l with value 0; the slot has seen `sections` sections. */
  ghost predicate CachesZero(c: Config, s: State, a: NodeId, l: Line, sections: nat) {
    && Reachable(c, s) && s.nodes.Keys == c.nodes && a in c.nodes
    && sections < 10 && s.word == Word(false, false, 2 * sections) && |s.history| == sections + 1
    && (forall n <- s.nodes :: s.nodes[n].pc == Idle)
    && l in s.nodes[a].cache && s.nodes[a].cache[l].val == 0
    && l in s.Committed()
  }

  lemma ReadFirst(c: Config, a: NodeId, l: Line) returns (s: State)
    requires a in c.nodes && l in c.lines
    ensures CachesZero(c, s, a, l, 1)
  {
    FreshIsReachable(c);
    var t := ReadOne(c, Fresh(c), a, l);
    s := EndRead(c, t, a);
  }

  /** A write by another node, or by node a itself to other lines, leaves the stale line cached. */
  lemma WriteNext(c: Config, s: State, a: NodeId, l: Line, sections: nat, n: NodeId, range: set<Line>)
    returns (s': State)
    requires CachesZero(c, s, a, l, sections) && sections < 9 && n in c.nodes && range in c.ranges
    requires n == a ==> l !in range
    ensures CachesZero(c, s', a, l, sections + 1)
    ensures s'.Committed()[l] == if l in range then 1 else s.Committed()[l]
    ensures s'.nodes[n].local == Some(s'.word.count)
  {
    assert Fill(range, 1).Keys == range;
    s' := WriteCompletes(c, s, n, Fill(range, 1));
    assert s'.Committed() == s.Committed() + Fill(range, 1);
  }

  /** Node a reads line l; node b writes it; node a writes other lines; node a reads l again and
      accepts the value from before b's write. */
  lemma StaleRead(c: Config, a: NodeId, b: NodeId, l: Line, r1: set<Line>, r2: set<Line>) returns (s: State)
    requires c.Ok() && a in c.nodes && b in c.nodes && a != b
    requires r1 in c.ranges && r2 in c.ranges && l in r1 && l !in r2
    ensures Reachable(c, s) && Accepting(s, a) && !ReadsLastWrite(s, a)
  {
    assert l in c.lines;
    s := ReadFirst(c, a, l);
    s := WriteNext(c, s, a, l, 1, b, r1);
    s := WriteNext(c, s, a, l, 2, a, r2);
    ReachableMem(c, s);
    s := ReadOne(c, s, a, l);
  }

  lemma {:induction false} NodesStay(c: Config, tr: seq<State>, i: nat)
    requires Run(c, tr) && i < |tr|
    ensures tr[i].nodes.Keys == c.nodes
  {
    if i > 0 {
      NodesStay(c, tr, i - 1);
      assert Next(c, tr[i - 1], tr[i]);
      var n, a :| Enabled(c, tr[i - 1], n, a) && tr[i] == Do(c, tr[i - 1], n, a);
      assert Do(c, tr[i - 1], n, a).nodes.Keys == tr[i - 1].nodes.Keys;
    }
  }

  lemma CoherentAlone(c: Config)
    requires c.Ok() && |c.nodes| <= 1
    ensures ReadsAreCoherent(c)
  {
    forall s, n | Reachable(c, s) && Accepting(s, n)
      ensures ReadsLastWrite(s, n)
    {
      var tr :| Run(c, tr) && tr[|tr| - 1] == s;
      NodesStay(c, tr, |tr| - 1);
      assert c.nodes == {n} + (c.nodes - {n});
      Alone.ReadsAreCoherentAlone(c, s, n);
    }
  }

  lemma IncoherentTogether(c: Config, a: NodeId, b: NodeId)
    requires c.Ok() && a in c.nodes && b in c.nodes && a != b && !c.SameRange()
    ensures !ReadsAreCoherent(c)
  {
    var r1, r2 :| r1 in c.ranges && r2 in c.ranges && r1 != r2;
    if l :| l in r1 && l !in r2 {
      var s := StaleRead(c, a, b, l, r1, r2);
    } else {
      var l :| l in r2 && l !in r1;
      var s := StaleRead(c, a, b, l, r2, r1);
    }
  }

  /** Accepted reads are coherent in every run if and only if there is at most one node or all writes
      cover the same range. */
  lemma CoherentExactlyForOneRange(c: Config)
    requires c.Ok()
    ensures ReadsAreCoherent(c) <==> |c.nodes| <= 1 || c.SameRange()
  {
    if |c.nodes| <= 1 {
      CoherentAlone(c);
    } else if c.SameRange() {
      forall s, n | Reachable(c, s) && Accepting(s, n)
        ensures ReadsLastWrite(s, n)
      {
        AcceptedReadsAreCoherent(c, s, n);
      }
    } else {
      var a :| a in c.nodes;
      assert |c.nodes - {a}| == |c.nodes| - 1 > 0;
      var b :| b in c.nodes - {a};
      IncoherentTogether(c, a, b);
    }
  }
}
