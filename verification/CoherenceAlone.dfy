/** One node alone: what it reads is what it wrote, whatever ranges its writes cover. */
module CoherenceAlone {
  import opened CoherenceProtocol

  /** What the node sees of a line. */
  ghost function View(s: State, node: Node, l: Line): Value
    requires l in s.mem
  {
    if l in node.cache then node.cache[l].val else s.mem[l]
  }

  /** The lines of a write at work that already have their new value. */
  ghost function Renewed(pc: Pc): Contents {
    match pc
    case Writing(data, done) => map l <- data | l in done :: data[l]
    case WriteFlushing(data, _) => data
    case _ => map[]
  }

  ghost predicate LineOk(s: State, node: Node, l: Line)
    requires s.HasHistory()
  {
    && l in s.mem && l in s.Committed()
    && View(s, node, l) == (if l in Renewed(node.pc) then Renewed(node.pc)[l] else s.Committed()[l])
    && (l in node.cache && !node.cache[l].dirty ==> s.mem[l] == node.cache[l].val)
  }

  ghost predicate PcOk(c: Config, s: State, pc: Pc)
    requires s.HasHistory()
  {
    && (pc.Reading? || pc.Checking? ==>
          && pc.buf.Keys <= pc.want <= c.lines && (pc.Checking? ==> pc.buf.Keys == pc.want)
          && forall l <- pc.buf :: l in s.Committed() && pc.buf[l] == s.Committed()[l])
    && (pc.Writing? || pc.WriteFlushing? ==> pc.data.Keys <= c.lines)
  }

  ghost predicate Inv(c: Config, s: State, n: NodeId) {
    && s.HasHistory() && s.nodes.Keys == {n}
    && s.mem.Keys == c.lines && s.Committed().Keys == c.lines && s.nodes[n].cache.Keys <= c.lines
    && PcOk(c, s, s.nodes[n].pc)
    && forall l <- c.lines :: LineOk(s, s.nodes[n], l)
  }

  predicate Reads(a: Action) {
    a.ReadStart? || a.ReadLine? || a.NotificationFails? || a.NotificationPasses? || a.ReadEnd?
  }

  predicate Drops(a: Action) {
    a.FlushLine? || a.WriteFlushLine? || a.Evict? || a.WriteBack?
  }

  predicate Writes(a: Action) {
    a.WriteStart? || a.WriteGo? || a.StoreLine? || a.StoresDone?
  }

  lemma ReadKeepsInv(c: Config, s: State, n: NodeId, a: Action)
    requires c.Ok() && Inv(c, s, n) && Enabled(c, s, n, a) && Reads(a)
    ensures Inv(c, Do(c, s, n, a), n)
  {
    var s' := Do(c, s, n, a);
    forall l <- c.lines
      ensures LineOk(s', s'.nodes[n], l)
    {
      assert LineOk(s, s.nodes[n], l);
    }
  }

  lemma DropKeepsInv(c: Config, s: State, n: NodeId, a: Action)
    requires c.Ok() && Inv(c, s, n) && Enabled(c, s, n, a) && Drops(a)
    ensures Inv(c, Do(c, s, n, a), n)
  {
    var s' := Do(c, s, n, a);
    forall l <- c.lines
      ensures LineOk(s', s'.nodes[n], l)
    {
      assert LineOk(s, s.nodes[n], l);
    }
  }

  lemma WriteKeepsInv(c: Config, s: State, n: NodeId, a: Action)
    requires c.Ok() && Inv(c, s, n) && Enabled(c, s, n, a) && Writes(a)
    ensures Inv(c, Do(c, s, n, a), n)
  {
    var s' := Do(c, s, n, a);
    forall l <- c.lines
      ensures LineOk(s', s'.nodes[n], l)
    {
      assert LineOk(s, s.nodes[n], l);
    }
  }

  lemma OtherKeepsInv(c: Config, s: State, n: NodeId, a: Action)
    requires c.Ok() && Inv(c, s, n) && Enabled(c, s, n, a) && !Reads(a) && !Drops(a) && !Writes(a)
    ensures Inv(c, Do(c, s, n, a), n)
  {
    var s' := Do(c, s, n, a);
    forall l <- c.lines
      ensures LineOk(s', s'.nodes[n], l)
    {
      assert LineOk(s, s.nodes[n], l);
    }
  }

  lemma StepKeepsInv(c: Config, s: State, n: NodeId, a: Action)
    requires c.Ok() && Inv(c, s, n) && Enabled(c, s, n, a)
    ensures Inv(c, Do(c, s, n, a), n)
  {
    if Reads(a) {
      ReadKeepsInv(c, s, n, a);
    } else if Drops(a) {
      DropKeepsInv(c, s, n, a);
    } else if Writes(a) {
      WriteKeepsInv(c, s, n, a);
    } else {
      OtherKeepsInv(c, s, n, a);
    }
  }

  lemma InitHasInv(c: Config, s: State, n: NodeId)
    requires Init(c, s) && c.nodes == {n}
    ensures Inv(c, s, n)
  {
  }

  lemma NextKeepsInv(c: Config, s: State, s': State, n: NodeId)
    requires c.Ok() && Inv(c, s, n) && Next(c, s, s')
    ensures Inv(c, s', n)
  {
    var m, a :| Enabled(c, s, m, a) && s' == Do(c, s, m, a);
    StepKeepsInv(c, s, n, a);
  }

  lemma {:induction false} RunKeepsInv(c: Config, tr: seq<State>, n: NodeId, i: nat)
    requires c.Ok() && c.nodes == {n} && Run(c, tr) && i < |tr|
    ensures Inv(c, tr[i], n)
  {
    if i == 0 {
      InitHasInv(c, tr[0], n);
    } else {
      RunKeepsInv(c, tr, n, i - 1);
      NextKeepsInv(c, tr[i - 1], tr[i], n);
    }
  }

  /** Every read that a single node completes is coherent. */
  lemma ReadsAreCoherentAlone(c: Config, s: State, n: NodeId)
    requires c.Ok() && c.nodes == {n} && Reachable(c, s) && n in s.nodes && s.nodes[n].pc.Checking?
    ensures ReadsLastWrite(s, n)
  {
    var tr :| Run(c, tr) && tr[|tr| - 1] == s;
    RunKeepsInv(c, tr, n, |tr| - 1);
  }
}
