/** Reads and writes of one object slot on memory that is not kept coherent between nodes
    (src/core/c3.cc:363-519 and 577-671, lib/shm_obj_handle.cc:203-217, 836-883 and 1049-1131).

    Each node has a private cache of the slot's lines, a "last sequence seen" entry and one
    thread. Lines reach memory only when they are written back. The seqlock word itself is
    coherent. The model follows one lifetime of a published record: the directory entry does
    not change, but the change-notification check may fail at any time. A section is fewer
    than 2^29 sections away from any other, so the count does not wrap. */
module CoherenceProtocol {
  import opened Common
  import opened SeqlockWord

  type NodeId = nat
  type Line = nat
  type Value = nat
  type Contents = map<Line, Value>

  /** `ranges` are the line ranges that the callers' writes cover. */
  datatype Config = Config(nodes: set<NodeId>, lines: set<Line>, ranges: set<set<Line>>) {
    ghost predicate Ok() {
      forall r <- ranges :: r <= lines
    }

    ghost predicate SameRange() {
      forall r1 <- ranges, r2 <- ranges :: r1 == r2
    }
  }

  datatype CacheLine = CacheLine(val: Value, dirty: bool)

  datatype Pc =
    | Idle
    | Reading(start: Count, cached: bool, want: set<Line>, buf: Contents)    // copying lines out
    | Checking(start: Count, cached: bool, want: set<Line>, buf: Contents)   // before RSeqRetry
    | Flushing(todo: set<Line>)                                             // before the retry
    | WriteLocked                                                           // WSeqBegin done
    | Writing(data: Contents, done: set<Line>)                              // copying lines in
    | WriteFlushing(data: Contents, todo: set<Line>)                        // cache_flush of the range
    | WriteEnded(start: Count)                                               // WSeqEnd done

  datatype Node = Node(local: Option<Count>, cache: map<Line, CacheLine>, pc: Pc)

  /** `history[v]` is the slot after v completed sections; `writer` is the node inside one. */
  datatype State = State(word: Word, mem: Contents, nodes: map<NodeId, Node>,
                         history: seq<Contents>, writer: Option<NodeId>) {
    ghost predicate HasHistory() {
      |history| > 0
    }

    ghost function Version(): nat
      requires HasHistory()
    {
      |history| - 1
    }

    ghost function Committed(): Contents
      requires HasHistory()
    {
      history[|history| - 1]
    }
  }

  datatype Action =
    | ReadStart(want: set<Line>)
    | ReadLine(line: Line)
    | NotificationFails
    | NotificationPasses
    | ReadEnd
    | FlushLine(line: Line)
    | FlushDone
    | WriteStart
    | WriteAbort
    | WriteGo(data: Contents)
    | StoreLine(line: Line)
    | StoresDone
    | WriteFlushLine(line: Line)
    | WriteEnd
    | WriteRemember
    | Evict(line: Line)        // hardware: write back if dirty, then drop
    | WriteBack(line: Line)    // hardware: write back and keep
    | LockOnly                 // another thread takes the lock without writing
    | UnlockOnly

  /** The record is published after the section its allocation opened (version 1, count 2). A
      node may remember any sequence number from an earlier use of the record. */
  ghost predicate Init(c: Config, s: State) {
    && s.word == Word(false, false, 2)
    && s.mem.Keys == c.lines
    && s.history == [s.mem, s.mem]
    && s.writer == None
    && s.nodes.Keys == c.nodes
    && forall n <- s.nodes :: s.nodes[n].pc == Idle && s.nodes[n].cache == map[]
  }

  ghost predicate Enabled(c: Config, s: State, n: NodeId, a: Action) {
    && n in s.nodes
    && s.HasHistory()
    && var node := s.nodes[n]; var pc := node.pc;
       match a
       case ReadStart(want) => pc.Idle? && !s.word.Odd() && want <= c.lines
       case ReadLine(l) => pc.Reading? && l in pc.want && l !in pc.buf && l in s.mem
       case NotificationFails => pc.Reading? && pc.buf.Keys == pc.want
       case NotificationPasses => pc.Reading? && pc.buf.Keys == pc.want
       case ReadEnd => pc.Checking?
       case FlushLine(l) => pc.Flushing? && l in pc.todo
       case FlushDone => pc.Flushing? && pc.todo == {}
       case WriteStart => pc.Idle? && !s.word.free && !s.word.locked && |s.history| < SECTION_SPAN
       case WriteAbort => pc.WriteLocked?
       case WriteGo(data) => pc.WriteLocked? && data.Keys in c.ranges
       case StoreLine(l) => pc.Writing? && l in pc.data && l !in pc.done
       case StoresDone => pc.Writing? && pc.data.Keys == pc.done
       case WriteFlushLine(l) => pc.WriteFlushing? && l in pc.todo
       case WriteEnd => pc.WriteFlushing? && pc.todo == {}
       case WriteRemember => pc.WriteEnded?
       case Evict(l) => l in node.cache
       case WriteBack(l) => l in node.cache && node.cache[l].dirty
       case LockOnly => !s.word.free && !s.word.locked
       case UnlockOnly => s.word.locked && s.writer == None
  }

  function Put(s: State, n: NodeId, node: Node): State {
    s.(nodes := s.nodes[n := node])
  }

  /** Drops a line from a cache; a dirty line is written back first. */
  function Drop(s: State, n: NodeId, l: Line): State
    requires n in s.nodes
  {
    var node := s.nodes[n];
    var mem := if l in node.cache && node.cache[l].dirty then s.mem[l := node.cache[l].val] else s.mem;
    Put(s, n, node.(cache := node.cache - {l})).(mem := mem)
  }

  function Move(s: State, n: NodeId, pc: Pc): State
    requires n in s.nodes
  {
    Put(s, n, s.nodes[n].(pc := pc))
  }

  ghost function Do(c: Config, s: State, n: NodeId, a: Action): State
    requires Enabled(c, s, n, a)
  {
    var node := s.nodes[n];
    var pc := node.pc;
    match a
    case ReadStart(want) =>
      if node.local.Some? && node.local.value != s.word.count then
        Put(s, n, node.(local := None, pc := Flushing(c.lines)))
      else
        Move(s, n, Reading(s.word.count, node.local.Some?, want, map[]))
    case ReadLine(l) =>
      var v := if l in node.cache then node.cache[l].val else s.mem[l];
      var cache := if l in node.cache then node.cache else node.cache[l := CacheLine(v, false)];
      Put(s, n, node.(cache := cache, pc := Reading(pc.start, pc.cached, pc.want, pc.buf[l := v])))
    case NotificationFails => Move(s, n, Flushing(c.lines))
    case NotificationPasses => Move(s, n, Checking(pc.start, pc.cached, pc.want, pc.buf))
    case ReadEnd =>
      if s.word.RetryPasses(pc.start) then
        Put(s, n, node.(local := if pc.cached then node.local else Some(pc.start), pc := Idle))
      else
        Put(s, n, node.(local := None, pc := Flushing(c.lines)))
    case FlushLine(l) => Move(Drop(s, n, l), n, Flushing(pc.todo - {l}))
    case FlushDone => Move(s, n, Idle)
    case WriteStart => Move(s, n, WriteLocked).(word := BeginWord(s.word), writer := Some(n))
    case WriteAbort =>
      Move(s, n, Idle).(word := EndWord(s.word), writer := None,
                        history := s.history + [s.Committed()])
    case WriteGo(data) => Move(s, n, Writing(data, {}))
    case StoreLine(l) =>
      Put(s, n, node.(cache := node.cache[l := CacheLine(pc.data[l], true)],
                      pc := Writing(pc.data, pc.done + {l})))
    case StoresDone => Move(s, n, WriteFlushing(pc.data, pc.data.Keys))
    case WriteFlushLine(l) => Move(Drop(s, n, l), n, WriteFlushing(pc.data, pc.todo - {l}))
    case WriteEnd =>
      Move(s, n, WriteEnded(EndWord(s.word).count)).(
        word := EndWord(s.word), writer := None,
        history := s.history + [s.Committed() + pc.data])
    case WriteRemember => Put(s, n, node.(local := Some(pc.start), pc := Idle))
    case Evict(l) => Drop(s, n, l)
    case WriteBack(l) =>
      Put(s, n, node.(cache := node.cache[l := CacheLine(node.cache[l].val, false)])).(
        mem := s.mem[l := node.cache[l].val])
    case LockOnly => s.(word := LockWord(s.word))
    case UnlockOnly => s.(word := UnlockWord(s.word))
  }

  ghost predicate Next(c: Config, s: State, s': State) {
    exists n, a :: Enabled(c, s, n, a) && s' == Do(c, s, n, a)
  }

  ghost predicate Run(c: Config, tr: seq<State>) {
    && |tr| > 0
    && Init(c, tr[0])
    && forall i :: 0 < i < |tr| ==> Next(c, tr[i - 1], tr[i])
  }

  ghost predicate Reachable(c: Config, s: State) {
    exists tr :: Run(c, tr) && tr[|tr| - 1] == s
  }

  // ---------------------------------------------------------------- what is to be shown

  /** The node is about to accept what it read: the retry check of read_startend passes. */
  ghost predicate Accepting(s: State, n: NodeId) {
    n in s.nodes && s.nodes[n].pc.Checking? && s.word.RetryPasses(s.nodes[n].pc.start)
  }

  /** Every requested line holds what the last completed write left there. */
  ghost predicate ReadsLastWrite(s: State, n: NodeId)
    requires n in s.nodes && s.nodes[n].pc.Checking?
  {
    && s.HasHistory()
    && var pc := s.nodes[n].pc;
       && pc.buf.Keys == pc.want <= s.Committed().Keys
       && forall l <- pc.want :: pc.buf[l] == s.Committed()[l]
  }

  ghost predicate ReadsAreCoherent(c: Config) {
    forall s, n :: Reachable(c, s) && Accepting(s, n) ==> ReadsLastWrite(s, n)
  }
}
