/** The LRU policy object (src/core/lru_policy.cc:12-274). The list lock or the free-list lock is held
    around each change, so each method is one atomic change of both lists. */
module LruCachePolicy {
  import opened LruList

  /** When the node at position i was last used, or -1. */
  ghost function Stamp(active: seq<Node>, lastUse: map<Node, nat>, i: nat): int
    requires i < |active|
  {
    if active[i] in lastUse then lastUse[active[i]] else -1
  }

  /** Nodes nearer the head were used earlier. */
  ghost predicate InUseOrder(active: seq<Node>, lastUse: map<Node, nat>, clock: nat) {
    && (forall i :: 0 <= i < |active| ==> -1 < Stamp(active, lastUse, i) < clock)
    && (forall i, j :: 0 <= i < j < |active| ==> Stamp(active, lastUse, i) < Stamp(active, lastUse, j))
  }

  lemma RemoveKeepsOrder(active: seq<Node>, lastUse: map<Node, nat>, clock: nat, k: nat)
    requires InUseOrder(active, lastUse, clock) && k < |active|
    ensures InUseOrder(RemoveAt(active, k), lastUse, clock)
  {
    var r := RemoveAt(active, k);
    forall i | 0 <= i < |r|
      ensures Stamp(r, lastUse, i) == Stamp(active, lastUse, if i < k then i else i + 1)
    {
    }
  }

  lemma AppendKeepsOrder(active: seq<Node>, lastUse: map<Node, nat>, clock: nat, n: Node)
    requires InUseOrder(active, lastUse, clock) && n !in active
    ensures InUseOrder(active + [n], lastUse[n := clock], clock + 1)
  {
    var s, uses := active + [n], lastUse[n := clock];
    forall i | 0 <= i < |s|
      ensures Stamp(s, uses, i) == if i < |active| then Stamp(active, lastUse, i) else clock
    {
      assert i < |active| ==> s[i] in active;
    }
  }

  lemma TouchKeepsOrder(active: seq<Node>, lastUse: map<Node, nat>, clock: nat, k: nat)
    requires InUseOrder(active, lastUse, clock) && k < |active| && active[k] !in RemoveAt(active, k)
    ensures InUseOrder(RemoveAt(active, k) + [active[k]], lastUse[active[k] := clock], clock + 1)
  {
    RemoveKeepsOrder(active, lastUse, clock, k);
    AppendKeepsOrder(RemoveAt(active, k), lastUse, clock, active[k]);
  }

  // ---------------------------------------------------------------- the pointer updates alone

  /** The pointer of one node, if there is such a node, is changed. */
  ghost function Redirect(pointers: seq<Node>, n: Node, to: Node): seq<Node> {
    if 0 <= n < |pointers| then pointers[n := to] else pointers
  }

  /** n is a node of the pool and its two pointers are null or other nodes. */
  ghost predicate Held(next: array<Node>, prev: array<Node>, n: Node)
    reads next, prev
  {
    && next != prev && next.Length == prev.Length && 0 <= n < next.Length
    && NIL <= next[n] < next.Length && NIL <= prev[n] < next.Length && next[n] != n && prev[n] != n
  }

  /** Links n behind the tail. */
  method LinkLast(next: array<Node>, prev: array<Node>, head: Node, tail: Node, n: Node) returns (head': Node)
    requires Held(next, prev, n) && (head != NIL ==> 0 <= tail < next.Length)
    modifies next, prev
    ensures head' == if head == NIL then n else head
    ensures next[..] == (if head == NIL then old(next[..]) else old(next[..])[tail := n])[n := NIL]
    ensures prev[..] == if head == NIL then old(prev[..]) else old(prev[..])[n := tail]
  {
    head' := head;
    if head == NIL {
      head' := n;
    } else {
      next[tail] := n;
      prev[n] := tail;
    }
    next[n] := NIL;
  }

  /** Takes n out from between its neighbours. */
  method Unlink(next: array<Node>, prev: array<Node>, head: Node, tail: Node, n: Node)
    returns (head': Node, tail': Node)
    requires Held(next, prev, n)
    modifies next, prev
    ensures head' == if old(prev[n]) == NIL then old(next[n]) else head
    ensures tail' == if old(next[n]) == NIL then old(prev[n]) else tail
    ensures next[..] == Redirect(old(next[..]), old(prev[n]), old(next[n]))[n := NIL]
    ensures prev[..] == Redirect(old(prev[..]), old(next[n]), old(prev[n]))[n := NIL]
  {
    head', tail' := head, tail;
    if prev[n] == NIL {
      head' := next[n];
      if head' == NIL {
        tail' := NIL;
      } else {
        prev[head'] := NIL;
      }
    } else if next[n] == NIL {
      tail' := prev[n];
      next[tail'] := NIL;
    } else {
      next[prev[n]] := next[n];
      prev[next[n]] := prev[n];
    }
    next[n] := NIL;
    prev[n] := NIL;
  }

  /** Moves n, which has a successor, behind the tail. */
  method MoveLast(next: array<Node>, prev: array<Node>, head: Node, tail: Node, n: Node) returns (head': Node)
    requires Held(next, prev, n) && next[n] != NIL && (head != NIL ==> 0 <= tail < next.Length && tail != n)
    requires prev[n] == NIL ==> head == n
    modifies next, prev
    ensures head != NIL ==>
      && head' == (if old(prev[n]) == NIL then old(next[n]) else head)
      && next[..] == Redirect(old(next[..]), old(prev[n]), old(next[n]))[tail := n][n := NIL]
      && prev[..] == old(prev[..])[old(next[n]) := old(prev[n])][n := tail]
  {
    head' := head;
    if prev[n] == NIL {
      head' := next[n];
      prev[head'] := NIL;
    } else {
      next[prev[n]] := next[n];
      prev[next[n]] := prev[n];
    }
    if head' == NIL {
      head' := n;
      prev[n] := NIL;
    } else {
      next[tail] := n;
      prev[n] := tail;
    }
    next[n] := NIL;
  }

  // ---------------------------------------------------------------- the policy

  class LruPolicy {
    const next: array<Node>
    const prev: array<Node>
    const maxElements: nat
    var head: Node
    var tail: Node
    var freeList: Node
    var count: nat
    var freeCount: nat

    ghost var active: seq<Node>
    ghost var free: seq<Node>
    ghost var lastUse: map<Node, nat>
    ghost var clock: nat

    ghost predicate Valid()
      reads this, next, prev
    {
      && next != prev && next.Length == prev.Length == maxElements
      && WellLinked(next[..], prev[..], active, free)
      && InUseOrder(active, lastUse, clock)
      && head == At(active, 0) && tail == At(active, |active| - 1) && count == |active|
      && freeList == At(free, 0) && freeCount == |free|
    }

    /** A node of the pool in neither list belongs to a caller. */
    ghost predicate Reserved(n: Node)
      reads this
    {
      0 <= n < maxElements && n !in active && n !in free
    }

    /** The constructor and Initialize together. */
    constructor (size: nat)
      requires size > 0
      ensures Valid() && fresh(next) && fresh(prev)
      ensures maxElements == size && active == [] && free == seq(size, i => i)
    {
      maxElements := size;
      next, prev := new Node[size](_ => NIL), new Node[size](_ => NIL);
      head, tail, freeList := NIL, NIL, 0;
      count, freeCount := 0, size;
      active, free, lastUse, clock := [], seq(size, i => i), map[], 0;
      new;
      for i := 0 to size
        modifies next
        invariant forall j :: 0 <= j < i ==> next[j] == if j + 1 < size then j + 1 else NIL
        invariant forall j :: i <= j < size ==> next[j] == NIL
        invariant forall j :: 0 <= j < size ==> prev[j] == NIL
      {
        if i == size - 1 {
          break;
        }
        next[i] := i + 1;
      }
      FreshLinks(next[..], prev[..], free);
    }

    method ReserveCacheNode() returns (out: Node)
      requires Valid()
      modifies this`freeList, this`freeCount, this`free, next
      ensures Valid()
      ensures old(free) == [] ==> out == NIL && free == []
      ensures old(free) != [] ==> out == old(free)[0] && free == old(free)[1..] && Reserved(out)
    {
      out := freeList;
      if out != NIL {
        ReserveKeepsLinks(next[..], prev[..], active, free);
        freeList := next[out];
        next[out] := NIL;
        freeCount := freeCount - 1;
        free := free[1..];
        assert next[..] == old(next[..])[out := NIL];
      }
    }

    method RecycleCacheNodeLocked(n: Node)
      requires Valid() && Reserved(n)
      modifies this`freeList, this`freeCount, this`free, next, prev
      ensures Valid() && free == [n] + old(free)
    {
      RecycleKeepsLinks(next[..], prev[..], active, free, n);
      next[n] := freeList;
      prev[n] := NIL;
      freeList := n;
      freeCount := freeCount + 1;
      free := [n] + free;
      assert next[..] == old(next[..])[n := At(old(free), 0)];
      assert prev[..] == old(prev[..])[n := NIL];
    }

    /** The list has room for a reserved node, so the wait for an eviction is never entered. */
    method Insert(n: Node)
      requires Valid() && Reserved(n)
      modifies this`head, this`tail, this`count, this`active, this`lastUse, this`clock, next, prev
      ensures Valid() && active == old(active) + [n]
      ensures old(count) < maxElements
      ensures lastUse == old(lastUse)[n := old(clock)] && clock == old(clock) + 1
    {
      assert NodeOk(next[..], prev[..], active, free, n);
      AppendKeepsLinks(next[..], prev[..], active, free, n);
      AppendKeepsOrder(active, lastUse, clock, n);
      Pigeonhole(active, maxElements, n);
      count := count + 1;
      head := LinkLast(next, prev, head, tail, n);
      tail := n;
      assert next[..] == AppendedNext(old(next[..]), old(active), n);
      assert prev[..] == AppendedPrev(old(prev[..]), old(active), n);
      active, lastUse, clock := active + [n], lastUse[n := clock], clock + 1;
    }

    method EvictLocked(n: Node)
      requires Valid() && n in active
      modifies this`head, this`tail, this`count, this`active, next, prev
      ensures Valid() && Reserved(n)
      ensures exists k :: 0 <= k < |old(active)| && old(active)[k] == n && active == RemoveAt(old(active), k)
    {
      ghost var k :| 0 <= k < |active| && active[k] == n;
      UnlinkKeepsLinks(next[..], prev[..], active, free, k);
      RemoveKeepsOrder(active, lastUse, clock, k);
      assert Points(next[..], active, k) && PointsBack(prev[..], active, k);
      assert k + 1 < |active| ==> Apart(active, k, k + 1);
      assert k > 0 ==> Apart(active, k, k - 1);
      ghost var rest := RemoveAt(active, k);
      assert At(rest, 0) == if k == 0 then At(active, 1) else active[0];
      assert At(rest, |rest| - 1) == if k == |active| - 1 then At(active, k - 1) else active[|active| - 1];
      head, tail := Unlink(next, prev, head, tail, n);
      count := count - 1;
      assert next[..] == UnlinkedNext(old(next[..]), old(active), k);
      assert prev[..] == UnlinkedPrev(old(prev[..]), old(active), k);
      active := RemoveAt(active, k);
    }

    /** The part of TouchLocked past its early return. */
    method MoveToTail(n: Node, ghost k: nat)
      requires Valid() && k + 1 < |active| && active[k] == n
      modifies this`head, this`tail, this`active, this`lastUse, this`clock, next, prev
      ensures Valid() && active == RemoveAt(old(active), k) + [n]
      ensures lastUse == old(lastUse)[n := old(clock)] && clock == old(clock) + 1
    {
      assert Points(next[..], active, k) && PointsBack(prev[..], active, k);
      assert Apart(active, k, |active| - 1) && Apart(active, k, k + 1);
      RemoveKeepsNodes(active, maxElements, k);
      TouchKeepsOrder(active, lastUse, clock, k);
      MoveKeepsLinks(next[..], prev[..], active, free, k);
      ghost var moved := RemoveAt(active, k) + [n];
      assert At(moved, |moved| - 1) == n && At(moved, 0) == if k == 0 then active[1] else active[0];
      head := MoveLast(next, prev, head, tail, n);
      tail := n;
      active, lastUse, clock := RemoveAt(active, k) + [n], lastUse[n := clock], clock + 1;
    }

    /** A node the caller still holds is left where it is. */
    method TouchLocked(n: Node)
      requires Valid() && (n in active || Reserved(n))
      modifies this`head, this`tail, this`active, this`lastUse, this`clock, next, prev
      ensures Valid()
      ensures old(Reserved(n)) ==> active == old(active) && lastUse == old(lastUse) && clock == old(clock)
      ensures n in old(active) ==> lastUse == old(lastUse)[n := old(clock)] && clock == old(clock) + 1
      ensures n in old(active) ==>
        exists k :: 0 <= k < |old(active)| && old(active)[k] == n && active == RemoveAt(old(active), k) + [n]
    {
      ghost var k := -1;
      if n in active {
        k :| 0 <= k < |active| && active[k] == n;
        assert Points(next[..], active, k);
      } else {
        assert NodeOk(next[..], prev[..], active, free, n);
      }
      if next[n] != NIL {
        MoveToTail(n, k);
      } else if k >= 0 {
        RemoveKeepsNodes(active, maxElements, k);
        TouchKeepsOrder(active, lastUse, clock, k);
        assert RemoveAt(active, k) + [n] == active;
        lastUse, clock := lastUse[n := clock], clock + 1;
      }
    }

    method NextCacheNodeLocked(n: Node) returns (r: Node)
      requires Valid() && n in active
      ensures r in active && r == NextOf(next[..], head, n)
    {
      ghost var k :| 0 <= k < |active| && active[k] == n;
      NextOfPosition(next[..], active, k);
      r := if next[n] != NIL then next[n] else head;
    }

    method PrevCacheNodeLocked(n: Node) returns (r: Node)
      requires Valid() && n in active
      ensures r in active && r == PrevOf(prev[..], tail, n)
    {
      ghost var k :| 0 <= k < |active| && active[k] == n;
      PrevOfPosition(prev[..], active, k);
      r := if prev[n] != NIL then prev[n] else tail;
    }

    /** The head was used least recently and the tail most recently. */
    lemma HeadIsLeastRecent(n: Node)
      requires Valid() && n in active
      ensures head in lastUse && tail in lastUse && n in lastUse
      ensures n != head ==> lastUse[head] < lastUse[n]
      ensures n != tail ==> lastUse[n] < lastUse[tail]
    {
      var k :| 0 <= k < |active| && active[k] == n;
      assert Stamp(active, lastUse, 0) <= Stamp(active, lastUse, k) <= Stamp(active, lastUse, |active| - 1);
    }

    /** Every node of the pool is in one list or with a caller. */
    lemma PoolIsConserved()
      requires Valid()
      ensures count + freeCount + Outside(active + free, maxElements) == maxElements
      ensures forall n :: 0 <= n < maxElements ==> (n !in active + free <==> Reserved(n))
    {
      ListsTogether(next[..], prev[..], active, free);
      OutsideCount(active + free, maxElements);
    }
  }
}
