/** Chains of pointers in a pool of list nodes (src/core/lru_policy.cc:54-274). All nodes come from one
    pool array, so a node pointer is a position in the pool and a null pointer is NIL; `next` and `prev`
    hold the two pointers of every node. */
module LruList {

  type Node = int
  const NIL: Node := -1

  ghost function At(s: seq<Node>, i: int): Node {
    if 0 <= i < |s| then s[i] else NIL
  }

  ghost function RemoveAt(s: seq<Node>, k: nat): seq<Node>
    requires k < |s|
  {
    s[..k] + s[k + 1..]
  }

  // ---------------------------------------------------------------- sequences of nodes

  ghost predicate Apart(s: seq<Node>, i: nat, j: nat)
    requires i < |s| && j < |s|
  {
    s[i] != s[j]
  }

  /** A sequence of different nodes of the pool. */
  ghost predicate Nodes(s: seq<Node>, size: nat) {
    && (forall i :: 0 <= i < |s| ==> 0 <= s[i] < size)
    && (forall i, j :: 0 <= i < |s| && 0 <= j < |s| && i != j ==> Apart(s, i, j))
  }

  lemma RemoveKeepsNodes(s: seq<Node>, size: nat, k: nat)
    requires Nodes(s, size) && k < |s|
    ensures Nodes(RemoveAt(s, k), size)
    ensures forall m :: m in RemoveAt(s, k) <==> m in s && m != s[k]
  {
    var r := RemoveAt(s, k);
    forall i | 0 <= i < |r|
      ensures r[i] != s[k]
    {
      assert Apart(s, if i < k then i else i + 1, k);
    }
    forall i, j | 0 <= i < |r| && 0 <= j < |r| && i != j
      ensures Apart(r, i, j)
    {
      assert Apart(s, if i < k then i else i + 1, if j < k then j else j + 1);
    }
    forall m | m in s && m != s[k]
      ensures m in r
    {
      var i :| 0 <= i < |s| && s[i] == m;
      assert r[if i < k then i else i - 1] == m;
    }
  }

  lemma AppendKeepsNodes(s: seq<Node>, size: nat, n: Node)
    requires Nodes(s, size) && 0 <= n < size && n !in s
    ensures Nodes(s + [n], size)
  {
    forall i, j | 0 <= i < |s + [n]| && 0 <= j < |s + [n]| && i != j
      ensures Apart(s + [n], i, j)
    {
      if i < |s| && j < |s| {
        assert Apart(s, i, j);
      }
    }
  }

  lemma PushKeepsNodes(s: seq<Node>, size: nat, n: Node)
    requires Nodes(s, size) && 0 <= n < size && n !in s
    ensures Nodes([n] + s, size)
  {
    forall i, j | 0 <= i < |[n] + s| && 0 <= j < |[n] + s| && i != j
      ensures Apart([n] + s, i, j)
    {
      if i > 0 && j > 0 {
        assert Apart(s, i - 1, j - 1);
      }
    }
  }

  /** How many of the first `size` nodes are not in s. */
  ghost function Outside(s: seq<Node>, size: nat): nat {
    if size == 0 then 0 else Outside(s, size - 1) + if size - 1 in s then 0 else 1
  }

  lemma {:induction false} OutsideAgrees(s: seq<Node>, r: seq<Node>, size: nat)
    requires forall n :: 0 <= n < size ==> (n in s <==> n in r)
    ensures Outside(s, size) == Outside(r, size)
  {
    if size > 0 {
      OutsideAgrees(s, r, size - 1);
    }
  }

  /** Taking the last node of the pool out of s and of the pool leaves as many outside. */
  lemma OutsideShrinks(s: seq<Node>, size: nat, k: nat)
    requires Nodes(s, size) && k < |s| && s[k] == size - 1
    ensures Nodes(RemoveAt(s, k), size - 1) && Outside(RemoveAt(s, k), size - 1) == Outside(s, size)
  {
    RemoveKeepsNodes(s, size, k);
    var r := RemoveAt(s, k);
    assert forall i :: 0 <= i < |r| ==> r[i] in r;
    OutsideAgrees(s, r, size - 1);
  }

  lemma {:induction false} OutsideCount(s: seq<Node>, size: nat)
    requires Nodes(s, size)
    ensures Outside(s, size) == size - |s|
  {
    if size == 0 {
      assert |s| > 0 ==> 0 <= At(s, 0) < size;
    } else if size - 1 in s {
      var k :| 0 <= k < |s| && s[k] == size - 1;
      OutsideShrinks(s, size, k);
      OutsideCount(RemoveAt(s, k), size - 1);
    } else {
      assert forall i :: 0 <= i < |s| ==> s[i] in s;
      OutsideCount(s, size - 1);
    }
  }

  lemma {:induction false} OutsidePositive(s: seq<Node>, size: nat, n: Node)
    requires 0 <= n < size && n !in s
    ensures Outside(s, size) > 0
  {
    if n < size - 1 {
      OutsidePositive(s, size - 1, n);
    }
  }

  /** A node that is not in a chain leaves the chain shorter than the pool. */
  lemma Pigeonhole(s: seq<Node>, size: nat, n: Node)
    requires Nodes(s, size) && 0 <= n < size && n !in s
    ensures |s| < size
  {
    OutsideCount(s, size);
    OutsidePositive(s, size, n);
  }

  // ---------------------------------------------------------------- chains

  /** Element i of a chain points at element i + 1. */
  ghost predicate Points(next: seq<Node>, s: seq<Node>, i: int)
    requires Nodes(s, |next|) && 0 <= i < |s|
  {
    next[s[i]] == At(s, i + 1)
  }

  ghost predicate PointsBack(prev: seq<Node>, s: seq<Node>, i: int)
    requires Nodes(s, |prev|) && 0 <= i < |s|
  {
    prev[s[i]] == At(s, i - 1)
  }

  ghost predicate Forward(next: seq<Node>, s: seq<Node>)
    requires Nodes(s, |next|)
  {
    forall i :: 0 <= i < |s| ==> Points(next, s, i)
  }

  ghost predicate Backward(prev: seq<Node>, s: seq<Node>)
    requires Nodes(s, |prev|)
  {
    forall i :: 0 <= i < |s| ==> PointsBack(prev, s, i)
  }

  /** Pointers outside a chain may change freely. */
  lemma ForwardFrame(next: seq<Node>, next': seq<Node>, s: seq<Node>)
    requires |next| == |next'| && Nodes(s, |next|) && Forward(next, s)
    requires forall i :: 0 <= i < |s| ==> next'[s[i]] == next[s[i]]
    ensures Forward(next', s)
  {
    forall i | 0 <= i < |s|
      ensures Points(next', s, i)
    {
      assert Points(next, s, i);
    }
  }

  lemma BackwardFrame(prev: seq<Node>, prev': seq<Node>, s: seq<Node>)
    requires |prev| == |prev'| && Nodes(s, |prev|) && Backward(prev, s)
    requires forall i :: 0 <= i < |s| ==> prev'[s[i]] == prev[s[i]]
    ensures Backward(prev', s)
  {
    forall i | 0 <= i < |s|
      ensures PointsBack(prev', s, i)
    {
      assert PointsBack(prev, s, i);
    }
  }

  /** Unlinking node k: its predecessor points at its successor. */
  lemma UnlinkForward(next: seq<Node>, s: seq<Node>, k: nat)
    requires Nodes(s, |next|) && Forward(next, s) && k < |s| && Nodes(RemoveAt(s, k), |next|)
    ensures Forward(if k > 0 then next[s[k - 1] := At(s, k + 1)] else next, RemoveAt(s, k))
  {
    var r := RemoveAt(s, k);
    var next' := if k > 0 then next[s[k - 1] := At(s, k + 1)] else next;
    forall i | 0 <= i < |r|
      ensures Points(next', r, i)
    {
      var j := if i < k then i else i + 1;
      assert r[i] == s[j] && Points(next, s, j);
      if k > 0 && j != k - 1 {
        assert Apart(s, j, k - 1);
      }
    }
  }

  /** And its successor points back at its predecessor. */
  lemma UnlinkBackward(prev: seq<Node>, s: seq<Node>, k: nat)
    requires Nodes(s, |prev|) && Backward(prev, s) && k < |s| && Nodes(RemoveAt(s, k), |prev|)
    ensures Backward(if k + 1 < |s| then prev[s[k + 1] := At(s, k - 1)] else prev, RemoveAt(s, k))
  {
    var r := RemoveAt(s, k);
    var prev' := if k + 1 < |s| then prev[s[k + 1] := At(s, k - 1)] else prev;
    forall i | 0 <= i < |r|
      ensures PointsBack(prev', r, i)
    {
      var j := if i < k then i else i + 1;
      assert r[i] == s[j] && PointsBack(prev, s, j);
      if k + 1 < |s| && j != k + 1 {
        assert Apart(s, j, k + 1);
      }
    }
  }

  /** Linking a node behind the last one. */
  lemma AppendForward(next: seq<Node>, s: seq<Node>, n: Node)
    requires Nodes(s, |next|) && Forward(next, s) && 0 <= n < |next| && n !in s && Nodes(s + [n], |next|)
    ensures Forward((if s == [] then next else next[s[|s| - 1] := n])[n := NIL], s + [n])
  {
    var r, next' := s + [n], (if s == [] then next else next[s[|s| - 1] := n])[n := NIL];
    forall i | 0 <= i < |r|
      ensures Points(next', r, i)
    {
      if i < |s| - 1 {
        assert Points(next, s, i) && Apart(s, i, |s| - 1);
      }
    }
  }

  lemma AppendBackward(prev: seq<Node>, s: seq<Node>, n: Node)
    requires Nodes(s, |prev|) && Backward(prev, s) && 0 <= n < |prev| && n !in s && Nodes(s + [n], |prev|)
    ensures Backward(prev[n := At(s, |s| - 1)], s + [n])
  {
    var r, prev' := s + [n], prev[n := At(s, |s| - 1)];
    forall i | 0 <= i < |r|
      ensures PointsBack(prev', r, i)
    {
      if i < |s| {
        assert PointsBack(prev, s, i);
      }
    }
  }

  /** Pushing a node before the first one. */
  lemma PushForward(next: seq<Node>, s: seq<Node>, n: Node)
    requires Nodes(s, |next|) && Forward(next, s) && 0 <= n < |next| && n !in s && Nodes([n] + s, |next|)
    ensures Forward(next[n := At(s, 0)], [n] + s)
  {
    var r, next' := [n] + s, next[n := At(s, 0)];
    forall i | 0 <= i < |r|
      ensures Points(next', r, i)
    {
      if i > 0 {
        assert Points(next, s, i - 1) && r[i] == s[i - 1];
      }
    }
  }

  // ---------------------------------------------------------------- both lists at once

  /** A node is in one list at most; only a node of the active list points back, and a node in neither
      list points nowhere. */
  ghost predicate NodeOk(next: seq<Node>, prev: seq<Node>, active: seq<Node>, free: seq<Node>, n: Node)
    requires 0 <= n < |next| == |prev|
  {
    && (n in active ==> n !in free)
    && (n !in active ==> prev[n] == NIL)
    && (n !in active && n !in free ==> next[n] == NIL)
  }

  ghost predicate WellLinked(next: seq<Node>, prev: seq<Node>, active: seq<Node>, free: seq<Node>) {
    && |next| == |prev|
    && Nodes(active, |next|) && Nodes(free, |next|)
    && Forward(next, active) && Backward(prev, active) && Forward(next, free)
    && (forall n :: 0 <= n < |next| ==> NodeOk(next, prev, active, free, n))
  }

  lemma ListsTogether(next: seq<Node>, prev: seq<Node>, active: seq<Node>, free: seq<Node>)
    requires WellLinked(next, prev, active, free)
    ensures Nodes(active + free, |next|)
  {
    var s := active + free;
    forall i, j | 0 <= i < |s| && 0 <= j < |s| && i != j
      ensures Apart(s, i, j)
    {
      if i < |active| && j < |active| {
        assert Apart(active, i, j);
      } else if i >= |active| && j >= |active| {
        assert Apart(free, i - |active|, j - |active|);
      } else {
        assert NodeOk(next, prev, active, free, s[i]) && NodeOk(next, prev, active, free, s[j]);
      }
    }
  }

  ghost function UnlinkedNext(next: seq<Node>, s: seq<Node>, k: nat): seq<Node>
    requires Nodes(s, |next|) && k < |s|
  {
    (if k > 0 then next[s[k - 1] := At(s, k + 1)] else next)[s[k] := NIL]
  }

  ghost function UnlinkedPrev(prev: seq<Node>, s: seq<Node>, k: nat): seq<Node>
    requires Nodes(s, |prev|) && k < |s|
  {
    (if k + 1 < |s| then prev[s[k + 1] := At(s, k - 1)] else prev)[s[k] := NIL]
  }

  ghost function AppendedNext(next: seq<Node>, s: seq<Node>, n: Node): seq<Node>
    requires Nodes(s, |next|) && 0 <= n < |next|
  {
    (if s == [] then next else next[s[|s| - 1] := n])[n := NIL]
  }

  ghost function AppendedPrev(prev: seq<Node>, s: seq<Node>, n: Node): seq<Node>
    requires Nodes(s, |prev|) && 0 <= n < |prev|
  {
    prev[n := At(s, |s| - 1)]
  }

  lemma ReserveKeepsLinks(next: seq<Node>, prev: seq<Node>, active: seq<Node>, free: seq<Node>)
    requires WellLinked(next, prev, active, free) && free != []
    ensures next[free[0]] == At(free, 1)
    ensures free[0] !in active && free[0] !in free[1..]
    ensures WellLinked(next[free[0] := NIL], prev, active, free[1..])
  {
    var n, next', free' := free[0], next[free[0] := NIL], free[1..];
    assert NodeOk(next, prev, active, free, n) && Points(next, free, 0);
    assert free' == RemoveAt(free, 0);
    RemoveKeepsNodes(free, |next|, 0);
    UnlinkForward(next, free, 0);
    ForwardFrame(next, next', free');
    ForwardFrame(next, next', active);
    forall m | 0 <= m < |next|
      ensures NodeOk(next', prev, active, free', m)
    {
      assert NodeOk(next, prev, active, free, m);
    }
  }

  lemma RecycleKeepsLinks(next: seq<Node>, prev: seq<Node>, active: seq<Node>, free: seq<Node>, n: Node)
    requires WellLinked(next, prev, active, free) && 0 <= n < |next| && n !in active && n !in free
    ensures WellLinked(next[n := At(free, 0)], prev[n := NIL], active, [n] + free)
  {
    var next' := next[n := At(free, 0)];
    assert NodeOk(next, prev, active, free, n);
    assert prev[n := NIL] == prev;
    PushKeepsNodes(free, |next|, n);
    PushForward(next, free, n);
    ForwardFrame(next, next', active);
    forall m | 0 <= m < |next|
      ensures NodeOk(next', prev, active, [n] + free, m)
    {
      assert NodeOk(next, prev, active, free, m);
    }
  }

  lemma UnlinkKeepsLinks(next: seq<Node>, prev: seq<Node>, active: seq<Node>, free: seq<Node>, k: nat)
    requires WellLinked(next, prev, active, free) && k < |active|
    ensures active[k] !in RemoveAt(active, k) && active[k] !in free
    ensures WellLinked(UnlinkedNext(next, active, k), UnlinkedPrev(prev, active, k), RemoveAt(active, k), free)
  {
    var n, r := active[k], RemoveAt(active, k);
    RemoveKeepsNodes(active, |next|, k);
    UnlinkForward(next, active, k);
    UnlinkBackward(prev, active, k);
    var next1 := if k > 0 then next[active[k - 1] := At(active, k + 1)] else next;
    var prev1 := if k + 1 < |active| then prev[active[k + 1] := At(active, k - 1)] else prev;
    assert forall i :: 0 <= i < |r| ==> r[i] in r;
    ForwardFrame(next1, next1[n := NIL], r);
    BackwardFrame(prev1, prev1[n := NIL], r);
    var next2, prev2 := UnlinkedNext(next, active, k), UnlinkedPrev(prev, active, k);
    forall m | 0 <= m < |next|
      ensures NodeOk(next2, prev2, r, free, m)
      ensures m in free ==> next2[m] == next[m]
    {
      assert NodeOk(next, prev, active, free, m);
    }
    ForwardFrame(next, next2, free);
    assert NodeOk(next, prev, active, free, n);
  }

  lemma AppendKeepsLinks(next: seq<Node>, prev: seq<Node>, active: seq<Node>, free: seq<Node>, n: Node)
    requires WellLinked(next, prev, active, free) && 0 <= n < |next| && n !in active && n !in free
    ensures WellLinked(AppendedNext(next, active, n), AppendedPrev(prev, active, n), active + [n], free)
  {
    var next', prev' := AppendedNext(next, active, n), AppendedPrev(prev, active, n);
    AppendKeepsNodes(active, |next|, n);
    AppendForward(next, active, n);
    AppendBackward(prev, active, n);
    forall m | 0 <= m < |next|
      ensures NodeOk(next', prev', active + [n], free, m)
      ensures m in free ==> next'[m] == next[m]
    {
      assert NodeOk(next, prev, active, free, m);
    }
    ForwardFrame(next, next', free);
  }

  /** Unlinking a node with a successor and linking it behind the tail, as one update. */
  lemma MoveKeepsLinks(next: seq<Node>, prev: seq<Node>, active: seq<Node>, free: seq<Node>, k: nat)
    requires WellLinked(next, prev, active, free) && k + 1 < |active|
    ensures
      var n, tail := active[k], active[|active| - 1];
      WellLinked((if k == 0 then next else next[active[k - 1] := active[k + 1]])[tail := n][n := NIL],
                 prev[active[k + 1] := At(active, k - 1)][n := tail],
                 RemoveAt(active, k) + [n], free)
  {
    var n, tail, r := active[k], active[|active| - 1], RemoveAt(active, k);
    UnlinkKeepsLinks(next, prev, active, free, k);
    var next1, prev1 := UnlinkedNext(next, active, k), UnlinkedPrev(prev, active, k);
    AppendKeepsLinks(next1, prev1, r, free, n);
    assert r[|r| - 1] == tail;
    assert AppendedPrev(prev1, r, n) == prev[active[k + 1] := At(active, k - 1)][n := tail];
    assert AppendedNext(next1, r, n) ==
      (if k == 0 then next else next[active[k - 1] := active[k + 1]])[tail := n][n := NIL];
  }

  /** A pool whose nodes are all free, chained in order. */
  lemma FreshLinks(next: seq<Node>, prev: seq<Node>, free: seq<Node>)
    requires |next| == |prev| == |free| > 0
    requires forall i :: 0 <= i < |free| ==> free[i] == i && prev[i] == NIL
    requires forall i :: 0 <= i < |free| ==> next[i] == if i + 1 < |free| then i + 1 else NIL
    ensures WellLinked(next, prev, [], free)
  {
    forall i | 0 <= i < |free|
      ensures Points(next, free, i)
    {
      assert next[free[i]] == next[i];
    }
    forall n | 0 <= n < |next|
      ensures NodeOk(next, prev, [], free, n)
    {
      assert free[n] == n;
    }
  }

  // ---------------------------------------------------------------- walking around the list

  function NextOf(next: seq<Node>, head: Node, n: Node): Node
    requires 0 <= n < |next|
  {
    if next[n] != NIL then next[n] else head
  }

  function PrevOf(prev: seq<Node>, tail: Node, n: Node): Node
    requires 0 <= n < |prev|
  {
    if prev[n] != NIL then prev[n] else tail
  }

  lemma NextOfPosition(next: seq<Node>, active: seq<Node>, k: nat)
    requires Nodes(active, |next|) && Forward(next, active) && k < |active|
    ensures NextOf(next, active[0], active[k]) == active[if k + 1 < |active| then k + 1 else 0]
  {
    assert Points(next, active, k);
  }

  lemma PrevOfPosition(prev: seq<Node>, active: seq<Node>, k: nat)
    requires Nodes(active, |prev|) && Backward(prev, active) && k < |active|
    ensures PrevOf(prev, active[|active| - 1], active[k]) == active[if k > 0 then k - 1 else |active| - 1]
  {
    assert PointsBack(prev, active, k);
  }

  /** Going forward and back returns to the same node, also across the ends of the list. */
  lemma PrevUndoesNext(next: seq<Node>, prev: seq<Node>, active: seq<Node>, free: seq<Node>, n: Node)
    requires WellLinked(next, prev, active, free) && n in active
    ensures var m := NextOf(next, active[0], n); m in active && PrevOf(prev, active[|active| - 1], m) == n
    ensures var m := PrevOf(prev, active[|active| - 1], n); m in active && NextOf(next, active[0], m) == n
  {
    var k :| 0 <= k < |active| && active[k] == n;
    NextOfPosition(next, active, k);
    PrevOfPosition(prev, active, if k + 1 < |active| then k + 1 else 0);
    PrevOfPosition(prev, active, k);
    NextOfPosition(next, active, if k > 0 then k - 1 else |active| - 1);
  }

  /** The nodes met on `steps` forward steps from the head. */
  ghost function Walk(next: seq<Node>, head: Node, steps: nat): (r: seq<Node>)
    ensures |r| == steps
  {
    if steps == 0 then []
    else
      var w := Walk(next, head, steps - 1);
      w + [if w == [] || !(0 <= w[|w| - 1] < |next|) then head else NextOf(next, head, w[|w| - 1])]
  }

  /** A full round from the head meets every node of the list once, in list order. */
  lemma {:induction false} WalkMeetsEveryNodeOnce(next: seq<Node>, prev: seq<Node>, active: seq<Node>,
                                                  free: seq<Node>, steps: nat)
    requires WellLinked(next, prev, active, free) && steps <= |active|
    ensures Walk(next, At(active, 0), steps) == active[..steps]
  {
    if steps > 0 {
      WalkMeetsEveryNodeOnce(next, prev, active, free, steps - 1);
      if steps > 1 {
        NextOfPosition(next, active, steps - 2);
      }
      assert active[..steps] == active[..steps - 1] + [active[steps - 1]];
    }
  }
}
