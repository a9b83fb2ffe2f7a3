/**
 Breaking cycles among merged-school pointers (src/scripts/seed-geo-entities.ts, findMergeCycleBreaks).
 A school has at most one pointer, so the edges are a partial function on ids.
 */
module MergeCycles {
  import opened Options

  type Id = string

  datatype Edge = Edge(id: Id, mergedInto: Id, operational: bool)

  type Pointers = map<Id, Id>

  /** Where k pointers lead from x, if they all exist. */
  function Walk(next: Pointers, x: Id, k: nat): Option<Id> {
    if k == 0 then Some(x)
    else
      match Walk(next, x, k - 1)
      case None => None
      case Some(y) => if y in next then Some(next[y]) else None
  }

  ghost predicate OnCycle(next: Pointers, x: Id) { exists k: nat :: k > 0 && Walk(next, x, k) == Some(x) }

  ghost predicate Leads(next: Pointers, x: Id, y: Id) { exists k: nat :: Walk(next, x, k) == Some(y) }

  /** The ids to clear: the operational members of a cycle, or all its members when none is operational. */
  ghost predicate MustBreak(next: Pointers, operational: set<Id>, x: Id) {
    OnCycle(next, x) && (x in operational || forall y :: y in operational ==> !Leads(next, x, y))
  }

  // ---------------------------------------------------------------------------
  // Walks
  // ---------------------------------------------------------------------------

  lemma {:induction false} WalkOn(next: Pointers, x: Id, k: nat, y: Id, l: nat)
    requires Walk(next, x, k) == Some(y)
    ensures Walk(next, x, k + l) == Walk(next, y, l)
    decreases l
  {
    if l > 0 { WalkOn(next, x, k, y, l - 1); }
  }

  lemma {:induction false} WalkTimes(next: Pointers, x: Id, k: nat, n: nat)
    requires Walk(next, x, k) == Some(x)
    ensures Walk(next, x, n * k) == Some(x)
    decreases n
  {
    if n > 0 {
      WalkTimes(next, x, k, n - 1);
      WalkOn(next, x, (n - 1) * k, x, k);
      assert (n - 1) * k + k == n * k;
    }
  }

  lemma {:induction false} WalkPrefix(next: Pointers, x: Id, k: nat, l: nat)
    requires Walk(next, x, k) != None && l <= k
    ensures Walk(next, x, l) != None
    decreases k
  {
    if l < k { WalkPrefix(next, x, k - 1, l); }
  }

  /** A set the pointers do not leave: once a walk is inside it, it stays. */
  ghost predicate Closed(next: Pointers, s: set<Id>) { forall y :: y in s && y in next ==> next[y] in s }

  lemma {:induction false} WalkStaysIn(next: Pointers, s: set<Id>, x: Id, k: nat)
    requires Closed(next, s) && x in s && Walk(next, x, k) != None
    ensures Walk(next, x, k).value in s
    decreases k
  {
    if k > 0 { WalkStaysIn(next, s, x, k - 1); }
  }

  /** A cycle that reaches a closed set lies in it. */
  lemma CycleIsInside(next: Pointers, s: set<Id>, x: Id, k: nat)
    requires Closed(next, s) && OnCycle(next, x)
    requires Walk(next, x, k) != None && Walk(next, x, k).value in s
    ensures x in s
  {
    var p: nat :| p > 0 && Walk(next, x, p) == Some(x);
    WalkTimes(next, x, p, k + 1);
    assert (k + 1) * p >= k by { assert (k + 1) * p >= (k + 1) * 1; }
    var y := Walk(next, x, k).value;
    WalkOn(next, x, k, y, (k + 1) * p - k);
    WalkStaysIn(next, s, y, (k + 1) * p - k);
  }

  /** From a member of a cycle every walk goes on, and every place it reaches leads back. */
  lemma {:induction false} CycleNeverEnds(next: Pointers, x: Id, k: nat)
    requires OnCycle(next, x)
    ensures Walk(next, x, k) != None && OnCycle(next, Walk(next, x, k).value) && Leads(next, Walk(next, x, k).value, x)
  {
    var p: nat :| p > 0 && Walk(next, x, p) == Some(x);
    WalkTimes(next, x, p, k + 1);
    assert (k + 1) * p >= k + 1 by { assert (k + 1) * p >= (k + 1) * 1; }
    WalkPrefix(next, x, (k + 1) * p, k);
    var y := Walk(next, x, k).value;
    var back := (k + 1) * p - k;
    WalkOn(next, x, k, y, back);
    assert Walk(next, y, back) == Some(x);
    WalkOn(next, y, back, x, k);
    assert Walk(next, y, back + k) == Some(y);
  }

  // ---------------------------------------------------------------------------
  // What clearing the breaks achieves
  // ---------------------------------------------------------------------------

  function Cleared(next: Pointers, breaks: set<Id>): Pointers { next - breaks }

  lemma {:induction false} ClearedWalk(next: Pointers, breaks: set<Id>, x: Id, k: nat)
    requires Walk(Cleared(next, breaks), x, k) != None
    ensures Walk(next, x, k) == Walk(Cleared(next, breaks), x, k)
    decreases k
  {
    if k > 0 { ClearedWalk(next, breaks, x, k - 1); }
  }

  ghost predicate CycleFree(next: Pointers) { forall x :: !OnCycle(next, x) }

  function Ids(breaks: seq<Id>): set<Id> { set x | x in breaks }

  lemma ClearingFreesOfCycles(next: Pointers, operational: set<Id>, breaks: seq<Id>)
    requires forall x :: x in breaks <==> MustBreak(next, operational, x)
    ensures CycleFree(Cleared(next, Ids(breaks)))
  {
    hide MustBreak, OnCycle, Cleared;
    forall x ensures !OnCycle(Cleared(next, Ids(breaks)), x) { NoCycleSurvives(next, operational, Ids(breaks), x); }
  }

  /** No cycle survives. */
  lemma NoCycleSurvives(next: Pointers, operational: set<Id>, breaks: set<Id>, x: Id)
    requires forall y :: y in breaks <==> MustBreak(next, operational, y)
    ensures !OnCycle(Cleared(next, breaks), x)
  {
    var next' := Cleared(next, breaks);
    if OnCycle(next', x) {
      var p: nat :| p > 0 && Walk(next', x, p) == Some(x);
      ClearedWalk(next, breaks, x, p);
      assert OnCycle(next, x);
      StaysCleared(next', x, 0);
      assert x !in breaks;
      var y :| y in operational && Leads(next, x, y);
      var k: nat :| Walk(next, x, k) == Some(y);
      CycleNeverEnds(next', x, k);
      ClearedWalk(next, breaks, x, k);
      CycleNeverEnds(next, x, k);
      StaysCleared(next', x, k);
      assert MustBreak(next, operational, y);
    }
  }

  /** A node on a cycle of the cleared pointers still has its pointer. */
  lemma StaysCleared(next: Pointers, x: Id, k: nat)
    requires OnCycle(next, x)
    ensures Walk(next, x, k) != None && Walk(next, x, k).value in next
  {
    CycleNeverEnds(next, x, k);
    CycleNeverEnds(next, x, k + 1);
  }

  /** Two members of the same cycle agree on whether it has an operational member, so each cycle loses exactly
      its operational members, or all of its members when it has none. */
  lemma CycleLosesItsOperationalMembers(next: Pointers, operational: set<Id>, x: Id, y: Id)
    requires OnCycle(next, x) && Leads(next, x, y)
    ensures OnCycle(next, y) && Leads(next, y, x)
    ensures (exists z :: z in operational && Leads(next, x, z)) ==>
            (MustBreak(next, operational, y) <==> y in operational)
    ensures (forall z :: z in operational ==> !Leads(next, x, z)) ==> MustBreak(next, operational, y)
  {
    var k: nat :| Walk(next, x, k) == Some(y);
    CycleNeverEnds(next, x, k);
    forall z | Leads(next, x, z) ensures Leads(next, y, z) { LeadsOn(next, y, x, z); }
    forall z | Leads(next, y, z) ensures Leads(next, x, z) { LeadsOn(next, x, y, z); }
  }

  lemma LeadsOn(next: Pointers, x: Id, y: Id, z: Id)
    requires Leads(next, x, y) && Leads(next, y, z)
    ensures Leads(next, x, z)
  {
    var k: nat :| Walk(next, x, k) == Some(y);
    var l: nat :| Walk(next, y, l) == Some(z);
    WalkOn(next, x, k, y, l);
  }

  // ---------------------------------------------------------------------------
  // The search
  // ---------------------------------------------------------------------------

  datatype Mark = Visiting | Done

  /** Consecutive nodes of the path are linked by pointers. */
  ghost predicate IsPath(next: Pointers, path: seq<Id>, node: Id) {
    && (forall k :: 0 <= k < |path| ==> path[k] in next)
    && (forall k :: 0 <= k < |path| - 1 ==> next[path[k]] == path[k + 1])
    && (path != [] ==> next[path[|path| - 1]] == node)
  }

  lemma {:induction false} PathIsWalk(next: Pointers, path: seq<Id>, node: Id, i: nat, l: nat)
    requires IsPath(next, path, node) && i <= l <= |path| && i < |path|
    ensures Walk(next, path[i], l - i) == Some(if l == |path| then node else path[l])
    decreases l
  {
    if i < l { PathIsWalk(next, path, node, i, l - 1); }
  }

  function IndexOf(path: seq<Id>, node: Id): (i: nat)
    requires node in path
    ensures i < |path| && path[i] == node && node !in path[..i]
  {
    if path[0] == node then 0 else 1 + IndexOf(path[1..], node)
  }

  /** The members of the loop that starts at path[at], when the path comes back to it. */
  ghost function Loop(path: seq<Id>, at: nat): set<Id>
    requires at <= |path|
  {
    set k | at <= k < |path| :: path[k]
  }

  lemma LoopIsClosed(next: Pointers, path: seq<Id>, node: Id, at: nat)
    requires IsPath(next, path, node) && at < |path| && path[at] == node
    ensures Closed(next, Loop(path, at))
  {
    forall y | y in Loop(path, at) && y in next ensures next[y] in Loop(path, at) {
      var k :| at <= k < |path| && path[k] == y;
      if k < |path| - 1 { assert next[y] == path[k + 1]; } else { assert next[y] == path[at]; }
    }
  }

  /** Around the loop, from any member to any member. */
  lemma AroundTheLoop(next: Pointers, path: seq<Id>, node: Id, at: nat, i: nat, k: nat)
    requires IsPath(next, path, node) && at <= i < |path| && at <= k < |path| && path[at] == node
    ensures Walk(next, path[i], |path| - i + (k - at)) == Some(path[k])
  {
    PathIsWalk(next, path, node, i, |path|);
    PathIsWalk(next, path, node, at, k);
    hide IsPath;
    WalkOn(next, path[i], |path| - i, node, k - at);
  }

  /** What a node on the loop leads to is exactly the loop, so it is on a cycle. */
  lemma LoopIsACycle(next: Pointers, path: seq<Id>, node: Id, at: nat, x: Id)
    requires IsPath(next, path, node) && at < |path| && path[at] == node && x in Loop(path, at)
    ensures OnCycle(next, x)
    ensures forall y :: Leads(next, x, y) <==> y in Loop(path, at)
  {
    var i :| at <= i < |path| && path[i] == x;
    AroundTheLoop(next, path, node, at, i, i);
    LoopIsClosed(next, path, node, at);
    forall y ensures Leads(next, x, y) <==> y in Loop(path, at) {
      if y in Loop(path, at) {
        var k :| at <= k < |path| && path[k] == y;
        AroundTheLoop(next, path, node, at, i, k);
      }
      if k: nat :| Walk(next, x, k) == Some(y) { WalkStaysIn(next, Loop(path, at), x, k); }
    }
  }

  /** Where the search ends: in a closed set that the path node x is not in. Then x is on no cycle. */
  lemma OffCycle(next: Pointers, path: seq<Id>, node: Id, i: nat, s: set<Id>)
    requires IsPath(next, path, node) && i < |path|
    requires Closed(next, s) && node in s && path[i] !in s
    ensures !OnCycle(next, path[i])
  {
    PathIsWalk(next, path, node, i, |path|);
    if OnCycle(next, path[i]) { CycleIsInside(next, s, path[i], |path| - i); }
  }

  /** The verdict on every node of a finished path. */
  lemma PathVerdicts(next: Pointers, operational: set<Id>, done: set<Id>, path: seq<Id>, node: Id, x: Id)
    requires IsPath(next, path, node) && Closed(next, done) && x in path && x !in done
    requires forall k, l :: 0 <= k < l < |path| ==> path[k] != path[l]
    requires node in path || node in done || node !in next
    ensures var at := if node in path then IndexOf(path, node) else |path|;
            MustBreak(next, operational, x) <==>
            x in Loop(path, at) && (x in operational || Loop(path, at) * operational == {})
  {
    var i :| 0 <= i < |path| && path[i] == x;
    var at := if node in path then IndexOf(path, node) else |path|;
    if x in Loop(path, at) {
      LoopIsACycle(next, path, node, at, x);
      hide IsPath, OnCycle, Leads, Closed;
      if Loop(path, at) * operational == {} {
        forall y | y in operational ensures !Leads(next, x, y) { assert y !in Loop(path, at) * operational; }
      } else {
        var y :| y in Loop(path, at) * operational;
        assert Leads(next, x, y);
      }
    } else if node in path {
      LoopIsClosed(next, path, node, at);
      OffCycle(next, path, node, i, Loop(path, at));
    } else if node in done {
      OffCycle(next, path, node, i, done);
    } else {
      OffCycle(next, path, node, i, {node});
    }
  }

  // ---------------------------------------------------------------------------
  // The search itself
  // ---------------------------------------------------------------------------

  /** The map built from the edges: a repeated id keeps its last edge. */
  function NextOf(edges: seq<Edge>): Pointers {
    if edges == [] then map[] else var e := edges[|edges| - 1]; NextOf(edges[..|edges| - 1])[e.id := e.mergedInto]
  }

  function OperationalOf(edges: seq<Edge>): set<Id> {
    if edges == [] then {}
    else
      var e := edges[|edges| - 1];
      if e.operational then OperationalOf(edges[..|edges| - 1]) + {e.id}
      else OperationalOf(edges[..|edges| - 1]) - {e.id}
  }

  /** The maps hold for an id what its last edge says, .. */
  lemma {:induction false} LastEdgeWins(edges: seq<Edge>, k: nat)
    requires k < |edges| && forall l :: k < l < |edges| ==> edges[l].id != edges[k].id
    ensures var e := edges[k];
            && e.id in NextOf(edges) && NextOf(edges)[e.id] == e.mergedInto
            && (e.id in OperationalOf(edges) <==> e.operational)
    decreases |edges|
  {
    if k < |edges| - 1 { LastEdgeWins(edges[..|edges| - 1], k); }
  }

  /** .. and nothing for an id without an edge. */
  lemma {:induction false} OnlyEdgesPoint(edges: seq<Edge>, x: Id)
    ensures x in NextOf(edges) <==> exists e :: e in edges && e.id == x
    ensures x in OperationalOf(edges) ==> x in NextOf(edges)
    decreases |edges|
  {
    if edges != [] {
      var before, last := edges[..|edges| - 1], edges[|edges| - 1];
      OnlyEdgesPoint(before, x);
      assert edges == before + [last];
    }
  }

  /** Pointer targets that have no pointer of their own: every walk ends there. */
  ghost function DeadEnds(next: Pointers): set<Id> { next.Values - next.Keys }

  /** What the searches finished so far have settled. */
  ghost predicate Settled(next: Pointers, operational: set<Id>, done: set<Id>, breaks: seq<Id>) {
    && done <= next.Keys && Closed(next, done + DeadEnds(next))
    && (forall x :: x in breaks <==> x in done && MustBreak(next, operational, x))
    && (forall k, l :: 0 <= k < l < |breaks| ==> breaks[k] != breaks[l])
  }

  method BuildMaps(edges: seq<Edge>) returns (next: Pointers, operational: set<Id>, order: seq<Id>)
    ensures next == NextOf(edges) && operational == OperationalOf(edges)
    ensures forall x :: x in order <==> x in next
  {
    next, operational, order := map[], {}, [];
    for k := 0 to |edges|
      invariant next == NextOf(edges[..k]) && operational == OperationalOf(edges[..k])
      invariant forall x :: x in order <==> x in next
    {
      var e := edges[k];
      assert edges[..k + 1][..k] == edges[..k];
      if e.id !in next { order := order + [e.id]; }
      next := next[e.id := e.mergedInto];
      operational := if e.operational then operational + {e.id} else operational - {e.id};
    }
    assert edges[..|edges|] == edges;
  }

  /** One walk from an unmarked start, marking its nodes, until it leaves the graph or meets a mark. */
  method FollowPointers(next: Pointers, done: set<Id>, start: Id) returns (path: seq<Id>, node: Id, state: set<Id>)
    requires start in next && start !in done && done <= next.Keys
    ensures path != [] && path[0] == start && IsPath(next, path, node)
    ensures forall k, l :: 0 <= k < l < |path| ==> path[k] != path[l]
    ensures forall x :: x in path ==> x !in done
    ensures state == done + (set x | x in path)
    ensures node in path || node in done || node !in next
  {
    path, node, state := [], start, done;
    while node in next && node !in state
      invariant IsPath(next, path, node) && (path == [] ==> node == start) && (path != [] ==> path[0] == start)
      invariant forall k, l :: 0 <= k < l < |path| ==> path[k] != path[l]
      invariant forall x :: x in path ==> x !in done
      invariant state == done + (set x | x in path) && state <= next.Keys
      decreases next.Keys - state
    {
      state := state + {node};
      path := path + [node];
      node := next[node];
    }
  }

  method AddAll(breaks: seq<Id>, ids: seq<Id>) returns (r: seq<Id>)
    requires forall k, l :: 0 <= k < l < |breaks| ==> breaks[k] != breaks[l]
    ensures forall x :: x in r <==> x in breaks || x in ids
    ensures forall k, l :: 0 <= k < l < |r| ==> r[k] != r[l]
  {
    r := breaks;
    for n := 0 to |ids|
      invariant forall x :: x in r <==> x in breaks || x in ids[..n]
      invariant forall k, l :: 0 <= k < l < |r| ==> r[k] != r[l]
    {
      assert ids[..n + 1] == ids[..n] + [ids[n]];
      if ids[n] !in r { r := r + [ids[n]]; }
    }
    assert ids[..|ids|] == ids;
  }

  method BreaksOn(path: seq<Id>, node: Id, operational: set<Id>) returns (ids: seq<Id>)
    ensures var at := if node in path then IndexOf(path, node) else |path|;
            forall x :: x in ids <==> x in Loop(path, at) && (x in operational || Loop(path, at) * operational == {})
  {
    if node !in path { return []; }
    var at := IndexOf(path, node);
    var cycle := path[at..];
    assert forall x :: x in cycle <==> x in Loop(path, at);
    ids := [];
    for n := 0 to |cycle|
      invariant forall x :: x in ids <==> x in cycle[..n] && x in operational
    {
      assert cycle[..n + 1] == cycle[..n] + [cycle[n]];
      if cycle[n] in operational { ids := ids + [cycle[n]]; }
    }
    assert cycle[..|cycle|] == cycle;
    if |ids| == 0 {
      assert forall x :: x in Loop(path, at) && x in operational ==> x in ids;
      ids := cycle;
    } else {
      assert ids[0] in ids && ids[0] in Loop(path, at) * operational;
    }
  }

  lemma SettlePath(next: Pointers, operational: set<Id>, done: set<Id>, breaks: seq<Id>, path: seq<Id>, node: Id,
                   ids: seq<Id>, breaks': seq<Id>)
    requires Settled(next, operational, done, breaks)
    requires path != [] && IsPath(next, path, node) && (node in path || node in done || node !in next)
    requires forall k, l :: 0 <= k < l < |path| ==> path[k] != path[l]
    requires forall x :: x in path ==> x !in done
    requires var at := if node in path then IndexOf(path, node) else |path|;
             forall x :: x in ids <==> x in Loop(path, at) && (x in operational || Loop(path, at) * operational == {})
    requires forall x :: x in breaks' <==> x in breaks || x in ids
    requires forall k, l :: 0 <= k < l < |breaks'| ==> breaks'[k] != breaks'[l]
    ensures Settled(next, operational, done + (set x | x in path), breaks')
  {
    PathCloses(next, done, path, node);
    var done' := done + (set x | x in path);
    hide Closed, MustBreak;
    forall x ensures x in breaks' <==> x in done' && MustBreak(next, operational, x) {
      if x in path { PathVerdicts(next, operational, done + DeadEnds(next), path, node, x); }
    }
  }

  lemma PathCloses(next: Pointers, done: set<Id>, path: seq<Id>, node: Id)
    requires done <= next.Keys && Closed(next, done + DeadEnds(next))
    requires path != [] && IsPath(next, path, node) && (node in path || node in done || node !in next)
    ensures var done' := done + (set x | x in path); done' <= next.Keys && Closed(next, done' + DeadEnds(next))
  {
    var done' := done + (set x | x in path);
    assert next[path[|path| - 1]] == node && node in next.Values;
    forall y | y in done' + DeadEnds(next) && y in next ensures next[y] in done' + DeadEnds(next) {
      if y !in done {
        var k :| 0 <= k < |path| && path[k] == y;
        if k < |path| - 1 { assert next[y] == path[k + 1]; }
      }
    }
  }

  /** The ids to clear are exactly the operational members of every cycle, and every member of a cycle that has none. */
  method FindMergeCycleBreaks(edges: seq<Edge>) returns (breaks: seq<Id>)
    ensures forall x :: x in breaks <==> MustBreak(NextOf(edges), OperationalOf(edges), x)
    ensures forall k, l :: 0 <= k < l < |breaks| ==> breaks[k] != breaks[l]
  {
    var next, operational, order := BuildMaps(edges);
    var done: set<Id> := {};
    breaks := [];
    for n := 0 to |order|
      invariant Settled(next, operational, done, breaks)
      invariant forall k :: 0 <= k < n ==> order[k] in done
    {
      var start := order[n];
      assert start in order;
      if start !in done {
        hide Settled, MustBreak, IsPath;
        var path, node, state := FollowPointers(next, done, start);
        var ids := BreaksOn(path, node, operational);
        var more := AddAll(breaks, ids);
        SettlePath(next, operational, done, breaks, path, node, ids, more);
        breaks, done := more, state;
        assert start == path[0] && start in path;
      }
    }
    forall x ensures x in breaks <==> MustBreak(next, operational, x) {
      if MustBreak(next, operational, x) {
        CycleNeverEnds(next, x, 1);
        assert Walk(next, x, 0) == Some(x) && Walk(next, x, 1) != None;
        assert x in next && x in order;
      }
    }
  }
}
