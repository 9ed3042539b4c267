/** What every interleaving guarantees, for any number of goroutines and nodes:
    calls are serialised, IDs are unique and ordered in real time, rates are
    bounded, and timestamps are readings of the call. */
module ClusterSafety {
  import opened Int64
  import opened SnowflakeId
  import opened Generator
  import opened Runs
  import opened Cluster

  /** s is where some interleaving of actions, from fresh nodes, has got to. */
  predicate Reachable(s0: State, actions: seq<Action>, s: State) {
    Init(s0) && Executes(s0, actions, s)
  }

  /** No two nodes share an id: the one thing the package asks of a cluster. */
  predicate DistinctIds(s: State) {
    forall m, n :: 0 <= m < n < |s.nodes| ==> s.nodes[m].id != s.nodes[n].id
  }

  /** Every offset any call has computed is below the limit. */
  predicate OffsetsBelow(s: State, limit: int) {
    forall c :: 0 <= c < |s.calls| ==> SeenUnder(s.calls[c].seen, limit)
  }

  predicate SeenUnder(seen: seq<int64>, limit: int) {
    forall j :: 0 <= j < |seen| ==> seen[j] < limit
  }

  predicate ReturnedId(s: State, c: nat)
    requires c < |s.calls|
  {
    s.calls[c].phase.Returned? && s.calls[c].phase.out.Issued?
  }

  function IdOf(s: State, c: nat): int64
    requires c < |s.calls| && ReturnedId(s, c)
  {
    s.calls[c].phase.out.id
  }

  lemma ReachableInv(s0: State, actions: seq<Action>, s: State)
    requires Reachable(s0, actions, s)
    ensures Inv(s)
  {
    forall n | 0 <= n < |s0.nodes|
      ensures NodeInv(s0, n)
    {
      assert FreshNode(s0.nodes[n]);
    }
    RunKeepsInv(s0, actions, s);
  }

  lemma {:induction false} NodesFixed(s: State, actions: seq<Action>, s': State)
    requires Executes(s, actions, s')
    ensures |s'.nodes| == |s.nodes|
    ensures forall n :: 0 <= n < |s.nodes| ==> s'.nodes[n].id == s.nodes[n].id && s'.nodes[n].epoch == s.nodes[n].epoch
    decreases |actions|
  {
    if actions != [] {
      NodesFixed(Next(s, actions[0]), actions[1..], s');
    }
  }

  // ---- Serialisation ----

  /** At most one call is inside a node's critical section. */
  lemma MutualExclusion(s0: State, actions: seq<Action>, s: State, c: nat, d: nat)
    requires Reachable(s0, actions, s) && c < |s.calls| && d < |s.calls|
    requires Critical(s.calls[c].phase) && Critical(s.calls[d].phase) && s.calls[c].node == s.calls[d].node
    ensures c == d
  {
    ReachableInv(s0, actions, s);
    assert CallInv(s, c) && CallInv(s, d);
  }

  /** The calls that have let go of a node's lock form a sequential run of that
      node, in which each returned call has its place. */
  lemma PlaceInRun(s0: State, actions: seq<Action>, s: State, c: nat)
    requires Reachable(s0, actions, s) && c < |s.calls| && s.calls[c].phase.Returned?
    ensures var call := s.calls[c];
      call.node < |s.nodes| &&
      var log, pos := s.nodes[call.node].log, call.phase.pos;
      IsRun(s.nodes[call.node].id, log) && pos < |log| &&
      log[pos] == Section(call.seen, call.phase.out) &&
      call.seen == Offsets(call.clock, s.nodes[call.node].epoch)
  {
    ReachableInv(s0, actions, s);
    assert CallInv(s, c);
    var n := s.calls[c].node;
    assert NodeInv(s, n);
    assert LeftAt(s, n, s.calls[c].phase.pos);
  }

  lemma LogBelow(s: State, n: nat, limit: int)
    requires Inv(s) && OffsetsBelow(s, limit) && n < |s.nodes|
    ensures SeenBelow(s.nodes[n].log, limit)
  {
    var v := s.nodes[n];
    assert NodeInv(s, n);
    forall i, j | 0 <= i < |v.log| && 0 <= j < |v.log[i].seen|
      ensures v.log[i].seen[j] < limit
    {
      assert LeftAt(s, n, i);
      assert SeenUnder(s.calls[v.who[i]].seen, limit);
    }
  }

  /** Everything known of a returned ID, from its place in its node's run. */
  lemma ReturnedPlace(s0: State, actions: seq<Action>, s: State, c: nat, limit: int)
    requires Reachable(s0, actions, s) && OffsetsBelow(s, limit) && c < |s.calls| && ReturnedId(s, c)
    ensures var n := s.calls[c].node;
      n < |s.nodes| &&
      var v, pos := s.nodes[n], s.calls[c].phase.pos;
      0 <= v.id <= NODE_MAX && IsRun(v.id, v.log) && SeenBelow(v.log, limit) &&
      pos < |v.log| && pos < |v.who| && v.who[pos] == c && v.log[pos] == Section(s.calls[c].seen, s.calls[c].phase.out)
  {
    ReachableInv(s0, actions, s);
    PlaceInRun(s0, actions, s, c);
    assert CallInv(s, c) && NodeInv(s, s.calls[c].node);
    LogBelow(s, s.calls[c].node, limit);
  }

  // ---- The guarantees ----

  /** Uniqueness: all IDs ever returned, by any calls of any nodes, differ. */
  lemma Unique(s0: State, actions: seq<Action>, s: State, c: nat, d: nat)
    requires Reachable(s0, actions, s) && DistinctIds(s0) && OffsetsBelow(s, 2 * TIME_LIMIT)
    requires c < |s.calls| && d < |s.calls| && c != d && ReturnedId(s, c) && ReturnedId(s, d)
    ensures IdOf(s, c) != IdOf(s, d)
  {
    NodesFixed(s0, actions, s);
    ReturnedPlace(s0, actions, s, c, 2 * TIME_LIMIT);
    ReturnedPlace(s0, actions, s, d, 2 * TIME_LIMIT);
    var m, n := s.calls[c].node, s.calls[d].node;
    var i, j := s.calls[c].phase.pos, s.calls[d].phase.pos;
    if m == n {
      var v := s.nodes[n];
      if i < j {
        IdsDiffer(v.id, v.log, i, j);
      } else {
        IdsDiffer(v.id, v.log, j, i);
      }
    } else {
      IdAt(s.nodes[m].id, s.nodes[m].log, i);
      IdAt(s.nodes[n].id, s.nodes[n].log, j);
      var a, b := SlotAt(s.nodes[m].id, s.nodes[m].log, i), SlotAt(s.nodes[n].id, s.nodes[n].log, j);
      assert s.nodes[m].id != s.nodes[n].id;
      CollideIff(a.time, s.nodes[m].id, a.step, b.time, s.nodes[n].id, b.step);
    }
  }

  /** A call that returned before another began held the lock before it. */
  lemma EarlierPlace(s: State, c: nat, d: nat)
    requires Inv(s) && c < |s.calls| && d < |s.calls|
    requires s.calls[c].phase.Returned? && s.calls[d].phase.Returned?
    requires s.calls[c].node == s.calls[d].node && s.calls[c].phase.at < s.calls[d].began
    ensures s.calls[c].phase.pos < s.calls[d].phase.pos
  {
    var i, j := s.calls[c].phase.pos, s.calls[d].phase.pos;
    LeftWithin(s, c);
    LeftWithin(s, d);
    if j < i {
      LeftInTurn(s, s.calls[c].node, j, i);
    }
  }

  /** A call lets go of the lock between its beginning and its return. */
  lemma LeftWithin(s: State, c: nat)
    requires Inv(s) && c < |s.calls| && s.calls[c].phase.Returned?
    ensures s.calls[c].node < |s.nodes| && s.calls[c].phase.pos < |s.nodes[s.calls[c].node].freed|
    ensures s.calls[c].began < s.nodes[s.calls[c].node].freed[s.calls[c].phase.pos] < s.calls[c].phase.at
  {
    assert CallInv(s, c) && NodeInv(s, s.calls[c].node);
    assert LeftAt(s, s.calls[c].node, s.calls[c].phase.pos);
  }

  lemma LeftInTurn(s: State, n: nat, i: nat, j: nat)
    requires Inv(s) && n < |s.nodes| && i < j < |s.nodes[n].freed|
    ensures s.nodes[n].freed[i] < s.nodes[n].freed[j]
  {
    assert NodeInv(s, n);
  }

  /** A returned call stays as it is, and calls made later begin later. */
  lemma {:induction false} LaterCalls(m: State, more: seq<Action>, s: State)
    requires Executes(m, more, s)
    ensures |m.calls| <= |s.calls| && m.tick <= s.tick
    ensures forall c :: 0 <= c < |m.calls| ==>
      s.calls[c].began == m.calls[c].began && s.calls[c].node == m.calls[c].node
    ensures forall c :: 0 <= c < |m.calls| && m.calls[c].phase.Returned? ==> s.calls[c] == m.calls[c]
    ensures forall d :: |m.calls| <= d < |s.calls| ==> s.calls[d].began >= m.tick
    decreases |more|
  {
    if more != [] {
      LaterCalls(Next(m, more[0]), more[1..], s);
    }
  }

  lemma ReturnedBefore(s: State, c: nat)
    requires Inv(s) && c < |s.calls| && s.calls[c].phase.Returned?
    ensures s.calls[c].phase.at < s.tick
  {
    assert CallInv(s, c) && NodeInv(s, s.calls[c].node);
    assert LeftAt(s, s.calls[c].node, s.calls[c].phase.pos);
  }

  /** Real-time order on one node: whatever happens in between, a call made after
      another has returned, in whatever goroutine, returns a larger ID. */
  lemma RealTimeOrder(s0: State, actions: seq<Action>, m: State, more: seq<Action>, s: State, c: nat, d: nat)
    requires Reachable(s0, actions, m) && Executes(m, more, s) && OffsetsBelow(s, TIME_LIMIT)
    requires c < |m.calls| <= d < |s.calls| && ReturnedId(m, c) && ReturnedId(s, d)
    requires m.calls[c].node == s.calls[d].node
    ensures c < |s.calls| && s.calls[c] == m.calls[c] && IdOf(m, c) < IdOf(s, d)
  {
    LaterCalls(m, more, s);
    ReachableInv(s0, actions, m);
    ReturnedBefore(m, c);
    ExecutesJoin(s0, actions, m, more, s);
    OrderAtTicks(s0, actions + more, s, c, d);
  }

  lemma OrderAtTicks(s0: State, actions: seq<Action>, s: State, c: nat, d: nat)
    requires Reachable(s0, actions, s) && OffsetsBelow(s, TIME_LIMIT)
    requires c < |s.calls| && d < |s.calls| && ReturnedId(s, c) && ReturnedId(s, d)
    requires s.calls[c].node == s.calls[d].node && s.calls[c].phase.at < s.calls[d].began
    ensures IdOf(s, c) < IdOf(s, d)
  {
    ReachableInv(s0, actions, s);
    ReturnedPlace(s0, actions, s, c, TIME_LIMIT);
    ReturnedPlace(s0, actions, s, d, TIME_LIMIT);
    var n := s.calls[c].node;
    var i, j := s.calls[c].phase.pos, s.calls[d].phase.pos;
    EarlierPlace(s, c, d);
    IdsIncrease(s.nodes[n].id, s.nodes[n].log, i, j);
  }

  /** Order across the cluster: whatever the nodes and goroutines, the call that
      settled on the smaller offset has the smaller ID. On nodes that share an
      epoch (at least 2^41 ms short of the end of int64) this is the order of the
      clock readings; epochs that differ shift it by their difference. */
  lemma TimeOrder(s0: State, actions: seq<Action>, s: State, c: nat, d: nat)
    requires Reachable(s0, actions, s) && OffsetsBelow(s, TIME_LIMIT)
    requires c < |s.calls| && d < |s.calls| && ReturnedId(s, c) && ReturnedId(s, d)
    ensures Placed(s0, actions, c) && Placed(s0, actions, d)
    ensures var m, n := EpochOf(s0, actions, c), EpochOf(s0, actions, d);
      var at, at' := LastReading(actions, c), LastReading(actions, d);
      (Offset(at, m) < Offset(at', n) ==> IdOf(s, c) < IdOf(s, d)) &&
      (m == n <= TWO63 - TIME_LIMIT && at < at' ==> IdOf(s, c) < IdOf(s, d))
  {
    OffsetOf(s0, actions, s, c);
    OffsetOf(s0, actions, s, d);
    var x, y := IdOf(s, c), IdOf(s, d);
    RepackFields(x);
    RepackFields(y);
    OrderEmbedding(Time(x), NodeOf(x), Step(x), Time(y), NodeOf(y), Step(y));
  }

  /** Call c was made, on a node there is, and has seen its clock. */
  predicate Placed(s0: State, actions: seq<Action>, c: nat) {
    c < |BegunOn(actions)| && BegunOn(actions)[c] < |s0.nodes| && ReadingsOf(actions, c) != []
  }

  /** The epoch of the node that call c was made on. */
  function EpochOf(s0: State, actions: seq<Action>, c: nat): int64
    requires Placed(s0, actions, c)
  {
    s0.nodes[BegunOn(actions)[c]].epoch
  }

  /** What the clock showed call c last. */
  function LastReading(actions: seq<Action>, c: nat): int64
    requires ReadingsOf(actions, c) != []
  {
    ReadingsOf(actions, c)[|ReadingsOf(actions, c)| - 1]
  }

  /** A returned call against what the actions say of it. */
  lemma CallTraced(s0: State, actions: seq<Action>, s: State, c: nat)
    requires Reachable(s0, actions, s) && c < |s.calls| && s.calls[c].phase.Returned?
    ensures Placed(s0, actions, c) && s.calls[c].node == BegunOn(actions)[c] < |s.nodes|
    ensures s.calls[c].seen == Offsets(ReadingsOf(actions, c), EpochOf(s0, actions, c))
    ensures s.nodes[BegunOn(actions)[c]].id == s0.nodes[BegunOn(actions)[c]].id
    ensures s.nodes[BegunOn(actions)[c]].epoch == EpochOf(s0, actions, c)
  {
    PlaceInRun(s0, actions, s, c);
    Recorded(s0, actions, s, c);
    NodesFixed(s0, actions, s);
    var v := s.nodes[s.calls[c].node];
    CallAt(v.id, v.log, s.calls[c].phase.pos);
  }

  /** Each returned call returned what a sequential run of its node says for what
      the clock showed that call, whatever the other calls did meanwhile. */
  lemma Serialised(s0: State, actions: seq<Action>, s: State, c: nat)
    requires Reachable(s0, actions, s) && c < |s.calls| && s.calls[c].phase.Returned?
    ensures Placed(s0, actions, c)
    ensures var n, pos := BegunOn(actions)[c], s.calls[c].phase.pos;
      n < |s.nodes| && IsRun(s0.nodes[n].id, s.nodes[n].log) && pos < |s.nodes[n].log| &&
      s.nodes[n].log[pos] == Section(Offsets(ReadingsOf(actions, c), EpochOf(s0, actions, c)), s.calls[c].phase.out)
  {
    PlaceInRun(s0, actions, s, c);
    CallTraced(s0, actions, s, c);
  }

  lemma OffsetOf(s0: State, actions: seq<Action>, s: State, c: nat)
    requires Reachable(s0, actions, s) && OffsetsBelow(s, TIME_LIMIT) && c < |s.calls| && ReturnedId(s, c)
    ensures Placed(s0, actions, c)
    ensures 0 <= Time(IdOf(s, c)) == Offset(LastReading(actions, c), EpochOf(s0, actions, c)) < TIME_LIMIT
  {
    CallTraced(s0, actions, s, c);
    ReturnedPlace(s0, actions, s, c, TIME_LIMIT);
    var call := s.calls[c];
    var v := s.nodes[call.node];
    IdsPositive(v.id, v.log, call.phase.pos);
    RepackFields(IdOf(s, c));
  }

  /** Each returned ID is positive, names the node its call was made on, and decodes
      to what the clock showed that very call last. */
  lemma IdsHonest(s0: State, actions: seq<Action>, s: State, c: nat)
    requires Reachable(s0, actions, s) && OffsetsBelow(s, TIME_LIMIT) && c < |s.calls| && ReturnedId(s, c)
    ensures Placed(s0, actions, c)
    ensures IdOf(s, c) > 0 && NodeOf(IdOf(s, c)) == s0.nodes[BegunOn(actions)[c]].id && Time(IdOf(s, c)) >= 0
    ensures TimeWithEpoch(IdOf(s, c), EpochOf(s0, actions, c)) == LastReading(actions, c)
  {
    CallTraced(s0, actions, s, c);
    ReturnedPlace(s0, actions, s, c, TIME_LIMIT);
    var call := s.calls[c];
    var v := s.nodes[call.node];
    IdsPositive(v.id, v.log, call.phase.pos);
    TimestampsHonest(v.id, v.epoch, v.log, call.phase.pos, ReadingsOf(actions, c));
  }

  /** The calls of node n that returned an ID with a timestamp in [t, t + w). */
  function ReturnedWithin(s: State, n: nat, t: int, w: nat): set<nat> {
    set c | 0 <= c < |s.calls| && s.calls[c].node == n && ReturnedId(s, c) && t <= Time(IdOf(s, c)) < t + w
  }

  /** Rate bound: at most 4096 IDs of a node per millisecond, counted over all goroutines. */
  lemma RateBounded(s0: State, actions: seq<Action>, s: State, n: nat, t: int, w: nat)
    requires Reachable(s0, actions, s) && OffsetsBelow(s, TIME_LIMIT) && n < |s.nodes|
    ensures |ReturnedWithin(s, n, t, w)| <= 4096 * w
  {
    ReachableInv(s0, actions, s);
    assert NodeInv(s, n);
    var v := s.nodes[n];
    LogBelow(s, n, TIME_LIMIT);
    RateBound(v.id, v.log, t, w);
    forall c | c in ReturnedWithin(s, n, t, w)
      ensures exists i :: 0 <= i < |v.log| && v.who[i] == c && InWindow(v.log[i].out, t, w)
    {
      ReturnedPlace(s0, actions, s, c, TIME_LIMIT);
      var i := s.calls[c].phase.pos;
      assert v.who[i] == c && InWindow(v.log[i].out, t, w);
    }
    CallsCounted(v.log, v.who, ReturnedWithin(s, n, t, w), t, w);
  }

  predicate InWindow(out: Outcome, t: int, w: nat) {
    out.Issued? && t <= Time(out.id) < t + w
  }

  lemma {:induction false} CallsCounted(log: seq<Section>, who: seq<nat>, calls: set<nat>, t: int, w: nat)
    requires |who| == |log|
    requires forall c :: c in calls ==> exists i :: 0 <= i < |log| && who[i] == c && InWindow(log[i].out, t, w)
    ensures |calls| <= CountWithin(log, t, w)
    decreases |log|
  {
    if log == [] {
      assert calls == {};
    } else {
      var k := |log| - 1;
      var rest := if InWindow(log[k].out, t, w) then calls - {who[k]} else calls;
      forall c | c in rest
        ensures exists i :: 0 <= i < k && who[..k][i] == c && InWindow(log[..k][i].out, t, w)
      {
        var i :| 0 <= i < |log| && who[i] == c && InWindow(log[i].out, t, w);
        assert who[..k][i] == c && InWindow(log[..k][i].out, t, w);
      }
      CallsCounted(log[..k], who[..k], rest, t, w);
      assert |calls| <= |rest| + (if InWindow(log[k].out, t, w) then 1 else 0);
    }
  }
}
