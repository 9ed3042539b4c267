/** When calls end, in any interleaving: no deadlock, how many steps a lock holder
    still takes, and that every call can be brought to an end. */
module ClusterProgress {
  import opened Int64
  import opened Common
  import opened Generator
  import opened Runs
  import opened Cluster
  import opened ClusterSafety

  // ---- No deadlock ----

  /** The action a call takes next; `reading` is what the clock would show it. */
  function OwnAction(c: nat, phase: Phase, reading: int64): Action
    requires !phase.Returned?
  {
    if phase.Waiting? then Acquire(c)
    else if Reads(phase) then Read(c, reading)
    else if phase.Deciding? then Decide(c)
    else if phase.Stamping? then Stamp(c)
    else if phase.Unlocking? then Unlock(c)
    else Return(c)
  }

  /** The call that moves when call c wants to: itself, or the holder of the mutex
      it waits for. */
  function Mover(s: State, c: nat): nat
    requires c < |s.calls| && s.calls[c].node < |s.nodes|
  {
    var holder := s.nodes[s.calls[c].node].holder;
    if s.calls[c].phase.Waiting? && holder.Some? then holder.value else c
  }

  /** No deadlock: while a call has not returned, it can take a step, or it waits
      for a mutex whose holder can, whatever the clock shows. */
  lemma SomeoneCanMove(s0: State, actions: seq<Action>, s: State, c: nat, reading: int64)
    requires Reachable(s0, actions, s) && c < |s.calls| && !s.calls[c].phase.Returned?
    ensures s.calls[c].node < |s.nodes|
    ensures var d := Mover(s, c);
      d < |s.calls| && s.calls[d].node == s.calls[c].node && !s.calls[d].phase.Returned? &&
      (d != c ==> Critical(s.calls[d].phase)) && Enabled(s, OwnAction(d, s.calls[d].phase, reading))
  {
    ReachableInv(s0, actions, s);
    assert CallInv(s, c);
    assert NodeInv(s, s.calls[c].node);
  }

  // ---- How long a lock holder takes ----

  /** An upper bound on the steps a call still takes, unless a spin loop goes round. */
  function Left(phase: Phase): nat {
    match phase
    case Waiting => 8
    case Entered => 7
    case Drifting(_) => 6
    case Deciding(_) => 5
    case Wrapping(_) => 4
    case Stamping(_) => 3
    case Unlocking(_) => 2
    case Unlocked(_, _) => 1
    case Returned(_, _, _) => 0
  }

  /** The call may still look at its clock. */
  predicate Clocked(phase: Phase) {
    Reads(phase) || phase.Deciding?
  }

  predicate IsOwn(a: Action, c: nat) {
    !a.Begin? && a.call == c
  }

  /** Whether a reading of call c, if the action is one, lies past offset t. */
  predicate ReadsPast(a: Action, c: nat, epoch: int64, t: int64) {
    a.Read? && a.call == c ==> Offset(a.reading, epoch) > t
  }

  function OwnSteps(actions: seq<Action>, c: nat): nat {
    if actions == [] then 0 else (if IsOwn(actions[0], c) then 1 else 0) + OwnSteps(actions[1..], c)
  }

  /** What is asked of t: as long as call c may look at its clock, its node's last
      time is at most t. */
  predicate Bounds(s: State, c: nat, t: int64)
    requires c < |s.calls| && s.calls[c].node < |s.nodes|
  {
    Clocked(s.calls[c].phase) ==> s.nodes[s.calls[c].node].slot.time <= t
  }

  /** A step of the call itself, on a reading past t, brings it nearer its end. */
  lemma OwnStepCloser(s: State, a: Action, c: nat, t: int64)
    requires Enabled(s, a) && c < |s.calls| && !s.calls[c].phase.Waiting? && IsOwn(a, c)
    requires s.calls[c].node < |s.nodes| && Bounds(s, c, t)
    requires ReadsPast(a, c, s.nodes[s.calls[c].node].epoch, t)
    ensures var s' := Next(s, a);
      Left(s'.calls[c].phase) < Left(s.calls[c].phase) && !s'.calls[c].phase.Waiting? && Bounds(s', c, t)
  {
  }

  /** Steps of other calls neither move call c nor, while it holds the lock, the
      last time of its node. */
  lemma OtherStepKeeps(s: State, a: Action, c: nat, t: int64)
    requires Inv(s) && Enabled(s, a) && c < |s.calls| && !s.calls[c].phase.Waiting? && !IsOwn(a, c)
    requires s.calls[c].node < |s.nodes| && Bounds(s, c, t)
    ensures var s' := Next(s, a);
      c < |s'.calls| && s'.calls[c] == s.calls[c] && Bounds(s', c, t)
  {
    assert CallInv(s, c);
    if !a.Begin? {
      assert CallInv(s, a.call);
    }
  }

  lemma EpochKept(s: State, a: Action, n: nat)
    requires Enabled(s, a) && n < |s.nodes|
    ensures |Next(s, a).nodes| == |s.nodes| && Next(s, a).nodes[n].epoch == s.nodes[n].epoch
  {
  }

  /** In every interleaving, a call that holds the lock, or has let go of it, takes
      at most Left of its phase (seven) more steps, and each one it takes lowers
      what is left, provided its readings lie past its node's last time. */
  lemma {:induction false} HolderSteps(s: State, actions: seq<Action>, s': State, c: nat, t: int64)
    requires Inv(s) && Executes(s, actions, s') && c < |s.calls| && !s.calls[c].phase.Waiting?
    requires s.calls[c].node < |s.nodes| && Bounds(s, c, t)
    requires forall a :: a in actions ==> ReadsPast(a, c, s.nodes[s.calls[c].node].epoch, t)
    ensures c < |s'.calls| && OwnSteps(actions, c) + Left(s'.calls[c].phase) <= Left(s.calls[c].phase)
    decreases |actions|
  {
    if actions != [] {
      var a, n := actions[0], s.calls[c].node;
      var m := Next(s, a);
      assert a in actions;
      StepKeepsInv(s, a);
      EpochKept(s, a, n);
      if IsOwn(a, c) {
        OwnStepCloser(s, a, c, t);
      } else {
        OtherStepKeeps(s, a, c, t);
      }
      NodeKept(s, a, c);
      forall b | b in actions[1..]
        ensures ReadsPast(b, c, s.nodes[n].epoch, t)
      {
        assert b in actions;
      }
      HolderSteps(m, actions[1..], s', c, t);
    }
  }

  lemma NodeKept(s: State, a: Action, c: nat)
    requires Enabled(s, a) && c < |s.calls|
    ensures c < |Next(s, a).calls| && Next(s, a).calls[c].node == s.calls[c].node
  {
  }

  /** So from any reachable state: after that many steps of its own the call has
      returned, and until then it always has a next step. */
  lemma HolderReturns(s0: State, before: seq<Action>, s: State, actions: seq<Action>, s': State, c: nat, reading: int64)
    requires Reachable(s0, before, s) && Executes(s, actions, s') && c < |s.calls| && !s.calls[c].phase.Waiting?
    requires s.calls[c].node < |s.nodes|
    requires var v := s.nodes[s.calls[c].node];
      forall a :: a in actions ==> ReadsPast(a, c, v.epoch, v.slot.time)
    ensures c < |s'.calls| && OwnSteps(actions, c) <= Left(s.calls[c].phase) <= 7
    ensures OwnSteps(actions, c) == Left(s.calls[c].phase) ==> s'.calls[c].phase.Returned?
    ensures !s'.calls[c].phase.Returned? ==> Enabled(s', OwnAction(c, s'.calls[c].phase, reading))
  {
    ReachableInv(s0, before, s);
    HolderSteps(s, actions, s', c, s.nodes[s.calls[c].node].slot.time);
    ExecutesJoin(s0, before, s, actions, s');
    if !s'.calls[c].phase.Returned? {
      SomeoneCanMove(s0, before + actions, s', c, reading);
    }
  }

  // ---- Every call can end ----

  function CallLeft(call: Call): nat {
    Left(call.phase)
  }

  function Work(s: State): nat {
    Total(CallLeft, s.calls)
  }

  /** The last time of a node comes from an offset some call has computed. */
  lemma TimeBelow(s: State, n: nat, limit: int)
    requires Inv(s) && OffsetsBelow(s, limit) && limit > 0 && n < |s.nodes|
    ensures s.nodes[n].slot.time < limit
  {
    var v := s.nodes[n];
    assert NodeInv(s, n);
    LogBelow(s, n, limit);
    TimesBelow(v.id, v.log, |v.log|, limit);
    assert v.log[..|v.log|] == v.log;
    if v.holder.Some? {
      var found, call := After(v.id, v.log), s.calls[v.holder.value];
      assert SeenUnder(call.seen, limit);
      if call.phase.Unlocking? {
        AfterValid(v.id, v.log);
        CallMoves(found, v.id, call.seen);
      }
    }
  }

  /** The call is on its way to an ID, or has one. */
  predicate WillIssue(phase: Phase) {
    phase.Unlocking? || phase.Unlocked? || phase.Returned? ==> phase.out.Issued?
  }

  /** One step of call c, with a reading past its node's last time if it takes one. */
  lemma StepForward(s: State, c: nat, reading: int64)
    requires c < |s.calls| && s.calls[c].node < |s.nodes| && !s.calls[c].phase.Returned?
    requires s.nodes[s.calls[c].node].slot.time < Offset(reading, s.nodes[s.calls[c].node].epoch)
    requires Enabled(s, OwnAction(c, s.calls[c].phase, reading))
    ensures var phase, s' := s.calls[c].phase, Next(s, OwnAction(c, s.calls[c].phase, reading));
      s'.calls == s.calls[c := s'.calls[c]] && Left(s'.calls[c].phase) < Left(phase) &&
      (WillIssue(phase) ==> WillIssue(s'.calls[c].phase))
  {
  }

  /** And what that does to the offsets computed so far. */
  lemma StepBelow(s: State, c: nat, reading: int64, limit: int)
    requires c < |s.calls| && s.calls[c].node < |s.nodes| && !s.calls[c].phase.Returned?
    requires OffsetsBelow(s, limit) && Offset(reading, s.nodes[s.calls[c].node].epoch) == limit
    requires Enabled(s, OwnAction(c, s.calls[c].phase, reading))
    ensures OffsetsBelow(Next(s, OwnAction(c, s.calls[c].phase, reading)), limit + 1)
  {
    var s' := Next(s, OwnAction(c, s.calls[c].phase, reading));
    forall d | 0 <= d < |s'.calls|
      ensures SeenUnder(s'.calls[d].seen, limit + 1)
    {
      assert SeenUnder(s.calls[d].seen, limit);
    }
  }

  /** A step towards the end, from any reachable state in which not all is done. */
  lemma StepOn(s0: State, actions: seq<Action>, s: State, c: nat, limit: int64) returns (a: Action)
    requires Reachable(s0, actions, s) && OffsetsBelow(s, limit) && limit > 0
    requires c < |s.calls| && !s.calls[c].phase.Returned?
    ensures Enabled(s, a)
    ensures var m := Next(s, a);
      Reachable(s0, actions + [a], m) && OffsetsBelow(m, limit + 1) && Work(m) < Work(s) && |m.calls| == |s.calls|
    ensures forall b :: 0 <= b < |s.calls| && WillIssue(s.calls[b].phase) ==> WillIssue(Next(s, a).calls[b].phase)
  {
    ReachableInv(s0, actions, s);
    SomeoneCanMove(s0, actions, s, c, 0);
    var d := Mover(s, c);
    var v := s.nodes[s.calls[d].node];
    var reading := Add(limit, v.epoch);
    AddUndoesSub(limit, v.epoch);
    SomeoneCanMove(s0, actions, s, c, reading);
    a := OwnAction(d, s.calls[d].phase, reading);
    TimeBelow(s, s.calls[d].node, limit);
    StepForward(s, d, reading);
    StepBelow(s, d, reading, limit);
    TotalUpdate(CallLeft, s.calls, d, Next(s, a).calls[d]);
    assert [a][1..] == [];
    ExecutesJoin(s0, actions, s, [a], Next(s, a));
  }

  /** From every reachable state some continuation, of at most eight steps a call,
      ends every call; while the clocks move on, with an ID for each call that has
      not been refused already. (There must be that many milliseconds left before
      the offsets reach the end of int64.) */
  lemma AllReturn(s0: State, actions: seq<Action>, s: State, limit: int) returns (more: seq<Action>, done: State)
    requires Reachable(s0, actions, s) && OffsetsBelow(s, limit) && 0 < limit <= TWO63 - Work(s)
    ensures Reachable(s0, actions + more, done) && |more| <= Work(s) && |done.calls| == |s.calls|
    ensures forall c :: 0 <= c < |s.calls| ==>
      done.calls[c].phase.Returned? && (WillIssue(s.calls[c].phase) ==> done.calls[c].phase.out.Issued?)
    decreases Work(s)
  {
    TotalZeroIff(CallLeft, s.calls);
    if Work(s) == 0 {
      more, done := [], s;
      assert actions + more == actions;
    } else {
      var c :| 0 <= c < |s.calls| && CallLeft(s.calls[c]) > 0;
      var a := StepOn(s0, actions, s, c, limit);
      var rest;
      rest, done := AllReturn(s0, actions + [a], Next(s, a), limit + 1);
      more := [a] + rest;
      assert actions + more == actions + [a] + rest;
    }
  }
}
