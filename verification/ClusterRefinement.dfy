/** The converse of serialisation: the small steps can do everything a sequential
    run can. Every run of a node, on whatever clock, is what some interleaving does. */
module ClusterRefinement {
  import opened Int64
  import opened Generator
  import opened Runs
  import opened Cluster
  import opened ClusterProgress
  import opened ClusterSafety

  // ---- A call inside the critical section ----

  /** A call about to read its clock has seen nothing yet that would end it. */
  lemma StillSpinning(found: Slot, slot: Slot, id: int64, call: Call)
    requires Midway(found, slot, id, call) && Reads(call.phase)
    ensures RunCall(found, id, call.seen).out.Spinning?
  {
    SpinsIff(found, id, call.seen);
  }

  /** A call that has its result has read as far as RunCall does, and no further. */
  lemma ReadToTheEnd(found: Slot, slot: Slot, id: int64, call: Call, offs: seq<int64>)
    requires Midway(found, slot, id, call) && call.phase.Unlocking? && call.seen <= offs
    requires RunCall(found, id, offs).used == |offs|
    ensures call.seen == offs && RunCall(found, id, offs) == Generated(call.phase.out, slot, |offs|)
  {
    var rest := offs[|call.seen|..];
    assert call.seen + rest == offs;
    LaterReadingsIgnored(found, id, call.seen, rest);
  }

  /** Call c holds the lock and has read part of `clock`, on all of which the slot
      it found makes it do g. */
  predicate Aims(s: State, c: nat, clock: seq<int64>, g: Generated) {
    c < |s.calls| && s.calls[c].node < |s.nodes| && Critical(s.calls[c].phase) && s.calls[c].clock <= clock &&
    var v := s.nodes[s.calls[c].node];
    g == RunCall(After(v.id, v.log), v.id, Offsets(clock, v.epoch)) && !g.out.Spinning? && g.used == |clock|
  }

  /** Nothing but call c and the slot of its node differs. */
  predicate OnlyCall(s: State, m: State, c: nat)
    requires c < |s.calls| && s.calls[c].node < |s.nodes|
  {
    |m.calls| == |s.calls| && m.calls == s.calls[c := m.calls[c]] && m.calls[c].node == s.calls[c].node &&
    |m.nodes| == |s.nodes| &&
    var n := s.calls[c].node;
    m.nodes == s.nodes[n := s.nodes[n].(slot := m.nodes[n].slot)]
  }

  lemma PrefixOffsets(part: seq<int64>, clock: seq<int64>, epoch: int64)
    requires part <= clock
    ensures Offsets(part, epoch) <= Offsets(clock, epoch)
  {
  }

  lemma HasReading(s: State, c: nat, clock: seq<int64>, g: Generated)
    requires Inv(s) && Aims(s, c, clock, g) && Reads(s.calls[c].phase)
    ensures |s.calls[c].clock| < |clock|
  {
    var call, v := s.calls[c], s.nodes[s.calls[c].node];
    assert CallInv(s, c) && NodeInv(s, call.node);
    StillSpinning(After(v.id, v.log), v.slot, v.id, call);
  }

  /** The next step of such a call. */
  function AimedAction(s: State, c: nat, clock: seq<int64>): Action
    requires c < |s.calls| && !s.calls[c].phase.Returned?
    requires Reads(s.calls[c].phase) ==> |s.calls[c].clock| < |clock|
  {
    var call := s.calls[c];
    OwnAction(c, call.phase, if Reads(call.phase) then clock[|call.clock|] else 0)
  }

  lemma UpdateAims(s: State, c: nat, node: NodeVars, call: Call, clock: seq<int64>, g: Generated)
    requires Aims(s, c, clock, g) && call.node == s.calls[c].node && Critical(call.phase) && call.clock <= clock
    requires node == s.nodes[call.node].(slot := node.slot)
    ensures Aims(Update(s, c, node, call), c, clock, g) && OnlyCall(s, Update(s, c, node, call), c)
  {
  }

  lemma AimedStep(s: State, c: nat, clock: seq<int64>, g: Generated)
    requires Aims(s, c, clock, g) && !s.calls[c].phase.Unlocking?
    requires Reads(s.calls[c].phase) ==> |s.calls[c].clock| < |clock|
    ensures var a := AimedAction(s, c, clock);
      Enabled(s, a) && Aims(Next(s, a), c, clock, g) && OnlyCall(s, Next(s, a), c)
  {
    var m := Next(s, AimedAction(s, c, clock));
    UpdateAims(s, c, m.nodes[s.calls[c].node], m.calls[c], clock, g);
  }

  /** It reads on, or comes nearer its end. */
  lemma AimedCloser(s: State, c: nat, clock: seq<int64>)
    requires c < |s.calls| && s.calls[c].node < |s.nodes| && Critical(s.calls[c].phase) && !s.calls[c].phase.Unlocking?
    requires Reads(s.calls[c].phase) ==> |s.calls[c].clock| < |clock|
    ensures var m := Next(s, AimedAction(s, c, clock));
      |m.calls[c].clock| > |s.calls[c].clock| ||
      (|m.calls[c].clock| == |s.calls[c].clock| && Left(m.calls[c].phase) < Left(s.calls[c].phase))
  {
  }

  lemma OnlyCallTwice(s: State, m: State, s': State, c: nat)
    requires c < |s.calls| && s.calls[c].node < |s.nodes| && OnlyCall(s, m, c) && OnlyCall(m, s', c)
    ensures OnlyCall(s, s', c)
  {
  }

  /** Step by step to the result, on exactly the given readings. */
  lemma {:induction false} Drive(s: State, c: nat, clock: seq<int64>, g: Generated)
    returns (actions: seq<Action>, s': State)
    requires Inv(s) && Aims(s, c, clock, g)
    ensures Executes(s, actions, s') && Inv(s') && OnlyCall(s, s', c)
    ensures s'.calls[c].phase == Unlocking(g.out) && s'.calls[c].clock == clock
    ensures s'.nodes[s'.calls[c].node].slot == g.after
    decreases |clock| - |s.calls[c].clock|, Left(s.calls[c].phase)
  {
    var call, v := s.calls[c], s.nodes[s.calls[c].node];
    if call.phase.Unlocking? {
      actions, s' := [], s;
      assert CallInv(s, c) && NodeInv(s, call.node);
      PrefixOffsets(call.clock, clock, v.epoch);
      ReadToTheEnd(After(v.id, v.log), v.slot, v.id, call, Offsets(clock, v.epoch));
    } else {
      if Reads(call.phase) {
        HasReading(s, c, clock, g);
      }
      var a := AimedAction(s, c, clock);
      AimedStep(s, c, clock, g);
      AimedCloser(s, c, clock);
      StepKeepsInv(s, a);
      var m, rest := Next(s, a), [];
      rest, s' := Drive(m, c, clock, g);
      actions := [a] + rest;
      OnlyCallTwice(s, m, s', c);
    }
  }

  // ---- A call on its own, and a whole run ----

  /** What a call on node n adds: itself, returned, and its entry in the node's log. */
  predicate CallAdded(s: State, m: State, n: nat, clock: seq<int64>, g: Generated)
    requires n < |s.nodes|
  {
    var c, v := |s.calls|, s.nodes[n];
    |m.calls| == c + 1 && m.calls[..c] == s.calls &&
    m.calls[c].node == n && m.calls[c].clock == clock && m.calls[c].phase.Returned? && m.calls[c].phase.out == g.out &&
    |m.nodes| == |s.nodes| && m.nodes[n].id == v.id && m.nodes[n].epoch == v.epoch && m.nodes[n].holder.None? &&
    m.nodes[n].log == v.log + [Section(Offsets(clock, v.epoch), g.out)]
  }

  lemma Executed(s0: State, actions: seq<Action>, m: State, a: Action) returns (more: seq<Action>)
    requires Executes(s0, actions, m) && Enabled(m, a)
    ensures more == actions + [a] && Executes(s0, more, Next(m, a))
  {
    assert [a][1..] == [];
    ExecutesJoin(s0, actions, m, [a], Next(m, a));
    more := actions + [a];
  }

  /** A node whose lock is free can do any one call RunCall allows. */
  lemma SoloCall(s: State, n: nat, clock: seq<int64>, g: Generated) returns (actions: seq<Action>, s': State)
    requires Inv(s) && n < |s.nodes| && s.nodes[n].holder.None?
    requires var v := s.nodes[n];
      g == RunCall(After(v.id, v.log), v.id, Offsets(clock, v.epoch)) && !g.out.Spinning? && g.used == |clock|
    ensures Executes(s, actions, s') && Inv(s') && CallAdded(s, s', n, clock, g)
  {
    var c := |s.calls|;
    var s1 := Next(s, Begin(n));
    StepKeepsInv(s, Begin(n));
    actions := Executed(s, [], s, Begin(n));
    var s2 := Next(s1, Acquire(c));
    StepKeepsInv(s1, Acquire(c));
    actions := Executed(s, actions, s1, Acquire(c));
    var drive, s3 := Drive(s2, c, clock, g);
    ExecutesJoin(s, actions, s2, drive, s3);
    actions := Executed(s, actions + drive, s3, Unlock(c));
    var s4 := Next(s3, Unlock(c));
    StepKeepsInv(s3, Unlock(c));
    actions := Executed(s, actions, s4, Return(c));
    s' := Next(s4, Return(c));
    StepKeepsInv(s4, Return(c));
    assert CallInv(s3, c);
  }

  /** s is where calls made one after the other on node n, with these clocks, lead. */
  predicate Performed(s0: State, s: State, n: nat, log: seq<Section>, clocks: seq<seq<int64>>)
    requires n < |s0.nodes| && |clocks| == |log|
  {
    |s.nodes| == |s0.nodes| && |s.calls| == |log| &&
    var v := s.nodes[n];
    v.id == s0.nodes[n].id && v.epoch == s0.nodes[n].epoch && v.holder.None? && v.log == log &&
    forall i :: 0 <= i < |log| ==>
      s.calls[i].node == n && s.calls[i].clock == clocks[i] &&
      s.calls[i].phase.Returned? && s.calls[i].phase.out == log[i].out
  }

  lemma OneMore(s0: State, s: State, s': State, n: nat, log: seq<Section>, clocks: seq<seq<int64>>, g: Generated)
    requires n < |s0.nodes| && |clocks| == |log| && log != []
    requires Performed(s0, s, n, log[..|log| - 1], clocks[..|log| - 1])
    requires log[|log| - 1] == Section(Offsets(clocks[|log| - 1], s0.nodes[n].epoch), g.out)
    requires CallAdded(s, s', n, clocks[|log| - 1], g)
    ensures Performed(s0, s', n, log, clocks)
  {
    assert log[..|log| - 1] + [log[|log| - 1]] == log;
    forall i | 0 <= i < |log| - 1
      ensures s'.calls[i] == s.calls[i]
    {
      assert s'.calls[..|s.calls|][i] == s'.calls[i];
    }
  }

  lemma {:induction false} RunPerformed(s0: State, n: nat, log: seq<Section>, clocks: seq<seq<int64>>)
    returns (actions: seq<Action>, s: State)
    requires Init(s0) && n < |s0.nodes| && IsRun(s0.nodes[n].id, log) && |clocks| == |log|
    requires forall i :: 0 <= i < |log| ==> log[i].seen == Offsets(clocks[i], s0.nodes[n].epoch)
    ensures Reachable(s0, actions, s) && Performed(s0, s, n, log, clocks)
    decreases |log|
  {
    if log == [] {
      actions, s := [], s0;
      assert FreshNode(s0.nodes[n]);
    } else {
      var k := |log| - 1;
      var id, last := s0.nodes[n].id, log[k];
      var before, m := RunPerformed(s0, n, log[..k], clocks[..k]);
      ReachableInv(s0, before, m);
      assert log[..k] + [last] == log;
      LastCall(id, log[..k], last);
      var g := Generated(last.out, After(id, log), |last.seen|);
      var more;
      more, s := SoloCall(m, n, clocks[k], g);
      ExecutesJoin(s0, before, m, more, s);
      actions := before + more;
      OneMore(s0, m, s, n, log, clocks, g);
    }
  }

  /** Every sequential run of a node happens: the machine reaches a state with that
      log by calls on that node whose clocks showed just that, each of which
      returned what the run says. */
  lemma RunRealised(s0: State, n: nat, log: seq<Section>, clocks: seq<seq<int64>>)
    returns (actions: seq<Action>, s: State)
    requires Init(s0) && n < |s0.nodes| && IsRun(s0.nodes[n].id, log) && |clocks| == |log|
    requires forall i :: 0 <= i < |log| ==> log[i].seen == Offsets(clocks[i], s0.nodes[n].epoch)
    ensures Reachable(s0, actions, s) && |s.calls| == |BegunOn(actions)| == |log|
    ensures |s.nodes| == |s0.nodes| && s.nodes[n].log == log
    ensures forall i :: 0 <= i < |log| ==>
      BegunOn(actions)[i] == n && ReadingsOf(actions, i) == clocks[i] &&
      s.calls[i].phase.Returned? && s.calls[i].phase.out == log[i].out
  {
    actions, s := RunPerformed(s0, n, log, clocks);
    PerformedTrace(s0, actions, s, n, log, clocks);
  }

  lemma PerformedTrace(
      s0: State, actions: seq<Action>, s: State, n: nat, log: seq<Section>, clocks: seq<seq<int64>>)
    requires s0.calls == [] && Executes(s0, actions, s) && n < |s0.nodes| && |clocks| == |log|
    requires Performed(s0, s, n, log, clocks)
    ensures |BegunOn(actions)| == |log|
    ensures forall i :: 0 <= i < |log| ==> BegunOn(actions)[i] == n && ReadingsOf(actions, i) == clocks[i]
  {
    ActionsRecord(s0, actions, s, 0);
    forall i | 0 <= i < |log|
      ensures BegunOn(actions)[i] == n && ReadingsOf(actions, i) == clocks[i]
    {
      Recorded(s0, actions, s, i);
    }
  }
}
