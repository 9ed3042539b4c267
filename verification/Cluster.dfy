/** Any number of goroutines calling Generate on any number of nodes. Each call
    is a sequence of small steps that interleave freely with those of all other
    calls: lock, read the clock, decide, wait, stamp, unlock, return. */
module Cluster {
  import opened Int64
  import opened Common
  import opened SnowflakeId
  import opened Generator
  import opened Runs

  /** Where a call is. The step is written on entering Stamping or Wrapping, the
      time only on leaving Stamping, so in between the node's fields agree with
      no slot ever issued. */
  datatype Phase =
    | Waiting                       // for the mutex
    | Entered                       // holds it, clock not read yet
    | Drifting(now: int64)          // in the first spin loop
    | Deciding(now: int64)          // at the comparison with n.time
    | Wrapping(now: int64)          // in the second spin loop
    | Stamping(now: int64)          // about to write n.time
    | Unlocking(out: Outcome)       // result computed, lock still held
    | Unlocked(out: Outcome, pos: nat)               // pos-th to hold the node's lock
    | Returned(out: Outcome, pos: nat, at: nat)      // returned at tick `at`

  /** A call on node number `node`, begun at tick `began`, with its clock
      readings so far and the offsets `seen` computed from them. */
  datatype Call = Call(node: nat, began: nat, clock: seq<int64>, seen: seq<int64>, phase: Phase)

  /** A node: its fields, which call holds its mutex, and, for the statements
      only, the calls that have held it with the ticks at which they let go. */
  datatype NodeVars = NodeVars(
    epoch: int64, id: int64, slot: Slot, holder: Option<nat>,
    log: seq<Section>, who: seq<nat>, freed: seq<nat>)

  datatype State = State(nodes: seq<NodeVars>, calls: seq<Call>, tick: nat)

  datatype Action =
    | Begin(node: nat)
    | Acquire(call: nat)
    | Read(call: nat, reading: int64)
    | Decide(call: nat)
    | Stamp(call: nat)
    | Unlock(call: nat)
    | Return(call: nat)

  predicate Reads(phase: Phase) {
    phase.Entered? || phase.Drifting? || phase.Wrapping?
  }

  predicate Enabled(s: State, a: Action) {
    match a
    case Begin(n) => n < |s.nodes|
    case Acquire(c) =>
      c < |s.calls| && s.calls[c].node < |s.nodes| && s.calls[c].phase.Waiting? &&
      s.nodes[s.calls[c].node].holder.None?
    case Read(c, _) => c < |s.calls| && s.calls[c].node < |s.nodes| && Reads(s.calls[c].phase)
    case Decide(c) => c < |s.calls| && s.calls[c].node < |s.nodes| && s.calls[c].phase.Deciding?
    case Stamp(c) => c < |s.calls| && s.calls[c].node < |s.nodes| && s.calls[c].phase.Stamping?
    case Unlock(c) => c < |s.calls| && s.calls[c].node < |s.nodes| && s.calls[c].phase.Unlocking?
    case Return(c) => c < |s.calls| && s.calls[c].node < |s.nodes| && s.calls[c].phase.Unlocked?
  }

  /** Where a reading takes a call. */
  function AfterReading(slot: Slot, phase: Phase, now: int64): Phase
    requires Reads(phase)
  {
    match phase
    case Entered =>
      if now < slot.time then
        var drift := Drift(slot.time, now);
        if drift > DRIFT_TOLERANCE then Unlocking(Refused(drift, slot.time, now)) else Drifting(now)
      else Deciding(now)
    case Drifting(_) => if now < slot.time then Drifting(now) else Deciding(now)
    case Wrapping(_) => if now <= slot.time then Wrapping(now) else Stamping(now)
  }

  /** The comparison with n.time, and the write of n.step. */
  function Decided(slot: Slot, now: int64): (Slot, Phase) {
    if now == slot.time then
      var step := (slot.step + 1) % 4096;
      (Slot(slot.time, step), if step == 0 then Wrapping(now) else Stamping(now))
    else (Slot(slot.time, 0), Stamping(now))
  }

  /** The whole system after an action; call c and its node are all it touches. */
  function Next(s: State, a: Action): State
    requires Enabled(s, a)
  {
    match a
    case Begin(n) => s.(calls := s.calls + [Call(n, s.tick, [], [], Waiting)], tick := s.tick + 1)
    case Acquire(c) =>
      var node := s.nodes[s.calls[c].node];
      Update(s, c, node.(holder := Some(c)), s.calls[c].(phase := Entered))
    case Read(c, reading) =>
      var call, node := s.calls[c], s.nodes[s.calls[c].node];
      var now := Offset(reading, node.epoch);
      Update(s, c, node, call.(clock := call.clock + [reading], seen := call.seen + [now],
                               phase := AfterReading(node.slot, call.phase, now)))
    case Decide(c) =>
      var call, node := s.calls[c], s.nodes[s.calls[c].node];
      var (slot, phase) := Decided(node.slot, call.phase.now);
      Update(s, c, node.(slot := slot), call.(phase := phase))
    case Stamp(c) =>
      var call, node := s.calls[c], s.nodes[s.calls[c].node];
      var slot := Slot(call.phase.now, node.slot.step);
      Update(s, c, node.(slot := slot), call.(phase := Unlocking(Issued(Pack(slot.time, node.id, slot.step)))))
    case Unlock(c) =>
      var call, node := s.calls[c], s.nodes[s.calls[c].node];
      Update(s, c,
        node.(holder := None, log := node.log + [Section(call.seen, call.phase.out)],
              who := node.who + [c], freed := node.freed + [s.tick]),
        call.(phase := Unlocked(call.phase.out, |node.log|)))
    case Return(c) =>
      var call := s.calls[c];
      Update(s, c, s.nodes[call.node], call.(phase := Returned(call.phase.out, call.phase.pos, s.tick)))
  }

  function Update(s: State, c: nat, node: NodeVars, call: Call): State
    requires c < |s.calls| && s.calls[c].node < |s.nodes|
  {
    State(s.nodes[s.calls[c].node := node], s.calls[c := call], s.tick + 1)
  }

  /** Nodes fresh from the constructor and no call begun. */
  predicate Init(s: State) {
    s.calls == [] &&
    forall n :: 0 <= n < |s.nodes| ==> FreshNode(s.nodes[n])
  }

  predicate FreshNode(v: NodeVars) {
    0 <= v.id <= NODE_MAX && v.slot == FRESH && v.holder.None? && v.log == [] && v.who == [] && v.freed == []
  }

  predicate Executes(s: State, actions: seq<Action>, s': State)
    decreases |actions|
  {
    if actions == [] then s == s'
    else Enabled(s, actions[0]) && Executes(Next(s, actions[0]), actions[1..], s')
  }

  lemma {:induction false} ExecutesJoin(s: State, first: seq<Action>, m: State, second: seq<Action>, s': State)
    requires Executes(s, first, m) && Executes(m, second, s')
    ensures Executes(s, first + second, s')
    decreases |first|
  {
    if first == [] {
      assert first + second == second;
    } else {
      ExecutesJoin(Next(s, first[0]), first[1..], m, second, s');
      assert (first + second)[1..] == first[1..] + second;
    }
  }

  // ---- What the actions say ----

  /** What the clock showed call c, in order. */
  function ReadingsOf(actions: seq<Action>, c: nat): seq<int64> {
    if actions == [] then []
    else
      (if actions[0].Read? && actions[0].call == c then [actions[0].reading] else []) + ReadingsOf(actions[1..], c)
  }

  /** The node of every call made, in order. */
  function BegunOn(actions: seq<Action>): seq<nat> {
    if actions == [] then []
    else (if actions[0].Begin? then [actions[0].node] else []) + BegunOn(actions[1..])
  }

  /** The clock record and the node of call c in s, if it has begun there. */
  function ClockAt(s: State, c: nat): seq<int64> {
    if c < |s.calls| then s.calls[c].clock else []
  }

  function CallNodes(s: State): seq<nat> {
    seq(|s.calls|, c requires 0 <= c < |s.calls| => s.calls[c].node)
  }

  lemma StepRecords(s: State, a: Action, c: nat)
    requires Enabled(s, a)
    ensures ClockAt(Next(s, a), c) == ClockAt(s, c) + (if a.Read? && a.call == c then [a.reading] else [])
    ensures CallNodes(Next(s, a)) == CallNodes(s) + (if a.Begin? then [a.node] else [])
  {
  }

  lemma {:induction false} ActionsRecord(s: State, actions: seq<Action>, s': State, c: nat)
    requires Executes(s, actions, s')
    ensures ClockAt(s', c) == ClockAt(s, c) + ReadingsOf(actions, c)
    ensures CallNodes(s') == CallNodes(s) + BegunOn(actions)
    decreases |actions|
  {
    if actions != [] {
      var a, rest := actions[0], actions[1..];
      StepRecords(s, a, c);
      ActionsRecord(Next(s, a), rest, s', c);
      Assoc(ClockAt(s, c), if a.Read? && a.call == c then [a.reading] else [], ReadingsOf(rest, c));
      Assoc(CallNodes(s), if a.Begin? then [a.node] else [], BegunOn(rest));
    }
  }

  /** From a state without calls: the state records every call on the node it was
      made on, with the readings the clock showed it and no others. */
  lemma Recorded(s0: State, actions: seq<Action>, s: State, c: nat)
    requires s0.calls == [] && Executes(s0, actions, s) && c < |s.calls|
    ensures |s.calls| == |BegunOn(actions)| && s.calls[c].node == BegunOn(actions)[c]
    ensures s.calls[c].clock == ReadingsOf(actions, c)
  {
    ActionsRecord(s0, actions, s, c);
    assert CallNodes(s)[c] == s.calls[c].node;
  }

  // ---- The invariant ----

  predicate Critical(phase: Phase) {
    !phase.Waiting? && !phase.Unlocked? && !phase.Returned?
  }

  /** How far the lock holder has come, against RunCall on the slot it found. */
  predicate Midway(found: Slot, slot: Slot, id: int64, call: Call) {
    var seen := call.seen;
    match call.phase
    case Entered => seen == [] && slot == found
    case Drifting(now) => slot == found && now < found.time && Unsettled(found, seen, now, |seen|)
    case Deciding(now) => slot == found && now >= found.time && Unsettled(found, seen, now, |seen| - 1)
    case Wrapping(now) =>
      found.step == STEP_MASK && slot == Slot(found.time, 0) && now <= found.time && Unsettled(found, seen, now, |seen|)
    case Stamping(now) =>
      Unsettled(found, seen, now, |seen| - 1) && Admits(found, now) &&
      slot == Slot(found.time, NextSlot(found, now).step)
    case Unlocking(out) => RunCall(found, id, seen) == Generated(out, slot, |seen|) && !out.Spinning?
    case _ => false
  }

  /** Not refused, `now` is the latest offset, and none of the first k had a free slot. */
  predicate Unsettled(found: Slot, seen: seq<int64>, now: int64, k: int) {
    seen != [] && !Refuses(found, seen[0]) && now == seen[|seen| - 1] && 0 <= k <= |seen| && Passed(found, seen, 0, k)
  }

  predicate NodeInv(s: State, n: nat)
    requires n < |s.nodes|
  {
    HolderInv(s, n) && LogInv(s, n)
  }

  predicate HolderInv(s: State, n: nat)
    requires n < |s.nodes|
  {
    var v := s.nodes[n];
    match v.holder
    case None => v.slot == After(v.id, v.log)
    case Some(c) =>
      c < |s.calls| && s.calls[c].node == n && Midway(After(v.id, v.log), v.slot, v.id, s.calls[c])
  }

  predicate LogInv(s: State, n: nat)
    requires n < |s.nodes|
  {
    var v := s.nodes[n];
    0 <= v.id <= NODE_MAX && IsRun(v.id, v.log) && |v.who| == |v.log| == |v.freed| &&
    (forall i :: 0 <= i < |v.log| ==> LeftAt(s, n, i)) &&
    (forall i, j :: 0 <= i < j < |v.log| ==> v.freed[i] < v.freed[j])
  }

  /** The i-th call that held node n's lock: its record and the log agree. */
  predicate LeftAt(s: State, n: nat, i: nat)
    requires n < |s.nodes| && |s.nodes[n].who| == |s.nodes[n].log| == |s.nodes[n].freed| && i < |s.nodes[n].log|
  {
    var v, c := s.nodes[n], s.nodes[n].who[i];
    c < |s.calls| && s.calls[c].node == n && s.calls[c].seen == v.log[i].seen &&
    s.calls[c].began < v.freed[i] < s.tick &&
    match s.calls[c].phase
    case Unlocked(out, pos) => pos == i && out == v.log[i].out
    case Returned(out, pos, at) => pos == i && out == v.log[i].out && v.freed[i] < at < s.tick
    case _ => false
  }

  predicate CallInv(s: State, c: nat)
    requires c < |s.calls|
  {
    var call := s.calls[c];
    call.node < |s.nodes| && call.began < s.tick &&
    var v := s.nodes[call.node];
    call.seen == Offsets(call.clock, v.epoch) && (call.phase.Waiting? ==> call.seen == []) &&
    (Critical(call.phase) ==> v.holder == Some(c)) &&
    (call.phase.Unlocked? || call.phase.Returned? ==> call.phase.pos < |v.who| && v.who[call.phase.pos] == c)
  }

  predicate Inv(s: State) {
    (forall n :: 0 <= n < |s.nodes| ==> NodeInv(s, n)) &&
    (forall c :: 0 <= c < |s.calls| ==> CallInv(s, c))
  }

  // ---- Its preservation ----

  /** A reading moves the lock holder along RunCall. */
  lemma ReadKeepsMidway(found: Slot, slot: Slot, id: int64, call: Call, now: int64, clock: seq<int64>)
    requires ValidSlot(found) && Midway(found, slot, id, call) && Reads(call.phase)
    ensures Midway(found, slot, id,
                   call.(clock := clock, seen := call.seen + [now], phase := AfterReading(slot, call.phase, now)))
  {
    var seen := call.seen + [now];
    assert call.seen != [] ==> seen[0] == call.seen[0];
    assert forall i :: 0 <= i < |call.seen| ==> seen[i] == call.seen[i];
    if call.phase.Entered? && Refuses(slot, now) {
      MeetsIff(found, id, seen, Generated(Refused(Drift(slot.time, now), slot.time, now), slot, 1));
    }
  }

  lemma DecideKeepsMidway(found: Slot, slot: Slot, id: int64, call: Call)
    requires ValidSlot(found) && Midway(found, slot, id, call) && call.phase.Deciding?
    ensures var (slot', phase') := Decided(slot, call.phase.now);
      Midway(found, slot', id, call.(phase := phase'))
  {
  }

  /** Stamping completes RunCall: the critical section as a whole was one call of it. */
  lemma StampKeepsMidway(found: Slot, slot: Slot, id: int64, call: Call)
    requires ValidSlot(found) && Midway(found, slot, id, call) && call.phase.Stamping?
    ensures var slot' := Slot(call.phase.now, slot.step);
      Midway(found, slot', id, call.(phase := Unlocking(Issued(Pack(slot'.time, id, slot'.step)))))
  {
    var now := call.phase.now;
    NextSlotIsLeast(found, now, found);
    var next := NextSlot(found, now);
    MeetsIff(found, id, call.seen, Generated(Issued(Pack(next.time, id, next.step)), next, |call.seen|));
  }

  /** An action of call c touches c and its node only. If the node is in order
      afterwards, so is everything else. */
  lemma OthersUntouched(s: State, c: nat, node: NodeVars, call: Call)
    requires Inv(s) && c < |s.calls| && s.calls[c].node < |s.nodes| && call.node == s.calls[c].node
    requires var v := s.nodes[call.node];
      v.who <= node.who && node.epoch == v.epoch && (node.holder == v.holder || v.holder.None? || v.holder == Some(c))
    requires var s' := Update(s, c, node, call); NodeInv(s', call.node) && CallInv(s', c)
    ensures Inv(Update(s, c, node, call))
  {
    var s' := Update(s, c, node, call);
    forall m | 0 <= m < |s'.nodes|
      ensures NodeInv(s', m)
    {
      if m != call.node {
        OtherNode(s, c, node, call, m);
      }
    }
    forall d | 0 <= d < |s'.calls|
      ensures CallInv(s', d)
    {
      if d != c {
        assert CallInv(s, d);
        OtherCall(s, c, node, call, d);
      }
    }
  }

  lemma OtherCall(s: State, c: nat, node: NodeVars, call: Call, d: nat)
    requires c < |s.calls| && s.calls[c].node < |s.nodes| && d < |s.calls| && d != c && CallInv(s, d)
    requires var v := s.nodes[s.calls[c].node];
      v.who <= node.who && node.epoch == v.epoch && (node.holder == v.holder || v.holder.None? || v.holder == Some(c))
    ensures CallInv(Update(s, c, node, call), d)
  {
  }

  lemma OtherNode(s: State, c: nat, node: NodeVars, call: Call, m: nat)
    requires c < |s.calls| && s.calls[c].node < |s.nodes| && m < |s.nodes| && m != s.calls[c].node
    requires NodeInv(s, m)
    ensures NodeInv(Update(s, c, node, call), m)
  {
    var s' := Update(s, c, node, call);
    HolderKept(s, s', m);
    forall i | 0 <= i < |s.nodes[m].log|
      ensures LeftAt(s', m, i)
    {
      assert LeftAt(s, m, i);
    }
  }

  lemma HolderKept(s: State, s': State, n: nat)
    requires n < |s.nodes| && n < |s'.nodes| && s'.nodes[n] == s.nodes[n] && HolderInv(s, n)
    requires s.nodes[n].holder.Some? ==>
               var c := s.nodes[n].holder.value; c < |s'.calls| && s'.calls[c] == s.calls[c]
    ensures HolderInv(s', n)
  {
  }

  /** A call's own step before it lets go of the lock: from waiting or from the
      critical section, into the critical section. */
  lemma InsideStep(s: State, c: nat, node: NodeVars, call: Call)
    requires Inv(s) && c < |s.calls| && s.calls[c].node < |s.nodes|
    requires var was, v := s.calls[c], s.nodes[s.calls[c].node];
      (Critical(was.phase) || (was.phase.Waiting? && v.holder.None?)) &&
      call.node == was.node && call.began == was.began && Critical(call.phase) &&
      call.seen == Offsets(call.clock, v.epoch) &&
      node == v.(slot := node.slot, holder := Some(c)) &&
      Midway(After(v.id, v.log), node.slot, v.id, call)
    ensures Inv(Update(s, c, node, call))
  {
    var n := call.node;
    assert CallInv(s, c) && NodeInv(s, n);
    var s' := Update(s, c, node, call);
    forall i | 0 <= i < |node.log|
      ensures LeftAt(s', n, i)
    {
      assert LeftAt(s, n, i);
    }
    assert NodeInv(s', n);
    OthersUntouched(s, c, node, call);
  }

  lemma AcquireStep(s: State, c: nat)
    requires Inv(s) && Enabled(s, Acquire(c))
    ensures Inv(Next(s, Acquire(c)))
  {
    var call := s.calls[c];
    assert CallInv(s, c) && NodeInv(s, call.node);
    InsideStep(s, c, s.nodes[call.node].(holder := Some(c)), call.(phase := Entered));
  }

  lemma ReadStep(s: State, c: nat, reading: int64)
    requires Inv(s) && Enabled(s, Read(c, reading))
    ensures Inv(Next(s, Read(c, reading)))
  {
    var call := s.calls[c];
    var v := s.nodes[call.node];
    var now := Offset(reading, v.epoch);
    assert CallInv(s, c) && NodeInv(s, call.node);
    AfterValid(v.id, v.log);
    ReadKeepsMidway(After(v.id, v.log), v.slot, v.id, call, now, call.clock + [reading]);
    assert call.seen + [now] == Offsets(call.clock + [reading], v.epoch);
    InsideStep(s, c, v, call.(clock := call.clock + [reading], seen := call.seen + [now],
                              phase := AfterReading(v.slot, call.phase, now)));
  }

  lemma DecideStep(s: State, c: nat)
    requires Inv(s) && Enabled(s, Decide(c))
    ensures Inv(Next(s, Decide(c)))
  {
    var call := s.calls[c];
    var v := s.nodes[call.node];
    assert CallInv(s, c) && NodeInv(s, call.node);
    AfterValid(v.id, v.log);
    DecideKeepsMidway(After(v.id, v.log), v.slot, v.id, call);
    var (slot, phase) := Decided(v.slot, call.phase.now);
    InsideStep(s, c, v.(slot := slot), call.(phase := phase));
  }

  lemma StampStep(s: State, c: nat)
    requires Inv(s) && Enabled(s, Stamp(c))
    ensures Inv(Next(s, Stamp(c)))
  {
    var call := s.calls[c];
    var v := s.nodes[call.node];
    assert CallInv(s, c) && NodeInv(s, call.node);
    AfterValid(v.id, v.log);
    StampKeepsMidway(After(v.id, v.log), v.slot, v.id, call);
    var slot := Slot(call.phase.now, v.slot.step);
    InsideStep(s, c, v.(slot := slot), call.(phase := Unlocking(Issued(Pack(slot.time, v.id, slot.step)))));
  }

  lemma UnlockStep(s: State, c: nat)
    requires Inv(s) && Enabled(s, Unlock(c))
    ensures Inv(Next(s, Unlock(c)))
  {
    var n := s.calls[c].node;
    var s' := Next(s, Unlock(c));
    assert CallInv(s, c) && NodeInv(s, n);
    UnlockLogged(s, c);
    OthersUntouched(s, c, s'.nodes[n], s'.calls[c]);
  }

  lemma UnlockLogged(s: State, c: nat)
    requires Inv(s) && Enabled(s, Unlock(c))
    ensures NodeInv(Next(s, Unlock(c)), s.calls[c].node)
  {
    var n := s.calls[c].node;
    var v := s.nodes[n];
    assert CallInv(s, c) && NodeInv(s, n);
    var s' := Next(s, Unlock(c));
    var v' := s'.nodes[n];
    Extend(v.id, v.log, Section(s.calls[c].seen, s.calls[c].phase.out), v.slot);
    forall i | 0 <= i < |v'.log|
      ensures LeftAt(s', n, i)
      ensures i < |v.log| ==> v'.freed[i] < v'.freed[|v.log|]
    {
      UnlockLeft(s, c, i);
    }
  }

  lemma UnlockLeft(s: State, c: nat, i: nat)
    requires Enabled(s, Unlock(c)) && CallInv(s, c) && LogInv(s, s.calls[c].node) && i <= |s.nodes[s.calls[c].node].log|
    ensures LeftAt(Next(s, Unlock(c)), s.calls[c].node, i)
    ensures i < |s.nodes[s.calls[c].node].log| ==> s.nodes[s.calls[c].node].freed[i] < s.tick
  {
    if i < |s.nodes[s.calls[c].node].log| {
      assert LeftAt(s, s.calls[c].node, i);
    }
  }

  lemma ReturnStep(s: State, c: nat)
    requires Inv(s) && Enabled(s, Return(c))
    ensures Inv(Next(s, Return(c)))
  {
    var n := s.calls[c].node;
    var v := s.nodes[n];
    assert CallInv(s, c) && NodeInv(s, n);
    var s' := Next(s, Return(c));
    HolderKept(s, s', n);
    forall i | 0 <= i < |v.log|
      ensures LeftAt(s', n, i)
    {
      ReturnLeft(s, c, i);
    }
    assert NodeInv(s', n);
    OthersUntouched(s, c, v, s'.calls[c]);
  }

  lemma ReturnLeft(s: State, c: nat, i: nat)
    requires Enabled(s, Return(c)) && CallInv(s, c) && LogInv(s, s.calls[c].node) && i < |s.nodes[s.calls[c].node].log|
    ensures LeftAt(Next(s, Return(c)), s.calls[c].node, i)
  {
    assert LeftAt(s, s.calls[c].node, i);
    assert LeftAt(s, s.calls[c].node, s.calls[c].phase.pos);
  }

  lemma BeginStep(s: State, n: nat)
    requires Inv(s) && Enabled(s, Begin(n))
    ensures Inv(Next(s, Begin(n)))
  {
    var s' := Next(s, Begin(n));
    forall m | 0 <= m < |s'.nodes|
      ensures NodeInv(s', m)
    {
      assert NodeInv(s, m);
      HolderKept(s, s', m);
      forall i | 0 <= i < |s.nodes[m].log|
        ensures LeftAt(s', m, i)
      {
        assert LeftAt(s, m, i);
      }
    }
    forall d | 0 <= d < |s'.calls|
      ensures CallInv(s', d)
    {
      assert d == |s.calls| || CallInv(s, d);
    }
  }

  /** What every step of every call keeps. */
  lemma StepKeepsInv(s: State, a: Action)
    requires Inv(s) && Enabled(s, a)
    ensures Inv(Next(s, a))
  {
    match a
    case Begin(n) => BeginStep(s, n);
    case Acquire(c) => AcquireStep(s, c);
    case Read(c, reading) => ReadStep(s, c, reading);
    case Decide(c) => DecideStep(s, c);
    case Stamp(c) => StampStep(s, c);
    case Unlock(c) => UnlockStep(s, c);
    case Return(c) => ReturnStep(s, c);
  }

  lemma {:induction false} RunKeepsInv(s: State, actions: seq<Action>, s': State)
    requires Inv(s) && Executes(s, actions, s')
    ensures Inv(s')
    decreases |actions|
  {
    if actions != [] {
      StepKeepsInv(s, actions[0]);
      RunKeepsInv(Next(s, actions[0]), actions[1..], s');
    }
  }
}
