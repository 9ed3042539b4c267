/** The config watcher: any number of OnChange, Next and Stop callers over a
    one-slot channel, a mutex and a once-closed stop channel, stepping in any
    order; and the watcher object itself. */
module NacosWatcher {
  import opened Common

  // ---- The selects ----

  /** OnChange's select, as the slot it leaves. Sending needs a free slot and the
      stop case a closed channel; when both can go, either may (`viaStop`), and
      when neither can, the default drops the value. */
  function Offer<T>(slot: Option<T>, closed: bool, viaStop: bool, x: T): Option<T> {
    if slot.None? && !(closed && viaStop) then Some(x) else slot
  }

  /** How a Next call ends that nobody interferes with. */
  datatype NextEnd<T> = RegistrationFailed | Got(x: T) | GaveUp | Waits

  function EndOfNext<T>(listening: bool, slot: Option<T>, closed: bool, listenOk: bool, preferStop: bool): NextEnd<T> {
    if !listening && !listenOk then RegistrationFailed
    else if slot.Some? && !(closed && preferStop) then Got(slot.value)
    else if closed then GaveUp
    else Waits
  }

  // ---- The protocol ----

  /** Where a Next call is: before the mutex, holding it, inside ListenConfig,
      about to unlock, in the final select, returned. */
  datatype NextPhase =
    | Arriving
    | Checking
    | Listening
    | Releasing(failed: bool)
    | Selecting
    | Took(publication: nat, turn: nat)   // the turn-th value to be taken
    | Canceled
    | Failed

  /** Where a Stop call is: before the Once, running its function, after it,
      returned with what CancelListenConfig answered. */
  datatype StopPhase = Entering | Closing | Cancelling | Stopped(ok: bool)

  datatype Once = Unused | Running(call: nat) | Done

  /** Publications are numbered in the order their selects happen. */
  datatype State = State(
    listening: bool, mu: Option<nat>, listens: nat,
    slot: Option<nat>, closed: bool, closes: nat, once: Once, cancels: nat,
    published: seq<string>, taken: seq<nat>, takers: seq<nat>, discarded: set<nat>,
    nexts: seq<NextPhase>, stops: seq<StopPhase>)

  const INITIAL := State(false, None, 0, None, false, 0, Unused, 0, [], [], [], {}, [], [])

  datatype Action =
    | CallNext
    | Lock(next: nat)
    | Check(next: nat)
    | Listen(next: nat, ok: bool)    // ListenConfig returns
    | Release(next: nat)
    | Take(next: nat)
    | GiveUp(next: nat)              // the stop case of the final select
    | Publish(data: string, viaStop: bool)
    | CallStop
    | EnterOnce(stop: nat)
    | Close(stop: nat)
    | CancelListen(stop: nat, ok: bool)    // CancelListenConfig returns

  predicate At(s: State, c: nat, phase: NextPhase) {
    c < |s.nexts| && s.nexts[c] == phase
  }

  predicate StopAt(s: State, c: nat, phase: StopPhase) {
    c < |s.stops| && s.stops[c] == phase
  }

  predicate Enabled(s: State, a: Action) {
    match a
    case CallNext => true
    case Lock(c) => At(s, c, Arriving) && s.mu.None?
    case Check(c) => At(s, c, Checking)
    case Listen(c, _) => At(s, c, Listening)
    case Release(c) => c < |s.nexts| && s.nexts[c].Releasing?
    case Take(c) => At(s, c, Selecting) && s.slot.Some?
    case GiveUp(c) => At(s, c, Selecting) && s.closed
    case Publish(_, viaStop) => s.listening && (viaStop ==> s.closed)
    case CallStop => true
    case EnterOnce(c) => StopAt(s, c, Entering) && !s.once.Running?
    case Close(c) => StopAt(s, c, Closing)
    case CancelListen(c, _) => StopAt(s, c, Cancelling)
  }

  function Next(s: State, a: Action): State
    requires Enabled(s, a)
  {
    match a
    case CallNext => s.(nexts := s.nexts + [Arriving])
    case Lock(c) => s.(mu := Some(c), nexts := s.nexts[c := Checking])
    case Check(c) =>
      if s.listening then s.(nexts := s.nexts[c := Releasing(false)])
      else s.(listening := true, listens := s.listens + 1, nexts := s.nexts[c := Listening])
    case Listen(c, ok) => s.(nexts := s.nexts[c := Releasing(!ok)])
    case Release(c) =>
      s.(mu := None, nexts := s.nexts[c := if s.nexts[c].failed then Failed else Selecting])
    case Take(c) =>
      s.(slot := None, taken := s.taken + [s.slot.value], takers := s.takers + [c],
         nexts := s.nexts[c := Took(s.slot.value, |s.taken|)])
    case GiveUp(c) => s.(nexts := s.nexts[c := Canceled])
    case Publish(data, viaStop) =>
      var i := |s.published|;
      var slot := Offer(s.slot, s.closed, viaStop, i);
      s.(published := s.published + [data], slot := slot,
         discarded := if slot == Some(i) then s.discarded else s.discarded + {i})
    case CallStop => s.(stops := s.stops + [Entering])
    case EnterOnce(c) =>
      if s.once.Done? then s.(stops := s.stops[c := Cancelling])
      else s.(once := Running(c), stops := s.stops[c := Closing])
    case Close(c) => s.(closed := true, closes := s.closes + 1, once := Done, stops := s.stops[c := Cancelling])
    case CancelListen(c, ok) => s.(cancels := s.cancels + 1, stops := s.stops[c := Stopped(ok)])
  }

  predicate Runs(s: State, actions: seq<Action>, s': State)
    decreases |actions|
  {
    if actions == [] then s == s'
    else Enabled(s, actions[0]) && Runs(Next(s, actions[0]), actions[1..], s')
  }

  // ---- The invariant ----

  predicate HoldsMutex(phase: NextPhase) {
    phase.Checking? || phase.Listening? || phase.Releasing?
  }

  predicate InListen(phase: NextPhase) {
    phase.Listening? || phase == Releasing(true) || phase.Failed?
  }

  predicate MutexInv(s: State) {
    (forall c :: 0 <= c < |s.nexts| && HoldsMutex(s.nexts[c]) ==> s.mu == Some(c)) &&
    (s.mu.Some? ==> s.mu.value < |s.nexts| && HoldsMutex(s.nexts[s.mu.value]))
  }

  predicate ListenInv(s: State) {
    s.listens == (if s.listening then 1 else 0) &&
    (forall c :: 0 <= c < |s.nexts| && InListen(s.nexts[c]) ==> s.listening) &&
    (forall c, d :: 0 <= c < d < |s.nexts| ==> !(InListen(s.nexts[c]) && InListen(s.nexts[d]))) &&
    (s.published != [] ==> s.listening)
  }

  function CancelOf(phase: StopPhase): nat {
    if phase.Stopped? then 1 else 0
  }

  predicate CancelInv(s: State) {
    s.cancels == Total(CancelOf, s.stops)
  }

  predicate StopInv(s: State) {
    s.closes == (if s.closed then 1 else 0) && (s.closed <==> s.once.Done?) &&
    (s.once.Running? ==> s.once.call < |s.stops|) &&
    forall c :: 0 <= c < |s.stops| ==>
      (s.stops[c].Closing? <==> s.once == Running(c)) &&
      (s.stops[c].Cancelling? || s.stops[c].Stopped? ==> s.once.Done?)
  }

  /** The publications that reached the channel, in the order they did. */
  function Accepted(s: State): seq<nat> {
    s.taken + (if s.slot.Some? then [s.slot.value] else [])
  }

  predicate ChannelInv(s: State) {
    var acc := Accepted(s);
    (forall i, j :: 0 <= i < j < |acc| ==> acc[i] < acc[j]) &&
    (forall i :: 0 <= i < |s.published| ==> (i in acc <==> i !in s.discarded)) &&
    (forall i :: i in acc ==> i < |s.published|) && (forall i :: i in s.discarded ==> i < |s.published|)
  }

  predicate TakenInv(s: State) {
    |s.takers| == |s.taken| &&
    (forall k :: 0 <= k < |s.taken| ==> At(s, s.takers[k], Took(s.taken[k], k))) &&
    (forall c :: 0 <= c < |s.nexts| && s.nexts[c].Took? ==>
       s.nexts[c].turn < |s.takers| && s.takers[s.nexts[c].turn] == c)
  }

  predicate Inv(s: State) {
    MutexInv(s) && ListenInv(s) && StopInv(s) && CancelInv(s) && ChannelInv(s) && TakenInv(s)
  }

  lemma StepKeepsMutex(s: State, a: Action)
    requires MutexInv(s) && Enabled(s, a)
    ensures MutexInv(Next(s, a))
  {
  }

  lemma StepKeepsListen(s: State, a: Action)
    requires MutexInv(s) && ListenInv(s) && Enabled(s, a)
    ensures ListenInv(Next(s, a))
  {
  }

  lemma StepKeepsStop(s: State, a: Action)
    requires StopInv(s) && Enabled(s, a)
    ensures StopInv(Next(s, a))
  {
  }

  lemma StepKeepsCancels(s: State, a: Action)
    requires CancelInv(s) && Enabled(s, a)
    ensures CancelInv(Next(s, a))
  {
    match a
    case CallStop => TotalAppend(CancelOf, s.stops, Entering);
    case EnterOnce(c) => TotalUpdate(CancelOf, s.stops, c, Next(s, a).stops[c]);
    case Close(c) => TotalUpdate(CancelOf, s.stops, c, Cancelling);
    case CancelListen(c, ok) => TotalUpdate(CancelOf, s.stops, c, Stopped(ok));
    case _ =>
  }

  lemma AcceptedBelow(s: State)
    requires ChannelInv(s)
    ensures forall k :: 0 <= k < |Accepted(s)| ==> Accepted(s)[k] < |s.published|
    ensures s.slot.Some? ==> s.slot.value < |s.published|
  {
    var acc := Accepted(s);
    forall k | 0 <= k < |acc|
      ensures acc[k] < |s.published|
    {
      assert acc[k] in acc;
    }
    if s.slot.Some? {
      assert acc[|s.taken|] == s.slot.value;
    }
  }

  lemma PublishKeepsChannel(s: State, data: string, viaStop: bool)
    requires ChannelInv(s) && Enabled(s, Publish(data, viaStop))
    ensures ChannelInv(Next(s, Publish(data, viaStop)))
  {
    var s', i := Next(s, Publish(data, viaStop)), |s.published|;
    AcceptedBelow(s);
    if s'.slot == Some(i) {
      assert Accepted(s') == Accepted(s) + [i];
    } else {
      assert Accepted(s') == Accepted(s);
    }
  }

  lemma StepKeepsChannel(s: State, a: Action)
    requires ChannelInv(s) && Enabled(s, a)
    ensures ChannelInv(Next(s, a))
  {
    if a.Publish? {
      PublishKeepsChannel(s, a.data, a.viaStop);
    } else {
      assert Accepted(Next(s, a)) == Accepted(s);
    }
  }

  lemma StepKeepsTaken(s: State, a: Action)
    requires TakenInv(s) && Enabled(s, a)
    ensures TakenInv(Next(s, a))
  {
    var s' := Next(s, a);
    forall k | 0 <= k < |s'.taken|
      ensures At(s', s'.takers[k], Took(s'.taken[k], k))
    {
      assert k < |s.taken| ==> At(s, s.takers[k], Took(s.taken[k], k));
    }
  }

  lemma StepKeepsInv(s: State, a: Action)
    requires Inv(s) && Enabled(s, a)
    ensures Inv(Next(s, a))
  {
    StepKeepsMutex(s, a);
    StepKeepsListen(s, a);
    StepKeepsStop(s, a);
    StepKeepsCancels(s, a);
    StepKeepsChannel(s, a);
    StepKeepsTaken(s, a);
  }

  lemma {:induction false} RunKeepsInv(s: State, actions: seq<Action>, s': State)
    requires Inv(s) && Runs(s, actions, s')
    ensures Inv(s')
    decreases |actions|
  {
    if actions != [] {
      StepKeepsInv(s, actions[0]);
      RunKeepsInv(Next(s, actions[0]), actions[1..], s');
    }
  }

  // ---- What the actions say ----

  /** The values published, in order. */
  function PublishedOf(actions: seq<Action>): seq<string> {
    if actions == [] then []
    else (if actions[0].Publish? then [actions[0].data] else []) + PublishedOf(actions[1..])
  }

  /** How many Next calls were made. */
  function NextCalls(actions: seq<Action>): nat {
    if actions == [] then 0 else (if actions[0].CallNext? then 1 else 0) + NextCalls(actions[1..])
  }

  function StopCalls(actions: seq<Action>): nat {
    if actions == [] then 0 else (if actions[0].CallStop? then 1 else 0) + StopCalls(actions[1..])
  }

  lemma StepRecords(s: State, a: Action)
    requires Enabled(s, a)
    ensures Next(s, a).published == s.published + if a.Publish? then [a.data] else []
    ensures |Next(s, a).nexts| == |s.nexts| + if a.CallNext? then 1 else 0
    ensures |Next(s, a).stops| == |s.stops| + if a.CallStop? then 1 else 0
  {
  }

  /** The state holds what was published and every call that was made, no more. */
  lemma {:induction false} ActionsRecorded(s: State, actions: seq<Action>, s': State)
    requires Runs(s, actions, s')
    ensures s'.published == s.published + PublishedOf(actions)
    ensures |s'.nexts| == |s.nexts| + NextCalls(actions) && |s'.stops| == |s.stops| + StopCalls(actions)
    decreases |actions|
  {
    if actions != [] {
      var a, rest := actions[0], actions[1..];
      StepRecords(s, a);
      ActionsRecorded(Next(s, a), rest, s');
      Assoc(s.published, if a.Publish? then [a.data] else [], PublishedOf(rest));
    }
  }

  predicate FailedToListen(phase: NextPhase) {
    phase == Releasing(true) || phase.Failed?
  }

  lemma {:induction false} EndsTraced(s: State, actions: seq<Action>, s': State, c: nat)
    requires Runs(s, actions, s') && c < |s'.nexts|
    ensures s.closed ==> s'.closed
    ensures s'.nexts[c].Canceled? ==> s'.closed || (c < |s.nexts| && s.nexts[c].Canceled?)
    ensures FailedToListen(s'.nexts[c]) ==>
              Listen(c, false) in actions || (c < |s.nexts| && FailedToListen(s.nexts[c]))
    decreases |actions|
  {
    if actions != [] {
      EndsTraced(Next(s, actions[0]), actions[1..], s', c);
    }
  }

  /** A Next call is cancelled only after stop was closed, and fails only if
      ListenConfig failed, in that very call. */
  lemma EndsForReason(actions: seq<Action>, s: State, c: nat)
    requires Runs(INITIAL, actions, s) && c < |s.nexts|
    ensures s.nexts[c].Canceled? ==> s.closed
    ensures s.nexts[c].Failed? ==> Listen(c, false) in actions
  {
    EndsTraced(INITIAL, actions, s, c);
  }

  // ---- What every interleaving keeps ----

  predicate Reachable(actions: seq<Action>, s: State) {
    Runs(INITIAL, actions, s)
  }

  lemma InitialInv()
    ensures Inv(INITIAL)
  {
  }

  lemma ReachableInv(actions: seq<Action>, s: State)
    requires Reachable(actions, s)
    ensures Inv(s)
  {
    InitialInv();
    RunKeepsInv(INITIAL, actions, s);
  }

  /** xs is ys with some elements left out. */
  predicate Subsequence<T(==)>(xs: seq<T>, ys: seq<T>)
    decreases |ys|
  {
    xs == [] ||
    (ys != [] &&
     ((xs[|xs| - 1] == ys[|ys| - 1] && Subsequence(xs[..|xs| - 1], ys[..|ys| - 1])) ||
      Subsequence(xs, ys[..|ys| - 1])))
  }

  function Select<T>(ys: seq<T>, picks: seq<nat>): seq<T>
    requires forall k :: 0 <= k < |picks| ==> picks[k] < |ys|
  {
    seq(|picks|, k requires 0 <= k < |picks| => ys[picks[k]])
  }

  lemma {:induction false} ClimbingPicksAreSubsequence<T>(ys: seq<T>, picks: seq<nat>)
    requires forall k :: 0 <= k < |picks| ==> picks[k] < |ys|
    requires forall i, j :: 0 <= i < j < |picks| ==> picks[i] < picks[j]
    ensures Subsequence(Select(ys, picks), ys)
    decreases |ys|
  {
    if picks != [] {
      var k, n := |picks| - 1, |ys| - 1;
      if picks[k] == n {
        ClimbingPicksAreSubsequence(ys[..n], picks[..k]);
        assert Select(ys[..n], picks[..k]) == Select(ys, picks)[..k];
      } else {
        ClimbingPicksAreSubsequence(ys[..n], picks);
        assert Select(ys[..n], picks) == Select(ys, picks);
      }
    }
  }

  /** The values taken, followed by the pending one, are published values in
      publication order. */
  lemma DeliveredInOrder(actions: seq<Action>, s: State)
    requires Reachable(actions, s)
    ensures s.published == PublishedOf(actions)
    ensures forall k :: 0 <= k < |Accepted(s)| ==> Accepted(s)[k] < |s.published|
    ensures Subsequence(Select(s.published, Accepted(s)), s.published)
  {
    ActionsRecorded(INITIAL, actions, s);
    ReachableInv(actions, s);
    AcceptedBelow(s);
    ClimbingPicksAreSubsequence(s.published, Accepted(s));
  }

  /** Every publication is taken, pending or discarded, and only one of these. */
  lemma EveryPublicationAccounted(actions: seq<Action>, s: State, i: nat)
    requires Reachable(actions, s) && i < |s.published|
    ensures i in s.taken || s.slot == Some(i) || i in s.discarded
    ensures !(i in s.taken && s.slot == Some(i)) && !(i in s.taken && i in s.discarded)
         && !(s.slot == Some(i) && i in s.discarded)
  {
    ReachableInv(actions, s);
    var acc := Accepted(s);
    assert i in acc <==> i in s.taken || s.slot == Some(i);
    if s.slot.Some? {
      assert acc[|s.taken|] == s.slot.value;
      assert forall k :: 0 <= k < |s.taken| ==> acc[k] == s.taken[k];
    }
  }

  lemma TurnOf(s: State, c: nat)
    requires TakenInv(s) && c < |s.nexts| && s.nexts[c].Took?
    ensures s.nexts[c].turn < |s.taken| && s.taken[s.nexts[c].turn] == s.nexts[c].publication
  {
    var k := s.nexts[c].turn;
    assert At(s, s.takers[k], Took(s.taken[k], k));
  }

  lemma TakersDiffer(s: State, c: nat, d: nat)
    requires TakenInv(s) && ChannelInv(s) && c < d < |s.nexts| && s.nexts[c].Took? && s.nexts[d].Took?
    ensures s.nexts[c].publication != s.nexts[d].publication
  {
    TurnOf(s, c);
    TurnOf(s, d);
    assert Accepted(s)[s.nexts[c].turn] != Accepted(s)[s.nexts[d].turn];
  }

  /** Some Next call returned publication i. */
  predicate Returned(s: State, i: nat) {
    exists c :: 0 <= c < |s.nexts| && s.nexts[c].Took? && s.nexts[c].publication == i
  }

  lemma TakenIff(s: State, i: nat)
    requires TakenInv(s)
    ensures i in s.taken <==> Returned(s, i)
  {
    if i in s.taken {
      var k :| 0 <= k < |s.taken| && s.taken[k] == i;
      assert At(s, s.takers[k], Took(i, k));
    }
    if Returned(s, i) {
      var c :| 0 <= c < |s.nexts| && s.nexts[c].Took? && s.nexts[c].publication == i;
      TurnOf(s, c);
    }
  }

  /** The taken publications are those that Next calls returned, each by one call. */
  lemma EachTakenOnce(actions: seq<Action>, s: State)
    requires Reachable(actions, s)
    ensures forall i: nat :: i in s.taken <==> Returned(s, i)
    ensures forall c, d :: 0 <= c < d < |s.nexts| && s.nexts[c].Took? && s.nexts[d].Took? ==>
      s.nexts[c].publication != s.nexts[d].publication
  {
    ReachableInv(actions, s);
    forall i: nat
      ensures i in s.taken <==> Returned(s, i)
    {
      TakenIff(s, i);
    }
    forall c, d | 0 <= c < d < |s.nexts| && s.nexts[c].Took? && s.nexts[d].Took?
      ensures s.nexts[c].publication != s.nexts[d].publication
    {
      TakersDiffer(s, c, d);
    }
  }

  /** ListenConfig is called at most once, even if that call fails; at most one
      Next call returns its error. The stop channel is closed at most once, so
      Stop never panics; each Stop call that returned has called
      CancelListenConfig once. */
  lemma OnceEach(actions: seq<Action>, s: State)
    requires Reachable(actions, s)
    ensures s.listens <= 1 && s.closes <= 1 && (s.closed <==> s.closes == 1)
    ensures forall c, d :: 0 <= c < d < |s.nexts| ==> !(s.nexts[c].Failed? && s.nexts[d].Failed?)
    ensures forall c :: 0 <= c < |s.stops| && s.stops[c].Stopped? ==> s.closed
    ensures s.cancels == Total(CancelOf, s.stops)
  {
    ReachableInv(actions, s);
  }

  // ---- Stop unblocks Next ----

  predicate Finished(phase: NextPhase) {
    phase.Took? || phase.Canceled? || phase.Failed?
  }

  function StepsLeft(phase: NextPhase): nat {
    match phase
    case Arriving => 5
    case Checking => 4
    case Listening => 3
    case Releasing(_) => 2
    case Selecting => 1
    case _ => 0
  }

  function Work(nexts: seq<NextPhase>): nat {
    Total(StepsLeft, nexts)
  }

  predicate NextAction(a: Action) {
    a.Lock? || a.Check? || a.Listen? || a.Release? || a.Take? || a.GiveUp?
  }

  /** A step of a Next call uses up work; publishers and Stop callers add none. */
  lemma StepsUseWork(s: State, a: Action)
    requires Enabled(s, a) && !a.CallNext?
    ensures NextAction(a) ==> Work(Next(s, a).nexts) < Work(s.nexts)
    ensures !NextAction(a) ==> Work(Next(s, a).nexts) == Work(s.nexts)
  {
    if NextAction(a) {
      TotalUpdate(StepsLeft, s.nexts, a.next, Next(s, a).nexts[a.next]);
    }
  }

  /** Once stop is closed, no Next call is stuck: while one has not returned,
      some Next call has an enabled step; a caller in the final select has its own. */
  lemma SomeNextEnabled(actions: seq<Action>, s: State, c: nat) returns (a: Action)
    requires Reachable(actions, s) && s.closed && c < |s.nexts| && !Finished(s.nexts[c])
    ensures NextAction(a) && Enabled(s, a)
    ensures s.nexts[c].Selecting? ==> a == GiveUp(c)
  {
    ReachableInv(actions, s);
    var d := if s.nexts[c].Arriving? && s.mu.Some? then s.mu.value else c;
    var phase := s.nexts[d];
    a := if phase.Arriving? then Lock(d)
         else if phase.Checking? then Check(d)
         else if phase.Listening? then Listen(d, true)
         else if phase.Releasing? then Release(d)
         else GiveUp(d);
  }

  lemma {:induction false} RunsAppend(s: State, actions: seq<Action>, m: State, a: Action)
    requires Runs(s, actions, m) && Enabled(m, a)
    ensures Runs(s, actions + [a], Next(m, a))
    decreases |actions|
  {
    if actions != [] {
      RunsAppend(Next(s, actions[0]), actions[1..], m, a);
      assert (actions + [a])[1..] == actions[1..] + [a];
    }
  }

  /** After Stop, every Next call returns: from any reachable closed state at most
      five steps per call bring all of them to an end. */
  lemma StopUnblocksAll(actions: seq<Action>, s: State) returns (more: seq<Action>, done: State)
    requires Reachable(actions, s) && s.closed
    ensures Reachable(actions + more, done) && |more| <= Work(s.nexts)
    ensures |done.nexts| == |s.nexts| && forall c :: 0 <= c < |done.nexts| ==> Finished(done.nexts[c])
    decreases Work(s.nexts)
  {
    TotalZeroIff(StepsLeft, s.nexts);
    if Work(s.nexts) == 0 {
      more, done := [], s;
      assert actions + more == actions;
    } else {
      var c :| 0 <= c < |s.nexts| && !Finished(s.nexts[c]);
      var a := SomeNextEnabled(actions, s, c);
      StepsUseWork(s, a);
      RunsAppend(INITIAL, actions, s, a);
      var rest;
      rest, done := StopUnblocksAll(actions + [a], Next(s, a));
      more := [a] + rest;
      assert actions + more == actions + [a] + rest;
    }
  }

  // ---- A Next call on its own ----

  predicate EndsAs(end: NextEnd<nat>, phase: NextPhase) {
    match end
    case RegistrationFailed => phase.Failed?
    case Got(i) => phase.Took? && phase.publication == i
    case GaveUp => phase.Canceled?
    case Waits => phase.Selecting?
  }

  /** Run alone, a Next call of the protocol ends as EndOfNext says, which is what
      the watcher object's Next does; only the slot it takes from changes. */
  lemma NextAlone(s: State, listenOk: bool, preferStop: bool) returns (actions: seq<Action>, s': State)
    requires s.mu.None?
    ensures Runs(s, actions, s') && s'.mu.None? && s'.listening
    ensures |s'.nexts| == |s.nexts| + 1 && s'.nexts[..|s.nexts|] == s.nexts
    ensures var end := EndOfNext(s.listening, s.slot, s.closed, listenOk, preferStop);
      EndsAs(end, s'.nexts[|s.nexts|]) && s'.slot == if end.Got? then None else s.slot
    ensures s'.closed == s.closed && s'.published == s.published
  {
    var c, m := |s.nexts|, Released(s, listenOk);
    var end := EndOfNext(s.listening, s.slot, s.closed, listenOk, preferStop);
    actions := ToSelect(s, listenOk);
    if end.Got? {
      RunsAppend(s, actions, m, Take(c));
      actions, s' := actions + [Take(c)], Next(m, Take(c));
    } else if end.GaveUp? {
      RunsAppend(s, actions, m, GiveUp(c));
      actions, s' := actions + [GiveUp(c)], Next(m, GiveUp(c));
    } else {
      s' := m;
    }
  }

  /** The state in which such a call reaches the final select or returns the error. */
  function Released(s: State, listenOk: bool): State {
    s.(listening := true, listens := if s.listening then s.listens else s.listens + 1,
       nexts := s.nexts + [if s.listening || listenOk then Selecting else Failed])
  }

  lemma ToSelect(s: State, listenOk: bool) returns (actions: seq<Action>)
    requires s.mu.None?
    ensures Runs(s, actions, Released(s, listenOk))
  {
    var c := |s.nexts|;
    var s1 := Next(s, CallNext);
    var s2 := Next(s1, Lock(c));
    var s3 := Next(s2, Check(c));
    RunsAppend(s, [], s, CallNext);
    RunsAppend(s, [] + [CallNext], s1, Lock(c));
    RunsAppend(s, [] + [CallNext] + [Lock(c)], s2, Check(c));
    actions := [] + [CallNext] + [Lock(c)] + [Check(c)];
    if s.listening {
      RunsAppend(s, actions, s3, Release(c));
      assert Next(s3, Release(c)) == Released(s, listenOk);
      actions := actions + [Release(c)];
    } else {
      var s4 := Next(s3, Listen(c, listenOk));
      RunsAppend(s, actions, s3, Listen(c, listenOk));
      actions := actions + [Listen(c, listenOk)];
      RunsAppend(s, actions, s4, Release(c));
      assert Next(s4, Release(c)) == Released(s, listenOk);
      actions := actions + [Release(c)];
    }
  }

  /** Run alone, a Stop call closes the stop channel if nobody has, cancels the
      listener once and returns what that answered; it touches nothing else. */
  lemma StopAlone(s: State, ok: bool) returns (actions: seq<Action>, s': State)
    requires !s.once.Running? && (s.closed <==> s.once.Done?)
    ensures Runs(s, actions, s') && s'.closed && s'.stops == s.stops + [Stopped(ok)]
    ensures s'.closes == (if s.closed then s.closes else s.closes + 1) && s'.cancels == s.cancels + 1
    ensures s'.nexts == s.nexts && s'.slot == s.slot && s'.published == s.published
  {
    var c := |s.stops|;
    var s1 := Next(s, CallStop);
    var s2 := Next(s1, EnterOnce(c));
    RunsAppend(s, [], s, CallStop);
    RunsAppend(s, [] + [CallStop], s1, EnterOnce(c));
    actions, s' := [] + [CallStop] + [EnterOnce(c)], s2;
    if !s.closed {
      RunsAppend(s, actions, s2, Close(c));
      actions, s' := actions + [Close(c)], Next(s2, Close(c));
    }
    RunsAppend(s, actions, s', CancelListen(c, ok));
    actions, s' := actions + [CancelListen(c, ok)], Next(s', CancelListen(c, ok));
    assert s'.stops == s.stops + [Stopped(ok)];
  }

  // ---- What the watcher does not promise ----

  /** What has been discarded stays discarded. */
  lemma {:induction false} DiscardedStays(s: State, actions: seq<Action>, s': State)
    requires Runs(s, actions, s')
    ensures s.discarded <= s'.discarded
    decreases |actions|
  {
    if actions != [] {
      DiscardedStays(Next(s, actions[0]), actions[1..], s');
    }
  }

  /** No call of any continuation returns publication i. */
  ghost predicate NeverReturned(s: State, i: nat) {
    forall more, s' :: Runs(s, more, s') ==> !Returned(s', i)
  }

  lemma DiscardedNeverReturned(s: State, i: nat)
    requires Inv(s) && i in s.discarded
    ensures NeverReturned(s, i)
  {
    forall more, s' | Runs(s, more, s')
      ensures !Returned(s', i)
    {
      DiscardedStays(s, more, s');
      RunKeepsInv(s, more, s');
      TakenIff(s', i);
      assert i in s'.taken ==> i in Accepted(s');
    }
  }

  /** A pending publication can still be delivered, after Stop too: whoever holds the
      mutex lets go of it, and then one more Next call takes it. */
  lemma PendingDeliverable(s: State, i: nat)
    requires MutexInv(s) && s.listening && s.slot == Some(i)
    ensures !NeverReturned(s, i)
  {
    var before, m := FreeMutex(s);
    var after, s' := NextAlone(m, true, false);
    RunsJoin(s, before, m, after, s');
    assert Runs(s, before + after, s');
    var c := |m.nexts|;
    assert s'.nexts[c].Took? && s'.nexts[c].publication == i;
  }

  lemma FreeMutex(s: State) returns (actions: seq<Action>, m: State)
    requires MutexInv(s) && s.listening
    ensures Runs(s, actions, m) && m.mu.None? && m.listening && m.slot == s.slot && m.closed == s.closed
  {
    actions, m := [], s;
    if s.mu.Some? {
      var c := s.mu.value;
      if s.nexts[c].Checking? {
        RunsAppend(s, actions, m, Check(c));
        actions, m := actions + [Check(c)], Next(m, Check(c));
      } else if s.nexts[c].Listening? {
        RunsAppend(s, actions, m, Listen(c, true));
        actions, m := actions + [Listen(c, true)], Next(m, Listen(c, true));
      }
      RunsAppend(s, actions, m, Release(c));
      actions, m := actions + [Release(c)], Next(m, Release(c));
    }
  }

  lemma {:induction false} RunsJoin(s: State, first: seq<Action>, m: State, second: seq<Action>, s': State)
    requires Runs(s, first, m) && Runs(m, second, s')
    ensures Runs(s, first + second, s')
    decreases |first|
  {
    if first == [] {
      assert first + second == second;
    } else {
      RunsJoin(Next(s, first[0]), first[1..], m, second, s');
      assert (first + second)[1..] == first[1..] + second;
    }
  }

  /** A publication is lost, to all Next calls for ever, exactly when an older one
      is still pending, which then stays the one to be taken, or when stop is closed
      and the select takes that case. */
  lemma LostIffSlotFull(actions: seq<Action>, s: State, data: string, viaStop: bool)
    requires Reachable(actions, s) && s.listening && (viaStop ==> s.closed)
    ensures var s', i := Next(s, Publish(data, viaStop)), |s.published|;
      s'.published == s.published + [data] &&
      (NeverReturned(s', i) <==> s.slot.Some? || viaStop) &&
      (s.slot.Some? ==> s'.slot == s.slot && s.slot.value < i)
  {
    var a := Publish(data, viaStop);
    var s', i := Next(s, a), |s.published|;
    ReachableInv(actions, s);
    AcceptedBelow(s);
    StepKeepsInv(s, a);
    if s.slot.Some? || viaStop {
      DiscardedNeverReturned(s', i);
    } else {
      PendingDeliverable(s', i);
    }
  }

  lemma TwoPublishedOneTaken(older: string, newer: string) returns (actions: seq<Action>, s: State)
    ensures Reachable(actions, s) && s.published == [older, newer] && s.taken == [0] && s.discarded == {1}
    ensures s.slot.None? && !s.closed
  {
    var setup := [CallNext, Lock(0), Check(0), Listen(0, true), Release(0)];
    var s5 := INITIAL.(listening := true, listens := 1, nexts := [Selecting]);
    SetUp(setup, s5);
    var s6 := Next(s5, Publish(older, false));
    RunsAppend(INITIAL, setup, s5, Publish(older, false));
    var s7 := Next(s6, Publish(newer, false));
    RunsAppend(INITIAL, setup + [Publish(older, false)], s6, Publish(newer, false));
    RunsAppend(INITIAL, setup + [Publish(older, false)] + [Publish(newer, false)], s7, Take(0));
    actions, s := setup + [Publish(older, false)] + [Publish(newer, false)] + [Take(0)], Next(s7, Take(0));
  }

  /** So the newest config can be missed for good: two publications in a row, one
      value taken, and nothing left to take, in this run or any continuation. */
  lemma NewestLost(older: string, newer: string)
    ensures exists actions, s: State ::
      Reachable(actions, s) && s.published == [older, newer] && s.taken == [0] && s.slot.None? && !s.closed &&
      1 in s.discarded && NeverReturned(s, 1)
  {
    var actions, s := TwoPublishedOneTaken(older, newer);
    ReachableInv(actions, s);
    DiscardedNeverReturned(s, 1);
  }

  lemma SetUp(setup: seq<Action>, s5: State)
    requires setup == [CallNext, Lock(0), Check(0), Listen(0, true), Release(0)]
    requires s5 == INITIAL.(listening := true, listens := 1, nexts := [Selecting])
    ensures Reachable(setup, s5)
  {
    var s1 := Next(INITIAL, CallNext);
    var s2 := Next(s1, Lock(0));
    var s3 := Next(s2, Check(0));
    var s4 := Next(s3, Listen(0, true));
    assert Next(s4, Release(0)) == s5;
    RunsAppend(INITIAL, [], INITIAL, CallNext);
    RunsAppend(INITIAL, [] + [CallNext], s1, Lock(0));
    RunsAppend(INITIAL, [] + [CallNext] + [Lock(0)], s2, Check(0));
    RunsAppend(INITIAL, [] + [CallNext] + [Lock(0)] + [Check(0)], s3, Listen(0, true));
    RunsAppend(INITIAL, [] + [CallNext] + [Lock(0)] + [Check(0)] + [Listen(0, true)], s4, Release(0));
    assert setup == [] + [CallNext] + [Lock(0)] + [Check(0)] + [Listen(0, true)] + [Release(0)];
  }

  // ---- The watcher object ----

  datatype KeyValue = KeyValue(key: string, value: string, format: string)

  /** What Next returns; Blocked means that the final select has no ready case. */
  datatype NextResult = Content(kv: KeyValue) | BlankContent | ContextCanceled | ListenError | Blocked

  predicate IsSpace(c: char) {
    c == ' ' || '\t' <= c <= '\r' || c == '\U{85}' || c == '\U{A0}' || c == '\U{1680}' ||
    '\U{2000}' <= c <= '\U{200A}' || c == '\U{2028}' || c == '\U{2029}' || c == '\U{202F}' ||
    c == '\U{205F}' || c == '\U{3000}'
  }

  /** strings.TrimSpace leaves nothing. */
  predicate IsBlank(s: string) {
    forall i :: 0 <= i < |s| ==> IsSpace(s[i])
  }

  /** White space by its code points. */
  lemma BlankIff(s: string)
    ensures IsBlank(s) <==>
            forall c :: c in s ==>
              var p := c as int;
              9 <= p <= 13 || p == 32 || p == 133 || p == 160 || p == 5760 || 8192 <= p <= 8202 ||
              p == 8232 || p == 8233 || p == 8239 || p == 8287 || p == 12288
    ensures IsBlank(" \n\t") && !IsBlank("a")
  {
    forall i | 0 <= i < |s|
      ensures s[i] in s
    {
    }
    assert "a"[0] == 'a';
  }

  function ResultOf(end: NextEnd<string>, dataId: string, format: string): NextResult {
    match end
    case RegistrationFailed => ListenError
    case Got(data) => if IsBlank(data) then BlankContent else Content(KeyValue(dataId, data, format))
    case GaveUp => ContextCanceled
    case Waits => Blocked
  }

  class Watcher {
    const dataId: string
    const format: string
    var listening: bool
    var listens: nat       // how often ListenConfig has been called
    var notify: Option<string>
    var stopped: bool
    var closes: nat        // how often the stop channel has been closed
    var cancels: nat       // how often CancelListenConfig has been called

    ghost predicate Valid()
      reads this
    {
      listens == (if listening then 1 else 0) && closes == (if stopped then 1 else 0) &&
      (notify.Some? ==> listening)
    }

    constructor (dataId: string, format: string)
      ensures Valid() && this.dataId == dataId && this.format == format
      ensures !listening && notify.None? && !stopped && cancels == 0
    {
      this.dataId, this.format := dataId, format;
      listening, listens, notify, stopped, closes, cancels := false, 0, None, false, 0, 0;
    }

    /** The callback handed to ListenConfig. The value is queued if the slot is
        free and stop is open, dropped if the slot is full; with a free slot and
        stop closed the select may do either. */
    method OnChange(data: string, viaStop: bool)
      requires Valid() && listening
      modifies this`notify
      ensures Valid() && notify == Offer(old(notify), stopped, viaStop, data)
      ensures notify == if old(notify).None? && (!stopped || !viaStop) then Some(data) else old(notify)
    {
      if notify.None? && !(stopped && viaStop) {
        notify := Some(data);
      }
    }

    /** Next, with `listenOk` for what ListenConfig would answer and `preferStop`
        for the choice when both cases of the final select are ready. */
    method Next(listenOk: bool, preferStop: bool) returns (r: NextResult)
      requires Valid()
      modifies this`listening, this`listens, this`notify
      ensures Valid() && listening
      ensures r == ResultOf(EndOfNext(old(listening), old(notify), stopped, listenOk, preferStop), dataId, format)
      ensures listens == if old(listening) then old(listens) else old(listens) + 1
      ensures notify == if r.Content? || r.BlankContent? then None else old(notify)
      ensures r == ListenError <==> !old(listening) && !listenOk
      ensures r == ContextCanceled <==>
              (old(listening) || listenOk) && stopped && (old(notify).None? || preferStop)
      ensures r == Blocked <==> (old(listening) || listenOk) && old(notify).None? && !stopped
      ensures r.Content? || r.BlankContent? ==>
                old(notify).Some? &&
                r == if IsBlank(old(notify).value) then BlankContent
                     else Content(KeyValue(dataId, old(notify).value, format))
    {
      if !listening {
        listening := true;
        listens := listens + 1;
        if !listenOk {
          return ListenError;
        }
      }
      if notify.Some? && !(stopped && preferStop) {
        var data := notify.value;
        notify := None;
        if IsBlank(data) {
          return BlankContent;
        }
        return Content(KeyValue(dataId, data, format));
      }
      if stopped {
        return ContextCanceled;
      }
      return Blocked;
    }

    /** Closes the stop channel the first time only, and cancels the listener every
        time, with `cancelOk` for what CancelListenConfig would answer. */
    method Stop(cancelOk: bool) returns (ok: bool)
      requires Valid()
      modifies this`stopped, this`closes, this`cancels
      ensures Valid() && stopped && closes == 1
      ensures cancels == old(cancels) + 1 && ok == cancelOk
    {
      if !stopped {
        stopped := true;
        closes := closes + 1;
      }
      cancels := cancels + 1;
      ok := cancelOk;
    }
  }

  /** Two changes before a Next: the older one is delivered, and then nothing is
      left to deliver. */
  method MissNewest(w: Watcher, older: string, newer: string) returns (first: NextResult, second: NextResult)
    requires w.Valid() && w.listening && w.notify.None? && !w.stopped && !IsBlank(older)
    modifies w
    ensures first == Content(KeyValue(w.dataId, older, w.format)) && second == Blocked
  {
    w.OnChange(older, false);
    w.OnChange(newer, false);
    first := w.Next(true, false);
    second := w.Next(true, false);
  }
}
