/** Whole runs of one node: the completed calls in the order in which they held
    the lock. Uniqueness, order, the rate bound, positivity, honesty of the
    timestamps and transparency of failures are theorems about runs of any length. */
module Runs {
  import opened Int64
  import opened Common
  import opened SnowflakeId
  import opened Generator

  /** One completed call: the offsets it saw and what it returned. */
  datatype Section = Section(seen: seq<int64>, out: Outcome)

  /** The slot after a log of calls, starting from a node fresh from its constructor. */
  function After(node: int64, log: seq<Section>): Slot {
    if log == [] then FRESH
    else RunCall(After(node, log[..|log| - 1]), node, log[|log| - 1].seen).after
  }

  /** Every call did what RunCall says on the slot its predecessors left, and
      ended on exactly the readings it saw. */
  predicate IsRun(node: int64, log: seq<Section>) {
    log == [] || (
      var init, last := log[..|log| - 1], log[|log| - 1];
      var g := RunCall(After(node, init), node, last.seen);
      IsRun(node, init) && last.out == g.out && !g.out.Spinning? && g.used == |last.seen|)
  }

  /** A run that leaves its node at slot s. */
  predicate EndsAt(node: int64, log: seq<Section>, s: Slot) {
    IsRun(node, log) && After(node, log) == s
  }

  predicate SeenBelow(log: seq<Section>, limit: int) {
    forall i, j :: 0 <= i < |log| && 0 <= j < |log[i].seen| ==> log[i].seen[j] < limit
  }

  /** The slot whose ID call i returned. */
  function SlotAt(node: int64, log: seq<Section>, i: nat): Slot
    requires i < |log|
  {
    After(node, log[..i + 1])
  }

  predicate IssuedAt(log: seq<Section>, i: nat)
    requires i < |log|
  {
    log[i].out.Issued?
  }

  /** The offset a call settled on: the last one it saw. */
  function Settled(section: Section): int64 {
    if section.seen == [] then 0 else section.seen[|section.seen| - 1]
  }

  // ---- The state along a run ----

  lemma {:induction false} PrefixIsRun(node: int64, log: seq<Section>, k: nat)
    requires IsRun(node, log) && k <= |log|
    ensures IsRun(node, log[..k])
    decreases |log|
  {
    if k < |log| {
      assert log[..|log| - 1][..k] == log[..k];
      PrefixIsRun(node, log[..|log| - 1], k);
    } else {
      assert log[..k] == log;
    }
  }

  /** A run grows by one completed call. */
  lemma Extend(node: int64, log: seq<Section>, section: Section, next: Slot)
    requires IsRun(node, log) && !section.out.Spinning?
    requires RunCall(After(node, log), node, section.seen) == Generated(section.out, next, |section.seen|)
    ensures IsRun(node, log + [section]) && After(node, log + [section]) == next
  {
    assert (log + [section])[..|log|] == log;
  }

  /** One call: the slot moves up strictly when an ID is issued and not at all otherwise. */
  lemma CallMoves(s: Slot, node: int64, seen: seq<int64>)
    requires ValidSlot(s)
    ensures var g := RunCall(s, node, seen);
      ValidSlot(g.after) &&
      (if g.out.Issued? then
         Follows(s, g.after) && g.out.id == Pack(g.after.time, node, g.after.step) &&
         1 <= g.used <= |seen| && g.after.time == seen[g.used - 1]
       else g.after == s)
  {
    MeetsIff(s, node, seen, RunCall(s, node, seen));
  }

  lemma {:induction false} AfterValid(node: int64, log: seq<Section>)
    ensures ValidSlot(After(node, log))
  {
    if log != [] {
      AfterValid(node, log[..|log| - 1]);
      CallMoves(After(node, log[..|log| - 1]), node, log[|log| - 1].seen);
    }
  }

  /** A completed call that found slot s and left `next`. */
  predicate Did(node: int64, s: Slot, section: Section, next: Slot) {
    section.seen != [] && !section.out.Spinning? &&
    RunCall(s, node, section.seen) == Generated(section.out, next, |section.seen|)
  }

  lemma LastCall(node: int64, init: seq<Section>, last: Section)
    requires IsRun(node, init + [last])
    ensures Did(node, After(node, init), last, After(node, init + [last]))
  {
    assert (init + [last])[..|init|] == init;
  }

  /** Call i, in terms of the slot before it. */
  lemma CallAt(node: int64, log: seq<Section>, i: nat)
    requires IsRun(node, log) && i < |log|
    ensures Did(node, After(node, log[..i]), log[i], SlotAt(node, log, i))
  {
    PrefixIsRun(node, log, i + 1);
    TakeNext(log, i);
    LastCall(node, log[..i], log[i]);
  }

  /** The ID that call i issued is its slot, packed; the millisecond is the last
      offset it saw. */
  lemma IdAt(node: int64, log: seq<Section>, i: nat)
    requires IsRun(node, log) && i < |log| && IssuedAt(log, i)
    ensures var slot := SlotAt(node, log, i);
      ValidSlot(slot) && log[i].out.id == Pack(slot.time, node, slot.step) &&
      log[i].seen != [] && slot.time == Settled(log[i])
  {
    CallAt(node, log, i);
    AfterValid(node, log[..i]);
    CallMoves(After(node, log[..i]), node, log[i].seen);
  }

  /** How call i moved the slot. */
  lemma MoveAt(node: int64, log: seq<Section>, i: nat)
    requires IsRun(node, log) && i < |log|
    ensures ValidSlot(After(node, log[..i])) && ValidSlot(SlotAt(node, log, i))
    ensures if IssuedAt(log, i) then Follows(After(node, log[..i]), SlotAt(node, log, i))
            else SlotAt(node, log, i) == After(node, log[..i])
  {
    CallAt(node, log, i);
    AfterValid(node, log[..i]);
    CallMoves(After(node, log[..i]), node, log[i].seen);
  }

  /** The next step of the same millisecond, or step 0 of a later one. */
  predicate Follows(s: Slot, next: Slot) {
    (next.time == s.time && next.step == s.step + 1) || (next.time > s.time && next.step == 0)
  }

  /** MoveAt for the last call of a log. */
  lemma LastMove(node: int64, log: seq<Section>)
    requires IsRun(node, log) && log != []
    ensures var s, next := After(node, log[..|log| - 1]), After(node, log);
      ValidSlot(s) && ValidSlot(next) &&
      if log[|log| - 1].out.Issued? then Follows(s, next) else next == s
  {
    assert log[..|log|] == log;
    MoveAt(node, log, |log| - 1);
  }

  lemma RankStep(node: int64, log: seq<Section>, i: nat)
    requires IsRun(node, log) && i < |log|
    ensures Rank(After(node, log[..i])) <= Rank(After(node, log[..i + 1]))
    ensures IssuedAt(log, i) ==> Rank(After(node, log[..i])) < Rank(After(node, log[..i + 1]))
  {
    MoveAt(node, log, i);
  }

  /** The slot never moves back. */
  lemma {:induction false} RanksClimb(node: int64, log: seq<Section>, i: nat, j: nat)
    requires IsRun(node, log) && i <= j <= |log|
    ensures Rank(After(node, log[..i])) <= Rank(After(node, log[..j]))
    decreases j - i
  {
    if i < j {
      RanksClimb(node, log, i, j - 1);
      RankStep(node, log, j - 1);
    }
  }

  lemma LaterIsHigher(node: int64, log: seq<Section>, i: nat, j: nat)
    requires IsRun(node, log) && i < j < |log| && IssuedAt(log, j)
    ensures Rank(SlotAt(node, log, i)) < Rank(SlotAt(node, log, j))
  {
    RanksClimb(node, log, i + 1, j);
    MoveAt(node, log, j);
  }

  // ---- Order, uniqueness, positivity, honesty ----

  lemma RankOrders(s1: Slot, s2: Slot)
    requires ValidSlot(s1) && ValidSlot(s2)
    ensures Rank(s1) < Rank(s2) <==> Before(s1.time, 0, s1.step, s2.time, 0, s2.step)
  {
  }

  /** Strict order: while offsets stay below 2^41, a later call returns a larger
      ID, whatever the clock did. */
  lemma IdsIncrease(node: int64, log: seq<Section>, i: nat, j: nat)
    requires 0 <= node <= NODE_MAX && IsRun(node, log) && SeenBelow(log, TIME_LIMIT)
    requires i < j < |log| && IssuedAt(log, i) && IssuedAt(log, j)
    ensures log[i].out.id < log[j].out.id
  {
    LaterIsHigher(node, log, i, j);
    IdAt(node, log, i);
    IdAt(node, log, j);
    HigherSlotHigherId(node, SlotAt(node, log, i), SlotAt(node, log, j));
  }

  lemma HigherSlotHigherId(node: int64, a: Slot, b: Slot)
    requires 0 <= node <= NODE_MAX && ValidSlot(a) && ValidSlot(b)
    requires Rank(a) < Rank(b) && b.time < TIME_LIMIT
    ensures Pack(a.time, node, a.step) < Pack(b.time, node, b.step)
  {
    RankOrders(a, b);
    OrderEmbedding(a.time, node, a.step, b.time, node, b.step);
  }

  /** Uniqueness holds twice as long as order does: up to 2^42. */
  lemma IdsDiffer(node: int64, log: seq<Section>, i: nat, j: nat)
    requires 0 <= node <= NODE_MAX && IsRun(node, log) && SeenBelow(log, 2 * TIME_LIMIT)
    requires i < j < |log| && IssuedAt(log, i) && IssuedAt(log, j)
    ensures log[i].out.id != log[j].out.id
  {
    LaterIsHigher(node, log, i, j);
    IdAt(node, log, i);
    IdAt(node, log, j);
    OtherSlotOtherId(node, SlotAt(node, log, i), SlotAt(node, log, j));
  }

  lemma OtherSlotOtherId(node: int64, a: Slot, b: Slot)
    requires 0 <= node <= NODE_MAX && ValidSlot(a) && ValidSlot(b)
    requires a != b && a.time < 2 * TIME_LIMIT && b.time < 2 * TIME_LIMIT
    ensures Pack(a.time, node, a.step) != Pack(b.time, node, b.step)
  {
    CollideIff(a.time, node, a.step, b.time, node, b.step);
    CloseTogether(a.time, b.time);
  }

  lemma CloseTogether(t1: int, t2: int)
    requires 0 <= t1 < 2 * TIME_LIMIT && 0 <= t2 < 2 * TIME_LIMIT
    ensures (t1 - t2) % (2 * TIME_LIMIT) == 0 <==> t1 == t2
  {
  }

  /** Each returned ID is positive, carries the node's id, and carries a
      non-negative timestamp: the last offset its call saw. */
  lemma IdsPositive(node: int64, log: seq<Section>, i: nat)
    requires 0 <= node <= NODE_MAX && IsRun(node, log) && SeenBelow(log, TIME_LIMIT)
    requires i < |log| && IssuedAt(log, i)
    ensures var id := log[i].out.id;
      id > 0 && NodeOf(id) == node && log[i].seen != [] && 0 <= Time(id) == Settled(log[i])
  {
    IdAt(node, log, i);
    MoveAt(node, log, i);
    AfterValid(node, log[..i]);
    var slot := SlotAt(node, log, i);
    assert slot != FRESH;
    UnpackFields(slot.time, node, slot.step);
    SignedTimeFits(slot.time);
  }

  /** The documented "positive timestamp offset" is not guaranteed: a node whose
      clock still shows its epoch issues an ID at offset 0, with step 1. */
  lemma ZeroOffsetPossible(node: int64)
    requires 0 <= node <= NODE_MAX
    ensures var log := [Section([0], Issued(Pack(0, node, 1)))];
      IsRun(node, log) && Time(log[0].out.id) == 0 && Step(log[0].out.id) == 1
  {
    var log := [Section([0], Issued(Pack(0, node, 1)))];
    assert log[..0] == [];
    MeetsIff(FRESH, node, [0], Generated(Issued(Pack(0, node, 1)), Slot(0, 1), 1));
    UnpackFields(0, node, 1);
  }

  /** The clock shows the epoch itself before it shows anything past it. */
  predicate EpochFirst(seen: seq<int64>) {
    exists k :: 0 <= k < |seen| && seen[k] == 0 && forall j :: 0 <= j < k ==> seen[j] < 0
  }

  /** An ID has offset 0 exactly if its call found the node still in millisecond 0,
      with a step left there, and the clock showing the epoch first. */
  lemma ZeroOffsetIff(node: int64, log: seq<Section>, i: nat)
    requires 0 <= node <= NODE_MAX && IsRun(node, log) && SeenBelow(log, TIME_LIMIT)
    requires i < |log| && IssuedAt(log, i)
    ensures var s := After(node, log[..i]);
      Time(log[i].out.id) == 0 <==> s.time == 0 && s.step < STEP_MASK && EpochFirst(log[i].seen)
  {
    IdsPositive(node, log, i);
    CallAt(node, log, i);
    AfterValid(node, log[..i]);
    SettlesOnEpochIff(After(node, log[..i]), node, log[i].seen, RunCall(After(node, log[..i]), node, log[i].seen));
  }

  lemma SettlesOnEpochIff(s: Slot, node: int64, seen: seq<int64>, g: Generated)
    requires ValidSlot(s) && g == RunCall(s, node, seen) && g.out.Issued? && g.used == |seen|
    ensures |seen| > 0 && (seen[|seen| - 1] == 0 <==> s.time == 0 && s.step < STEP_MASK && EpochFirst(seen))
  {
    MeetsIff(s, node, seen, g);
  }

  /** A node whose clock has passed its epoch by the first reading never issues
      offset 0: every ID of the run has a positive one. */
  lemma PositiveOnceStarted(node: int64, log: seq<Section>, i: nat)
    requires 0 <= node <= NODE_MAX && IsRun(node, log) && SeenBelow(log, TIME_LIMIT)
    requires i < |log| && IssuedAt(log, i)
    requires log[0].seen != [] && log[0].seen[0] > 0
    ensures Time(log[i].out.id) > 0
  {
    CallAt(node, log, 0);
    assert log[..0] == [];
    var first := Slot(log[0].seen[0], 0);
    MeetsIff(FRESH, node, log[0].seen, Generated(Issued(Pack(first.time, node, 0)), first, 1));
    RanksClimb(node, log, 1, i + 1);
    IdAt(node, log, i);
    IdsPositive(node, log, i);
  }

  /** Honesty: decoding an ID against the node's epoch gives the last clock
      reading of the very call that returned it. */
  lemma TimestampsHonest(node: int64, epoch: int64, log: seq<Section>, i: nat, clock: seq<int64>)
    requires 0 <= node <= NODE_MAX && IsRun(node, log) && SeenBelow(log, TIME_LIMIT)
    requires i < |log| && IssuedAt(log, i) && log[i].seen == Offsets(clock, epoch)
    ensures clock != [] && TimeWithEpoch(log[i].out.id, epoch) == clock[|clock| - 1]
  {
    IdsPositive(node, log, i);
    DecodeLast(log[i], epoch, clock);
  }

  lemma DecodeLast(section: Section, epoch: int64, clock: seq<int64>)
    requires section.out.Issued? && section.seen != [] && Time(section.out.id) == Settled(section)
    requires section.seen == Offsets(clock, epoch)
    ensures clock != [] && TimeWithEpoch(section.out.id, epoch) == clock[|clock| - 1]
  {
    AddUndoesSub(clock[|clock| - 1], epoch);
  }

  /** No call of the node ever issues a timestamp below one issued before. */
  lemma TimestampsClimb(node: int64, log: seq<Section>, i: nat, j: nat)
    requires 0 <= node <= NODE_MAX && IsRun(node, log) && SeenBelow(log, TIME_LIMIT)
    requires i < j < |log| && IssuedAt(log, i) && IssuedAt(log, j)
    ensures Time(log[i].out.id) <= Time(log[j].out.id)
  {
    IdsPositive(node, log, i);
    IdsPositive(node, log, j);
    IdAt(node, log, i);
    IdAt(node, log, j);
    LaterIsHigher(node, log, i, j);
  }

  // ---- Steps and rate ----

  /** How many of the returned IDs carry a timestamp in the w milliseconds from t on. */
  function CountWithin(log: seq<Section>, t: int, w: nat): nat {
    if log == [] then 0
    else
      var out := log[|log| - 1].out;
      CountWithin(log[..|log| - 1], t, w) + (if out.Issued? && t <= Time(out.id) < t + w then 1 else 0)
  }

  /** LastMove together with the timestamp the last ID carries. */
  lemma LastIssue(node: int64, log: seq<Section>)
    requires 0 <= node <= NODE_MAX && IsRun(node, log) && SeenBelow(log, TIME_LIMIT) && log != []
    ensures var s, next := After(node, log[..|log| - 1]), After(node, log);
      ValidSlot(s) && ValidSlot(next) &&
      if log[|log| - 1].out.Issued? then Follows(s, next) && Time(log[|log| - 1].out.id) == next.time
      else next == s
  {
    LastMove(node, log);
    if IssuedAt(log, |log| - 1) {
      assert log[..|log|] == log;
      IdsPositive(node, log, |log| - 1);
      IdAt(node, log, |log| - 1);
    }
  }

  lemma {:induction false} StepCounts(node: int64, log: seq<Section>)
    requires 0 <= node <= NODE_MAX && IsRun(node, log) && SeenBelow(log, TIME_LIMIT)
    ensures var s := After(node, log);
      s.step + (if s.time == 0 then 0 else 1) == CountWithin(log, s.time, 1)
    ensures forall t :: t > After(node, log).time ==> CountWithin(log, t, 1) == 0
  {
    if log != [] {
      StepCounts(node, log[..|log| - 1]);
      LastIssue(node, log);
    }
  }

  /** The step of an ID is the number of IDs issued before it in its millisecond
      (one more in millisecond 0, whose step 0 is never used): inside a
      millisecond the steps are 0, 1, 2, ... without gap or repetition. */
  lemma StepIsCount(node: int64, log: seq<Section>, i: nat)
    requires 0 <= node <= NODE_MAX && IsRun(node, log) && SeenBelow(log, TIME_LIMIT)
    requires i < |log| && IssuedAt(log, i)
    ensures var id := log[i].out.id;
      Step(id) == CountWithin(log[..i], Time(id), 1) + (if Time(id) == 0 then 1 else 0)
  {
    PrefixIsRun(node, log, i + 1);
    StepCounts(node, log[..i + 1]);
    assert log[..i + 1][..i] == log[..i];
    IdAt(node, log, i);
    IdsPositive(node, log, i);
    var slot := SlotAt(node, log, i);
    UnpackFields(slot.time, node, slot.step);
  }

  /** How many slots of the w milliseconds from t on lie at or before slot s. */
  function Reached(s: Slot, t: int, w: nat): nat {
    var r := Rank(s) + 1 - 4096 * t;
    if r < 0 then 0 else if r > 4096 * w then 4096 * w else r
  }

  lemma ReachedGrows(s: Slot, next: Slot, t: int, w: nat)
    requires ValidSlot(s) && ValidSlot(next) && Follows(s, next)
    ensures Reached(s, t, w) + (if t <= next.time < t + w then 1 else 0) <= Reached(next, t, w)
  {
  }

  /** No slot is issued twice, so the IDs of a window are at most the slots reached in it. */
  lemma {:induction false} CountReached(node: int64, log: seq<Section>, t: int, w: nat)
    requires 0 <= node <= NODE_MAX && IsRun(node, log) && SeenBelow(log, TIME_LIMIT)
    ensures CountWithin(log, t, w) <= Reached(After(node, log), t, w)
  {
    if log != [] {
      CountReached(node, log[..|log| - 1], t, w);
      LastIssue(node, log);
      if log[|log| - 1].out.Issued? {
        ReachedGrows(After(node, log[..|log| - 1]), After(node, log), t, w);
      }
    }
  }

  /** Rate bound: 4096 IDs per millisecond at most, over every window of every
      run, so 4,096,000 in a second, however the clock moves. */
  lemma RateBound(node: int64, log: seq<Section>, t: int, w: nat)
    requires 0 <= node <= NODE_MAX && IsRun(node, log) && SeenBelow(log, TIME_LIMIT)
    ensures CountWithin(log, t, w) <= 4096 * w
  {
    CountReached(node, log, t, w);
  }

  /** A log of k calls that all read offset t first try. */
  function Burst(node: int64, t: int64, k: nat): seq<Section>
    requires k <= 4096
  {
    if k == 0 then [] else Burst(node, t, k - 1) + [Section([t], Issued(Pack(t, node, k - 1)))]
  }

  /** One call on a clock stuck at t takes the next step of t while there is one. */
  lemma StuckCall(node: int64, s: Slot, t: int64)
    requires Admits(s, t)
    ensures var next := NextSlot(s, t);
      RunCall(s, node, [t]) == Generated(Issued(Pack(t, node, next.step)), next, 1)
  {
    MeetsIff(s, node, [t], Generated(Issued(Pack(t, node, NextSlot(s, t).step)), NextSlot(s, t), 1));
  }

  /** A run that has used the steps below k of millisecond t, and nothing later. */
  predicate Filled(node: int64, log: seq<Section>, t: int64, k: nat)
    requires k <= 4096
  {
    EndsAt(node, log, if k == 0 then FRESH else Slot(t, k - 1))
  }

  lemma StuckStep(node: int64, log: seq<Section>, t: int64, k: nat)
    requires t > 0 && k < 4096 && Filled(node, log, t, k)
    ensures Filled(node, log + [Section([t], Issued(Pack(t, node, k)))], t, k + 1)
  {
    StuckCall(node, After(node, log), t);
    Extend(node, log, Section([t], Issued(Pack(t, node, k))), Slot(t, k));
  }

  lemma {:induction false} BurstIsRun(node: int64, t: int64, k: nat)
    requires t > 0 && k <= 4096
    ensures Filled(node, Burst(node, t, k), t, k)
    decreases k
  {
    if k > 0 {
      BurstIsRun(node, t, k - 1);
      StuckStep(node, Burst(node, t, k - 1), t, k - 1);
    }
  }

  lemma {:induction false} BurstCounts(node: int64, t: int64, k: nat)
    requires 0 <= node <= NODE_MAX && 0 <= t < TIME_LIMIT && k <= 4096
    ensures CountWithin(Burst(node, t, k), t, 1) == k
  {
    if k > 0 {
      var log := Burst(node, t, k);
      assert log[..|log| - 1] == Burst(node, t, k - 1);
      BurstCounts(node, t, k - 1);
      TimeSurvivesIff(t, node, k - 1);
    }
  }

  /** The bound is reached: on a clock stuck at a millisecond t > 0 the first
      4096 calls succeed with an ID of that millisecond each, and the next call
      spins for as long as the clock is stuck. */
  lemma BurstFillsMillisecond(node: int64, t: int64, k: nat, stuck: seq<int64>)
    requires 0 <= node <= NODE_MAX && 0 < t < TIME_LIMIT && k <= 4096
    requires forall i :: 0 <= i < |stuck| ==> stuck[i] == t
    ensures IsRun(node, Burst(node, t, k)) && CountWithin(Burst(node, t, k), t, 1) == k
    ensures k == 4096 ==> RunCall(After(node, Burst(node, t, k)), node, stuck).out == Spinning
  {
    BurstIsRun(node, t, k);
    BurstCounts(node, t, k);
    if k == 4096 {
      SpinsIff(Slot(t, 4095), node, stuck);
    }
  }

  // ---- Failed calls ----

  /** The run without its refused calls. */
  function Successes(log: seq<Section>): seq<Section> {
    if log == [] then []
    else
      var init, last := log[..|log| - 1], log[|log| - 1];
      Successes(init) + (if last.out.Issued? then [last] else [])
  }

  lemma {:induction false} SuccessesAre(log: seq<Section>)
    ensures forall section :: section in Successes(log) <==> section in log && section.out.Issued?
  {
    if log != [] {
      SuccessesAre(log[..|log| - 1]);
      assert log == log[..|log| - 1] + [log[|log| - 1]];
    }
  }

  /** Refused calls leave no trace: without them the same log is still a run,
      ends in the same slot and issued the same IDs in the same order. */
  lemma {:induction false} FailuresTransparent(node: int64, log: seq<Section>)
    requires IsRun(node, log)
    ensures IsRun(node, Successes(log)) && After(node, Successes(log)) == After(node, log)
    ensures Ids(Successes(log)) == Ids(log)
  {
    if log != [] {
      var init, last := log[..|log| - 1], log[|log| - 1];
      FailuresTransparent(node, init);
      var kept := Successes(init);
      LastMove(node, log);
      if last.out.Issued? {
        assert (kept + [last])[..|kept|] == kept;
      } else {
        assert Successes(log) == kept;
      }
    }
  }

  function Ids(log: seq<Section>): (ids: seq<int64>)
    ensures |ids| == |Successes(log)|
    ensures forall k :: 0 <= k < |ids| ==> Successes(log)[k].out.Issued? && ids[k] == Successes(log)[k].out.id
  {
    if log == [] then []
    else
      var last := log[|log| - 1];
      Ids(log[..|log| - 1]) + (if last.out.Issued? then [last.out.id] else [])
  }

  /** A call of a run failed exactly when its first reading lagged the last issued
      time by more than 5 ms, as long as the lag in nanoseconds fits an int64; by
      the low 64 bits of that product in any case. It took no further reading, and
      reported the lag. */
  lemma FailsIff(node: int64, log: seq<Section>, i: nat)
    requires IsRun(node, log) && i < |log|
    ensures log[i].seen != []
    ensures FailsByLag(log[i].out, |log[i].seen|, After(node, log[..i]).time, log[i].seen[0])
  {
    PrefixIsRun(node, log, i + 1);
    TakeNext(log, i);
    LastFails(node, log[..i], log[i]);
  }

  lemma LastFails(node: int64, init: seq<Section>, last: Section)
    requires IsRun(node, init + [last])
    ensures last.seen != [] && FailsByLag(last.out, |last.seen|, After(node, init).time, last.seen[0])
  {
    LastCall(node, init, last);
    AfterValid(node, init);
    DidFail(node, After(node, init), last, After(node, init + [last]));
  }

  lemma DidFail(node: int64, s: Slot, section: Section, next: Slot)
    requires ValidSlot(s) && Did(node, s, section, next)
    ensures FailsByLag(section.out, |section.seen|, s.time, section.seen[0])
  {
    FailedCall(s, node, section.seen);
  }

  /** No run with offsets below 2^41 overflows the product, unless a clock falls
      back behind -2^42. */
  lemma FailsInRange(node: int64, log: seq<Section>, i: nat)
    requires IsRun(node, log) && SeenBelow(log, TIME_LIMIT) && i < |log|
    ensures log[i].seen != []
    ensures log[i].seen[0] >= -2 * TIME_LIMIT ==>
              (log[i].out.Refused? <==> After(node, log[..i]).time - log[i].seen[0] > 5)
  {
    FailsIff(node, log, i);
    TimesBelow(node, log, i, TIME_LIMIT);
  }

  /** A lag of 9,223,372,036,855 ms, the first whose product does not fit, is not
      refused: a node that has issued one ID at any t in range waits for its
      clock to come back to t, however long that takes. One millisecond less is
      refused. */
  lemma HugeLagWaitedOut(node: int64, t: int64, more: seq<int64>)
    requires 0 < t < TIME_LIMIT
    requires forall j :: 0 <= j < |more| ==> more[j] < t
    ensures var log, lag := [Section([t], Issued(Pack(t, node, 0)))], 9_223_372_036_855;
      IsRun(node, log) && SeenBelow(log, TIME_LIMIT) && After(node, log) == Slot(t, 0) &&
      RunCall(After(node, log), node, [t - lag] + more).out.Spinning? &&
      RunCall(After(node, log), node, [t - lag + 1] + more).out.Refused?
  {
    var s, lag := Slot(t, 0), 9_223_372_036_855;
    StuckStep(node, [], t, 0);
    assert [] + [Section([t], Issued(Pack(t, node, 0)))] == [Section([t], Issued(Pack(t, node, 0)))];
    GuardOverflows(s, t - lag);
    SpinsIff(s, node, [t - lag] + more);
    GuardExact(s, t - lag + 1);
  }

  lemma {:induction false} TimesBelow(node: int64, log: seq<Section>, i: nat, limit: int)
    requires IsRun(node, log) && SeenBelow(log, limit) && i <= |log| && limit > 0
    ensures After(node, log[..i]).time < limit
    decreases i
  {
    if i > 0 {
      TimesBelow(node, log, i - 1, limit);
      CallAt(node, log, i - 1);
      MoveAt(node, log, i - 1);
      if IssuedAt(log, i - 1) {
        IdAt(node, log, i - 1);
      }
    }
  }

  // ---- The node object over a whole run ----

  /** One call of a node object whose answers so far are `log`. */
  method AskOnce(n: Node, clock: seq<int64>, ghost log: seq<Section>) returns (section: Section)
    requires n.Valid() && EndsAt(n.node, log, n.Last())
    modifies n
    ensures n.Valid() && section.seen <= Offsets(clock, n.epoch)
    ensures !section.out.Spinning? ==> EndsAt(n.node, log + [section], n.Last())
  {
    ghost var s := n.Last();
    var out, used := n.Generate(clock);
    var offs := Offsets(clock, n.epoch);
    section := Section(offs[..used], out);
    if !out.Spinning? {
      LaterReadingsIgnored(s, n.node, offs, []);
      Extend(n.node, log, section, n.Last());
    }
  }

  /** Each call took its readings from its own clock. */
  predicate OnClocks(log: seq<Section>, clocks: seq<seq<int64>>, epoch: int64) {
    |log| <= |clocks| && forall i :: 0 <= i < |log| ==> log[i].seen <= Offsets(clocks[i], epoch)
  }

  /** A fresh node object asked once per element of `clocks`, until a call finds
      no reading to end on: its answers are a run, so everything above holds of them. */
  method AskAll(n: Node, clocks: seq<seq<int64>>) returns (log: seq<Section>, stuck: bool)
    requires n.Valid() && n.Last() == FRESH
    modifies n
    ensures n.Valid() && IsRun(n.node, log) && (!stuck ==> EndsAt(n.node, log, n.Last()))
    ensures OnClocks(log, clocks, n.epoch) && (!stuck <==> |log| == |clocks|)
  {
    log, stuck := [], false;
    while |log| < |clocks|
      invariant n.Valid() && EndsAt(n.node, log, n.Last()) && OnClocks(log, clocks, n.epoch)
    {
      var section := AskOnce(n, clocks[|log|], log);
      if section.out.Spinning? {
        return log, true;
      }
      log := log + [section];
    }
  }
}
