/** One call of Node.Generate: a declarative specification over the offsets the
    clock delivers, and the method with its drift guard and two spin loops,
    proved to meet it. */
module Generator {
  import opened Int64
  import opened Common
  import opened SnowflakeId

  const MILLISECOND := 1_000_000
  const DRIFT_TOLERANCE := 5 * MILLISECOND

  /** The last-issued millisecond and the sequence number inside it. */
  datatype Slot = Slot(time: int64, step: int64)

  const FRESH := Slot(0, 0)

  predicate ValidSlot(s: Slot) {
    0 <= s.time && 0 <= s.step <= STEP_MASK
  }

  /** The slots in issuing order, numbered. */
  function Rank(s: Slot): int {
    s.time * 4096 + s.step
  }

  datatype Outcome =
    | Issued(id: int64)
    | Refused(drift: int64, last: int64, now: int64)
    | Spinning

  /** What a call did: its outcome, the slot it leaves, and how many clock
      readings it took. Spinning means the readings given so far did not end
      the wait: the call still holds the lock. */
  datatype Generated = Generated(out: Outcome, after: Slot, used: nat)

  function Offset(reading: int64, epoch: int64): int64 {
    Sub(reading, epoch)
  }

  function Offsets(clock: seq<int64>, epoch: int64): (offs: seq<int64>)
    ensures |offs| == |clock|
    ensures forall i :: 0 <= i < |clock| ==> offs[i] == Offset(clock[i], epoch)
  {
    seq(|clock|, i requires 0 <= i < |clock| => Offset(clock[i], epoch))
  }

  /** A time.Duration: nanoseconds in an int64, so the product may wrap. */
  function Drift(last: int64, now: int64): int64 {
    Wrap(Sub(last, now) * MILLISECOND)
  }

  predicate Refuses(s: Slot, now: int64) {
    now < s.time && Drift(s.time, now) > DRIFT_TOLERANCE
  }

  /** Some slot of millisecond `now` is still free. */
  predicate Admits(s: Slot, now: int64) {
    s.time < now || (s.time == now && s.step < STEP_MASK)
  }

  /** The first offset from which an ID can be issued; |offs| when there is none. */
  function FirstAdmitted(s: Slot, offs: seq<int64>): (k: nat)
    ensures k <= |offs|
    ensures forall i :: 0 <= i < k ==> !Admits(s, offs[i])
    ensures k < |offs| ==> Admits(s, offs[k])
  {
    if offs == [] || Admits(s, offs[0]) then 0 else 1 + FirstAdmitted(s, offs[1..])
  }

  function NextSlot(s: Slot, now: int64): Slot
    requires Admits(s, now)
  {
    if now == s.time then Slot(now, s.step + 1) else Slot(now, 0)
  }

  function RunCall(s: Slot, node: int64, offs: seq<int64>): Generated {
    if offs == [] then Generated(Spinning, s, 0)
    else if Refuses(s, offs[0]) then
      Generated(Refused(Drift(s.time, offs[0]), s.time, offs[0]), s, 1)
    else
      var k := FirstAdmitted(s, offs);
      if k == |offs| then Generated(Spinning, s, k)
      else
        var next := NextSlot(s, offs[k]);
        Generated(Issued(Pack(next.time, node, next.step)), next, k + 1)
  }

  /** The same thing as a relation, outcome by outcome, with no search in it. */
  predicate Meets(s: Slot, node: int64, offs: seq<int64>, g: Generated) {
    match g.out
    case Refused(drift, last, now) =>
      g.used == 1 && offs != [] && Refuses(s, offs[0]) && g.after == s &&
      drift == Drift(s.time, now) && last == s.time && now == offs[0]
    case Issued(id) =>
      1 <= g.used <= |offs| && !Refuses(s, offs[0]) && Settles(s, offs, g.used - 1) &&
      g.after == NextSlot(s, offs[g.used - 1]) && id == Pack(g.after.time, node, g.after.step)
    case Spinning =>
      g.used == |offs| && (offs == [] || !Refuses(s, offs[0])) && Passed(s, offs, 0, |offs|) && g.after == s
  }

  /** No offset in the stretch from `lo` up to `hi` had a free slot. */
  predicate Passed(s: Slot, offs: seq<int64>, lo: nat, hi: nat)
    requires hi <= |offs|
  {
    forall i :: lo <= i < hi ==> !Admits(s, offs[i])
  }

  predicate Settles(s: Slot, offs: seq<int64>, k: nat)
    requires k < |offs|
  {
    Passed(s, offs, 0, k) && Admits(s, offs[k])
  }

  /** RunCall is the one result that the relation allows. */
  lemma MeetsIff(s: Slot, node: int64, offs: seq<int64>, g: Generated)
    ensures Meets(s, node, offs, g) <==> g == RunCall(s, node, offs)
  {
    if Meets(s, node, offs, g) && !g.out.Refused? {
      FirstAdmittedUnique(s, offs, if g.out.Issued? then g.used - 1 else |offs|);
    }
  }

  lemma StepWraps(step: int64)
    requires 0 <= step <= STEP_MASK
    ensures And(step + 1, STEP_MASK) == if step == STEP_MASK then 0 else step + 1
  {
    MaskIsRemainder(step + 1);
    RemainderOfNext(step, And(step + 1, STEP_MASK));
  }

  lemma RemainderOfNext(step: int64, masked: int64)
    requires 0 <= step <= STEP_MASK && masked == (step + 1) % 4096
    ensures masked == if step == STEP_MASK then 0 else step + 1
  {
  }

  // ---- What the specification means ----

  lemma FirstAdmittedUnique(s: Slot, offs: seq<int64>, k: nat)
    requires k <= |offs|
    requires forall i :: 0 <= i < k ==> !Admits(s, offs[i])
    requires k < |offs| ==> Admits(s, offs[k])
    ensures FirstAdmitted(s, offs) == k
  {
  }

  /** The issued slot is the least one not yet passed whose millisecond is at
      least the offset the call settled on, and it lies in that millisecond. */
  lemma NextSlotIsLeast(s: Slot, now: int64, other: Slot)
    requires ValidSlot(s) && Admits(s, now)
    ensures var next := NextSlot(s, now);
      ValidSlot(next) && next.time == now && Rank(next) > Rank(s)
    ensures ValidSlot(other) && other.time >= now && Rank(other) > Rank(s)
            ==> Rank(other) >= Rank(NextSlot(s, now))
  {
  }

  /** The step returns to 0 exactly when the millisecond advances. */
  lemma StepResetsWithTime(s: Slot, now: int64)
    requires ValidSlot(s) && Admits(s, now)
    ensures var next := NextSlot(s, now);
      (next.step == 0 <==> next.time > s.time) && (next.step != 0 <==> next.step == s.step + 1 && next.time == s.time)
  {
  }

  /** Termination: a call that is not refused ends as soon as the clock shows a
      millisecond past the last issued one, however it moved before; a refused
      call takes exactly one reading. */
  lemma EndsByThen(s: Slot, node: int64, offs: seq<int64>, k: nat)
    requires k < |offs| && offs[k] > s.time
    ensures !RunCall(s, node, offs).out.Spinning? && RunCall(s, node, offs).used <= k + 1
    ensures RunCall(s, node, offs).out.Refused? ==> RunCall(s, node, offs).used == 1
  {
  }

  /** A call spins exactly while it is not refused and no reading so far had a free slot. */
  lemma SpinsIff(s: Slot, node: int64, offs: seq<int64>)
    ensures RunCall(s, node, offs).out.Spinning? <==>
            (forall i :: 0 <= i < |offs| ==> !Admits(s, offs[i])) && (offs == [] || !Refuses(s, offs[0]))
  {
  }

  /** Readings after the end of a call cannot change it, and a call that ends on
      some readings needs exactly the first `used` of them. */
  lemma {:induction false} LaterReadingsIgnored(s: Slot, node: int64, offs: seq<int64>, more: seq<int64>)
    requires !RunCall(s, node, offs).out.Spinning?
    ensures RunCall(s, node, offs + more) == RunCall(s, node, offs)
    ensures RunCall(s, node, offs[..RunCall(s, node, offs).used]) == RunCall(s, node, offs)
  {
    var g := RunCall(s, node, offs);
    if !g.out.Refused? {
      FirstAdmittedUnique(s, offs + more, g.used - 1);
      FirstAdmittedUnique(s, offs[..g.used], g.used - 1);
    }
  }

  // ---- The drift guard ----

  /** While the lag in nanoseconds fits an int64, the guard means what it says:
      a call is refused exactly when its first reading lags by more than 5 ms. */
  lemma GuardExact(s: Slot, now: int64)
    requires ValidSlot(s) && (s.time - now) * MILLISECOND < TWO63
    ensures Refuses(s, now) <==> s.time - now > 5
  {
  }

  /** In particular for offsets from -2^42 up to 2^41. */
  lemma GuardExactInRange(s: Slot, now: int64)
    requires ValidSlot(s) && s.time < TIME_LIMIT && now >= -2 * TIME_LIMIT
    ensures Refuses(s, now) <==> s.time - now > 5
  {
    GuardExact(s, now);
  }

  /** Past that, the product wraps: a lag of 9,223,372,036,855 ms, the first one
      whose product does not fit, passes the guard, whatever the last issued time. */
  lemma GuardOverflows(s: Slot, now: int64)
    requires ValidSlot(s) && s.time - now == 9_223_372_036_855
    ensures !Refuses(s, now)
  {
  }

  /** The low 64 bits of the lag in nanoseconds, read as signed, exceed the tolerance. */
  predicate OverTolerance(lag: int) {
    lag > 0 && Wrap(lag * MILLISECOND) > DRIFT_TOLERANCE
  }

  /** For every lag at all, what the guard refuses. */
  lemma GuardIff(s: Slot, now: int64)
    requires ValidSlot(s)
    ensures Refuses(s, now) <==> OverTolerance(s.time - now)
    ensures OverTolerance(s.time - now) <==>
            now < s.time && DRIFT_TOLERANCE < (s.time - now) * MILLISECOND % TWO64 < TWO63
  {
    if now < s.time {
      WrapTwice(s.time, now);
    }
    WrapAbove((s.time - now) * MILLISECOND, DRIFT_TOLERANCE);
  }

  /** Refused by how far the first offset lags behind the last issued time, and
      then on that reading alone: for a lag over 5 ms while its nanoseconds fit an
      int64, by their low 64 bits in any case. The report names both times and the
      lag in nanoseconds. */
  predicate FailsByLag(out: Outcome, used: nat, last: int64, first: int64) {
    var lag := last - first;
    (out.Refused? <==> OverTolerance(lag)) &&
    (lag * 1_000_000 < TWO63 ==> (out.Refused? <==> lag > 5)) &&
    (out.Refused? ==> used == 1 && Reports(out, last, first))
  }

  predicate Reports(out: Outcome, last: int64, now: int64)
    requires out.Refused?
  {
    out.last == last && out.now == now && out.drift == Wrap((last - now) * 1_000_000) &&
    ((last - now) * 1_000_000 < TWO63 ==> out.drift == (last - now) * 1_000_000)
  }

  /** What a refused call reports. */
  lemma RefusalReport(s: Slot, node: int64, offs: seq<int64>)
    requires ValidSlot(s) && RunCall(s, node, offs).out.Refused?
    ensures offs != [] && Reports(RunCall(s, node, offs).out, s.time, offs[0])
  {
    DriftIsLag(s.time, offs[0]);
  }

  lemma DriftIsLag(last: int64, now: int64)
    requires now < last
    ensures Drift(last, now) == Wrap((last - now) * 1_000_000)
  {
    WrapTwice(last, now);
  }

  lemma FailedCall(s: Slot, node: int64, offs: seq<int64>)
    requires ValidSlot(s) && offs != []
    ensures var g := RunCall(s, node, offs); FailsByLag(g.out, g.used, s.time, offs[0])
  {
    GuardIff(s, offs[0]);
    if (s.time - offs[0]) * MILLISECOND < TWO63 {
      GuardExact(s, offs[0]);
    }
    if RunCall(s, node, offs).out.Refused? {
      RefusalReport(s, node, offs);
    }
  }

  /** A call that is not refused, spelled out: it takes readings while they lie
      below the last issued time, or at it with all 4096 steps used, and issues the
      next step of that millisecond or step 0 of a later one. */
  lemma IssueSpelledOut(s: Slot, node: int64, offs: seq<int64>)
    requires ValidSlot(s) && 0 <= node <= 1023 && RunCall(s, node, offs).out.Issued?
    ensures var g := RunCall(s, node, offs);
      1 <= g.used <= |offs| &&
      (forall i :: 0 <= i < g.used - 1 ==> offs[i] < s.time || (offs[i] == s.time && s.step == 4095)) &&
      g.after == (if offs[g.used - 1] == s.time then Slot(s.time, s.step + 1) else Slot(offs[g.used - 1], 0)) &&
      s.time <= g.after.time && g.after.step <= 4095
    ensures var g := RunCall(s, node, offs);
      g.after.time < TIME_LIMIT ==> g.out.id == g.after.time * 4_194_304 + node * 4096 + g.after.step
  {
    var g := RunCall(s, node, offs);
    MeetsIff(s, node, offs, g);
    if g.after.time < TIME_LIMIT {
      IssuedId(g.after, node);
    }
  }

  lemma IssuedId(slot: Slot, node: int64)
    requires ValidSlot(slot) && 0 <= node <= 1023 && slot.time < TIME_LIMIT
    ensures Pack(slot.time, node, slot.step) == slot.time * 4_194_304 + node * 4096 + slot.step
  {
    UnpackFields(slot.time, node, slot.step);
    SignedTimeFits(slot.time);
  }

  lemma WrapAbove(x: int, bound: nat)
    requires bound < TWO63
    ensures Wrap(x) > bound <==> bound < x % TWO64 < TWO63
  {
  }

  lemma WrapTwice(last: int64, now: int64)
    requires now < last
    ensures Wrap(Sub(last, now) * MILLISECOND) == Wrap((last - now) * MILLISECOND)
  {
    if last - now >= TWO63 {
      WrapShifted((last - now) * MILLISECOND);
    }
  }

  /** Multiples of 2^64 vanish in the truncation. */
  lemma WrapShifted(x: int)
    ensures Wrap(x - MILLISECOND * TWO64) == Wrap(x)
  {
    var q, r := (x + TWO63) / TWO64, (x + TWO63) % TWO64;
    RemainderIs(x - MILLISECOND * TWO64 + TWO63, q - MILLISECOND, r);
  }

  /** A call that got past the guard, from the reading at which the first wait
      ended: how its second half ends decides what the call as a whole did. */
  lemma SecondHalf(s: Slot, node: int64, offs: seq<int64>, seen: nat, out: Outcome, used: nat, next: Slot)
    requires 1 <= seen <= used <= |offs| && !Refuses(s, offs[0]) && Passed(s, offs, 0, seen - 1) && !out.Refused?
    requires if out.Spinning? then used == |offs| && Passed(s, offs, seen - 1, used)
             else Passed(s, offs, seen - 1, used - 1) && Admits(s, offs[used - 1]) &&
                  next == NextSlot(s, offs[used - 1]) && out.id == Pack(next.time, node, next.step)
    ensures Generated(out, if out.Spinning? then s else next, used) == RunCall(s, node, offs)
  {
    MeetsIff(s, node, offs, Generated(out, if out.Spinning? then s else next, used));
  }

  // ---- The node object ----

  /** A time.Time, as far as the constructor looks at it. */
  datatype Instant = Instant(isZero: bool, unixMilli: int64)

  datatype NodeError = IdOutOfRange | ZeroEpoch | FutureEpoch

  /** The constructor's checks, in its order. */
  function Validate(id: int64, epoch: Instant, wallClock: int64): Option<NodeError> {
    if id < 0 || id > NODE_MAX then Some(IdOutOfRange)
    else if epoch.isZero then Some(ZeroEpoch)
    else if epoch.unixMilli > wallClock then Some(FutureEpoch)
    else None
  }

  class Node {
    const epoch: int64
    const node: int64
    var time: int64
    var step: int64

    predicate Valid()
      reads this
    {
      0 <= node <= NODE_MAX && ValidSlot(Slot(time, step))
    }

    function Last(): Slot
      reads this
    {
      Slot(time, step)
    }

    constructor (id: int64, epoch: int64)
      requires 0 <= id <= NODE_MAX
      ensures Valid() && node == id && this.epoch == epoch && Last() == FRESH
    {
      this.epoch := epoch;
      node := id;
      time, step := 0, 0;
    }

    /** A node exactly for ids in [0, 1023] and a non-zero epoch that is not in the future. */
    static method NewNodeWithEpoch(id: int64, epoch: Instant, wallClock: int64)
      returns (n: Node?, err: Option<NodeError>)
      ensures err == Validate(id, epoch, wallClock) && (n == null <==> err.Some?)
      ensures err == Some(IdOutOfRange) <==> !(0 <= id <= 1023)
      ensures err == Some(ZeroEpoch) <==> 0 <= id <= 1023 && epoch.isZero
      ensures n != null <==> 0 <= id <= 1023 && !epoch.isZero && epoch.unixMilli <= wallClock
      ensures n != null ==> fresh(n) && n.Valid() && n.node == id && n.epoch == epoch.unixMilli && n.Last() == FRESH
    {
      n, err := null, Validate(id, epoch, wallClock);
      if err.None? {
        n := new Node(id, epoch.unixMilli);
      }
    }

    /** The masked increment: 4095 wraps to 0. */
    method BumpStep()
      requires Valid()
      modifies this`step
      ensures Valid() && step == if old(step) == STEP_MASK then 0 else old(step) + 1
    {
      StepWraps(step);
      step := And(step + 1, STEP_MASK);
    }

    /** Both busy-waits: after `seen` readings, the last of them `first`, read on
        until the clock shows at least `floor` or there are no readings left. */
    method Spin(clock: seq<int64>, seen: nat, first: int64, floor: int) returns (now: int64, used: nat)
      requires 1 <= seen <= |clock| && first == Offsets(clock, epoch)[seen - 1]
      ensures seen <= used <= |clock| && now == Offsets(clock, epoch)[used - 1]
      ensures forall i :: seen - 1 <= i < used - 1 ==> Offsets(clock, epoch)[i] < floor
      ensures now < floor ==> used == |clock|
    {
      now, used := first, seen;
      while now < floor && used < |clock|
        invariant seen <= used <= |clock| && now == Offsets(clock, epoch)[used - 1]
        invariant forall i :: seen - 1 <= i < used - 1 ==> Offsets(clock, epoch)[i] < floor
        decreases |clock| - used
      {
        now := Offset(clock[used], epoch);
        used := used + 1;
      }
    }

    /** The second half of Generate, from an offset that does not lag: bump or
        reset the step, wait out an exhausted millisecond, stamp the ID. */
    method Issue(clock: seq<int64>, seen: nat, first: int64) returns (out: Outcome, used: nat)
      requires Valid() && time <= first
      requires 1 <= seen <= |clock| && first == Offsets(clock, epoch)[seen - 1]
      modifies this`time, this`step
      ensures Valid() && !out.Refused? && seen <= used <= |clock|
      ensures var offs, s := Offsets(clock, epoch), old(Last());
        if out.Spinning? then used == |clock| && Last() == Slot(s.time, 0) && Passed(s, offs, seen - 1, used)
        else Passed(s, offs, seen - 1, used - 1) && Admits(s, offs[used - 1]) &&
             Last() == NextSlot(s, offs[used - 1]) && out.id == Pack(time, node, step)
      ensures out.Spinning? ==> old(step) == STEP_MASK && first == old(time)
    {
      var now := first;
      used := seen;
      if now == time {
        BumpStep();
        if step == 0 {
          now, used := Spin(clock, seen, now, time + 1);
          if now <= time {
            return Spinning, used;
          }
        }
      } else {
        step := 0;
      }
      time := now;
      out := Issued(Pack(now, node, step));
    }

    /** Generate on the readings `clock`, for as long as they last. */
    method Generate(clock: seq<int64>) returns (out: Outcome, used: nat)
      requires Valid()
      modifies this`time, this`step
      ensures Valid()
      ensures Generated(out, if out.Spinning? then old(Last()) else Last(), used)
           == RunCall(old(Last()), node, Offsets(clock, epoch))
      ensures out.Spinning? ==>
                time == old(time) &&
                step == if old(step) == 4095 && old(time) in Offsets(clock, epoch) then 0 else old(step)
    {
      ghost var offs, s := Offsets(clock, epoch), Last();
      if |clock| == 0 {
        return Spinning, 0;
      }
      var now := Offset(clock[0], epoch);
      used := 1;
      if now < time {
        var drift := Drift(time, now);
        if drift > DRIFT_TOLERANCE {
          MeetsIff(s, node, offs, Generated(Refused(drift, time, now), s, 1));
          return Refused(drift, time, now), used;
        }
        now, used := Spin(clock, used, now, time);
        if now < time {
          assert Passed(s, offs, 0, used);
          MeetsIff(s, node, offs, Generated(Spinning, s, used));
          return Spinning, used;
        }
      }
      assert Passed(s, offs, 0, used - 1) && !Refuses(s, offs[0]);
      ghost var seen := used;
      out, used := Issue(clock, used, now);
      SecondHalf(s, node, offs, seen, out, used, Last());
    }
  }
}
