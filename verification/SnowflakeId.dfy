/** The 41/10/12 layout: packing, the accessors, and why the packed integers
    order and identify IDs. */
module SnowflakeId {
  import opened Int64

  const NODE_MAX: int64 := 1023
  const STEP_MASK: int64 := 4095
  const NODE_SHIFT := 12
  const TIME_SHIFT := 22

  /** One past the largest offset the 41-bit field holds (about 69 years of ms). */
  const TIME_LIMIT := 0x200_0000_0000

  predicate FieldsInRange(node: int64, step: int64) {
    0 <= node <= NODE_MAX && 0 <= step <= STEP_MASK
  }

  function Pack(now: int64, node: int64, step: int64): int64 {
    Or(Or(Shl(now, TIME_SHIFT), Shl(node, NODE_SHIFT)), step)
  }

  function Time(id: int64): int64 {
    Pow2At22();
    Shr(id, TIME_SHIFT)
  }

  function NodeOf(id: int64): int64 {
    Pow2At10And12();
    And(Shr(id, NODE_SHIFT), NODE_MAX)
  }

  function Step(id: int64): int64 {
    And(id, STEP_MASK)
  }

  /** TimeWithEpoch, as the Unix milliseconds of the time it returns. */
  function TimeWithEpoch(id: int64, epoch: int64): int64 {
    Add(Time(id), epoch)
  }

  /** The timestamp as the 42 bits left of the node field, sign bit included. */
  function TimeField(now: int): (t: nat)
    ensures t < 2 * TIME_LIMIT
    ensures 0 <= now < 2 * TIME_LIMIT ==> t == now
  {
    now % (2 * TIME_LIMIT)
  }

  /** Those 42 bits read as a signed number. */
  function SignedTime(t: nat): int {
    if t < TIME_LIMIT then t else t - 2 * TIME_LIMIT
  }

  lemma SignedTimeFits(now: int)
    ensures SignedTime(TimeField(now)) == now <==> -TIME_LIMIT <= now < TIME_LIMIT
  {
  }

  function Sum(t: nat, node: int64, step: int64): int {
    t * 0x40_0000 + node * 4096 + step
  }

  lemma ShlTime(now: int64)
    ensures Pattern(Shl(now, TIME_SHIFT)) == TimeField(now) * 0x40_0000
  {
    Pow2At22();
    PatternOfWrap(now * 0x40_0000);
    HighBitsLost(now);
  }

  lemma HighBitsLost(now: int)
    ensures now * 0x40_0000 % TWO64 == now % (2 * TIME_LIMIT) * 0x40_0000
  {
    var q, t := now / (2 * TIME_LIMIT), now % (2 * TIME_LIMIT);
    RemainderIs(now * 0x40_0000, q, t * 0x40_0000);
  }

  lemma OrPattern(x: int64, y: int64, v: nat)
    requires BitOr(Pattern(x), Pattern(y)) == v < TWO64
    ensures Pattern(Or(x, y)) == v
  {
    PatternOfWrap(v);
  }

  /** What the shifts and ors compute, for every int64 timestamp: the fields
      side by side, with the timestamp cut to its low 42 bits. */
  lemma PackIsSum(now: int64, node: int64, step: int64)
    requires FieldsInRange(node, step)
    ensures Pattern(Pack(now, node, step)) == Sum(TimeField(now), node, step)
  {
    var t := TimeField(now);
    var high, mid := Shl(now, TIME_SHIFT), Shl(node, NODE_SHIFT);
    ShlTime(now);
    Pow2At10And12();
    Pow2At22();
    assert mid == Pattern(mid) == node * 4096;
    OrDisjoint(t, node * 4096, 22);
    var v := t * 0x40_0000 + node * 4096;
    OrPattern(high, mid, v);
    OrDisjoint(t * 1024 + node, step, 12);
    assert (t * 1024 + node) * 4096 == v;
    OrPattern(Or(high, mid), step, v + step);
  }

  /** The accessors are the three digits of an int64 in the mixed radix 2^22, 2^12. */
  lemma AccessorsAreDigits(id: int64)
    ensures Time(id) == id / 0x40_0000 && NodeOf(id) == id / 4096 % 1024 && Step(id) == id % 4096
  {
    Pow2At10And12();
    Pow2At22();
    MaskIsRemainder(id);
    MaskIsRemainder(Shr(id, NODE_SHIFT));
  }

  lemma DigitsUnique(id: int, t: int, node: int, step: int)
    requires 0 <= node < 1024 && 0 <= step < 4096 && id == t * 0x40_0000 + node * 4096 + step
    ensures id % 4096 == step && id / 4096 % 1024 == node && id / 0x40_0000 == t
  {
    var low := t * 1024 + node;
    assert id == low * 4096 + step;
    assert id / 4096 == low;
  }

  /** The accessors read the fields of a 64-bit pattern. */
  lemma FieldsOfPattern(id: int64, t: nat, node: int64, step: int64)
    requires FieldsInRange(node, step) && t < 2 * TIME_LIMIT
    requires Pattern(id) == Sum(t, node, step)
    ensures NodeOf(id) == node && Step(id) == step && Time(id) == SignedTime(t)
    ensures id == SignedTime(t) * 0x40_0000 + node * 4096 + step
  {
    AccessorsAreDigits(id);
    DigitsUnique(id, SignedTime(t), node, step);
  }

  /** Packed IDs as signed integers, with what the accessors see in them. */
  lemma UnpackFields(now: int64, node: int64, step: int64)
    requires FieldsInRange(node, step)
    ensures var id, t := Pack(now, node, step), SignedTime(TimeField(now));
      NodeOf(id) == node && Step(id) == step && Time(id) == t && id == t * 0x40_0000 + node * 4096 + step
  {
    PackIsSum(now, node, step);
    FieldsOfPattern(Pack(now, node, step), TimeField(now), node, step);
  }

  lemma DigitsRecompose(id: int64)
    ensures id == id / 0x40_0000 * 0x40_0000 + id / 4096 % 1024 * 4096 + id % 4096
    ensures -TIME_LIMIT <= id / 0x40_0000 < TIME_LIMIT
  {
    assert id == id / 4096 * 4096 + id % 4096;
    assert id / 4096 == id / 4096 / 1024 * 1024 + id / 4096 % 1024;
    DigitsUnique(id, id / 4096 / 1024, id / 4096 % 1024, id % 4096);
  }

  /** The accessors cut any int64 into three fields, and packing those fields
      gives the same int64 back: no bit of an ID is lost or shared. */
  lemma RepackFields(id: int64)
    ensures -TIME_LIMIT <= Time(id) < TIME_LIMIT && FieldsInRange(NodeOf(id), Step(id))
    ensures Pack(Time(id), NodeOf(id), Step(id)) == id
  {
    AccessorsAreDigits(id);
    DigitsRecompose(id);
    SignedTimeFits(Time(id));
    UnpackFields(Time(id), NodeOf(id), Step(id));
  }

  /** The timestamp survives the round trip exactly when it fits its signed 42 bits. */
  lemma TimeSurvivesIff(now: int64, node: int64, step: int64)
    requires FieldsInRange(node, step)
    ensures Time(Pack(now, node, step)) == now <==> -TIME_LIMIT <= now < TIME_LIMIT
  {
    UnpackFields(now, node, step);
    SignedTimeFits(now);
  }

  /** Two packed IDs collide exactly when node and step agree and the timestamps
      are a multiple of 2^42 ms apart. */
  lemma CollideIff(t1: int64, n1: int64, s1: int64, t2: int64, n2: int64, s2: int64)
    requires FieldsInRange(n1, s1) && FieldsInRange(n2, s2)
    ensures Pack(t1, n1, s1) == Pack(t2, n2, s2) <==>
            n1 == n2 && s1 == s2 && (t1 - t2) % (2 * TIME_LIMIT) == 0
  {
    UnpackFields(t1, n1, s1);
    UnpackFields(t2, n2, s2);
    SameTimeField(t1, t2);
  }

  lemma SameTimeField(t1: int, t2: int)
    ensures TimeField(t1) == TimeField(t2) <==> (t1 - t2) % (2 * TIME_LIMIT) == 0
  {
  }

  /** The sign bit is zero exactly while the timestamp, modulo 2^42, stays below 2^41. */
  lemma SignIff(now: int64, node: int64, step: int64)
    requires FieldsInRange(node, step)
    ensures Pack(now, node, step) >= 0 <==> TimeField(now) < TIME_LIMIT
  {
    UnpackFields(now, node, step);
  }

  /** Lexicographic order on (time, node, step). */
  predicate Before(t1: int, n1: int, s1: int, t2: int, n2: int, s2: int) {
    t1 < t2 || (t1 == t2 && (n1 < n2 || (n1 == n2 && s1 < s2)))
  }

  /** Inside the 41-bit range, comparing IDs as integers compares their fields. */
  lemma OrderEmbedding(t1: int64, n1: int64, s1: int64, t2: int64, n2: int64, s2: int64)
    requires FieldsInRange(n1, s1) && FieldsInRange(n2, s2)
    requires 0 <= t1 < TIME_LIMIT && 0 <= t2 < TIME_LIMIT
    ensures Pack(t1, n1, s1) < Pack(t2, n2, s2) <==> Before(t1, n1, s1, t2, n2, s2)
  {
    UnpackFields(t1, n1, s1);
    UnpackFields(t2, n2, s2);
  }

  /** Decoding against the epoch that produced the offset gives the reading back,
      even when the subtraction wrapped. */
  lemma DecodeReading(reading: int64, epoch: int64, node: int64, step: int64)
    requires FieldsInRange(node, step)
    requires -TIME_LIMIT <= Sub(reading, epoch) < TIME_LIMIT
    ensures TimeWithEpoch(Pack(Sub(reading, epoch), node, step), epoch) == reading
  {
    TimeSurvivesIff(Sub(reading, epoch), node, step);
    AddUndoesSub(reading, epoch);
  }
}
