/** The daemon's store as a plain timed map: what each operation of the repository
    (src/kdesud/repo.cpp) means, without head_time and without stacks. */
module TimedMap {
  import opened ByteStrings
  import opened Order

  const UINT_MAX := 0xFFFF_FFFF

  /** unsigned int, also used for the clock. */
  type UInt = t: int | 0 <= t <= UINT_MAX

  datatype Entry = Entry(value: Bytes, group: Bytes, timeout: UInt)

  type Table = map<Bytes, Entry>

  /** When an entry added now with this timeout runs out; 0 asks for no limit.  The sum wraps. */
  function Deadline(timeout: UInt, now: UInt): UInt
  {
    if timeout == 0 then UINT_MAX else (timeout + now) % 0x1_0000_0000
  }

  function Add(t: Table, key: Bytes, value: Bytes, group: Bytes, timeout: UInt, now: UInt): Table
  {
    t[key := Entry(value, group, Deadline(timeout, now))]
  }

  /** remove() refuses the empty key, so no operation ever deletes an entry under it. */
  function Without(t: Table, keys: set<Bytes>): Table
  {
    t - (keys - {[]})
  }

  function GroupKeys(t: Table, group: Bytes): set<Bytes>
  {
    set k | k in t && t[k].group == group
  }

  /** DELS: the entry's group is a prefix of the argument, the argument occurs in its key. */
  predicate IsSpecial(key: Bytes, e: Entry, special: Bytes)
  {
    StartsWith(special, e.group) && Contains(key, special)
  }

  function SpecialKeys(t: Table, special: Bytes): set<Bytes>
  {
    set k | k in t && IsSpecial(k, t[k], special)
  }

  function ExpiredKeys(t: Table, now: UInt): set<Bytes>
  {
    set k | k in t && t[k].timeout <= now
  }

  function Find(t: Table, key: Bytes): Option<Bytes>
  {
    if key != [] && key in t then Some(t[key].value) else None
  }

  predicate HasGroup(t: Table, group: Bytes)
  {
    group != [] && exists k | k in t :: t[k].group == group
  }

  // ---------------------------------------------------------------- operations and runs

  datatype Op =
    | OpAdd(key: Bytes, value: Bytes, group: Bytes, timeout: UInt, at: UInt)
    | OpRemove(key: Bytes)
    | OpRemoveGroup(group: Bytes)
    | OpRemoveSpecial(special: Bytes)
    | OpExpire(at: UInt)

  /** The keys that an operation deletes. */
  function Deletes(t: Table, op: Op): set<Bytes>
  {
    match op
    case OpAdd(_, _, _, _, _) => {}
    case OpRemove(k) => {k} * t.Keys
    case OpRemoveGroup(g) => if g == [] then {} else GroupKeys(t, g)
    case OpRemoveSpecial(s) => if s == [] then {} else SpecialKeys(t, s)
    case OpExpire(now) => ExpiredKeys(t, now)
  }

  function Apply(t: Table, op: Op): Table
  {
    match op
    case OpAdd(k, v, g, d, now) => Add(t, k, v, g, d, now)
    case _ => Without(t, Deletes(t, op))
  }

  /** What the operation returns: the number of entries for expire, 0 or -1 for the others. */
  function Answer(t: Table, op: Op): int
  {
    match op
    case OpAdd(_, _, _, _, _) => 0
    case OpExpire(now) => |ExpiredKeys(t, now)|
    case OpRemove(k) => if k != [] && k in t then 0 else -1
    case _ => if Deletes(t, op) != {} then 0 else -1
  }

  function Run(t: Table, ops: seq<Op>): Table
    decreases |ops|
  {
    if ops == [] then t else Run(Apply(t, ops[0]), ops[1..])
  }

  function Answers(t: Table, ops: seq<Op>): (r: seq<int>)
    ensures |r| == |ops|
    decreases |ops|
  {
    if ops == [] then [] else [Answer(t, ops[0])] + Answers(Apply(t, ops[0]), ops[1..])
  }

  // ---------------------------------------------------------------- the empty key

  /** A sweep deletes every entry whose time is up, except that the empty key is never deleted:
      it is a full sweep if and only if no expired entry sits under the empty key. */
  lemma SweepIsFull(t: Table, now: UInt)
    ensures
      (forall k | k in t && t[k].timeout <= now :: k !in Apply(t, OpExpire(now)))
      <==> !([] in t && t[[]].timeout <= now)
  {
    var t1 := Apply(t, OpExpire(now));
    assert forall k | k in t && t[k].timeout <= now :: k in ExpiredKeys(t, now);
    if [] in t {
      assert [] in t1;
    } else {
      assert forall k | k in ExpiredKeys(t, now) :: k !in t1;
    }
  }

  /** What expire() returns is the number of entries by which the store got smaller. */
  lemma SweepCounts(t: Table, now: UInt)
    requires [] !in t
    ensures |Apply(t, OpExpire(now))| + Answer(t, OpExpire(now)) == |t|
  {
    var gone := ExpiredKeys(t, now);
    assert gone - {[]} == gone && gone <= t.Keys;
    assert Apply(t, OpExpire(now)).Keys == t.Keys - gone;
  }

  /** The group operations agree: DELG deletes exactly the entries of the group, answers 0
      exactly when CHKG would, and afterwards the group is gone and every other group is as
      it was.  (The daemon's keys are never empty.) */
  lemma GroupOperationsAgree(t: Table, group: Bytes, other: Bytes)
    requires [] !in t
    ensures
      var t1 := Apply(t, OpRemoveGroup(group));
      && (Answer(t, OpRemoveGroup(group)) == 0 <==> HasGroup(t, group))
      && (forall k :: k in t1 <==> k in t && (group == [] || t[k].group != group))
      && (forall k | k in t1 :: t1[k] == t[k])
      && !HasGroup(t1, group)
      && (other != group ==> HasGroup(t1, other) == HasGroup(t, other))
  {
    var t1 := Apply(t, OpRemoveGroup(group));
    var victims := Deletes(t, OpRemoveGroup(group));
    assert forall k :: k in t1 <==> k in t && k !in victims;
    assert forall k | k in t && group != [] && t[k].group == group :: k in victims;
    if victims != {} {
      var k :| k in victims;
      assert k in t && t[k].group == group;
    }
    if other != group && HasGroup(t, other) {
      var k :| k in t && t[k].group == other;
      assert k in t1 && t1[k].group == other;
    }
  }

  /** These are the entries that DELS s is to delete. */
  predicate Meant(k: Bytes, e: Entry, s: Bytes)
  {
    s != [] && e.group <= s && Contains(k, s)
  }

  lemma SpecialMeans(k: Bytes, e: Entry, s: Bytes)
    ensures Meant(k, e, s) <==> s != [] && IsSpecial(k, e, s)
  {
    hide Contains;
    if e.group <= s { assert s[0..|e.group|] == e.group; }
  }

  /** DELS deletes exactly the entries that are meant, and answers 0 exactly when there was one. */
  lemma SpecialIsExact(t: Table, special: Bytes)
    requires [] !in t
    ensures
      var t1 := Apply(t, OpRemoveSpecial(special));
      && (forall k :: k in t1 <==> k in t && !Meant(k, t[k], special))
      && (forall k | k in t1 :: t1[k] == t[k])
      && (Answer(t, OpRemoveSpecial(special)) == 0 <==> exists k | k in t :: Meant(k, t[k], special))
  {
    hide IsSpecial, Meant;
    var victims := Deletes(t, OpRemoveSpecial(special));
    forall k | k in t ensures Meant(k, t[k], special) <==> special != [] && IsSpecial(k, t[k], special)
    {
      SpecialMeans(k, t[k], special);
    }
    assert forall k :: k in Apply(t, OpRemoveSpecial(special)) <==> k in t && k !in victims;
    assert forall k | k in t && special != [] && IsSpecial(k, t[k], special) :: k in victims;
    if victims != {} {
      var k :| k in victims;
      assert k in t && IsSpecial(k, t[k], special);
    }
  }

  // ---------------------------------------------------------------- lifetimes

  /** With a timeout from the wire and a clock of 31 bits the sum does not wrap, and does not
      hit the value that stands for "no limit". */
  lemma DeadlineOfWireTimeout(timeout: nat, now: nat)
    requires timeout <= INT_MAX && now <= INT_MAX
    ensures Deadline(timeout, now) == if timeout == 0 then UINT_MAX else now + timeout
    ensures now < Deadline(timeout, now)
    ensures timeout != 0 ==> Deadline(timeout, now) < UINT_MAX
  {
  }

  /** In general an entry outlives the moment it was stored exactly when the sum fits. */
  lemma BornAlive(timeout: UInt, now: UInt)
    ensures now < Deadline(timeout, now) <==>
      (if timeout == 0 then now < UINT_MAX else now + timeout <= UINT_MAX)
  {
  }

  /** An operation that neither overwrites nor deletes the entry by name, group or pattern. */
  predicate Spares(op: Op, key: Bytes, e: Entry)
  {
    match op
    case OpAdd(k, _, _, _, _) => k != key
    case OpRemove(k) => k != key
    case OpRemoveGroup(g) => g == [] || g != e.group
    case OpRemoveSpecial(s) => s == [] || !IsSpecial(key, e, s)
    case OpExpire(_) => true
  }

  predicate SweptBy(op: Op, e: Entry)
  {
    op.OpExpire? && e.timeout <= op.at
  }

  /** Lifetime, exactly: over any run of operations that spare it, an entry is still there,
      unchanged, if and only if none of the sweeps came at or after its deadline. */
  lemma {:induction false} LifetimeIsExact(t: Table, ops: seq<Op>, key: Bytes, e: Entry)
    requires key != [] && key in t && t[key] == e
    requires forall i | 0 <= i < |ops| :: Spares(ops[i], key, e)
    ensures key in Run(t, ops) <==> forall i | 0 <= i < |ops| :: !SweptBy(ops[i], e)
    ensures key in Run(t, ops) ==> Run(t, ops)[key] == e
    decreases |ops|
  {
    if ops != [] {
      var t1 := Apply(t, ops[0]);
      assert forall i | 0 <= i < |ops[1..]| :: ops[1..][i] == ops[i + 1];
      if SweptBy(ops[0], e) {
        assert key !in t1;
        StaysAway(t1, ops[1..], key, e);
      } else {
        assert key in t1 && t1[key] == e;
        LifetimeIsExact(t1, ops[1..], key, e);
        assert (forall i | 0 <= i < |ops| :: !SweptBy(ops[i], e)) <==>
          (forall i | 0 <= i < |ops[1..]| :: !SweptBy(ops[1..][i], e)) by {
          assert forall i | 1 <= i < |ops| :: ops[i] == ops[1..][i - 1];
        }
      }
    }
  }

  /** A key that is not stored stays absent until it is added again. */
  lemma {:induction false} StaysAway(t: Table, ops: seq<Op>, key: Bytes, e: Entry)
    requires key !in t
    requires forall i | 0 <= i < |ops| :: Spares(ops[i], key, e)
    ensures key !in Run(t, ops)
    decreases |ops|
  {
    if ops != [] {
      assert forall i | 0 <= i < |ops[1..]| :: ops[1..][i] == ops[i + 1];
      assert key !in Apply(t, ops[0]);
      StaysAway(Apply(t, ops[0]), ops[1..], key, e);
    }
  }

  /** Nothing in a run touches the entry: it is spared, and no sweep reaches its deadline. */
  predicate Undisturbed(ops: seq<Op>, key: Bytes, e: Entry)
  {
    forall i | 0 <= i < |ops| :: Spares(ops[i], key, e) && !SweptBy(ops[i], e)
  }

  lemma UndisturbedStays(t: Table, ops: seq<Op>, key: Bytes, e: Entry)
    requires key != [] && key in t && t[key] == e && Undisturbed(ops, key, e)
    ensures key in Run(t, ops) && Run(t, ops)[key] == e
  {
    LifetimeIsExact(t, ops, key, e);
  }

  /** The lifetime of a value set at time s with a timeout from the wire, over any run of
      sparing operations: it is there exactly while no sweep has come at or after s + timeout,
      and for ever when the timeout is 0. */
  lemma LifetimeOfWireTimeout(t: Table, add: Op, ops: seq<Op>)
    requires add.OpAdd? && add.key != [] && add.timeout <= INT_MAX && add.at <= INT_MAX
    requires forall i | 0 <= i < |ops| ::
      Spares(ops[i], add.key, Entry(add.value, add.group, Deadline(add.timeout, add.at)))
    requires forall i | 0 <= i < |ops| && ops[i].OpExpire? :: ops[i].at <= INT_MAX
    ensures Find(Run(Apply(t, add), ops), add.key) ==
      if add.timeout != 0 && exists i | 0 <= i < |ops| :: ops[i].OpExpire? && add.at + add.timeout <= ops[i].at
      then None else Some(add.value)
  {
    var e := Entry(add.value, add.group, Deadline(add.timeout, add.at));
    DeadlineOfWireTimeout(add.timeout, add.at);
    LifetimeIsExact(Apply(t, add), ops, add.key, e);
    assert forall i | 0 <= i < |ops| && ops[i].OpExpire? ::
      SweptBy(ops[i], e) <==> (add.timeout != 0 && add.at + add.timeout <= ops[i].at);
  }
}
