/** The password cache of EXEC (src/kdesud/handler.cpp:276-297): a password entry 0*KEY and an
    environment entry 2*KEY that have to stay together. */
module PasswordCache {
  import opened ByteStrings
  import opened Client
  import opened Grammar
  import opened TimedMap
  import opened Session
  import opened Daemon
  import opened Environments

  /** Every password has its environment beside it, with the same deadline. */
  ghost predicate Paired(t: Table)
  {
    forall b: Bytes | KeyOf(0, b) in t :: PairAt(t, b)
  }

  predicate PairAt(t: Table, b: Bytes)
  {
    && KeyOf(0, b) in t && KeyOf(2, b) in t
    && t[KeyOf(0, b)].timeout == t[KeyOf(2, b)].timeout
    && t[KeyOf(0, b)].group == [] && t[KeyOf(2, b)].group == []
  }

  // ---------------------------------------------------------------- DELS

  /** A DELS argument that is "2" or begins with "2*": it can delete an environment entry and
      leave the password behind. */
  predicate CutsEnvKeys(special: Bytes)
  {
    special != [] && special[0] == ZERO + 2 && (|special| == 1 || special[1] == STAR)
  }

  lemma BeginsWithCut(b: Bytes, special: Bytes)
    requires special != [] && OccursAt(KeyOf(2, b), special, 0)
    ensures CutsEnvKeys(special)
  {
  }

  lemma SpecialHitsBothOrNone(b: Bytes, special: Bytes)
    requires special != [] && !CutsEnvKeys(special)
    ensures Contains(KeyOf(2, b), special) ==> Contains(KeyOf(0, b), special)
  {
    var k2, k0 := KeyOf(2, b), KeyOf(0, b);
    if Contains(k2, special) {
      var i :| 0 <= i <= |k2| && OccursAt(k2, special, i);
      if i == 0 { BeginsWithCut(b, special); }
      assert k0[i..i + |special|] == k2[i..i + |special|];
      ContainsIntro(k0, special, i);
    }
  }

  /** A pair that such a DELS breaks: the argument, completed to a key by two more stars. */
  function BrokenBody(special: Bytes): Bytes
  {
    (if |special| < 2 then [] else special[2..]) + [STAR, STAR]
  }

  lemma {:induction false} StepsOfTwo(w: Bytes, i: nat)
    requires 2 * i < |w| && w[0] == ZERO + 2
    requires forall i, j | 0 <= i < j < |w| && j == i + 2 :: w[j] == w[i]
    ensures w[2 * i] == ZERO + 2
  {
    if i > 0 { StepsOfTwo(w, i - 1); }
  }

  lemma NeverShifted(rest: Bytes)
    ensures rest + [STAR, STAR] != [ZERO + 2, STAR] + rest
  {
    var w, n := rest + [STAR, STAR], |rest|;
    if w == [ZERO + 2, STAR] + rest {
      assert forall j | 0 <= j < n :: w[j] == rest[j];
      assert forall i, j | 0 <= i < j < |w| && j == i + 2 :: w[j] == w[i];
      assert w[n] == STAR && w[n + 1] == STAR;
      StepsOfTwo(w, (n + 1) / 2);
    }
  }

  lemma BrokenBodyIsCut(special: Bytes)
    requires CutsEnvKeys(special)
    ensures Contains(KeyOf(2, BrokenBody(special)), special)
    ensures !Contains(KeyOf(0, BrokenBody(special)), special)
  {
    hide Contains, OccursAt;
    var b := BrokenBody(special);
    BeginsEnvKey(special);
    if Contains(KeyOf(0, b), special) {
      var i := Occurrence(KeyOf(0, b), special);
      NotInPassKey(special, i);
    }
  }

  lemma BeginsEnvKey(special: Bytes)
    requires CutsEnvKeys(special)
    ensures Contains(KeyOf(2, BrokenBody(special)), special)
  {
    var k := KeyOf(2, BrokenBody(special));
    assert k[0..|special|] == special;
    ContainsIntro(k, special, 0);
  }

  lemma Occurrence(s: Bytes, t: Bytes) returns (i: nat)
    requires Contains(s, t)
    ensures i <= |s| && OccursAt(s, t, i)
  {
    i :| 0 <= i <= |s| && OccursAt(s, t, i);
  }

  lemma NotInPassKey(special: Bytes, i: nat)
    requires CutsEnvKeys(special)
    ensures !OccursAt(KeyOf(0, BrokenBody(special)), special, i)
  {
    var b := BrokenBody(special);
    var k := KeyOf(0, b);
    if OccursAt(k, special, i) {
      assert k[i] == k[i..i + |special|][0];
      if |special| >= 2 {
        assert special == [ZERO + 2, STAR] + special[2..] && |b| == |special|;
        assert i == 2 ==> k[2..2 + |special|] == b;
        NeverShifted(special[2..]);
      }
    }
  }

  /** DELS and the cache, exactly: an argument keeps every paired store paired if and only if it
      is neither "2" nor begins with "2*". */
  lemma SpecialKeepsPairs(special: Bytes)
    ensures !CutsEnvKeys(special) <==>
      forall t: Table | Paired(t) :: Paired(Apply(t, OpRemoveSpecial(special)))
  {
    if CutsEnvKeys(special) {
      var b := BrokenBody(special);
      var t: Table := map[KeyOf(0, b) := Entry([], [], 0), KeyOf(2, b) := Entry([], [], 0)];
      KeysAreDistinct(0, b, 2, b);
      assert Paired(t) by {
        forall x: Bytes | KeyOf(0, x) in t ensures PairAt(t, x)
        {
          KeysAreDistinct(0, x, 0, b);
          KeysAreDistinct(0, x, 2, b);
        }
      }
      BrokenBodyIsCut(special);
      var t1 := Apply(t, OpRemoveSpecial(special));
      assert KeyOf(0, b) in t1 && KeyOf(2, b) !in t1;
      assert !Paired(t1);
    } else {
      forall t: Table | Paired(t) ensures Paired(Apply(t, OpRemoveSpecial(special)))
      {
        SpecialKeeps(t, special);
      }
    }
  }

  lemma SpecialKeeps(t: Table, special: Bytes)
    requires Paired(t) && !CutsEnvKeys(special)
    ensures Paired(Apply(t, OpRemoveSpecial(special)))
  {
    var t1 := Apply(t, OpRemoveSpecial(special));
    forall b: Bytes | KeyOf(0, b) in t1 ensures PairAt(t1, b)
    {
      assert PairAt(t, b);
      if special != [] { SpecialHitsBothOrNone(b, special); }
    }
  }

  // ---------------------------------------------------------------- every operation of the daemon

  /** Operations that are not allowed to touch environment entries alone. */
  predicate Harmless(op: Op)
  {
    match op
    case OpAdd(k, _, _, _, _) => k != [] && k[0] == ZERO + 1
    case OpRemove(k) => k == [] || k[0] != ZERO + 2
    case OpRemoveGroup(_) => true
    case OpRemoveSpecial(s) => !CutsEnvKeys(s)
    case OpExpire(_) => true
  }

  /** A pair after the operation is the pair before it, still alive if this was a sweep. */
  predicate PairKept(t: Table, op: Op, t1: Table, b: Bytes)
  {
    && PairAt(t, b) && PairAt(t1, b)
    && t1[KeyOf(0, b)] == t[KeyOf(0, b)] && t1[KeyOf(2, b)] == t[KeyOf(2, b)]
    && (op.OpExpire? ==> op.at < t[KeyOf(0, b)].timeout)
  }

  lemma HarmlessKeepsPairs(t: Table, op: Op)
    requires Paired(t) && Harmless(op)
    ensures Paired(Apply(t, op))
    ensures forall b: Bytes | KeyOf(0, b) in Apply(t, op) :: PairKept(t, op, Apply(t, op), b)
  {
    var t1 := Apply(t, op);
    forall b: Bytes | KeyOf(0, b) in t1 ensures PairKept(t, op, t1, b)
    {
      assert PairAt(t, b);
      if op.OpRemoveSpecial? { SpecialKeeps(t, op.special); }
    }
  }

  /** EXEC stores both entries, with one deadline; every other pair is as it was. */
  lemma RememberStores(c: Conn, t: Table, user: Bytes, command: Bytes, env: seq<Bytes>, password: Bytes, now: UInt)
    ensures
      var b := KeyBody(c.host, AuthUser(c, user), command);
      var t1 := Remember(c, t, user, command, env, password, now);
      && PairAt(t1, b)
      && t1[KeyOf(0, b)] == Entry(password, [], Deadline(c.timeout, now))
      && t1[KeyOf(2, b)] == Entry(EnvCheck(env), [], Deadline(c.timeout, now))
      && (forall x: Bytes | x != b && PairAt(t1, x) ::
            PairAt(t, x) && t1[KeyOf(0, x)] == t[KeyOf(0, x)] && t1[KeyOf(2, x)] == t[KeyOf(2, x)])
      && (forall x: Bytes | x != b && PairAt(t, x) :: PairAt(t1, x))
      && (forall x: Bytes | x != b && KeyOf(0, x) in t1 :: KeyOf(0, x) in t)
  {
    hide EnvCheck, Deadline;
    var b := KeyBody(c.host, AuthUser(c, user), command);
    MakeKeyIsKeyOf(0, c.host, AuthUser(c, user), command);
    MakeKeyIsKeyOf(2, c.host, AuthUser(c, user), command);
    KeysAreDistinct(0, b, 2, b);
    forall x: Bytes
      ensures KeyOf(0, x) == KeyOf(0, b) <==> x == b
      ensures KeyOf(2, x) == KeyOf(2, b) <==> x == b
      ensures KeyOf(0, x) != KeyOf(2, b) && KeyOf(2, x) != KeyOf(0, b)
    {
      KeysAreDistinct(0, x, 0, b);
      KeysAreDistinct(0, x, 2, b);
      KeysAreDistinct(2, x, 0, b);
      KeysAreDistinct(2, x, 2, b);
    }
  }

  /** If the clock does move between the two, a sweep can take the environment and leave the
      password: the pair stays together under every sweep if and only if both were stored at the same
      time or without a limit. */
  lemma PairNeedsOneClock(
      c: Conn, t: Table, user: Bytes, command: Bytes, env: seq<Bytes>, password: Bytes, now: UInt, later: UInt)
    ensures
      (forall at: UInt ::
        var t1 := Apply(RememberAt(c, t, user, command, env, password, now, later), OpExpire(at));
        PassKey(c, user, command) in t1 <==> EnvKey(c, user, command) in t1)
      <==> c.timeout == 0 || now == later
  {
    hide EnvCheck, Deadline, MakeKey;
    var k2, k0 := EnvKey(c, user, command), PassKey(c, user, command);
    var d2, d0 := Deadline(c.timeout, now), Deadline(c.timeout, later);
    MakeKeyIsKeyOf(0, c.host, AuthUser(c, user), command);
    MakeKeyIsKeyOf(2, c.host, AuthUser(c, user), command);
    var b := KeyBody(c.host, AuthUser(c, user), command);
    KeysAreDistinct(0, b, 2, b);
    DeadlinesDiffer(c.timeout, now, later);
    var t1 := RememberAt(c, t, user, command, env, password, now, later);
    assert k0 in t1 && t1[k0].timeout == d0 && k2 in t1 && t1[k2].timeout == d2;
    forall at: UInt
      ensures k0 in Apply(t1, OpExpire(at)) <==> at < d0
      ensures k2 in Apply(t1, OpExpire(at)) <==> at < d2
    {
    }
    if d0 != d2 {
      var at: UInt := if d0 < d2 then d0 else d2;
      assert !(k0 in Apply(t1, OpExpire(at)) <==> k2 in Apply(t1, OpExpire(at)));
    }
  }

  lemma DeadlinesDiffer(timeout: UInt, now: UInt, later: UInt)
    ensures Deadline(timeout, now) == Deadline(timeout, later) <==> timeout == 0 || now == later
  {
  }

  // ---------------------------------------------------------------- whole runs

  /** An event stores a password: an EXEC on a connection that has one, not served by the cache. */
  predicate StoredBy(d: Daemon, e: Event, b: Bytes, envCheck: Bytes, password: Bytes)
  {
    match RequestOf(d, e)
    case None => false
    case Some(r) =>
      var c := ConnAt(d, e.fd).value;
      && Stores(c, d.table, r) && c.pass == Some(password)
      && KeyBody(c.host, AuthUser(c, r.user), r.command) == b && EnvCheck(r.env) == envCheck
  }

  function StoredUntil(d: Daemon, e: Event): UInt
  {
    if e.Line? && ConnAt(d, e.fd).Some? then Deadline(ConnAt(d, e.fd).value.timeout, e.tick.now) else 0
  }

  /** No DELS of the run can cut the cache's pairs apart. */
  predicate NoCut(es: seq<Event>, n: nat)
    requires n <= |es|
  {
    forall i | 0 <= i < n && RequestOf(StateAt(START, es, i), es[i]).Some? ::
      var r := RequestOf(StateAt(START, es, i), es[i]).value;
      r.DelVars? ==> !CutsEnvKeys(r.specialKey)
  }

  /** Event m stored this password, and no sweep since then came at or after its deadline. */
  predicate Origin(es: seq<Event>, m: nat, n: nat, b: Bytes, envCheck: Bytes, password: Bytes)
    requires m < n <= |es|
  {
    var d := StateAt(START, es, m);
    && StoredBy(d, es[m], b, envCheck, password)
    && forall i | m < i < n && es[i].Sweep? && StateAt(START, es, i).running :: es[i].now < StoredUntil(d, es[m])
  }

  /** What the cache holds for a body comes from an event of the run. */
  predicate HasOrigin(es: seq<Event>, n: nat, b: Bytes)
    requires n <= |es|
  {
    var t := StateAt(START, es, n).table;
    PairAt(t, b) &&
    exists m | 0 <= m < n ::
      && Origin(es, m, n, b, t[KeyOf(2, b)].value, t[KeyOf(0, b)].value)
      && t[KeyOf(0, b)].timeout == StoredUntil(StateAt(START, es, m), es[m])
  }

  /** What one event does to the pair of a body: it leaves the pair alone, alive after a sweep,
      or it stores the pair. */
  predicate KeptOrStored(d: Daemon, e: Event, b: Bytes)
  {
    var t, t1 := d.table, Step(d, e).table;
    && PairAt(t1, b)
    && ((&& PairAt(t, b) && t1[KeyOf(0, b)] == t[KeyOf(0, b)] && t1[KeyOf(2, b)] == t[KeyOf(2, b)]
         && (d.running && e.Sweep? ==> e.now < t[KeyOf(0, b)].timeout))
        || (&& StoredBy(d, e, b, t1[KeyOf(2, b)].value, t1[KeyOf(0, b)].value)
            && t1[KeyOf(0, b)].timeout == StoredUntil(d, e)))
  }

  lemma EventKeepsPairs(d: Daemon, e: Event)
    requires Paired(d.table)
    requires RequestOf(d, e).Some? && RequestOf(d, e).value.DelVars? ==> !CutsEnvKeys(RequestOf(d, e).value.specialKey)
    ensures Paired(Step(d, e).table)
    ensures forall b: Bytes | KeyOf(0, b) in Step(d, e).table :: KeptOrStored(d, e, b)
  {
    hide Step, Parse, Run, Apply, Deadline;
    var t, t1 := d.table, Step(d, e).table;
    var ops := OpsOf(d, e);
    StoreStep(d, e);
    RunFew(t, OpRemove([]), OpRemove([]));
    if |ops| == 0 {
      assert ops == [] && t1 == t;
      assert forall b: Bytes | KeyOf(0, b) in t1 :: PairAt(t, b);
    } else if |ops| == 1 {
      RunFew(t, ops[0], ops[0]);
      assert ops == [ops[0]];
      OneOpIsHarmless(d, e);
      HarmlessKeepsPairs(t, ops[0]);
      forall b: Bytes | KeyOf(0, b) in t1 ensures KeptOrStored(d, e, b)
      {
        assert PairKept(t, ops[0], t1, b);
      }
    } else {
      TwoOpsStore(d, e);
    }
  }

  lemma OneOpIsHarmless(d: Daemon, e: Event)
    requires |OpsOf(d, e)| == 1
    requires RequestOf(d, e).Some? && RequestOf(d, e).value.DelVars? ==> !CutsEnvKeys(RequestOf(d, e).value.specialKey)
    ensures Harmless(OpsOf(d, e)[0])
    ensures OpsOf(d, e)[0].OpExpire? <==> d.running && e.Sweep?
    ensures d.running && e.Sweep? ==> OpsOf(d, e)[0] == OpExpire(e.now)
  {
    hide Parse, Cached, EnvCheck;
    if RequestOf(d, e).Some? {
      match RequestOf(d, e).value {
        case DelCommand(cmd, u) => MakeKeyIsKeyOf(0, ConnAt(d, e.fd).value.host, u, cmd);
        case SetVar(n, _, _, _) => MakeKeyIsKeyOf(1, n, [], []);
        case DelVar(n) => MakeKeyIsKeyOf(1, n, [], []);
        case _ =>
      }
    }
  }

  lemma TwoOpsStore(d: Daemon, e: Event)
    requires Paired(d.table)
    requires |OpsOf(d, e)| > 1
    ensures Paired(Step(d, e).table)
    ensures forall b: Bytes | KeyOf(0, b) in Step(d, e).table :: KeptOrStored(d, e, b)
  {
    hide Parse, Cached, EnvCheck, Deadline, MakeKey, Forking;
    var c, r := ConnAt(d, e.fd).value, RequestOf(d, e).value;
    RememberStores(c, d.table, r.user, r.command, r.env, c.pass.value, e.tick.now);
    assert Step(d, e).table == Remember(c, d.table, r.user, r.command, r.env, c.pass.value, e.tick.now);
    forall b: Bytes | KeyOf(0, b) in Step(d, e).table
      ensures PairAt(Step(d, e).table, b) && KeptOrStored(d, e, b)
    {
      assert b == KeyBody(c.host, AuthUser(c, r.user), r.command) || PairAt(d.table, b);
    }
  }

  /** In every run in which no DELS argument is "2" or begins with "2*": the store is paired, and
      every password in it, with its environment and its deadline, was stored by an earlier EXEC
      and was still alive at every sweep since. */
  lemma {:induction false} PairsHaveOrigins(es: seq<Event>, n: nat)
    requires n <= |es| && NoCut(es, n)
    ensures Paired(StateAt(START, es, n).table)
    ensures forall b: Bytes | KeyOf(0, b) in StateAt(START, es, n).table :: HasOrigin(es, n, b)
  {
    hide Step, OpsOf, RequestOf, StoredBy, PairAt, StoredUntil;
    if n > 0 {
      var d, e := StateAt(START, es, n - 1), es[n - 1];
      PairsHaveOrigins(es, n - 1);
      EventKeepsPairs(d, e);
      forall b: Bytes | KeyOf(0, b) in StateAt(START, es, n).table
        ensures HasOrigin(es, n, b)
      {
        assert KeptOrStored(d, e, b);
        OriginStep(es, n, b);
      }
    }
  }

  lemma OriginStep(es: seq<Event>, n: nat, b: Bytes)
    requires 0 < n <= |es|
    requires KeptOrStored(StateAt(START, es, n - 1), es[n - 1], b)
    requires KeyOf(0, b) in StateAt(START, es, n - 1).table ==> HasOrigin(es, n - 1, b)
    ensures HasOrigin(es, n, b)
  {
    hide Step, StateAt, RequestOf, StoredBy, StoredUntil, KeyOf;
    NextState(es, n - 1);
    var d, e := StateAt(START, es, n - 1), es[n - 1];
    var t, t1 := d.table, StateAt(START, es, n).table;
    if StoredBy(d, e, b, t1[KeyOf(2, b)].value, t1[KeyOf(0, b)].value) && t1[KeyOf(0, b)].timeout == StoredUntil(d, e) {
      assert Origin(es, n - 1, n, b, t1[KeyOf(2, b)].value, t1[KeyOf(0, b)].value);
    } else {
      var m :| 0 <= m < n - 1
        && Origin(es, m, n - 1, b, t[KeyOf(2, b)].value, t[KeyOf(0, b)].value)
        && t[KeyOf(0, b)].timeout == StoredUntil(StateAt(START, es, m), es[m]);
      assert Origin(es, m, n, b, t1[KeyOf(2, b)].value, t1[KeyOf(0, b)].value);
    }
  }

  /** The password check.  When the cache serves an EXEC (for a connection without PASS the only
      way past the check), an earlier EXEC with the same key stored that very password, and no sweep
      since then came at or after its deadline.  The environments compared equal: they have the same
      entries, startup ids aside, if these contain no '*' or if one of the two environments is told
      apart from all others. */
  lemma CacheServesOnlyWhatWasStored(
      es: seq<Event>, n: nat, c: Conn, user: Bytes, command: Bytes, env: seq<Bytes>, password: Bytes)
    requires n <= |es| && NoCut(es, n)
    requires Cached(c, StateAt(START, es, n).table, user, command, env) == Some(password)
    ensures exists m | 0 <= m < n ::
      && Origin(es, m, n, KeyBody(c.host, AuthUser(c, user), command), EnvCheck(env), password)
      && ForEnvironment(StateAt(START, es, m), es[m], env)
  {
    hide Step, RequestOf, StoredBy, StoredUntil, EnvCheck, ForEnvironment;
    var t := StateAt(START, es, n).table;
    var b := KeyBody(c.host, AuthUser(c, user), command);
    MakeKeyIsKeyOf(0, c.host, AuthUser(c, user), command);
    MakeKeyIsKeyOf(2, c.host, AuthUser(c, user), command);
    PairsHaveOrigins(es, n);
    assert HasOrigin(es, n, b);
    var m :| 0 <= m < n && Origin(es, m, n, b, t[KeyOf(2, b)].value, t[KeyOf(0, b)].value);
    StoredForEnvironment(StateAt(START, es, m), es[m], b, env, password);
  }

  /** This event is an EXEC for that environment. */
  predicate ForEnvironment(d: Daemon, e: Event, env: seq<Bytes>)
  {
    RequestOf(d, e).Some? && RequestOf(d, e).value.Exec? && SameEnvironment(RequestOf(d, e).value.env, env)
  }

  lemma StoredForEnvironment(d: Daemon, e: Event, b: Bytes, env: seq<Bytes>, password: Bytes)
    requires StoredBy(d, e, b, EnvCheck(env), password)
    ensures ForEnvironment(d, e, env)
  {
    hide Parse, Cached, EnvCheck, SameEnvironment;
    SameCheckSameEnvironment(RequestOf(d, e).value.env, env);
  }

  /** An EXEC that starts a program on a connection that never saw PASS. */
  predicate LaunchesWithoutPass(d: Daemon, e: Event)
  {
    match RequestOf(d, e)
    case None => false
    case Some(r) =>
      && r.Exec? && ConnAt(d, e.fd).value.pass.None? && ConnAt(Step(d, e), e.fd).Some?
      && ConnAt(Step(d, e), e.fd).value.launches != ConnAt(d, e.fd).value.launches
  }

  /** su when no host is set, ssh to that host otherwise, with the arguments of the EXEC; su also gets
      priority and scheduler. */
  predicate StartedFor(l: Launch, r: Request, host: Bytes, priority: int, scheduler: int, password: Bytes)
    requires r.Exec?
  {
    && l.command == r.command && l.user == r.user && l.password == password
    && (l.SuLaunch? <==> host == [])
    && (l.SuLaunch? ==> l.options == r.options && l.env == r.env && l.priority == priority && l.scheduler == scheduler)
    && (l.SshLaunch? ==> l.host == host)
  }

  /** c1 has one program more than c, and this is it. */
  predicate AddsLaunch(c: Conn, c1: Conn, r: Request, password: Bytes)
    requires r.Exec?
  {
    && |c1.launches| == |c.launches| + 1 && c.launches <= c1.launches
    && StartedFor(c1.launches[|c.launches|], r, c.host, c.priority, c.scheduler, password)
  }

  lemma LaunchNeedsCache(d: Daemon, e: Event)
    requires LaunchesWithoutPass(d, e)
    ensures
      var c, r := ConnAt(d, e.fd).value, RequestOf(d, e).value;
      var cached := Cached(c, d.table, r.user, r.command, r.env);
      cached.Some? && AddsLaunch(c, ConnAt(Step(d, e), e.fd).value, r, cached.value)
  {
    hide Parse, Cached, Remember;
    var c, r := ConnAt(d, e.fd).value, RequestOf(d, e).value;
    assert Step(d, e).handler[e.fd] == Some(PerformExec(c, d.table, r, e.tick).conn);
  }

  /** The same for an event of a run: whenever an EXEC starts a program although its connection
      never saw PASS, an earlier EXEC stored the password it used, for the same command: the same
      host, authenticating user and command line when host and user have no '*', and the same
      environment in the sense of SameEnvironment. */
  lemma NoPasswordNoLaunch(es: seq<Event>, n: nat)
    requires n < |es| && NoCut(es, n)
    requires LaunchesWithoutPass(StateAt(START, es, n), es[n])
    ensures
      var d := StateAt(START, es, n);
      var c, r := ConnAt(d, es[n].fd).value, RequestOf(d, es[n]).value;
      exists m, password | 0 <= m < n ::
        && Origin(es, m, n, KeyBody(c.host, AuthUser(c, r.user), r.command), EnvCheck(r.env), password)
        && SameCommand(StateAt(START, es, m), es[m], c, r)
        && AddsLaunch(c, ConnAt(Step(d, es[n]), es[n].fd).value, r, password)
  {
    hide Step, Parse, EnvCheck, Cached, SameCommand, AuthUser, AddsLaunch, SameEnvironment;
    var d := StateAt(START, es, n);
    var c, r := ConnAt(d, es[n].fd).value, RequestOf(d, es[n]).value;
    LaunchNeedsCache(d, es[n]);
    var password := Cached(c, d.table, r.user, r.command, r.env).value;
    CacheServesOnlyWhatWasStored(es, n, c, r.user, r.command, r.env, password);
    var m :| 0 <= m < n
      && Origin(es, m, n, KeyBody(c.host, AuthUser(c, r.user), r.command), EnvCheck(r.env), password)
      && ForEnvironment(StateAt(START, es, m), es[m], r.env);
    OriginIsSameCommand(StateAt(START, es, m), es[m], c, r);
  }

  /** The two commands agree in host, user and command line, if no '*' is involved, and in their
      environments. */
  predicate SameCommand(d: Daemon, e: Event, c: Conn, r: Request)
    requires r.Exec?
  {
    ForEnvironment(d, e, r.env) &&
    var c1, r1 := ConnAt(d, e.fd).value, RequestOf(d, e).value;
    STAR !in c.host && STAR !in AuthUser(c, r.user) && STAR !in c1.host && STAR !in AuthUser(c1, r1.user) ==>
      c1.host == c.host && AuthUser(c1, r1.user) == AuthUser(c, r.user) && r1.command == r.command
  }

  lemma OriginIsSameCommand(d: Daemon, e: Event, c: Conn, r: Request)
    requires r.Exec? && ForEnvironment(d, e, r.env)
    requires
      var c1, r1 := ConnAt(d, e.fd).value, RequestOf(d, e).value;
      KeyBody(c1.host, AuthUser(c1, r1.user), r1.command) == KeyBody(c.host, AuthUser(c, r.user), r.command)
    ensures SameCommand(d, e, c, r)
  {
    hide Parse, SameEnvironment;
    var c1, r1 := ConnAt(d, e.fd).value, RequestOf(d, e).value;
    var u1, u := AuthUser(c1, r1.user), AuthUser(c, r.user);
    if STAR !in c.host && STAR !in u && STAR !in c1.host && STAR !in u1 {
      PassKeysAreInjective(c1.host, u1, r1.command, c.host, u, r.command);
    }
  }

  /** Why DELS has to be left out: once an environment entry is gone and the password is still
      there, EXEC with no environment is served although the password was stored for another. */
  lemma OrphanServesEmptyEnvironment(c: Conn, t: Table, user: Bytes, command: Bytes)
    requires EnvKey(c, user, command) !in t && PassKey(c, user, command) in t
    ensures Cached(c, t, user, command, []) == Some(t[PassKey(c, user, command)].value)
  {
  }

  /** The other direction: what an EXEC stored does serve later EXECs with the same key and the
      same filtered environment, as long as the operations in between neither overwrite nor
      delete the two entries and no sweep comes at or after their deadline. */
  lemma StoredPasswordServes(
      es: seq<Event>, m: nat, n: nat, c: Conn, user: Bytes, command: Bytes, env: seq<Bytes>, password: Bytes)
    requires m < n <= |es|
    requires StoredBy(StateAt(START, es, m), es[m],
                      KeyBody(c.host, AuthUser(c, user), command), EnvCheck(env), password)
    requires Undisturbed(OpsBetween(START, es, m + 1, n), PassKey(c, user, command),
                         Entry(password, [], StoredUntil(StateAt(START, es, m), es[m])))
    requires Undisturbed(OpsBetween(START, es, m + 1, n), EnvKey(c, user, command),
                         Entry(EnvCheck(env), [], StoredUntil(StateAt(START, es, m), es[m])))
    ensures Cached(c, StateAt(START, es, n).table, user, command, env) == Some(password)
  {
    hide *;
    NextState(es, m);
    MakeKeyIsKeyOf(0, c.host, AuthUser(c, user), command);
    MakeKeyIsKeyOf(2, c.host, AuthUser(c, user), command);
    TheKeys(c, user, command);
    StoringEvent(StateAt(START, es, m), es[m], KeyBody(c.host, AuthUser(c, user), command), EnvCheck(env), password);
    StoreRun(START, es, m + 1, n);
    var until := StoredUntil(StateAt(START, es, m), es[m]);
    PairServes(StateAt(START, es, m + 1).table, OpsBetween(START, es, m + 1, n), c, user, command, env,
               Entry(password, [], until), Entry(EnvCheck(env), [], until));
  }

  /** DEL names the user that the caller gives, EXEC the one that it authenticates as: a cached
      password is forgotten by DEL if and only if these are the same, so never for a raised priority
      or another scheduler, where that is root, unless the caller says root.  No '*' matters here. */
  lemma DelForgetsExactly(c: Conn, t: Table, user: Bytes, command: Bytes, env: seq<Bytes>, tick: Tick)
    requires PassKey(c, user, command) in t
    ensures
      var t1 := Perform(c, t, DelCommand(command, user), tick).table;
      && (PassKey(c, user, command) !in t1 <==> AuthUser(c, user) == user)
      && (AuthUser(c, user) == user ==> Cached(c, t1, user, command, env).None?)
  {
    hide AuthUser, EnvCheck;
    var a := AuthUser(c, user);
    MakeKeyIsKeyOf(0, c.host, a, command);
    MakeKeyIsKeyOf(0, c.host, user, command);
    KeysAreDistinct(0, KeyBody(c.host, a, command), 0, KeyBody(c.host, user, command));
    BodiesOfOneCommand(c.host, a, user, command);
  }

  lemma BodiesOfOneCommand(h: Bytes, u: Bytes, v: Bytes, c: Bytes)
    ensures KeyBody(h, u, c) == KeyBody(h, v, c) <==> u == v
  {
    var x, y := KeyBody(h, u, c), KeyBody(h, v, c);
    if x == y {
      assert |u| == |v|;
      assert u == x[|h| + 1..|h| + 1 + |u|] && v == y[|h| + 1..|h| + 1 + |v|];
    }
  }

  lemma TheKeys(c: Conn, user: Bytes, command: Bytes)
    ensures PassKey(c, user, command) == MakeKey(0, c.host, AuthUser(c, user), command)
    ensures EnvKey(c, user, command) == MakeKey(2, c.host, AuthUser(c, user), command)
  {
  }

  lemma PairServes(
      t: Table, ops: seq<Op>, c: Conn, user: Bytes, command: Bytes, env: seq<Bytes>, e0: Entry, e2: Entry)
    requires PassKey(c, user, command) in t && t[PassKey(c, user, command)] == e0
    requires EnvKey(c, user, command) in t && t[EnvKey(c, user, command)] == e2
    requires e2.value == EnvCheck(env)
    requires Undisturbed(ops, PassKey(c, user, command), e0)
    requires Undisturbed(ops, EnvKey(c, user, command), e2)
    ensures Cached(c, Run(t, ops), user, command, env) == Some(e0.value)
  {
    hide EnvCheck, Run, Undisturbed, AuthUser, MakeKey;
    UndisturbedStays(t, ops, PassKey(c, user, command), e0);
    UndisturbedStays(t, ops, EnvKey(c, user, command), e2);
  }

  lemma StoringEvent(d: Daemon, e: Event, b: Bytes, envCheck: Bytes, password: Bytes)
    requires StoredBy(d, e, b, envCheck, password)
    ensures
      var t1 := Step(d, e).table;
      && KeyOf(0, b) in t1 && t1[KeyOf(0, b)] == Entry(password, [], StoredUntil(d, e))
      && KeyOf(2, b) in t1 && t1[KeyOf(2, b)] == Entry(envCheck, [], StoredUntil(d, e))
  {
    hide Parse, Cached, EnvCheck, Deadline, MakeKey, Forking;
    var c, r := ConnAt(d, e.fd).value, RequestOf(d, e).value;
    RememberStores(c, d.table, r.user, r.command, r.env, password, e.tick.now);
  }
}
