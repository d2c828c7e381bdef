/** What EXEC starts and which password it uses, in terms of the requests of the run
    (src/kdesud/handler.cpp:238-334). */
module Launches {
  import opened ByteStrings
  import opened Client
  import opened Grammar
  import opened TimedMap
  import opened Session
  import opened Daemon
  import opened PasswordCache
  import opened Connections
  import opened Environments
  import opened Replies
  import opened Lifetimes

  /** The user that an EXEC on this connection authenticates as: see RootIsAuthenticated. */
  function UserAt(es: seq<Event>, n: nat, fd: nat, user: Bytes): Bytes
    requires n <= |es|
  {
    if SchedulerAsked(LastOf(es, n, fd, SchedulerField)) != 0 || PriorityAsked(LastOf(es, n, fd, PriorityField)) > 50
    then ROOT else user
  }

  /** What the keys of its password and its environment have in common. */
  function BodyAt(es: seq<Event>, n: nat, fd: nat, user: Bytes, command: Bytes): Bytes
    requires n <= |es|
  {
    KeyBody(HostAt(es, n, fd), UserAt(es, n, fd, user), command)
  }

  /** The password that the store has for this body and environment.  A missing environment counts
      as an empty one. */
  function InCache(t: Table, b: Bytes, env: seq<Bytes>): Option<Bytes>
  {
    if (if KeyOf(2, b) in t then t[KeyOf(2, b)].value else []) != EnvCheck(env) then None
    else if KeyOf(0, b) in t then Some(t[KeyOf(0, b)].value)
    else None
  }

  /** The argument of the last PASS of the connection. */
  function PassAt(es: seq<Event>, n: nat, fd: nat): Option<Bytes>
    requires n <= |es|
  {
    match LastOf(es, n, fd, PassField)
    case Some(SetPass(p, _)) => Some(p)
    case _ => None
  }

  /** Its timeout. */
  function PassTimeoutAt(es: seq<Event>, n: nat, fd: nat): int
    requires n <= |es|
  {
    match LastOf(es, n, fd, PassField)
    case Some(SetPass(_, t)) => t
    case _ => 0
  }

  /** The cached password if there is one, otherwise that of the connection. */
  function PasswordFor(es: seq<Event>, n: nat, fd: nat, r: Request): Option<Bytes>
    requires n <= |es| && r.Exec?
  {
    var cached := InCache(TableAt(es, n), BodyAt(es, n, fd, r.user, r.command), r.env);
    if cached.Some? then cached else PassAt(es, n, fd)
  }

  /** The connection's programs after event n are those before it and this one. */
  predicate Starts(es: seq<Event>, n: nat, fd: nat, r: Request, password: Bytes)
    requires n < |es| && r.Exec?
  {
    var before, after := ConnAt(StateAt(START, es, n), fd), ConnAt(StateAt(START, es, n + 1), fd);
    && before.Some? && after.Some? && es[n].Line? && after.value.pid == es[n].tick.fork
    && |after.value.launches| == |before.value.launches| + 1
    && before.value.launches <= after.value.launches
    && StartedFor(after.value.launches[|before.value.launches|], r, HostAt(es, n, fd),
                  PriorityAsked(LastOf(es, n, fd, PriorityField)), SchedulerAsked(LastOf(es, n, fd, SchedulerField)),
                  password)
  }

  predicate StartsNothing(es: seq<Event>, n: nat, fd: nat)
    requires n < |es|
  {
    var before, after := ConnAt(StateAt(START, es, n), fd), ConnAt(StateAt(START, es, n + 1), fd);
    && before.Some? && after.Some?
    && after.value.launches == before.value.launches && after.value.pid == before.value.pid
  }

  /** The two entries that an EXEC leaves when its password was not in the store. */
  function WithPair(t: Table, b: Bytes, env: seq<Bytes>, password: Bytes, until: UInt): Table
  {
    t[KeyOf(2, b) := Entry(EnvCheck(env), [], until)][KeyOf(0, b) := Entry(password, [], until)]
  }

  lemma ParsedPassAt(es: seq<Event>, n: nat, fd: nat)
    requires n <= |es|
    ensures 0 <= PassTimeoutAt(es, n, fd) <= INT_MAX
  {
    hide StateAt, Parse;
    LastOfMeans(es, n, fd, PassField);
    if LastOf(es, n, fd, PassField).Some? {
      var m: nat :| m < n && IsLast(es, m, n, fd, PassField);
      ParsedPass(es[m].line);
    }
  }

  lemma SameCache(c: Conn, t: Table, user: Bytes, command: Bytes, env: seq<Bytes>)
    ensures Cached(c, t, user, command, env) == InCache(t, KeyBody(c.host, AuthUser(c, user), command), env)
  {
    hide EnvCheck, AuthUser, MakeKey;
    MakeKeyIsKeyOf(0, c.host, AuthUser(c, user), command);
    MakeKeyIsKeyOf(2, c.host, AuthUser(c, user), command);
  }

  // ---------------------------------------------------------------- one EXEC

  /** The effect of EXEC on a connection, in terms of its fields. */
  lemma ExecEffect(c: Conn, t: Table, r: Request, tick: Tick)
    requires r.Exec?
    ensures
      var cached := Cached(c, t, r.user, r.command, r.env);
      var password := if cached.Some? then cached else c.pass;
      var c1 := Perform(c, t, r, tick).conn;
      if password.Some? && tick.fork > 0 then
        && c1.pid == tick.fork && c1.log == c.log + [Yes]
        && |c1.launches| == |c.launches| + 1 && c.launches <= c1.launches
        && StartedFor(c1.launches[|c.launches|], r, c.host, c.priority, c.scheduler, password.value)
      else c1.pid == c.pid && c1.launches == c.launches && c1.log == c.log + [No]
    ensures
      Perform(c, t, r, tick).table ==
        if Cached(c, t, r.user, r.command, r.env).None? && c.pass.Some?
        then Remember(c, t, r.user, r.command, r.env, c.pass.value, tick.now) else t
  {
    hide Cached, Remember;
  }

  lemma FieldsHere(es: seq<Event>, n: nat, fd: nat)
    requires n <= |es| && StateAt(START, es, n).running && ConnAt(StateAt(START, es, n), fd).Some?
    ensures
      var c := ConnAt(StateAt(START, es, n), fd).value;
      && c.host == HostAt(es, n, fd)
      && c.pass == PassAt(es, n, fd) && c.timeout == PassTimeoutAt(es, n, fd)
      && c.priority == PriorityAsked(LastOf(es, n, fd, PriorityField))
      && c.scheduler == SchedulerAsked(LastOf(es, n, fd, SchedulerField))
    ensures
      var c := ConnAt(StateAt(START, es, n), fd).value;
      forall user :: AuthUser(c, user) == UserAt(es, n, fd, user)
  {
    hide StateAt, LastOf;
    FieldsAreAsked(es, n, fd);
  }

  /** EXEC, exactly, at any point of any run.  With a password, cached or its connection's, and a
      fork that succeeds, one program is started: su if no HOST is in force or an empty one, ssh to
      that host otherwise, with the arguments of the EXEC and of the last PRIO and SCHD, and that
      password; the answer is OK.  Otherwise nothing is started and the answer is NO. */
  lemma ExecIsExact(es: seq<Event>, n: nat, fd: nat, r: Request)
    requires n < |es| && AskedOn(es, n, fd) == Some(r) && r.Exec?
    ensures es[n].Line?
    ensures
      var password := PasswordFor(es, n, fd, r);
      if password.Some? && es[n].tick.fork > 0
      then Starts(es, n, fd, r, password.value) && AnswersWith(es, n, fd, Yes)
      else StartsNothing(es, n, fd) && AnswersWith(es, n, fd, No)
  {
    hide Perform, StateAt, AskedOn, TableAt, LastOf, Cached, InCache, StartedFor, RequestOf, KeyBody, UserAt, HostAt;
    var tick := Effect(es, n, fd);
    FieldsHere(es, n, fd);
    var c := ConnAt(StateAt(START, es, n), fd).value;
    SameCache(c, TableAt(es, n), r.user, r.command, r.env);
    ExecEffect(c, TableAt(es, n), r, tick);
    ConnAfter(es, n, fd);
  }

  lemma ConnAfter(es: seq<Event>, n: nat, fd: nat)
    requires n < |es| && AskedOn(es, n, fd).Some?
    ensures ConnAt(StateAt(START, es, n), fd).Some? && es[n].Line?
    ensures
      var c, r := ConnAt(StateAt(START, es, n), fd).value, AskedOn(es, n, fd).value;
      ConnAt(StateAt(START, es, n + 1), fd) == Some(Perform(c, TableAt(es, n), r, es[n].tick).conn)
  {
    hide Perform, Parse;
    NextState(es, n);
  }

  /** EXEC and the store, exactly: if nothing is cached and the connection has a password, the pair of
      environment and password is stored, with the timeout of that PASS from the time of the EXEC on,
      whether or not the fork succeeds; otherwise the store stays as it is. */
  lemma ExecStores(es: seq<Event>, n: nat, fd: nat, r: Request)
    requires n < |es| && AskedOn(es, n, fd) == Some(r) && r.Exec?
    ensures es[n].Line?
    ensures 0 <= EndOfLife(PassTimeoutAt(es, n, fd), es[n].tick.now) <= UINT_MAX
    ensures
      var b := BodyAt(es, n, fd, r.user, r.command);
      TableAt(es, n + 1) ==
        if InCache(TableAt(es, n), b, r.env).None? && PassAt(es, n, fd).Some?
        then WithPair(TableAt(es, n), b, r.env, PassAt(es, n, fd).value,
                      EndOfLife(PassTimeoutAt(es, n, fd), es[n].tick.now))
        else TableAt(es, n)
  {
    hide Perform, StateAt, AskedOn, TableAt, LastOf, Cached, InCache, StartedFor, RequestOf, KeyBody, UserAt, HostAt,
      Remember, WithPair;
    var tick := Effect(es, n, fd);
    FieldsHere(es, n, fd);
    ParsedPassAt(es, n, fd);
    EndIsDeadline(PassTimeoutAt(es, n, fd), tick.now);
    var c := ConnAt(StateAt(START, es, n), fd).value;
    SameCache(c, TableAt(es, n), r.user, r.command, r.env);
    ExecEffect(c, TableAt(es, n), r, tick);
    ConnAfter(es, n, fd);
    if c.pass.Some? { RememberIsPair(c, TableAt(es, n), r, c.pass.value, tick.now); }
  }

  lemma RememberIsPair(c: Conn, t: Table, r: Request, password: Bytes, now: UInt)
    requires r.Exec? && c.timeout <= INT_MAX
    ensures 0 <= EndOfLife(c.timeout, now) <= UINT_MAX
    ensures Remember(c, t, r.user, r.command, r.env, password, now) ==
      WithPair(t, KeyBody(c.host, AuthUser(c, r.user), r.command), r.env, password, EndOfLife(c.timeout, now))
  {
    hide EnvCheck, MakeKey, KeyOf, AuthUser, Deadline;
    MakeKeyIsKeyOf(0, c.host, AuthUser(c, r.user), r.command);
    MakeKeyIsKeyOf(2, c.host, AuthUser(c, r.user), r.command);
    EndIsDeadline(c.timeout, now);
    assert ToUInt(c.timeout) == c.timeout;
  }

  // ---------------------------------------------------------------- how long a password lives

  /** Event k leaves the pair of this body alone: no EXEC that stores it again, no DEL of it, no DELS
      that occurs in one of its keys. */
  predicate LeavesPair(es: seq<Event>, k: nat, b: Bytes)
    requires k < |es|
  {
    es[k].Line? ==>
      match AskedOn(es, k, es[k].fd)
      case Some(Exec(cmd, u, _, env)) =>
        || BodyAt(es, k, es[k].fd, u, cmd) != b || InCache(TableAt(es, k), b, env).Some?
        || PassAt(es, k, es[k].fd).None?
      case Some(DelCommand(cmd, u)) => KeyBody(HostAt(es, k, es[k].fd), u, cmd) != b
      case Some(DelVars(s)) => s == [] || (!Contains(KeyOf(0, b), s) && !Contains(KeyOf(2, b), s))
      case _ => true
  }

  predicate Ungrouped(t: Table, key: Bytes) { key in t ==> t[key].group == [] }

  lemma RequestLeaves(es: seq<Event>, k: nat, fd: nat, b: Bytes, space: nat)
    requires k < |es| && AskedOn(es, k, fd).Some? && LeavesPair(es, k, b) && space in {0, 2}
    requires Ungrouped(TableAt(es, k), KeyOf(space, b))
    ensures SameUnder(TableAt(es, k), TableAt(es, k + 1), KeyOf(space, b))
  {
    hide StateAt, TableAt, RequestOf, LastOf, InCache, UserAt, HostAt, KeyOf, EnvCheck, AnswersWith, Contains, KeyBody,
      EndOfLife, HasEntryOf;
    IsLine(es, k, fd);
    var r, t := AskedOn(es, k, fd).value, TableAt(es, k);
    match r {
      case Exec(cmd, u, _, _) =>
        ExecStores(es, k, fd, r);
        OtherKeys(BodyAt(es, k, fd, u, cmd), b, space);
      case DelCommand(cmd, u) =>
        DelIsExact(es, k, fd, cmd, u);
        KeysAreDistinct(0, KeyBody(HostAt(es, k, fd), u, cmd), space, b);
      case SetVar(n, v, g, d) =>
        SetIsExact(es, k, fd, n, v, g, d);
        KeysAreDistinct(1, KeyBody(n, [], []), space, b);
      case DelVar(n) =>
        DelVarIsExact(es, k, fd, n);
        KeysAreDistinct(1, KeyBody(n, [], []), space, b);
      case DelGroup(g) => GroupsAreExact(es, k, fd, g);
      case FindGroup(g) => GroupsAreExact(es, k, fd, g);
      case DelVars(s) => DelsIsExact(es, k, fd, s);
      case GetVar(n) => LookupsAreExact(es, k, fd, n);
      case GetKeys(g) => LookupsAreExact(es, k, fd, g);
      case _ => OthersAnswerOk(es, k, fd);
    }
  }

  lemma OtherKeys(b1: Bytes, b: Bytes, space: nat)
    requires space in {0, 2}
    ensures b1 != b ==> KeyOf(space, b) != KeyOf(0, b1) && KeyOf(space, b) != KeyOf(2, b1)
  {
    KeysAreDistinct(space, b, 0, b1);
    KeysAreDistinct(space, b, 2, b1);
  }

  /** The two entries of a pair, as they were stored or gone. */
  predicate Holds(t: Table, b: Bytes, alive: bool, e0: Entry, e2: Entry)
  {
    && (KeyOf(0, b) in t <==> alive) && (KeyOf(2, b) in t <==> alive)
    && (alive ==> t[KeyOf(0, b)] == e0 && t[KeyOf(2, b)] == e2)
  }

  lemma SweepHolds(t: Table, now: UInt, b: Bytes, alive: bool, e0: Entry, e2: Entry)
    requires Holds(t, b, alive, e0, e2) && e0.timeout == e2.timeout
    ensures Holds(Apply(t, OpExpire(now)), b, alive && now < e0.timeout, e0, e2)
  {
  }

  lemma {:induction false} PairLives(es: seq<Event>, m: nat, n: nat, b: Bytes, e0: Entry, e2: Entry)
    requires m < n <= |es| && e0.timeout == e2.timeout && e0.group == [] && e2.group == []
    requires Holds(TableAt(es, m + 1), b, true, e0, e2)
    requires forall k | m < k < n :: LeavesPair(es, k, b)
    ensures Holds(TableAt(es, n), b, Unswept(es, m, n, e0.timeout), e0, e2)
  {
    hide TableAt, LeavesPair, Holds, AskedOn, SweepsAt, Apply, Unswept;
    UnsweptStep(es, m, n, e0.timeout);
    if n > m + 1 {
      PairLives(es, m, n - 1, b, e0, e2);
      LifeStep(es, n - 1, b, Unswept(es, m, n - 1, e0.timeout), e0, e2);
    }
  }

  lemma LifeStep(es: seq<Event>, k: nat, b: Bytes, alive: bool, e0: Entry, e2: Entry)
    requires k < |es| && e0.timeout == e2.timeout && e0.group == [] && e2.group == []
    requires Holds(TableAt(es, k), b, alive, e0, e2) && LeavesPair(es, k, b)
    ensures Holds(TableAt(es, k + 1), b, alive && !SweepsAt(es, k, e0.timeout), e0, e2)
  {
    hide TableAt, LeavesPair, AskedOn, StateAt, Apply, KeyOf;
    if es[k].Line? && AskedOn(es, k, es[k].fd).Some? {
      RequestLeaves(es, k, es[k].fd, b, 0);
      RequestLeaves(es, k, es[k].fd, b, 2);
    } else {
      EventLeaves(es, k);
      if es[k].Sweep? { SweepHolds(TableAt(es, k), es[k].now, b, alive, e0, e2); }
    }
  }

  /** The life of a password, exactly.  An EXEC for which nothing was cached, on a connection whose
      last PASS said p and t, has stored p; and as long as nothing but sweeps touches what it stored,
      the store has p for every EXEC with the same key and an environment that compares equal, and
      nothing for any other, until the first sweep at or after the end of that PASS's t, counted from
      the EXEC on.  From then on it has nothing. */
  lemma PasswordLives(es: seq<Event>, m: nat, n: nat, fd: nat, r: Request, p: Bytes, t: int, env: seq<Bytes>)
    requires m < n <= |es| && AskedOn(es, m, fd) == Some(r) && r.Exec?
    requires LastOf(es, m, fd, PassField) == Some(SetPass(p, t))
    requires InCache(TableAt(es, m), BodyAt(es, m, fd, r.user, r.command), r.env).None?
    requires forall k | m < k < n :: LeavesPair(es, k, BodyAt(es, m, fd, r.user, r.command))
    ensures es[m].Line?
    ensures
      InCache(TableAt(es, n), BodyAt(es, m, fd, r.user, r.command), env) ==
        if Unswept(es, m, n, EndOfLife(t, es[m].tick.now)) && EnvCheck(env) == EnvCheck(r.env) then Some(p) else None
  {
    hide TableAt, LeavesPair, AskedOn, StateAt, KeyOf, LastOf, BodyAt, EnvCheck, Unswept, EndOfLife;
    var b := BodyAt(es, m, fd, r.user, r.command);
    ExecStores(es, m, fd, r);
    var until: UInt := EndOfLife(t, es[m].tick.now);
    var e0, e2 := Entry(p, [], until), Entry(EnvCheck(r.env), [], until);
    KeysAreDistinct(0, b, 2, b);
    PairLives(es, m, n, b, e0, e2);
  }

  /** Where a cached password comes from: the last PASS of the connection of an earlier EXEC, if no
      DELS of the run can cut pairs apart. */
  lemma CachedIsAPass(es: seq<Event>, n: nat, fd: nat, r: Request, p: Bytes) returns (m: nat, r1: Request, t: int)
    requires n < |es| && AskedOn(es, n, fd) == Some(r) && r.Exec? && NoCut(es, n)
    requires InCache(TableAt(es, n), BodyAt(es, n, fd, r.user, r.command), r.env) == Some(p)
    ensures m < n && es[m].Line? && AskedOn(es, m, es[m].fd) == Some(r1) && r1.Exec?
    ensures LastOf(es, m, es[m].fd, PassField) == Some(SetPass(p, t))
    ensures BodyAt(es, m, es[m].fd, r1.user, r1.command) == BodyAt(es, n, fd, r.user, r.command)
    ensures SameEnvironment(r1.env, r.env)
    ensures Unswept(es, m, n, EndOfLife(t, es[m].tick.now))
  {
    hide StateAt, RequestOf, LastOf, InCache, UserAt, HostAt, EnvCheck, KeyBody, Origin, ForEnvironment, AskedOn,
      EndOfLife, Unswept, AuthUser, SameEnvironment;
    var tick := Effect(es, n, fd);
    FieldsHere(es, n, fd);
    var c := ConnAt(StateAt(START, es, n), fd).value;
    SameCache(c, TableAt(es, n), r.user, r.command, r.env);
    CacheServesOnlyWhatWasStored(es, n, c, r.user, r.command, r.env, p);
    m :| 0 <= m < n
      && Origin(es, m, n, KeyBody(c.host, AuthUser(c, r.user), r.command), EnvCheck(r.env), p)
      && ForEnvironment(StateAt(START, es, m), es[m], r.env);
    r1, t := OriginIsAPass(es, m, n, KeyBody(c.host, AuthUser(c, r.user), r.command), EnvCheck(r.env), p, r.env);
  }

  lemma OriginIsAPass(es: seq<Event>, m: nat, n: nat, b: Bytes, envCheck: Bytes, p: Bytes, env: seq<Bytes>)
      returns (r1: Request, t: int)
    requires m < n < |es| && Origin(es, m, n, b, envCheck, p) && ForEnvironment(StateAt(START, es, m), es[m], env)
    ensures es[m].Line? && AskedOn(es, m, es[m].fd) == Some(r1) && r1.Exec?
    ensures LastOf(es, m, es[m].fd, PassField) == Some(SetPass(p, t))
    ensures BodyAt(es, m, es[m].fd, r1.user, r1.command) == b && SameEnvironment(r1.env, env)
    ensures Unswept(es, m, n, EndOfLife(t, es[m].tick.now))
  {
    hide StateAt, LastOf, EnvCheck, KeyBody, Deadline, EndOfLife, Cached, Parse, SameEnvironment;
    var d, e := StateAt(START, es, m), es[m];
    r1 := RequestOf(d, e).value;
    FieldsHere(es, m, e.fd);
    ParsedPassAt(es, m, e.fd);
    t := PassTimeoutAt(es, m, e.fd);
    EndIsDeadline(t, e.tick.now);
    assert ConnAt(d, e.fd).value.timeout == t;
  }

  /** Every program that EXEC starts is started with the argument p of a PASS: the last one of the
      connection of an EXEC for the same key and environment, which is this one itself or an earlier
      one; and no sweep between the two came at or after the end of the timeout t that this PASS gave,
      counted from that EXEC on.  (If no DELS of the run can cut the pairs of the cache apart: see
      DelsArgumentsExactly.) */
  lemma StartsWithAPass(es: seq<Event>, n: nat, fd: nat, r: Request) returns (m: nat, r1: Request, p: Bytes, t: int)
    requires n < |es| && AskedOn(es, n, fd) == Some(r) && r.Exec? && NoCut(es, n)
    requires PasswordFor(es, n, fd, r).Some?
    ensures es[n].Line? && (es[n].tick.fork > 0 ==> Starts(es, n, fd, r, p))
    ensures m <= n && es[m].Line? && AskedOn(es, m, es[m].fd) == Some(r1) && r1.Exec?
    ensures LastOf(es, m, es[m].fd, PassField) == Some(SetPass(p, t))
    ensures BodyAt(es, m, es[m].fd, r1.user, r1.command) == BodyAt(es, n, fd, r.user, r.command)
    ensures SameEnvironment(r1.env, r.env)
    ensures Unswept(es, m, n, EndOfLife(t, es[m].tick.now))
  {
    hide StateAt, TableAt, LastOf, InCache, BodyAt, AskedOn, EndOfLife, Starts, AnswersWith, StartsNothing, SameEnvironment,
      SweepsAt;
    ExecIsExact(es, n, fd, r);
    var cached := InCache(TableAt(es, n), BodyAt(es, n, fd, r.user, r.command), r.env);
    if cached.Some? {
      p := cached.value;
      m, r1, t := CachedIsAPass(es, n, fd, r, p);
    } else {
      m, r1, p, t := n, r, PassAt(es, n, fd).value, PassTimeoutAt(es, n, fd);
      IsLine(es, n, fd);
      SameAsItself(r.env);
    }
  }

  lemma SameAsItself(env: seq<Bytes>)
    ensures SameEnvironment(env, env)
  {
  }
}
