/** How long an entry of the store lives, in terms of the events of a run (src/kdesud/repo.cpp:25-38,
    151-176), and the life of a variable from SET to GET. */
module Lifetimes {
  import opened ByteStrings
  import opened Client
  import opened TimedMap
  import opened Session
  import opened Daemon
  import opened Connections
  import opened Replies

  /** Event k is a sweep of the running daemon at or after this time. */
  predicate SweepsAt(es: seq<Event>, k: nat, until: int)
    requires k < |es|
  {
    es[k].Sweep? && StateAt(START, es, k).running && until <= es[k].now
  }

  /** An entry of the pair before and after an event. */
  predicate SameUnder(t: Table, t1: Table, key: Bytes)
  {
    (key in t1 <==> key in t) && (key in t ==> t1[key] == t[key])
  }

  predicate Unswept(es: seq<Event>, m: nat, n: nat, until: int)
    requires n <= |es|
  {
    forall k | m < k < n :: !SweepsAt(es, k, until)
  }

  lemma UnsweptStep(es: seq<Event>, m: nat, n: nat, until: int)
    requires m < n <= |es|
    ensures n == m + 1 ==> Unswept(es, m, n, until)
    ensures n > m + 1 ==> (Unswept(es, m, n, until) <==> Unswept(es, m, n - 1, until) && !SweepsAt(es, n - 1, until))
  {
    hide SweepsAt;
  }

  lemma IsLine(es: seq<Event>, k: nat, fd: nat)
    requires k < |es| && AskedOn(es, k, fd).Some?
    ensures es[k].Line? && es[k].fd == fd
  {
  }

  /** What is not a request leaves the store alone, unless it is a sweep. */
  lemma EventLeaves(es: seq<Event>, k: nat)
    requires k < |es| && (es[k].Line? ==> AskedOn(es, k, es[k].fd).None?)
    ensures
      TableAt(es, k + 1) ==
        if es[k].Sweep? && StateAt(START, es, k).running then Apply(TableAt(es, k), OpExpire(es[k].now))
        else TableAt(es, k)
  {
    hide Step, Apply, RequestOf;
    NextState(es, k);
    StoreStep(StateAt(START, es, k), es[k]);
    RunFew(TableAt(es, k), OpRemove([]), OpRemove([]));
    NoRequest(StateAt(START, es, k), es[k]);
    if es[k].Sweep? { RunFew(TableAt(es, k), OpExpire(es[k].now), OpExpire(es[k].now)); }
  }

  lemma NoRequest(d: Daemon, e: Event)
    ensures !e.Line? ==> RequestOf(d, e).None?
  {
  }

  // ---------------------------------------------------------------- variables

  /** Event k does not set this variable again or delete it by its name, by its group or with DELS. */
  predicate LeavesVariable(es: seq<Event>, k: nat, name: Bytes, e: Entry)
    requires k < |es|
  {
    es[k].Line? ==>
      match AskedOn(es, k, es[k].fd)
      case Some(SetVar(n, _, _, _)) => n != name
      case Some(DelVar(n)) => n != name
      case Some(DelGroup(g)) => g == [] || g != e.group
      case Some(DelVars(s)) => !Meant(VariableKey(name), e, s)
      case _ => true
  }

  /** The variable is there, with this entry, or it is not. */
  predicate Has(t: Table, name: Bytes, alive: bool, e: Entry)
  {
    (VariableKey(name) in t <==> alive) && (alive ==> t[VariableKey(name)] == e)
  }

  lemma RequestLeavesVariable(es: seq<Event>, k: nat, fd: nat, name: Bytes, alive: bool, e: Entry)
    requires k < |es| && AskedOn(es, k, fd).Some? && LeavesVariable(es, k, name, e)
    requires Has(TableAt(es, k), name, alive, e)
    ensures Has(TableAt(es, k + 1), name, alive, e)
  {
    hide StateAt, TableAt, RequestOf, LastOf, HostAt, KeyOf, AnswersWith, KeyBody, EndOfLife, HasEntryOf, Meant;
    IsLine(es, k, fd);
    match AskedOn(es, k, fd).value {
      case Exec(_, _, _, _) => ExecLeavesVariable(es, k, fd, name);
      case DelCommand(cmd, u) =>
        DelIsExact(es, k, fd, cmd, u);
        KeysAreDistinct(0, KeyBody(HostAt(es, k, fd), u, cmd), 1, KeyBody(name, [], []));
      case SetVar(n, v, g, d) =>
        SetIsExact(es, k, fd, n, v, g, d);
        OtherVariable(n, name);
      case DelVar(n) =>
        DelVarIsExact(es, k, fd, n);
        OtherVariable(n, name);
      case DelGroup(g) => GroupsAreExact(es, k, fd, g);
      case FindGroup(g) => GroupsAreExact(es, k, fd, g);
      case DelVars(s) => DelsIsExact(es, k, fd, s);
      case GetVar(n) => LookupsAreExact(es, k, fd, n);
      case GetKeys(g) => LookupsAreExact(es, k, fd, g);
      case _ => OthersAnswerOk(es, k, fd);
    }
  }

  lemma OtherVariable(n: Bytes, name: Bytes)
    ensures n != name ==> VariableKey(n) != VariableKey(name)
  {
    hide MakeKey, KeyOf;
    VarKeysAreDistinct(n, name);
    MakeKeyIsKeyOf(1, n, [], []);
    MakeKeyIsKeyOf(1, name, [], []);
  }

  lemma ExecLeavesVariable(es: seq<Event>, k: nat, fd: nat, name: Bytes)
    requires k < |es| && AskedOn(es, k, fd).Some? && AskedOn(es, k, fd).value.Exec?
    ensures SameUnder(TableAt(es, k), TableAt(es, k + 1), VariableKey(name))
  {
    hide Perform, StateAt, AskedOn, TableAt;
    var tick := Effect(es, k, fd);
    PerformLeavesVariable(ConnAt(StateAt(START, es, k), fd).value, TableAt(es, k), AskedOn(es, k, fd).value, tick, name);
  }

  lemma PerformLeavesVariable(c: Conn, t: Table, r: Request, tick: Tick, name: Bytes)
    requires r.Exec?
    ensures SameUnder(t, Perform(c, t, r, tick).table, VariableKey(name))
  {
    hide Cached, EnvCheck, AuthUser, MakeKey, Deadline, Forking;
    var b := KeyBody(c.host, AuthUser(c, r.user), r.command);
    MakeKeyIsKeyOf(0, c.host, AuthUser(c, r.user), r.command);
    MakeKeyIsKeyOf(2, c.host, AuthUser(c, r.user), r.command);
    KeysAreDistinct(0, b, 1, KeyBody(name, [], []));
    KeysAreDistinct(2, b, 1, KeyBody(name, [], []));
  }

  lemma SweepTakesVariable(t: Table, now: UInt, name: Bytes, alive: bool, e: Entry)
    requires Has(t, name, alive, e)
    ensures Has(Apply(t, OpExpire(now)), name, alive && now < e.timeout, e)
  {
  }

  lemma VariableStep(es: seq<Event>, k: nat, name: Bytes, alive: bool, e: Entry)
    requires k < |es| && Has(TableAt(es, k), name, alive, e) && LeavesVariable(es, k, name, e)
    ensures Has(TableAt(es, k + 1), name, alive && !SweepsAt(es, k, e.timeout), e)
  {
    hide TableAt, LeavesVariable, AskedOn, StateAt, Apply, VariableKey, Has;
    if es[k].Line? && AskedOn(es, k, es[k].fd).Some? {
      RequestLeavesVariable(es, k, es[k].fd, name, alive, e);
    } else {
      EventLeaves(es, k);
      if es[k].Sweep? { SweepTakesVariable(TableAt(es, k), es[k].now, name, alive, e); }
    }
  }

  lemma {:induction false} VariableIsThere(es: seq<Event>, m: nat, n: nat, name: Bytes, e: Entry)
    requires m < n <= |es| && Has(TableAt(es, m + 1), name, true, e)
    requires forall k | m < k < n :: LeavesVariable(es, k, name, e)
    ensures Has(TableAt(es, n), name, Unswept(es, m, n, e.timeout), e)
  {
    hide TableAt, LeavesVariable, Has, AskedOn, SweepsAt, Unswept;
    UnsweptStep(es, m, n, e.timeout);
    if n > m + 1 {
      VariableIsThere(es, m, n - 1, name, e);
      VariableStep(es, n - 1, name, Unswept(es, m, n - 1, e.timeout), e);
    }
  }

  /** The life of a variable, exactly.  After SET, as long as nothing but sweeps touches it, GET is
      answered with the value until the first sweep at or after the end of its timeout, counted from
      the SET on, and with NO from then on; for ever if the timeout is 0 and the clock does not reach
      its last value.  (A variable that was set to nothing is answered NO all along.) */
  lemma VariableLives(
      es: seq<Event>, m: nat, n: nat, a: nat, b: nat, name: Bytes, value: Bytes, group: Bytes, timeout: int)
    requires m < n < |es|
    requires AskedOn(es, m, a) == Some(SetVar(name, value, group, timeout)) && AskedOn(es, n, b) == Some(GetVar(name))
    ensures es[m].Line? && 0 <= EndOfLife(timeout, es[m].tick.now) <= UINT_MAX
    ensures
      var until := EndOfLife(timeout, es[m].tick.now);
      (forall k | m < k < n :: LeavesVariable(es, k, name, Entry(value, group, until))) ==>
        AnswersWith(es, n, b, TextReply(if Unswept(es, m, n, until) then value else []))
  {
    hide TableAt, LeavesVariable, AskedOn, StateAt, VariableKey, AnswersWith, Unswept, EndOfLife;
    SetIsExact(es, m, a, name, value, group, timeout);
    LookupsAreExact(es, n, b, name);
    var e := Entry(value, group, EndOfLife(timeout, es[m].tick.now));
    if forall k | m < k < n :: LeavesVariable(es, k, name, e) { VariableIsThere(es, m, n, name, e); }
  }
}
