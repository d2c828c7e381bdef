/** What a connection's fields are, in terms of the requests that came on it, and what each request
    is answered (src/kdesud/handler.cpp:172-528): a reading of whole runs that does not look at the
    effect of a single command. */
module Connections {
  import opened ByteStrings
  import opened Lexer
  import opened Client
  import opened Grammar
  import opened TimedMap
  import opened Groups
  import opened Session
  import opened Daemon

  /** The request that event k makes on this connection. */
  function AskedOn(es: seq<Event>, k: nat, fd: nat): Option<Request>
    requires k < |es|
  {
    if es[k].Line? && es[k].fd == fd then RequestOf(StateAt(START, es, k), es[k]) else None
  }

  /** The four commands that set something for later ones. */
  datatype Field = PassField | HostField | PriorityField | SchedulerField

  predicate Sets(r: Request, f: Field)
  {
    match f
    case PassField => r.SetPass?
    case HostField => r.SetHost?
    case PriorityField => r.SetPriority?
    case SchedulerField => r.SetScheduler?
  }

  predicate SetBy(es: seq<Event>, k: nat, fd: nat, f: Field)
    requires k < |es|
  {
    AskedOn(es, k, fd).Some? && Sets(AskedOn(es, k, fd).value, f)
  }

  predicate Opens(e: Event, fd: nat) { e.Accept? && e.fd == fd }

  /** The last request of the kind since the connection was opened. */
  function LastOf(es: seq<Event>, n: nat, fd: nat, f: Field): Option<Request>
    requires n <= |es|
  {
    if n == 0 || Opens(es[n - 1], fd) then None
    else if SetBy(es, n - 1, fd, f) then AskedOn(es, n - 1, fd)
    else LastOf(es, n - 1, fd, f)
  }

  /** Event m is such a request, and since then there is none and the connection is the same. */
  predicate IsLast(es: seq<Event>, m: nat, n: nat, fd: nat, f: Field)
    requires n <= |es|
  {
    m < n && SetBy(es, m, fd, f) && forall k | m < k < n :: !SetBy(es, k, fd, f) && !Opens(es[k], fd)
  }

  lemma {:induction false} LastOfMeans(es: seq<Event>, n: nat, fd: nat, f: Field)
    requires n <= |es|
    ensures forall m: nat | m < n && IsLast(es, m, n, fd, f) :: LastOf(es, n, fd, f) == AskedOn(es, m, fd)
    ensures LastOf(es, n, fd, f).Some? ==> exists m: nat | m < n :: IsLast(es, m, n, fd, f)
  {
    hide AskedOn, Sets, Opens, SetBy;
    if n > 0 { NothingAskedAtOpening(es, n - 1, fd, f); }
    if n > 0 && !Opens(es[n - 1], fd) {
      if SetBy(es, n - 1, fd, f) {
        assert IsLast(es, n - 1, n, fd, f);
      } else {
        LastOfMeans(es, n - 1, fd, f);
        assert forall m: nat | m < n - 1 :: IsLast(es, m, n, fd, f) <==> IsLast(es, m, n - 1, fd, f);
        if LastOf(es, n - 1, fd, f).Some? {
          var m: nat :| m < n - 1 && IsLast(es, m, n - 1, fd, f);
          assert IsLast(es, m, n, fd, f);
        }
      }
    }
  }

  lemma NothingAskedAtOpening(es: seq<Event>, k: nat, fd: nat, f: Field)
    requires k < |es|
    ensures Opens(es[k], fd) ==> !SetBy(es, k, fd, f)
  {
  }

  // ---------------------------------------------------------------- fields

  /** The fields are the arguments of the last commands that set them, and the defaults without. */
  predicate AsAsked(c: Conn, pass: Option<Request>, host: Option<Request>, prio: Option<Request>, sched: Option<Request>)
  {
    && (match pass
        case Some(SetPass(p, t)) => c.pass == Some(p) && c.timeout == t
        case _ => c.pass == None && c.timeout == 0)
    && c.host == HostAsked(host)
    && c.priority == PriorityAsked(prio)
    && c.scheduler == SchedulerAsked(sched)
  }

  function HostAsked(r: Option<Request>): Bytes
  {
    match r
    case Some(SetHost(h)) => h
    case _ => []
  }

  function PriorityAsked(r: Option<Request>): int
  {
    match r
    case Some(SetPriority(n)) => n
    case _ => 50
  }

  function SchedulerAsked(r: Option<Request>): int
  {
    match r
    case Some(SetScheduler(n)) => n
    case _ => 0
  }

  /** The same, at a point of a run. */
  predicate FieldsAsAsked(c: Conn, es: seq<Event>, n: nat, fd: nat)
    requires n <= |es|
  {
    AsAsked(c, LastOf(es, n, fd, PassField), LastOf(es, n, fd, HostField), LastOf(es, n, fd, PriorityField),
            LastOf(es, n, fd, SchedulerField))
  }

  /** A number of a request is a C int and not negative. */
  lemma ParsedPass(line: Bytes)
    requires Parse(line).Command? && Parse(line).request.SetPass?
    ensures 0 <= Parse(line).request.passTimeout <= INT_MAX
  {
    hide Lex, TakeStr, TakeNum, AtEnd, TakeEnv, ToInt;
  }

  function Later(last: Option<Request>, r: Request, f: Field): Option<Request>
  {
    if Sets(r, f) then Some(r) else last
  }

  /** One request and the fields. */
  lemma RequestSets(
      c: Conn, t: Table, r: Request, tick: Tick,
      pass: Option<Request>, host: Option<Request>, prio: Option<Request>, sched: Option<Request>)
    requires AsAsked(c, pass, host, prio, sched)
    requires r.SetPass? ==> 0 <= r.passTimeout <= INT_MAX
    ensures AsAsked(Perform(c, t, r, tick).conn, Later(pass, r, PassField), Later(host, r, HostField),
                    Later(prio, r, PriorityField), Later(sched, r, SchedulerField))
  {
    hide Perform;
    RequestChanges(c, t, r, tick);
  }

  /** Each of the four commands changes its own fields, and no other command does. */
  lemma RequestChanges(c: Conn, t: Table, r: Request, tick: Tick)
    ensures
      var c1 := Perform(c, t, r, tick).conn;
      && c1.pass == (if r.SetPass? then Some(r.password) else c.pass)
      && c1.timeout == (if r.SetPass? then ToUInt(r.passTimeout) else c.timeout)
      && c1.host == (if r.SetHost? then r.host else c.host)
      && c1.priority == (if r.SetPriority? then r.priority else c.priority)
      && c1.scheduler == (if r.SetScheduler? then r.scheduler else c.scheduler)
  {
    hide Cached, Remember, LaunchOf, Answer, FindKeys, HasGroup, MakeKey, VarKey, Apply, Add, ToUInt, Find, PerformExec;
    if r.Exec? { ExecChanges(c, t, r, tick); }
  }

  lemma ExecChanges(c: Conn, t: Table, r: Request, tick: Tick)
    requires r.Exec?
    ensures
      var c1 := PerformExec(c, t, r, tick).conn;
      && c1.pass == c.pass && c1.timeout == c.timeout && c1.host == c.host && c1.priority == c.priority
      && c1.scheduler == c.scheduler
  {
    hide Cached, Remember, LaunchOf;
  }

  /** The connection that an event leaves behind. */
  lemma AfterEvent(d: Daemon, e: Event, fd: nat)
    requires Step(d, e).running && ConnAt(Step(d, e), fd).Some?
    ensures d.running
    ensures
      var c1 := ConnAt(Step(d, e), fd).value;
      if Opens(e, fd) then c1 == NEW_CONN
      else
        && ConnAt(d, fd).Some?
        && var c := ConnAt(d, fd).value;
        if e.Line? && e.fd == fd then
          && RequestOf(d, e).Some? && Parse(e.line) == Command(RequestOf(d, e).value)
          && c1 == Perform(c, d.table, RequestOf(d, e).value, e.tick).conn
        else c1 == c || (e.Reap? && c1 == Reaped(c, e.status))
  {
    hide Parse, Perform, Apply;
  }

  lemma ReapedSets(c: Conn, status: int, pass: Option<Request>, host: Option<Request>, prio: Option<Request>,
                   sched: Option<Request>)
    requires AsAsked(c, pass, host, prio, sched)
    ensures AsAsked(Reaped(c, status), pass, host, prio, sched)
  {
  }

  lemma LastUnfolds(es: seq<Event>, n: nat, fd: nat, f: Field)
    requires 0 < n <= |es|
    ensures LastOf(es, n, fd, f) ==
      if Opens(es[n - 1], fd) then None
      else if AskedOn(es, n - 1, fd).Some? then Later(LastOf(es, n - 1, fd, f), AskedOn(es, n - 1, fd).value, f)
      else LastOf(es, n - 1, fd, f)
  {
    hide AskedOn, Sets;
  }

  /** In every run: on every connection, password and timeout, host, priority and scheduler are the
      arguments of the last PASS, HOST, PRIO and SCHD since it was opened, and without one no
      password, no host, priority 50 and the normal scheduler. */
  lemma {:induction false} FieldsAreAsked(es: seq<Event>, n: nat, fd: nat)
    requires n <= |es| && StateAt(START, es, n).running && ConnAt(StateAt(START, es, n), fd).Some?
    ensures FieldsAsAsked(ConnAt(StateAt(START, es, n), fd).value, es, n, fd)
  {
    hide Step, Perform, Parse, AsAsked, Reaped, LastOf, RequestOf, Sets, Later;
    if n > 0 {
      var d, e := StateAt(START, es, n - 1), es[n - 1];
      AfterEvent(d, e, fd);
      LastUnfolds(es, n, fd, PassField);
      LastUnfolds(es, n, fd, HostField);
      LastUnfolds(es, n, fd, PriorityField);
      LastUnfolds(es, n, fd, SchedulerField);
      if Opens(e, fd) {
        NewIsAsAsked();
      } else {
        FieldsAreAsked(es, n - 1, fd);
        var c := ConnAt(d, fd).value;
        var pass, host := LastOf(es, n - 1, fd, PassField), LastOf(es, n - 1, fd, HostField);
        var prio, sched := LastOf(es, n - 1, fd, PriorityField), LastOf(es, n - 1, fd, SchedulerField);
        if e.Line? && e.fd == fd {
          var r := RequestOf(d, e).value;
          if r.SetPass? { ParsedPass(e.line); }
          RequestSets(c, d.table, r, e.tick, pass, host, prio, sched);
        } else if e.Reap? {
          ReapedSets(c, e.status, pass, host, prio, sched);
        }
      }
    }
  }

  lemma NewIsAsAsked()
    ensures AsAsked(NEW_CONN, None, None, None, None)
  {
  }

  /** EXEC authenticates as root if the last SCHD asked for another scheduler than the normal one or
      the last PRIO for more than 50, and as the user it names otherwise. */
  lemma RootIsAuthenticated(es: seq<Event>, n: nat, fd: nat, user: Bytes)
    requires n <= |es| && StateAt(START, es, n).running && ConnAt(StateAt(START, es, n), fd).Some?
    ensures
      var sched, prio := LastOf(es, n, fd, SchedulerField), LastOf(es, n, fd, PriorityField);
      AuthUser(ConnAt(StateAt(START, es, n), fd).value, user) ==
        if (sched.Some? && sched.value.SetScheduler? && sched.value.scheduler != 0)
           || (prio.Some? && prio.value.SetPriority? && prio.value.priority > 50)
        then [114, 111, 111, 116] else user
  {
    hide StateAt, LastOf;
    FieldsAreAsked(es, n, fd);
  }

  /** A connection is over when its client hangs up or a line of it is refused, and another one on
      the same descriptor begins with nothing. */
  lemma ConnectionEnds(d: Daemon, e: Event, fd: nat)
    requires d.running
    ensures (e.Hangup? || (e.Line? && !Parse(e.line).Command?)) && e.fd == fd ==> ConnAt(Step(d, e), fd).None?
    ensures e.Accept? && e.fd == fd ==> ConnAt(Step(d, e), fd) == Some(NEW_CONN)
  {
    hide Parse;
  }
}
