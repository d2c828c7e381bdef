/** Delivery of exit codes (src/kdesud/kdesud.cpp:474-493, src/kdesud/handler.cpp:113-124):
    what the handlers' flags do, against an observer that only looks at the events. */
module ExitCodes {
  import opened ByteStrings
  import opened Client
  import opened Grammar
  import opened TimedMap
  import opened Groups
  import opened Session
  import opened Daemon

  /** What an observer knows of one connection: the child started for it, the status with which
      that child was reaped, and whether the client has asked for it. */
  datatype Seen = Seen(child: Option<int>, status: Option<int>, asked: bool)

  const NOTHING := Seen(None, None, false)

  /** The child that an event starts for a connection, if any. */
  function ChildOf(d: Daemon, e: Event, fd: nat): Option<int>
  {
    match RequestOf(d, e)
    case None => None
    case Some(r) =>
      if r.Exec? && e.fd == fd && e.tick.fork > 0 && Authorised(ConnAt(d, fd).value, d.table, r)
      then Some(e.tick.fork) else None
  }

  predicate Authorised(c: Conn, t: Table, r: Request)
    requires r.Exec?
  {
    c.pass.Some? || Cached(c, t, r.user, r.command, r.env).Some?
  }

  predicate Asks(d: Daemon, e: Event, fd: nat)
  {
    RequestOf(d, e) == Some(ExitCode) && e.fd == fd
  }

  function Watch(s: Seen, d: Daemon, e: Event, fd: nat): Seen
  {
    if !d.running then s
    else if e.Accept? && e.fd == fd then NOTHING
    else if ChildOf(d, e, fd).Some? then s.(child := ChildOf(d, e, fd))
    else if Asks(d, e, fd) then s.(asked := true)
    else if e.Reap? && e.pid > 0 && s.child == Some(e.pid) && s.status.None? then s.(status := Some(e.status))
    else s
  }

  function Observed(es: seq<Event>, n: nat, fd: nat): Seen
    requires n <= |es|
  {
    if n == 0 then NOTHING else Watch(Observed(es, n - 1, fd), StateAt(START, es, n - 1), es[n - 1], fd)
  }

  /** The process id given by fork() belongs to no live child of a connection. */
  predicate FreshPid(d: Daemon, pid: int)
  {
    forall fd | 0 <= fd < |d.handler| && d.handler[fd].Some? :: d.handler[fd].value.pid != pid
  }

  /** The runs in question: forked process ids are fresh, and every connection starts at most
      one program and asks for an exit code at most once. */
  predicate OneEach(es: seq<Event>, n: nat)
    requires n <= |es|
  {
    forall i, fd: nat | 0 <= i < n && fd < |StateAt(START, es, i).handler| ::
      OneEachAt(StateAt(START, es, i), es[i], fd, Observed(es, i, fd))
  }

  predicate OneEachAt(d: Daemon, e: Event, fd: nat, s: Seen)
  {
    && (ChildOf(d, e, fd).Some? ==> s.child.None? && FreshPid(d, e.tick.fork))
    && (Asks(d, e, fd) ==> !s.asked)
  }

  /** The exit-code replies among all the replies of a connection. */
  function ExitReplies(log: seq<Reply>): seq<Reply>
  {
    if log == [] then []
    else ExitReplies(log[..|log| - 1]) + (if log[|log| - 1].ExitStatus? then [log[|log| - 1]] else [])
  }

  /** What the client has been told: the status, once, when it is known and was asked for. */
  function Due(s: Seen): seq<Reply>
  {
    if s.asked && s.status.Some? then [ExitStatus(s.status.value)] else []
  }

  /** A handler's fields agree with what was seen. */
  predicate Agrees(c: Conn, s: Seen)
  {
    && c.needExit == s.asked
    && c.hasExit == s.status.Some?
    && (s.status.Some? ==> c.exitCode == s.status.value && s.child.Some?)
    && c.pid == (if s.child.Some? && s.status.None? then s.child.value else 0)
    && (s.child.Some? ==> s.child.value > 0)
    && ExitReplies(c.log) == Due(s)
  }

  predicate PidsDistinct(d: Daemon)
  {
    forall i, j | 0 <= i < j < |d.handler| && d.handler[i].Some? && d.handler[j].Some? && d.handler[i].value.pid != 0 ::
      d.handler[i].value.pid != d.handler[j].value.pid
  }

  lemma OrdinaryReply(c: Conn, r: Reply, s: Seen)
    requires Agrees(c, s) && !r.ExitStatus?
    ensures Agrees(Answered(c, r), s)
  {
  }

  lemma ForkAgrees(c: Conn, e: Request, password: Bytes, fork: Forked, s: Seen)
    requires e.Exec? && Agrees(c, s) && (fork > 0 ==> s.child.None?)
    ensures Agrees(Forking(c, e, password, fork), if fork > 0 then s.(child := Some(fork)) else s)
  {
    hide LaunchOf;
    OrdinaryReply(c, No, s);
    var c1 := c.(launches := c.launches + [LaunchOf(c, e, password)]);
    OrdinaryReply(c1, Yes, s);
  }

  lemma ExecAgrees(c: Conn, t: Table, r: Request, tick: Tick, s: Seen)
    requires r.Exec? && Agrees(c, s)
    requires Authorised(c, t, r) && tick.fork > 0 ==> s.child.None?
    ensures Agrees(PerformExec(c, t, r, tick).conn,
                   if Authorised(c, t, r) && tick.fork > 0 then s.(child := Some(tick.fork)) else s)
  {
    hide Cached, Remember, Forking, Agrees, Answered;
    var cached := Cached(c, t, r.user, r.command, r.env);
    if cached.Some? {
      ForkAgrees(c, r, cached.value, tick.fork, s);
    } else if c.pass.Some? {
      ForkAgrees(c, r, c.pass.value, tick.fork, s);
    } else {
      OrdinaryReply(c, No, s);
    }
  }

  lemma AskAgrees(c: Conn, s: Seen)
    requires Agrees(c, s) && !s.asked
    ensures
      var c1 := c.(needExit := true);
      Agrees(if c.hasExit then Answered(c1, ExitStatus(c.exitCode)) else c1, s.(asked := true))
  {
  }

  /** The reaped child's handler: the status becomes known, and is sent if it was asked for. */
  lemma ReapAgrees(c: Conn, s: Seen, status: int)
    requires Agrees(c, s) && s.child.Some? && s.status.None?
    ensures Agrees(Reaped(c, status), s.(status := Some(status)))
  {
  }

  /** One request on its own connection: starts a child, asks, or changes nothing that counts. */
  lemma RequestAgrees(c: Conn, t: Table, r: Request, tick: Tick, s: Seen)
    requires Agrees(c, s)
    requires r.Exec? && Authorised(c, t, r) && tick.fork > 0 ==> s.child.None?
    requires r.ExitCode? ==> !s.asked
    ensures
      var s1 :=
        if r.Exec? && Authorised(c, t, r) && tick.fork > 0 then s.(child := Some(tick.fork))
        else if r.ExitCode? then s.(asked := true)
        else s;
      Agrees(Perform(c, t, r, tick).conn, s1)
  {
    hide PerformExec, Authorised, FindKeys, Answer, Apply, Add, HasGroup, Find, VarKey, MakeKey, Deletes, ExitReplies;
    match r {
      case Exec(_, _, _, _) => ExecAgrees(c, t, r, tick, s);
      case ExitCode => AskAgrees(c, s);
      case SetPass(p, d) => OrdinaryReply(c.(pass := Some(p), timeout := ToUInt(d)), Yes, s);
      case SetHost(h) => OrdinaryReply(c.(host := h), Yes, s);
      case SetPriority(n) => OrdinaryReply(c.(priority := n), Yes, s);
      case SetScheduler(n) => OrdinaryReply(c.(scheduler := n), Yes, s);
      case _ =>
        var log1 := Perform(c, t, r, tick).conn.log;
        OrdinaryReply(c, log1[|c.log|], s);
    }
  }

  // ---------------------------------------------------------------- the daemon

  ghost predicate AllAgree(es: seq<Event>, n: nat)
    requires n <= |es|
  {
    var d := StateAt(START, es, n);
    forall fd: nat | fd < |d.handler| && d.handler[fd].Some? :: Agrees(d.handler[fd].value, Observed(es, n, fd))
  }

  /** One event, seen from one descriptor. */
  lemma EventAgrees(d: Daemon, e: Event, fd: nat, s: Seen)
    requires ConnAt(d, fd).Some? ==> Agrees(ConnAt(d, fd).value, s)
    requires PidsDistinct(d)
    requires fd < |d.handler| ==> OneEachAt(d, e, fd, s)
    ensures ConnAt(Step(d, e), fd).Some? ==> Agrees(ConnAt(Step(d, e), fd).value, Watch(s, d, e, fd))
  {
    hide Parse, Perform, Authorised, ExitReplies, Reaped;
    assert Agrees(NEW_CONN, NOTHING) by { NewConnAgrees(); }
    match e {
      case Accept(_) =>
      case Hangup(_) =>
      case Sweep(_) =>
      case Line(f, line, tick) =>
        if f == fd && RequestOf(d, e).Some? {
          RequestAgrees(ConnAt(d, fd).value, d.table, RequestOf(d, e).value, tick, s);
        }
      case Reap(pid, status) =>
        if ConnAt(d, fd).Some? && pid > 0 { ReapSeenFrom(d, pid, status, fd, s); }
    }
  }

  lemma NewConnAgrees()
    ensures Agrees(NEW_CONN, NOTHING)
  {
  }

  lemma ReapSeenFrom(d: Daemon, pid: int, status: int, fd: nat, s: Seen)
    requires fd < |d.handler| && d.handler[fd].Some? && Agrees(d.handler[fd].value, s)
    requires PidsDistinct(d) && pid > 0
    ensures
      var c1 := ReapOne(d.handler, pid, status)[fd];
      c1.Some? && Agrees(c1.value, if s.child == Some(pid) && s.status.None? then s.(status := Some(status)) else s)
  {
    hide ExitReplies, Reaped;
    var j := FindPid(d.handler, pid, |d.handler|);
    if j == fd {
      ReapAgrees(d.handler[fd].value, s, status);
    }
  }

  lemma EventKeepsPidsDistinct(d: Daemon, e: Event, fds: seq<Seen>)
    requires PidsDistinct(d) && |fds| == |d.handler|
    requires forall fd: nat | fd < |d.handler| :: OneEachAt(d, e, fd, fds[fd])
    ensures PidsDistinct(Step(d, e))
  {
    hide Parse, Authorised, Perform;
    if d.running {
      if e.Line? && RequestOf(d, e).Some? {
        var c, r := ConnAt(d, e.fd).value, RequestOf(d, e).value;
        PidAfter(c, d.table, r, e.tick);
        assert OneEachAt(d, e, e.fd, fds[e.fd]);
      }
    }
  }

  /** A request changes the connection's child only by starting one. */
  lemma PidAfter(c: Conn, t: Table, r: Request, tick: Tick)
    ensures Perform(c, t, r, tick).conn.pid ==
      if r.Exec? && Authorised(c, t, r) && tick.fork > 0 then tick.fork else c.pid
  {
    hide Cached, Remember, FindKeys, Answer, Apply, Add, LaunchOf, HasGroup, Find, VarKey, MakeKey, Deletes;
  }

  function Sights(es: seq<Event>, n: nat, k: nat): (r: seq<Seen>)
    requires n <= |es|
    ensures |r| == k && forall fd: nat | fd < k :: r[fd] == Observed(es, n, fd)
  {
    if k == 0 then [] else Sights(es, n, k - 1) + [Observed(es, n, k - 1)]
  }

  /** The handlers agree with the observer throughout every such run. */
  lemma {:induction false} HandlersAgree(es: seq<Event>, n: nat)
    requires n <= |es| && OneEach(es, n)
    ensures PidsDistinct(StateAt(START, es, n))
    ensures AllAgree(es, n)
  {
    hide Step, Watch, OneEachAt, Agrees;
    if n > 0 {
      HandlersAgree(es, n - 1);
      var d, e := StateAt(START, es, n - 1), es[n - 1];
      EventKeepsPidsDistinct(d, e, Sights(es, n - 1, |d.handler|));
      forall fd: nat | ConnAt(StateAt(START, es, n), fd).Some?
        ensures Agrees(ConnAt(StateAt(START, es, n), fd).value, Observed(es, n, fd))
      {
        EventAgrees(d, e, fd, Observed(es, n - 1, fd));
      }
    }
  }

  /** Exit codes are delivered: in every such run, whatever the interleaving, at every moment each
      open connection has been sent exactly what is due to it, which is the status of its own
      child, once, if that child has been reaped and the client has asked, in whichever order. */
  lemma ExitCodesAreDelivered(es: seq<Event>, n: nat, fd: nat)
    requires n <= |es| && OneEach(es, n)
    requires ConnAt(StateAt(START, es, n), fd).Some?
    ensures ExitReplies(ConnAt(StateAt(START, es, n), fd).value.log) == Due(Observed(es, n, fd))
  {
    hide Step, Watch, OneEachAt, ExitReplies, Due;
    HandlersAgree(es, n);
  }
}
