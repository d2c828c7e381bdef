/** From the EXEC of a client to the parameters of kdesu_stub: the child that the daemon forks
    (src/kdesud/handler.cpp:316-334, src/stubprocess.cpp:31-77), and what its conversation with the
    stub conveys (src/stubprocess.cpp:117-222). */
module Parameters {
  import opened ByteStrings
  import opened Quoting
  import opened StubWords
  import opened StubProcess
  import opened Stub
  import opened StubConversation
  import opened Lexer
  import opened Client
  import opened Grammar
  import opened TimedMap
  import opened Session
  import opened Daemon
  import opened PasswordCache
  import opened Connections
  import opened Replies
  import opened Launches

  const LETTER_X: Byte := 120

  /** setPriority(). */
  function Clamped(priority: int): int
  {
    if priority > 100 then 100 else if priority < 0 then 0 else priority
  }

  /** The process object that the child sets up, with the defaults of StubProcess.  With ssh, display
      and cookie are the word no, and neither priority nor scheduler nor environment are set. */
  function ChildSettings(l: Launch, display: Bytes, displayAuth: Bytes, envPath: Bytes, ownPid: int): Settings
  {
    match l
    case SuLaunch(command, user, options, env, priority, scheduler, _) =>
      Settings(display, displayAuth, command, user, if LETTER_X in options then true else X_ONLY, Clamped(priority),
               scheduler, env, envPath, ownPid)
    case SshLaunch(command, user, _, _) =>
      Settings(NO_WORD, NO_WORD, command, user, X_ONLY, 50, 0, [], envPath, ownPid)
  }

  /** The default of m_XOnly. */
  const X_ONLY := true

  /** The object itself, which the child sets up step by step. */
  class Child {
    var command: Bytes
    var user: Bytes
    var xOnly: bool
    var priority: int
    var scheduler: int
    var env: seq<Bytes>

    constructor ()
      ensures command == [] && user == ROOT && xOnly && priority == 50 && scheduler == 0 && env == []
    {
      command, user, xOnly, priority, scheduler, env := [], ROOT, true, 50, 0, [];
    }

    method SetPriority(prio: int)
      modifies this`priority
      ensures 0 <= priority <= 100 && (0 <= prio <= 100 ==> priority == prio)
      ensures priority == Clamped(prio)
    {
      if prio > 100 {
        priority := 100;
      } else if prio < 0 {
        priority := 0;
      } else {
        priority := prio;
      }
    }

    /** The steps between fork() and exec(), on an object with its defaults. */
    method SetUp(l: Launch, display: Bytes, displayAuth: Bytes, envPath: Bytes, ownPid: int) returns (s: Settings)
      requires xOnly && priority == 50 && scheduler == 0 && env == []
      modifies this
      ensures s == ChildSettings(l, display, displayAuth, envPath, ownPid)
    {
      command := l.command;
      user := l.user;
      if l.SuLaunch? {
        if LETTER_X in l.options {
          xOnly := true;
        }
        SetPriority(l.priority);
        scheduler := l.scheduler;
        env := l.env;
        return Settings(display, displayAuth, command, user, xOnly, priority, scheduler, env, envPath, ownPid);
      }
      return Settings(NO_WORD, NO_WORD, command, user, xOnly, priority, scheduler, env, envPath, ownPid);
    }
  }

  // ---------------------------------------------------------------- each parameter

  /** PATH: without one leading ':', and behind the directories of the administrator if the user is
      root. */
  ghost predicate PathGiven(path: Bytes, user: Bytes, envPath: Bytes)
  {
    && (forall p: Bytes | envPath == [COLON] + p :: PathWith(path, user, p))
    && (envPath == [] || envPath[0] != COLON ==> PathWith(path, user, envPath))
  }

  predicate PathWith(path: Bytes, user: Bytes, p: Bytes)
  {
    if user != [114, 111, 111, 116] then path == p
    else if p == [] then path == ADMIN_PATH
    else path == ADMIN_PATH + [COLON] + p
  }

  /** Entry i is the last startup id of the environment. */
  predicate LastIdAt(env: seq<Bytes>, i: nat)
  {
    i < |env| && STARTUP_ID <= env[i] && forall k | i < k < |env| :: !(STARTUP_ID <= env[k])
  }

  /** The startup id: what the last such entry says, and 0 if there is none or it says nothing. */
  predicate StartupIdGiven(id: Bytes, env: seq<Bytes>)
  {
    && (forall i | 0 <= i < |env| && LastIdAt(env, i) :: STARTUP_ID + id == env[i] || (env[i] == STARTUP_ID && id == [ZERO]))
    && ((forall i | 0 <= i < |env| :: !LastIdAt(env, i)) ==> id == [ZERO])
  }

  predicate NumberGiven(text: Bytes, n: nat)
  {
    AllDigits(text) && DigitsValue(text) == n
  }

  /** The parameters of the stub, one by one, in terms of what the parent was set to. */
  ghost predicate Conveyed(params: seq<Bytes>, s: Settings)
    requires s.priority >= 0
  {
    && |params| == 10
    && params[0] == OK_WORD && params[1] == s.display && params[2] == s.displayAuth
    && CommandOf(params[3]) == s.command
    && PathGiven(params[4], s.user, s.envPath)
    && params[5] == (if s.xOnly then NO_WORD else YES)
    && params[6] == s.user
    && NumberGiven(params[7], s.priority)
    && params[8] == (if s.scheduler == 1 then REALTIME else NORMAL)
    && StartupIdGiven(params[9], s.env)
  }

  lemma PathIsGiven(s: Settings)
    ensures PathGiven(PathValue(s), s.user, s.envPath)
  {
    hide ADMIN_PATH;
    var p := PathValue(s);
    assert s.envPath != [] ==> s.envPath == [s.envPath[0]] + s.envPath[1..];
    assert ADMIN_PATH + [] == ADMIN_PATH;
    forall q: Bytes | s.envPath == [COLON] + q ensures PathWith(p, s.user, q)
    {
      assert s.envPath[1..] == q;
      Associate(ADMIN_PATH, [COLON], q);
    }
    if s.envPath == [] || s.envPath[0] != COLON { Associate(ADMIN_PATH, [COLON], s.envPath); }
  }

  lemma IdAt(e: Bytes)
    ensures STARTUP_ID <= e <==> StartsWith(e, STARTUP_ID)
    ensures StartsWith(e, STARTUP_ID) ==> e == STARTUP_ID + e[|STARTUP_ID|..]
  {
    if STARTUP_ID <= e { assert e[0..|STARTUP_ID|] == STARTUP_ID; }
    if StartsWith(e, STARTUP_ID) { assert e == e[0..|STARTUP_ID|] + e[|STARTUP_ID|..]; }
  }

  lemma {:induction false} LastIdIsFound(env: seq<Bytes>) returns (found: bool, i: nat)
    ensures found ==> LastIdAt(env, i) && env[i] == STARTUP_ID + LastStartupId(env)
    ensures !found ==> LastStartupId(env) == [] && forall k | 0 <= k < |env| :: !(STARTUP_ID <= env[k])
  {
    found, i := false, 0;
    if env != [] {
      var last := env[|env| - 1];
      IdAt(last);
      if StartsWith(last, STARTUP_ID) {
        found, i := true, |env| - 1;
      } else {
        found, i := LastIdIsFound(env[..|env| - 1]);
      }
    }
  }

  lemma IdIsGiven(env: seq<Bytes>)
    ensures StartupIdGiven(StartupId(env), env)
  {
    var found, i := LastIdIsFound(env);
    var id := LastStartupId(env);
    assert STARTUP_ID + [] == STARTUP_ID;
    forall k | 0 <= k < |env| && LastIdAt(env, k)
      ensures STARTUP_ID + StartupId(env) == env[k] || (env[k] == STARTUP_ID && StartupId(env) == [ZERO])
    {
      assert found && k == i;
    }
  }

  lemma ParamsAreConveyed(s: Settings)
    requires Sendable(s)
    ensures Conveyed(Params(s), s)
  {
    hide PathValue, StartupId, Encode, CommandOf, PathGiven, StartupIdGiven;
    CommandArrives(s);
    PathIsGiven(s);
    IdIsGiven(s.env);
    DigitsRoundTrip(s.priority);
  }

  /** What the stub has when the conversation is over, under every schedule that gives both parties
      enough turns: each parameter as said above, and the environment entry by entry. */
  lemma StubHasParameters(s: Settings, rounds: seq<seq<Party>>)
    requires Sendable(s)
    requires forall i | 0 <= i < |rounds| :: BothTurn(rounds[i])
    requires |rounds| >= EndOf(s, 0)
    ensures
      var y := RunRounds(s, 0, BEGIN, rounds);
      && y.parent == Done(0) && y.toStub == [] && y.toParent == []
      && y.stub.Complete? && y.stub.allEnv == s.env && Conveyed(y.stub.allParams, s)
  {
    hide RunRounds, EndOf, Conveyed, Params, Sendable, BothTurn;
    StubConversationAgrees(s, 0, rounds);
    ParamsAreConveyed(s);
  }

  // ---------------------------------------------------------------- from the client's EXEC on

  /** The program that event n has started on this connection. */
  function StartedAt(es: seq<Event>, n: nat, fd: nat): Option<Launch>
    requires n < |es|
  {
    match ConnAt(StateAt(START, es, n + 1), fd)
    case Some(c) => if c.launches == [] then None else Some(c.launches[|c.launches| - 1])
    case None => None
  }

  /** What the requests of the connection asked for has arrived: command and user always; priority,
      scheduler and environment only if no host was set.  The options of EXEC make no difference. */
  ghost predicate AsRequested(
      params: seq<Bytes>, env: seq<Bytes>, r: Request, host: Bytes, priority: int, scheduler: int)
    requires r.Exec? && priority >= 0
  {
    var local := host == [];
    && |params| == 10
    && CommandOf(params[3]) == r.command && params[6] == r.user && params[5] == NO_WORD
    && NumberGiven(params[7], if !local then 50 else if priority > 100 then 100 else priority)
    && params[8] == (if local && scheduler == 1 then REALTIME else NORMAL)
    && env == (if local then r.env else [])
    && (!local ==> params[1] == NO_WORD && params[2] == NO_WORD)
  }

  /** An EXEC, all the way: whatever came before it, on this and on other connections, if the daemon
      starts a program for it, then the stub that this program talks to ends up with the command and
      the user of the EXEC; and without a host also with its environment and with the priority and the
      scheduler of the last PRIO and SCHD, but with ssh with none of these.  (As far as the values can
      be sent at all: see Sendable.) */
  lemma ExecReachesStub(
      es: seq<Event>, n: nat, fd: nat, r: Request, display: Bytes, displayAuth: Bytes, envPath: Bytes, ownPid: int,
      rounds: seq<seq<Party>>)
    requires n < |es| && AskedOn(es, n, fd) == Some(r) && r.Exec?
    requires PasswordFor(es, n, fd, r).Some? && es[n].tick.fork > 0
    ensures PriorityAsked(LastOf(es, n, fd, PriorityField)) >= 0
    ensures StartedAt(es, n, fd).Some?
    ensures
      var s := ChildSettings(StartedAt(es, n, fd).value, display, displayAuth, envPath, ownPid);
      Sendable(s) && (forall i | 0 <= i < |rounds| :: BothTurn(rounds[i])) && |rounds| >= EndOf(s, 0) ==>
        var y := RunRounds(s, 0, BEGIN, rounds);
        && y.parent == Done(0) && y.stub.Complete?
        && AsRequested(y.stub.allParams, y.stub.allEnv, r, HostAt(es, n, fd),
                       PriorityAsked(LastOf(es, n, fd, PriorityField)), SchedulerAsked(LastOf(es, n, fd, SchedulerField)))
  {
    hide StateAt, AskedOn, LastOf, PasswordFor, RunRounds, EndOf, Sendable, BothTurn, HostAt, AnswersWith, CommandOf,
      Starts, StartedAt, StartedFor, ChildSettings, Conveyed, AsRequested;
    ExecIsExact(es, n, fd, r);
    PriorityIsNatural(es, n, fd);
    TheLaunch(es, n, fd, r, PasswordFor(es, n, fd, r).value);
    var l := StartedAt(es, n, fd).value;
    var s := ChildSettings(l, display, displayAuth, envPath, ownPid);
    if Sendable(s) && (forall i | 0 <= i < |rounds| :: BothTurn(rounds[i])) && |rounds| >= EndOf(s, 0) {
      NonNegative(l, display, displayAuth, envPath, ownPid);
      StubHasParameters(s, rounds);
      WhatIsConveyed(RunRounds(s, 0, BEGIN, rounds).stub.allParams, l, display, displayAuth, envPath, ownPid, r,
        HostAt(es, n, fd), PriorityAsked(LastOf(es, n, fd, PriorityField)),
        SchedulerAsked(LastOf(es, n, fd, SchedulerField)), PasswordFor(es, n, fd, r).value);
    }
  }

  lemma TheLaunch(es: seq<Event>, n: nat, fd: nat, r: Request, password: Bytes)
    requires n < |es| && r.Exec? && Starts(es, n, fd, r, password)
    ensures StartedAt(es, n, fd).Some?
    ensures StartedFor(StartedAt(es, n, fd).value, r, HostAt(es, n, fd), PriorityAsked(LastOf(es, n, fd, PriorityField)),
                       SchedulerAsked(LastOf(es, n, fd, SchedulerField)), password)
  {
    hide StateAt, HostAt, StartedFor;
  }

  lemma NonNegative(l: Launch, display: Bytes, displayAuth: Bytes, envPath: Bytes, ownPid: int)
    ensures ChildSettings(l, display, displayAuth, envPath, ownPid).priority >= 0
  {
  }

  lemma WhatIsConveyed(
      params: seq<Bytes>, l: Launch, display: Bytes, displayAuth: Bytes, envPath: Bytes, ownPid: int, r: Request,
      host: Bytes, priority: int, scheduler: int, password: Bytes)
    requires r.Exec? && priority >= 0 && StartedFor(l, r, host, priority, scheduler, password)
    requires
      var s := ChildSettings(l, display, displayAuth, envPath, ownPid);
      s.priority >= 0 && Conveyed(params, s)
    ensures
      AsRequested(params, ChildSettings(l, display, displayAuth, envPath, ownPid).env, r, host, priority, scheduler)
  {
    hide CommandOf, PathGiven, StartupIdGiven, NumberGiven;
  }

  lemma PriorityIsNatural(es: seq<Event>, n: nat, fd: nat)
    requires n <= |es|
    ensures PriorityAsked(LastOf(es, n, fd, PriorityField)) >= 0
  {
    hide StateAt, Parse;
    LastOfMeans(es, n, fd, PriorityField);
    if LastOf(es, n, fd, PriorityField).Some? {
      var m: nat :| m < n && IsLast(es, m, n, fd, PriorityField);
      ParsedPriority(es[m].line);
    }
  }

  lemma ParsedPriority(line: Bytes)
    requires Parse(line).Command? && Parse(line).request.SetPriority?
    ensures Parse(line).request.priority >= 0
  {
    hide Lex, TakeStr, TakeNum, AtEnd, TakeEnv, ToInt;
  }
}
