/** What one command does to its connection and to the store: the effects of
    ConnectionHandler::doCommand (src/kdesud/handler.cpp) as a function. */
module Session {
  import opened ByteStrings
  import opened Client
  import opened Grammar
  import opened TimedMap
  import opened Groups

  datatype Reply = Yes | No | Value(text: Bytes) | ExitStatus(code: int)

  /** The bytes that respond() and sendExitCode() send. */
  function Render(r: Reply): Bytes
  {
    match r
    case Yes => OK + [NL]
    case No => NO + [NL]
    case Value(s) => OK + (if s == [] then [] else [SPACE] + s) + [NL]
    case ExitStatus(c) => OK + [SPACE] + SetNum(c) + [NL]
  }

  /** A child process forked for EXEC: su for a local command, ssh when a host is set. */
  datatype Launch =
    | SuLaunch(command: Bytes, user: Bytes, options: Bytes, env: seq<Bytes>, priority: int, scheduler: int, password: Bytes)
    | SshLaunch(command: Bytes, user: Bytes, host: Bytes, password: Bytes)

  /** The fields of a connection, with the replies sent and the children started so far. */
  datatype Conn = Conn(
    pass: Option<Bytes>, timeout: UInt, host: Bytes, priority: int, scheduler: int,
    pid: int, exitCode: int, hasExit: bool, needExit: bool,
    log: seq<Reply>, launches: seq<Launch>)

  const SCHED_NORMAL := 0

  const NEW_CONN := Conn(None, 0, [], 50, SCHED_NORMAL, 0, 0, false, false, [], [])

  /** What fork() returns to the parent: a process id, or a negative number on failure. */
  type Forked = p: int | p != 0 witness 1

  /** The outside world as one command sees it: the clock and the result of fork(). */
  datatype Tick = Tick(now: UInt, fork: Forked)

  datatype Outcome = Outcome(conn: Conn, table: Table, stopped: bool)

  function MakeKey(space: nat, s1: Bytes, s2: Bytes, s3: Bytes): (k: Bytes)
    ensures k != []
  {
    Digits(space) + [STAR] + (s1 + [STAR] + s2 + [STAR] + s3)
  }

  function VarKey(name: Bytes): Bytes { MakeKey(1, name, [], []) }

  /** The environment as it is compared: every entry but the startup id, each after a '*'. */
  function EnvCheck(env: seq<Bytes>): Bytes
  {
    if env == [] then []
    else (if StartsWith(env[0], STARTUP_ID) then [] else [STAR] + env[0]) + EnvCheck(env[1..])
  }

  function AuthUser(c: Conn, user: Bytes): Bytes
  {
    if c.scheduler != SCHED_NORMAL || c.priority > 50 then ROOT else user
  }

  function PassKey(c: Conn, user: Bytes, command: Bytes): Bytes { MakeKey(0, c.host, AuthUser(c, user), command) }

  function EnvKey(c: Conn, user: Bytes, command: Bytes): Bytes { MakeKey(2, c.host, AuthUser(c, user), command) }

  /** A null QByteArray equals an empty one. */
  function OrEmpty(b: Option<Bytes>): Bytes { if b.Some? then b.value else [] }

  /** The password that the cache has for this command in this environment. */
  function Cached(c: Conn, t: Table, user: Bytes, command: Bytes, env: seq<Bytes>): Option<Bytes>
  {
    if OrEmpty(Find(t, EnvKey(c, user, command))) == EnvCheck(env)
    then Find(t, PassKey(c, user, command))
    else None
  }

  /** EXEC stores two entries, the environment and the password; each add() reads the clock. */
  function RememberAt(c: Conn, t: Table, user: Bytes, command: Bytes, env: seq<Bytes>, password: Bytes,
                      now: UInt, later: UInt): Table
  {
    var t1 := Add(t, EnvKey(c, user, command), EnvCheck(env), [], c.timeout, now);
    Add(t1, PassKey(c, user, command), password, [], c.timeout, later)
  }

  /** Within one command the clock does not move: see Tick. */
  function Remember(c: Conn, t: Table, user: Bytes, command: Bytes, env: seq<Bytes>, password: Bytes, now: UInt): Table
  {
    RememberAt(c, t, user, command, env, password, now, now)
  }

  function Answered(c: Conn, r: Reply): Conn { c.(log := c.log + [r]) }

  function LaunchOf(c: Conn, e: Request, password: Bytes): Launch
    requires e.Exec?
  {
    if c.host == [] then SuLaunch(e.command, e.user, e.options, e.env, c.priority, c.scheduler, password)
    else SshLaunch(e.command, e.user, c.host, password)
  }

  function Forking(c: Conn, e: Request, password: Bytes, fork: Forked): Conn
    requires e.Exec?
  {
    if fork < 0 then Answered(c, No)
    else Answered(c.(pid := fork, launches := c.launches + [LaunchOf(c, e, password)]), Yes)
  }

  function PerformExec(c: Conn, t: Table, e: Request, tick: Tick): Outcome
    requires e.Exec?
  {
    var cached := Cached(c, t, e.user, e.command, e.env);
    if cached.Some? then Outcome(Forking(c, e, cached.value, tick.fork), t, false)
    else if c.pass.None? then Outcome(Answered(c, No), t, false)
    else
      var t1 := Remember(c, t, e.user, e.command, e.env, c.pass.value, tick.now);
      Outcome(Forking(c, e, c.pass.value, tick.fork), t1, false)
  }

  /** Commands that only delete: they answer by whether something was there. */
  function PerformDelete(c: Conn, t: Table, op: Op): Outcome
  {
    Outcome(Answered(c, if Answer(t, op) < 0 then No else Yes), Apply(t, op), false)
  }

  function PerformLookup(c: Conn, t: Table, text: Bytes): Outcome
  {
    Outcome(Answered(c, if text != [] then Value(text) else No), t, false)
  }

  function Perform(c: Conn, t: Table, r: Request, tick: Tick): Outcome
  {
    match r
    case SetPass(p, d) => Outcome(Answered(c.(pass := Some(p), timeout := ToUInt(d)), Yes), t, false)
    case SetHost(h) => Outcome(Answered(c.(host := h), Yes), t, false)
    case SetPriority(n) => Outcome(Answered(c.(priority := n), Yes), t, false)
    case SetScheduler(n) => Outcome(Answered(c.(scheduler := n), Yes), t, false)
    case Exec(_, _, _, _) => PerformExec(c, t, r, tick)
    case DelCommand(cmd, u) => PerformDelete(c, t, OpRemove(MakeKey(0, c.host, u, cmd)))
    case SetVar(n, v, g, d) => Outcome(Answered(c, Yes), Add(t, VarKey(n), v, g, ToUInt(d), tick.now), false)
    case GetVar(n) => PerformLookup(c, t, OrEmpty(Find(t, VarKey(n))))
    case GetKeys(g) => PerformLookup(c, t, FindKeys(t, g))
    case FindGroup(g) => Outcome(Answered(c, if HasGroup(t, g) then Yes else No), t, false)
    case DelVar(n) => PerformDelete(c, t, OpRemove(VarKey(n)))
    case DelGroup(g) => PerformDelete(c, t, OpRemoveGroup(g))
    case DelVars(k) => PerformDelete(c, t, OpRemoveSpecial(k))
    case Ping => Outcome(Answered(c, Yes), t, false)
    case ExitCode =>
      var c1 := c.(needExit := true);
      Outcome(if c.hasExit then Answered(c1, ExitStatus(c.exitCode)) else c1, t, false)
    case StopServer => Outcome(Answered(c, Yes), t, true)
  }

  /** int to unsigned int. */
  function ToUInt(n: int): UInt { n % 0x1_0000_0000 }

  /** The main loop has reaped the connection's child. */
  function Reaped(c: Conn, status: int): Conn
  {
    var c1 := c.(exitCode := status, hasExit := true, pid := 0);
    if c.needExit then Answered(c1, ExitStatus(status)) else c1
  }

  // ---------------------------------------------------------------- the lines of one recv

  /** Served: all lines were commands.  Dropped: a line was refused and the connection ends.
      Halted: the daemon was told to stop. */
  datatype Served =
    | Served(conn: Conn, table: Table)
    | Dropped(droppedTable: Table, log: seq<Reply>)
    | Halted(lastConn: Conn, lastTable: Table)

  function Serve(c: Conn, t: Table, lines: seq<Bytes>, tick: nat -> Tick, k: nat): Served
    decreases lines
  {
    if lines == [] then Served(c, t)
    else
      match Parse(lines[0])
      case Unknown => Dropped(t, c.log + [No])
      case Malformed => Dropped(t, c.log)
      case Command(r) =>
        var o := Perform(c, t, r, tick(k));
        if o.stopped then Halted(o.conn, o.table) else Serve(o.conn, o.table, lines[1..], tick, k + 1)
  }

  /** The same for a connection of the daemon's owner or of somebody else, whose first line is
      refused unread. */
  function ServeFor(owner: bool, c: Conn, t: Table, lines: seq<Bytes>, tick: nat -> Tick, k: nat): Served
  {
    if owner then Serve(c, t, lines, tick, k)
    else if lines == [] then Served(c, t)
    else Dropped(t, c.log)
  }
}
