/** Runs of the daemon (src/kdesud/kdesud.cpp:453-537): its connections, its store, and the
    events that its main loop handles one after the other. */
module Daemon {
  import opened ByteStrings
  import opened Client
  import opened Grammar
  import opened TimedMap
  import opened Groups
  import opened Session

  /** handler[fd] is the connection on that descriptor, or null. */
  datatype Daemon = Daemon(handler: seq<Option<Conn>>, table: Table, running: bool)

  const START := Daemon([], map[], true)

  datatype Event =
    | Accept(fd: nat)
    | Hangup(fd: nat)
    | Sweep(now: UInt)
    | Line(fd: nat, line: Bytes, tick: Tick)
    | Reap(pid: int, status: int)

  function ConnAt(d: Daemon, fd: nat): Option<Conn>
  {
    if fd < |d.handler| then d.handler[fd] else None
  }

  function Extend(h: seq<Option<Conn>>, n: nat): (r: seq<Option<Conn>>)
    ensures |r| == if |h| < n then n else |h|
    ensures forall i | 0 <= i < |r| :: r[i] == if i < |h| then h[i] else None
    decreases n - |h|
  {
    if |h| >= n then h else Extend(h + [None], n)
  }

  /** The search for a reaped child, from the last handler down. */
  function FindPid(h: seq<Option<Conn>>, pid: int, j: nat): (r: int)
    requires j <= |h|
    ensures -1 <= r < j
    ensures r >= 0 ==> h[r].Some? && h[r].value.pid == pid
    ensures forall i | r < i < j && h[i].Some? :: h[i].value.pid != pid
  {
    if j == 0 then -1
    else if h[j - 1].Some? && h[j - 1].value.pid == pid then j - 1
    else FindPid(h, pid, j - 1)
  }

  function ReapOne(h: seq<Option<Conn>>, pid: int, status: int): (r: seq<Option<Conn>>)
    ensures |r| == |h|
  {
    var j := FindPid(h, pid, |h|);
    if j < 0 then h else h[j := Some(Reaped(h[j].value, status))]
  }

  function StepLine(d: Daemon, fd: nat, line: Bytes, tick: Tick): Daemon
    requires fd < |d.handler| && d.handler[fd].Some?
  {
    match Parse(line)
    case Command(r) =>
      var o := Perform(d.handler[fd].value, d.table, r, tick);
      Daemon(d.handler[fd := Some(o.conn)], o.table, !o.stopped)
    case _ => d.(handler := d.handler[fd := None])
  }

  function Step(d: Daemon, e: Event): Daemon
  {
    if !d.running then d
    else
      match e
      case Accept(fd) => d.(handler := Extend(d.handler, fd + 1)[fd := Some(NEW_CONN)])
      case Hangup(fd) => if fd < |d.handler| then d.(handler := d.handler[fd := None]) else d
      case Sweep(now) => d.(table := Apply(d.table, OpExpire(now)))
      case Line(fd, line, tick) => if ConnAt(d, fd).Some? then StepLine(d, fd, line, tick) else d
      case Reap(pid, status) => if pid > 0 then d.(handler := ReapOne(d.handler, pid, status)) else d
  }

  /** The state before event number n of a run. */
  function StateAt(d: Daemon, es: seq<Event>, n: nat): Daemon
    requires n <= |es|
  {
    if n == 0 then d else Step(StateAt(d, es, n - 1), es[n - 1])
  }

  lemma NextState(es: seq<Event>, n: nat)
    requires n < |es|
    ensures StateAt(START, es, n + 1) == Step(StateAt(START, es, n), es[n])
  {
  }

  lemma {:induction false} WasRunning(d: Daemon, es: seq<Event>, i: nat, j: nat)
    requires i <= j <= |es| && StateAt(d, es, j).running
    ensures StateAt(d, es, i).running
  {
    hide Step;
    if i < j {
      RunsBefore(StateAt(d, es, j - 1), es[j - 1]);
      WasRunning(d, es, i, j - 1);
    }
  }

  lemma RunsBefore(d: Daemon, e: Event)
    requires Step(d, e).running
    ensures d.running
  {
  }

  // ---------------------------------------------------------------- the store of the daemon

  /** The request that an event makes, if it reaches a connection of a running daemon. */
  function RequestOf(d: Daemon, e: Event): Option<Request>
  {
    if d.running && e.Line? && ConnAt(d, e.fd).Some? && Parse(e.line).Command?
    then Some(Parse(e.line).request) else None
  }

  /** EXEC stores its password: nothing usable is cached and the connection has a password. */
  predicate Stores(c: Conn, t: Table, r: Request)
  {
    r.Exec? && Cached(c, t, r.user, r.command, r.env).None? && c.pass.Some?
  }

  /** The operations of the timed map that one request amounts to. */
  function RequestOps(c: Conn, t: Table, r: Request, now: UInt): seq<Op>
  {
    match r
    case Exec(cmd, u, _, env) =>
      if Stores(c, t, r) then
        [OpAdd(EnvKey(c, u, cmd), EnvCheck(env), [], c.timeout, now),
         OpAdd(PassKey(c, u, cmd), c.pass.value, [], c.timeout, now)]
      else []
    case DelCommand(cmd, u) => [OpRemove(MakeKey(0, c.host, u, cmd))]
    case SetVar(n, v, g, d) => [OpAdd(VarKey(n), v, g, ToUInt(d), now)]
    case DelVar(n) => [OpRemove(VarKey(n))]
    case DelGroup(g) => [OpRemoveGroup(g)]
    case DelVars(k) => [OpRemoveSpecial(k)]
    case _ => []
  }

  function OpsOf(d: Daemon, e: Event): seq<Op>
  {
    if d.running && e.Sweep? then [OpExpire(e.now)]
    else
      match RequestOf(d, e)
      case None => []
      case Some(r) => RequestOps(ConnAt(d, e.fd).value, d.table, r, e.tick.now)
  }

  lemma RunFew(t: Table, a: Op, b: Op)
    ensures Run(t, []) == t
    ensures Run(t, [a]) == Apply(t, a)
    ensures Run(t, [a, b]) == Apply(Apply(t, a), b)
  {
    assert [a][1..] == [] && [a, b][1..] == [b] && [b][1..] == [];
    assert Run(Apply(t, a), [b]) == Apply(Apply(t, a), b);
  }

  lemma RequestStep(c: Conn, t: Table, r: Request, tick: Tick)
    ensures Perform(c, t, r, tick).table == Run(t, RequestOps(c, t, r, tick.now))
  {
    hide Run, Cached, Forking, EnvKey, PassKey, EnvCheck, MakeKey, FindKeys, Answer;
    var ops := RequestOps(c, t, r, tick.now);
    RunFew(t, OpRemove([]), OpRemove([]));
    if |ops| == 1 {
      RunFew(t, ops[0], ops[0]);
      assert ops == [ops[0]];
    } else if |ops| == 2 {
      RunFew(t, ops[0], ops[1]);
      assert ops == [ops[0], ops[1]];
    } else {
      assert ops == [];
    }
  }

  /** Every event changes the store by its operations and by nothing else. */
  lemma StoreStep(d: Daemon, e: Event)
    ensures Step(d, e).table == Run(d.table, OpsOf(d, e))
  {
    hide Parse, Perform, Run, Apply;
    if d.running && e.Sweep? {
      RunFew(d.table, OpExpire(e.now), OpExpire(e.now));
    } else {
      RunFew(d.table, OpRemove([]), OpRemove([]));
      if RequestOf(d, e).Some? {
        RequestStep(ConnAt(d, e.fd).value, d.table, RequestOf(d, e).value, e.tick);
      }
    }
  }

  /** The operations of events number i to n - 1 of a run. */
  function OpsBetween(d: Daemon, es: seq<Event>, i: nat, n: nat): seq<Op>
    requires i <= n <= |es|
  {
    if i == n then [] else OpsBetween(d, es, i, n - 1) + OpsOf(StateAt(d, es, n - 1), es[n - 1])
  }

  /** The daemon's store over any stretch of any run is the timed map run by those operations. */
  lemma {:induction false} StoreRun(d: Daemon, es: seq<Event>, i: nat, n: nat)
    requires i <= n <= |es|
    ensures StateAt(d, es, n).table == Run(StateAt(d, es, i).table, OpsBetween(d, es, i, n))
  {
    hide Step, OpsOf, Run, Apply;
    if i == n {
      RunFew(StateAt(d, es, n).table, OpRemove([]), OpRemove([]));
    } else {
      StoreRun(d, es, i, n - 1);
      StoreStep(StateAt(d, es, n - 1), es[n - 1]);
      RunAppend(StateAt(d, es, i).table, OpsBetween(d, es, i, n - 1), OpsOf(StateAt(d, es, n - 1), es[n - 1]));
    }
  }

  lemma {:induction false} RunAppend(t: Table, a: seq<Op>, b: seq<Op>)
    ensures Run(t, a + b) == Run(Run(t, a), b)
    decreases |a|
  {
    if a == [] {
      assert a + b == b;
    } else {
      assert (a + b)[1..] == a[1..] + b;
      RunAppend(Apply(t, a[0]), a[1..], b);
    }
  }

  // ---------------------------------------------------------------- keys

  /** A store key is a digit that names its space, a '*', and a body. */
  function KeyOf(space: nat, body: Bytes): Bytes
    requires space < 10
  {
    [ZERO + space, STAR] + body
  }

  function KeyBody(s1: Bytes, s2: Bytes, s3: Bytes): Bytes { s1 + [STAR] + s2 + [STAR] + s3 }

  lemma MakeKeyIsKeyOf(space: nat, s1: Bytes, s2: Bytes, s3: Bytes)
    requires space < 10
    ensures MakeKey(space, s1, s2, s3) == KeyOf(space, KeyBody(s1, s2, s3))
  {
  }

  /** Keys of different spaces, and keys of one space with different bodies, never collide. */
  lemma KeysAreDistinct(a: nat, x: Bytes, b: nat, y: Bytes)
    requires a < 10 && b < 10
    ensures KeyOf(a, x) == KeyOf(b, y) <==> a == b && x == y
  {
    assert KeyOf(a, x)[0] == ZERO + a && KeyOf(a, x)[2..] == x;
    assert KeyOf(b, y)[0] == ZERO + b && KeyOf(b, y)[2..] == y;
  }

  /** Different variables have different keys, whatever bytes their names have. */
  lemma VarKeysAreDistinct(n: Bytes, m: Bytes)
    ensures VarKey(n) == VarKey(m) <==> n == m
  {
    MakeKeyIsKeyOf(1, n, [], []);
    MakeKeyIsKeyOf(1, m, [], []);
    KeysAreDistinct(1, KeyBody(n, [], []), 1, KeyBody(m, [], []));
    assert KeyBody(n, [], [])[..|KeyBody(n, [], [])| - 2] == n;
    assert KeyBody(m, [], [])[..|KeyBody(m, [], [])| - 2] == m;
  }

  /** Password keys name one host, user and command when host and user have no '*'. */
  lemma PassKeysAreInjective(h: Bytes, u: Bytes, c: Bytes, h': Bytes, u': Bytes, c': Bytes)
    requires STAR !in h && STAR !in u && STAR !in h' && STAR !in u'
    requires KeyBody(h, u, c) == KeyBody(h', u', c')
    ensures h == h' && u == u' && c == c'
  {
    SplitsAtStar(h, u + [STAR] + c, h', u' + [STAR] + c');
    assert KeyBody(h, u, c) == h + [STAR] + (u + [STAR] + c);
    assert KeyBody(h', u', c') == h' + [STAR] + (u' + [STAR] + c');
    SplitsAtStar(u, c, u', c');
  }

  lemma SplitsAtStar(a: Bytes, x: Bytes, b: Bytes, y: Bytes)
    requires STAR !in a && STAR !in b
    ensures a + [STAR] + x == b + [STAR] + y ==> a == b && x == y
  {
    IndexOfAppend(a, x, STAR);
    IndexOfAppend(b, y, STAR);
    var w := a + [STAR] + x;
    if w == b + [STAR] + y {
      assert a == w[..|a|] && x == w[|a| + 1..];
      assert b == w[..|b|] && y == w[|b| + 1..];
    }
  }

  /** No other host, user and command have this key. */
  ghost predicate KeyIsItsOwn(h: Bytes, u: Bytes, c: Bytes)
  {
    forall h': Bytes, u': Bytes, c': Bytes | KeyBody(h', u', c') == KeyBody(h, u, c) ::
      h' == h && u' == u && c' == c
  }

  /** Keys of the password cache, exactly: a host, user and command have a key of their own if and
      only if none of the three contains a '*'. */
  lemma KeyIsItsOwnExactly(h: Bytes, u: Bytes, c: Bytes)
    ensures KeyIsItsOwn(h, u, c) <==> STAR !in h && STAR !in u && STAR !in c
  {
    hide KeyBody, IndexOf;
    if STAR in h {
      var p := IndexOf(h, STAR);
      CutAt(h, p);
      MovesIntoUser(h[..p], h[p + 1..], u, c);
      assert |h[..p]| != |h|;
    } else if STAR in u {
      var p := IndexOf(u, STAR);
      CutAt(u, p);
      MovesIntoUser(h, u[..p], u[p + 1..], c);
      assert |h + [STAR] + u[..p]| != |h|;
    } else if STAR in c {
      var p := IndexOf(c, STAR);
      CutAt(c, p);
      MovesIntoCommand(h, u, c[..p], c[p + 1..]);
      assert |u + [STAR] + c[..p]| != |u|;
    } else {
      forall h': Bytes, u': Bytes, c': Bytes | KeyBody(h', u', c') == KeyBody(h, u, c)
        ensures h' == h && u' == u && c' == c
      {
        StarsOfBody(h, u, c);
        StarsOfBody(h', u', c');
        PassKeysAreInjective(h', u', c', h, u, c);
      }
    }
  }

  lemma CutAt(s: Bytes, p: nat)
    requires p < |s|
    ensures s == s[..p] + [s[p]] + s[p + 1..]
  {
  }

  /** A key body has two '*' more than its parts. */
  lemma StarsOfBody(h: Bytes, u: Bytes, c: Bytes)
    ensures multiset(KeyBody(h, u, c))[STAR] == multiset(h)[STAR] + multiset(u)[STAR] + multiset(c)[STAR] + 2
    ensures STAR in h <==> multiset(h)[STAR] > 0
    ensures STAR in u <==> multiset(u)[STAR] > 0
    ensures STAR in c <==> multiset(c)[STAR] > 0
  {
  }

  /** A '*' is read as the end of a part wherever it stands. */
  lemma MovesIntoUser(a: Bytes, b: Bytes, c: Bytes, d: Bytes)
    ensures KeyBody(a + [STAR] + b, c, d) == KeyBody(a, b + [STAR] + c, d)
  {
  }

  lemma MovesIntoCommand(a: Bytes, b: Bytes, c: Bytes, d: Bytes)
    ensures KeyBody(a, b + [STAR] + c, d) == KeyBody(a, b, c + [STAR] + d)
  {
  }
}
