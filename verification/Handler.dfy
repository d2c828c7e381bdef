/** ConnectionHandler (src/kdesud/handler.cpp): the receive buffer, the command interpreter and
    the replies, working on the shared repository object. */
module Handler {
  import opened ByteStrings
  import opened Lexer
  import opened Client
  import opened Grammar
  import opened Framing
  import opened Delivery
  import opened TimedMap
  import opened Groups
  import opened Repository
  import opened Session

  function RenderAll(log: seq<Reply>): seq<Bytes>
  {
    if log == [] then [] else RenderAll(log[..|log| - 1]) + [Render(log[|log| - 1])]
  }

  // Take the next token and compare it with the one kind that may come here.

  method ExpectStr(l: Lexer) returns (a: Arg)
    requires l.pos <= |l.input|
    modifies l
    ensures a == TakeStr(old(l.Unread()))
    ensures a.Arg? ==> l.pos <= |l.input| && l.Unread() == a.rest
  {
    var tok := l.Scan();
    return if tok == TokStr then Arg(l.output, l.Unread()) else NoArg;
  }

  method ExpectNum(l: Lexer) returns (a: Arg)
    requires l.pos <= |l.input|
    modifies l
    ensures a == TakeNum(old(l.Unread()))
    ensures a.Arg? ==> l.pos <= |l.input| && l.Unread() == a.rest && AllDigits(a.val)
  {
    var tok := l.Scan();
    return if tok == TokNum then Arg(l.output, l.Unread()) else NoArg;
  }

  method ExpectEnd(l: Lexer) returns (ok: bool)
    requires l.pos <= |l.input|
    modifies l
    ensures ok == AtEnd(old(l.Unread()))
  {
    var tok := l.Scan();
    return tok == TokNewline;
  }

  class ConnectionHandler {
    const repo: Repository
    const sameUser: bool
    var buf: array<Byte>
    var size: nat
    var pass: Option<Bytes>
    var timeout: UInt
    var host: Bytes
    var priority: int
    var scheduler: int
    var exitCode: int
    var hasExitCode: bool
    var needExitCode: bool
    var pid: int
    /** The messages given to send(), and the children forked. */
    var sent: seq<Bytes>
    var launches: seq<Launch>
    ghost var log: seq<Reply>

    ghost predicate Valid()
      reads this, repo
    {
      && repo.Valid()
      && buf.Length == BUF_SIZE && size < BUF_SIZE
      && sent == RenderAll(log)
    }

    ghost function State(): Conn
      reads this
    {
      Conn(pass, timeout, host, priority, scheduler, pid, exitCode, hasExitCode, needExitCode, log, launches)
    }

    ghost function Buffered(): Bytes
      requires size <= buf.Length
      reads this, buf
    {
      buf[..size]
    }

    constructor (r: Repository, peerIsOwner: bool)
      requires r.Valid()
      ensures Valid() && repo == r && sameUser == peerIsOwner && fresh(buf)
      ensures State() == NEW_CONN && Buffered() == []
    {
      repo := r;
      sameUser := peerIsOwner;
      buf := new Byte[BUF_SIZE];
      size := 0;
      pass := None;
      timeout := 0;
      host := [];
      priority := 50;
      scheduler := SCHED_NORMAL;
      exitCode := 0;
      hasExitCode := false;
      needExitCode := false;
      pid := 0;
      sent, launches := [], [];
      log := [];
    }

    method Send(msg: Bytes, ghost r: Reply)
      requires Valid() && msg == Render(r)
      modifies this`sent, this`log
      ensures Valid() && State() == Answered(old(State()), r)
    {
      sent := sent + [msg];
      log := log + [r];
    }

    method Respond(ok: bool, s: Bytes)
      requires Valid() && (!ok ==> s == [])
      modifies this`sent, this`log
      ensures Valid()
      ensures State() == Answered(old(State()), if !ok then No else if s == [] then Yes else Value(s))
    {
      var msg := if ok then OK else NO;
      if s != [] {
        msg := msg + [SPACE];
        msg := msg + s;
      }
      msg := msg + [NL];
      assert s != [] ==> msg == OK + ([SPACE] + s) + [NL];
      Send(msg, if !ok then No else if s == [] then Yes else Value(s));
    }

    method SendExitCode()
      requires Valid()
      modifies this`sent, this`log
      ensures Valid()
      ensures State() == if needExitCode then Answered(old(State()), ExitStatus(exitCode)) else old(State())
    {
      if !needExitCode { return; }
      var msg := SetNum(exitCode);
      msg := OK + [SPACE] + msg;
      msg := msg + [NL];
      Send(msg, ExitStatus(exitCode));
    }

    // -------------------------------------------------------------- doCommand

    /** The effect that the grammar and the command semantics prescribe for one line. */
    twostate predicate Obeys(p: Parsed, tick: Tick, ret: int, stopped: bool)
      reads this, repo
    {
      match p
      case Command(r) =>
        var o := Perform(old(State()), old(repo.repo), r, tick);
        ret == 0 && stopped == o.stopped && State() == o.conn && repo.repo == o.table
      case Unknown =>
        ret == -1 && !stopped && log == old(log) + [No] && repo.repo == old(repo.repo)
      case Malformed =>
        ret == -1 && !stopped && log == old(log) && repo.repo == old(repo.repo)
    }

    method DoPass(l: Lexer, tick: Tick) returns (ret: int)
      requires Valid() && l.pos <= |l.input|
      modifies this, l
      ensures Valid() && buf == old(buf) && size == old(size)
      ensures Obeys(ParsePass(old(l.Unread())), tick, ret, false)
    {
      hide TakeStr, TakeNum, AtEnd, PerformExec, PerformDelete, PerformLookup, RenderAll;
      ghost var parsed := ParsePass(l.Unread());
      var p := ExpectStr(l);
      if p.NoArg? { assert parsed == Malformed; return -1; }
      pass := Some(p.val);
      var n := ExpectNum(l);
      if n.NoArg? { assert parsed == Malformed; return -1; }
      timeout := ToInt(n.val);
      var end := ExpectEnd(l);
      if !end { assert parsed == Malformed; return -1; }
      assert parsed == Command(SetPass(p.val, timeout));
      assert timeout == ToUInt(timeout);
      Respond(true, []);
      assert State() == Answered(old(State()).(pass := Some(p.val), timeout := ToUInt(timeout)), Yes);
      return 0;
    }

    method DoHost(l: Lexer, tick: Tick) returns (ret: int)
      requires Valid() && l.pos <= |l.input|
      modifies this, repo, l
      ensures Valid() && buf == old(buf) && size == old(size)
      ensures Obeys(ParseStr(TokHost, old(l.Unread())), tick, ret, false)
    {
      hide TakeStr, TakeNum, AtEnd, PerformExec, FindKeys, Find, Apply, Answer, MakeKey, VarKey, RenderAll;
      ghost var parsed := ParseStr(TokHost, l.Unread());
      var a := ExpectStr(l);
      if a.NoArg? { assert parsed == Malformed; return -1; }
      host := a.val;
      var end := ExpectEnd(l);
      if !end { assert parsed == Malformed; return -1; }
      assert parsed == Command(SetHost(a.val));
      Respond(true, []);
      return 0;
    }

    method DoGet(l: Lexer, tick: Tick) returns (ret: int)
      requires Valid() && l.pos <= |l.input|
      modifies this, repo, l
      ensures Valid() && buf == old(buf) && size == old(size)
      ensures Obeys(ParseStr(TokGet, old(l.Unread())), tick, ret, false)
    {
      hide TakeStr, TakeNum, AtEnd, PerformExec, FindKeys, Find, Apply, Answer, MakeKey, VarKey, RenderAll;
      ghost var parsed := ParseStr(TokGet, l.Unread());
      var a := ExpectStr(l);
      if a.NoArg? { assert parsed == Malformed; return -1; }
      var end := ExpectEnd(l);
      if !end { assert parsed == Malformed; return -1; }
      assert parsed == Command(GetVar(a.val));
      var found := repo.Find(VarKey(a.val));
      var value := OrEmpty(found);
      Respond(value != [], value);
      return 0;
    }

    method DoGetKeys(l: Lexer, tick: Tick) returns (ret: int)
      requires Valid() && l.pos <= |l.input|
      modifies this, repo, l
      ensures Valid() && buf == old(buf) && size == old(size)
      ensures Obeys(ParseStr(TokGetKeys, old(l.Unread())), tick, ret, false)
    {
      hide TakeStr, TakeNum, AtEnd, PerformExec, FindKeys, Find, Apply, Answer, MakeKey, VarKey, RenderAll;
      ghost var parsed := ParseStr(TokGetKeys, l.Unread());
      var a := ExpectStr(l);
      if a.NoArg? { assert parsed == Malformed; return -1; }
      var end := ExpectEnd(l);
      if !end { assert parsed == Malformed; return -1; }
      assert parsed == Command(GetKeys(a.val));
      var value := FindKeysLoop(repo.repo, a.val);
      Respond(value != [], value);
      return 0;
    }

    method DoChkGroup(l: Lexer, tick: Tick) returns (ret: int)
      requires Valid() && l.pos <= |l.input|
      modifies this, repo, l
      ensures Valid() && buf == old(buf) && size == old(size)
      ensures Obeys(ParseStr(TokChkGroup, old(l.Unread())), tick, ret, false)
    {
      hide TakeStr, TakeNum, AtEnd, PerformExec, FindKeys, Find, Apply, Answer, MakeKey, VarKey, RenderAll;
      ghost var parsed := ParseStr(TokChkGroup, l.Unread());
      var a := ExpectStr(l);
      if a.NoArg? { assert parsed == Malformed; return -1; }
      var end := ExpectEnd(l);
      if !end { assert parsed == Malformed; return -1; }
      assert parsed == Command(FindGroup(a.val));
      var has := repo.HasGroup(a.val);
      Respond(has >= 0, []);
      return 0;
    }

    method DoDelVar(l: Lexer, tick: Tick) returns (ret: int)
      requires Valid() && l.pos <= |l.input|
      modifies this, repo, l
      ensures Valid() && buf == old(buf) && size == old(size)
      ensures Obeys(ParseStr(TokDelVar, old(l.Unread())), tick, ret, false)
    {
      hide TakeStr, TakeNum, AtEnd, PerformExec, FindKeys, Find, Apply, Answer, MakeKey, VarKey, RenderAll;
      ghost var parsed := ParseStr(TokDelVar, l.Unread());
      var a := ExpectStr(l);
      if a.NoArg? { assert parsed == Malformed; return -1; }
      var end := ExpectEnd(l);
      if !end { assert parsed == Malformed; return -1; }
      assert parsed == Command(DelVar(a.val));
      var removed := repo.Remove(VarKey(a.val));
      Respond(removed >= 0, []);
      return 0;
    }

    method DoDelGroup(l: Lexer, tick: Tick) returns (ret: int)
      requires Valid() && l.pos <= |l.input|
      modifies this, repo, l
      ensures Valid() && buf == old(buf) && size == old(size)
      ensures Obeys(ParseStr(TokDelGroup, old(l.Unread())), tick, ret, false)
    {
      hide TakeStr, TakeNum, AtEnd, PerformExec, FindKeys, Find, Apply, Answer, MakeKey, VarKey, RenderAll;
      ghost var parsed := ParseStr(TokDelGroup, l.Unread());
      var a := ExpectStr(l);
      if a.NoArg? { assert parsed == Malformed; return -1; }
      assert parsed == Command(DelGroup(a.val));
      var removed := repo.RemoveGroup(a.val);
      Respond(removed >= 0, []);
      return 0;
    }

    method DoDelSpecial(l: Lexer, tick: Tick) returns (ret: int)
      requires Valid() && l.pos <= |l.input|
      modifies this, repo, l
      ensures Valid() && buf == old(buf) && size == old(size)
      ensures Obeys(ParseStr(TokDelSpecialKey, old(l.Unread())), tick, ret, false)
    {
      hide TakeStr, TakeNum, AtEnd, PerformExec, FindKeys, Find, Apply, Answer, MakeKey, VarKey, RenderAll;
      ghost var parsed := ParseStr(TokDelSpecialKey, l.Unread());
      var a := ExpectStr(l);
      if a.NoArg? { assert parsed == Malformed; return -1; }
      assert parsed == Command(DelVars(a.val));
      var removed := repo.RemoveSpecialKey(a.val);
      Respond(removed >= 0, []);
      return 0;
    }

    method DoPrio(l: Lexer, tick: Tick) returns (ret: int)
      requires Valid() && l.pos <= |l.input|
      modifies this, repo, l
      ensures Valid() && buf == old(buf) && size == old(size)
      ensures Obeys(ParseNum(TokPrio, old(l.Unread())), tick, ret, false)
    {
      hide TakeStr, TakeNum, AtEnd, PerformExec, FindKeys, Find, Apply, Answer, MakeKey, VarKey, RenderAll;
      ghost var parsed := ParseNum(TokPrio, l.Unread());
      var n := ExpectNum(l);
      if n.NoArg? { assert parsed == Malformed; return -1; }
      priority := ToInt(n.val);
      var end := ExpectEnd(l);
      if !end { assert parsed == Malformed; return -1; }
      assert parsed == Command(SetPriority(priority));
      Respond(true, []);
      return 0;
    }

    method DoSched(l: Lexer, tick: Tick) returns (ret: int)
      requires Valid() && l.pos <= |l.input|
      modifies this, repo, l
      ensures Valid() && buf == old(buf) && size == old(size)
      ensures Obeys(ParseNum(TokSched, old(l.Unread())), tick, ret, false)
    {
      hide TakeStr, TakeNum, AtEnd, PerformExec, FindKeys, Find, Apply, Answer, MakeKey, VarKey, RenderAll;
      ghost var parsed := ParseNum(TokSched, l.Unread());
      var n := ExpectNum(l);
      if n.NoArg? { assert parsed == Malformed; return -1; }
      scheduler := ToInt(n.val);
      var end := ExpectEnd(l);
      if !end { assert parsed == Malformed; return -1; }
      assert parsed == Command(SetScheduler(scheduler));
      Respond(true, []);
      return 0;
    }

    method DoDel(l: Lexer, tick: Tick) returns (ret: int)
      requires Valid() && l.pos <= |l.input|
      modifies this, repo, l
      ensures Valid() && buf == old(buf) && size == old(size)
      ensures Obeys(ParseDel(old(l.Unread())), tick, ret, false)
    {
      hide TakeStr, TakeNum, AtEnd, PerformExec, FindKeys, Find, Apply, Answer, MakeKey, VarKey, RenderAll;
      ghost var parsed := ParseDel(l.Unread());
      var c := ExpectStr(l);
      if c.NoArg? { assert parsed == Malformed; return -1; }
      var u := ExpectStr(l);
      if u.NoArg? { assert parsed == Malformed; return -1; }
      var end := ExpectEnd(l);
      if !end { assert parsed == Malformed; return -1; }
      assert parsed == Command(DelCommand(c.val, u.val));
      var removed := repo.Remove(MakeKey(0, host, u.val, c.val));
      Respond(removed >= 0, []);
      return 0;
    }

    method DoSet(l: Lexer, tick: Tick) returns (ret: int)
      requires Valid() && l.pos <= |l.input|
      modifies this, repo, l
      ensures Valid() && buf == old(buf) && size == old(size)
      ensures Obeys(ParseSet(old(l.Unread())), tick, ret, false)
    {
      hide TakeStr, TakeNum, AtEnd, VarKey, RenderAll, Perform, Apply;
      ghost var parsed := ParseSet(l.Unread());
      ghost var was, table := State(), repo.repo;
      var n := ExpectStr(l);
      if n.NoArg? { assert parsed == Malformed; return -1; }
      var v := ExpectStr(l);
      if v.NoArg? { assert parsed == Malformed; return -1; }
      var g := ExpectStr(l);
      if g.NoArg? { assert parsed == Malformed; return -1; }
      var d := ExpectNum(l);
      if d.NoArg? { assert parsed == Malformed; return -1; }
      var end := ExpectEnd(l);
      if !end { assert parsed == Malformed; return -1; }
      assert parsed == Command(SetVar(n.val, v.val, g.val, ToInt(d.val)));
      SetIsAdd(was, table, n.val, v.val, g.val, ToInt(d.val), tick);
      repo.Add(VarKey(n.val), v.val, g.val, ToInt(d.val), tick.now);
      Respond(true, []);
      return 0;
    }

    /** The options and the environment of EXEC, with the string that environments are compared by. */
    method ReadEnv(l: Lexer) returns (ok: bool, env: seq<Bytes>, envCheck: Bytes)
      requires l.pos <= |l.input|
      modifies l
      ensures TakeEnv(old(l.Unread())) == if ok then Some(env) else None
      ensures ok ==> envCheck == EnvCheck(env)
    {
      hide Lex, TakeEnv, EnvCheck, StartsWith;
      env, envCheck := [], [];
      assert EnvCheck([]) == [] by { EnvCheckNothing(); }
      ghost var t0 := l.Unread();
      ghost var t := t0;
      assert TakeEnv(t).Some? ==> [] + TakeEnv(t).value == TakeEnv(t).value;
      var tok := l.Scan();
      while tok != TokNewline
        invariant tok == Lex(t).tok
        invariant tok != TokNone ==> l.pos <= |l.input| && l.Unread() == t[Lex(t).used..]
        invariant l.output == Lex(t).val
        invariant TakeEnv(t0) == if TakeEnv(t).None? then None else Some(env + TakeEnv(t).value)
        invariant envCheck == EnvCheck(env)
        decreases |t|
      {
        TakeEnvUnfolds(t);
        if tok != TokStr { return false, env, envCheck; }
        var e := l.output;
        EnvCheckPush(env, e);
        ghost var rest := l.Unread();
        assert TakeEnv(rest).Some? ==> env + ([e] + TakeEnv(rest).value) == env + [e] + TakeEnv(rest).value;
        env := env + [e];
        if !StartsWith(e, STARTUP_ID) {
          envCheck := envCheck + ([STAR] + e);
        }
        t := rest;
        tok := l.Scan();
      }
      TakeEnvUnfolds(t);
      assert env + [] == env;
      return true, env, envCheck;
    }

    method DoExec(l: Lexer, tick: Tick) returns (ret: int)
      requires Valid() && l.pos <= |l.input|
      modifies this, repo, l
      ensures Valid() && buf == old(buf) && size == old(size)
      ensures Obeys(ParseExec(old(l.Unread())), tick, ret, false)
    {
      hide TakeEnv, TakeNum, PerformExec, Lex;
      ghost var parsed := ParseExec(l.Unread());
      var command := ExpectStr(l);
      if command.NoArg? { assert parsed == Malformed; return -1; }
      var user := ExpectStr(l);
      if user.NoArg? { assert parsed == Malformed; return -1; }
      var options, env, envCheck := [], [], [];
      var tok := l.Scan();
      if tok != TokNewline {
        if tok != TokStr { assert parsed == Malformed; return -1; }
        options := l.output;
        var ok;
        ok, env, envCheck := ReadEnv(l);
        if !ok { assert parsed == Malformed; return -1; }
      }
      assert parsed == Command(Exec(command.val, user.val, options, env));
      Execute(Exec(command.val, user.val, options, env), envCheck, tick);
      return 0;
    }

    /** EXEC once it is read: the password cache, then fork(). */
    method Execute(e: Request, envCheck: Bytes, tick: Tick)
      requires Valid() && e.Exec? && envCheck == EnvCheck(e.env)
      modifies this, repo
      ensures Valid() && buf == old(buf) && size == old(size)
      ensures Outcome(State(), repo.repo, false) == PerformExec(old(State()), old(repo.repo), e, tick)
    {
      hide EnvCheck, Cached, Remember, Forking;
      var authUser := if scheduler != SCHED_NORMAL || priority > 50 then ROOT else e.user;
      var password := LookUp(e, authUser, envCheck);
      if password.None? {
        if pass.None? {
          Respond(false, []);
          return;
        }
        Store(e, authUser, envCheck, pass.value, tick.now);
        password := pass;
      }
      Fork(e, password.value, tick.fork);
    }

    method LookUp(e: Request, authUser: Bytes, envCheck: Bytes) returns (password: Option<Bytes>)
      requires e.Exec? && authUser == AuthUser(State(), e.user) && envCheck == EnvCheck(e.env)
      ensures password == Cached(State(), repo.repo, e.user, e.command, e.env)
    {
      var key := MakeKey(2, host, authUser, e.command);
      password := None;
      var known := repo.Find(key);
      if OrEmpty(known) == envCheck {
        key := MakeKey(0, host, authUser, e.command);
        password := repo.Find(key);
      }
    }

    method Store(e: Request, authUser: Bytes, envCheck: Bytes, password: Bytes, now: UInt)
      requires e.Exec? && authUser == AuthUser(State(), e.user) && envCheck == EnvCheck(e.env)
      requires repo.Valid()
      modifies repo
      ensures repo.Valid()
      ensures repo.repo == Remember(State(), old(repo.repo), e.user, e.command, e.env, password, now)
    {
      var key := MakeKey(2, host, authUser, e.command);
      repo.Add(key, envCheck, [], timeout, now);
      key := MakeKey(0, host, authUser, e.command);
      repo.Add(key, password, [], timeout, now);
    }

    method Fork(e: Request, password: Bytes, fork: Forked)
      requires Valid() && e.Exec?
      modifies this`pid, this`launches, this`sent, this`log
      ensures Valid() && State() == Forking(old(State()), e, password, fork)
    {
      hide RenderAll;
      if fork < 0 {
        Respond(false, []);
        return;
      }
      pid := fork;
      if host == [] {
        launches := launches + [SuLaunch(e.command, e.user, e.options, e.env, priority, scheduler, password)];
      } else {
        launches := launches + [SshLaunch(e.command, e.user, host, password)];
      }
      Respond(true, []);
    }

    method DoPing(l: Lexer, tick: Tick) returns (ret: int)
      requires Valid() && l.pos <= |l.input|
      modifies this, l
      ensures Valid() && buf == old(buf) && size == old(size)
      ensures Obeys(Finish(old(l.Unread()), Ping), tick, ret, false)
    {
      hide AtEnd;
      var end := ExpectEnd(l);
      if !end { return -1; }
      Respond(true, []);
      return 0;
    }

    method DoExit(l: Lexer, tick: Tick) returns (ret: int)
      requires Valid() && l.pos <= |l.input|
      modifies this, l
      ensures Valid() && buf == old(buf) && size == old(size)
      ensures Obeys(Finish(old(l.Unread()), ExitCode), tick, ret, false)
    {
      hide AtEnd;
      var end := ExpectEnd(l);
      if !end { return -1; }
      needExitCode := true;
      if hasExitCode {
        SendExitCode();
      }
      return 0;
    }

    /** STOP answers and then ends the daemon with exit(0), which stopped reports. */
    method DoStop(l: Lexer, tick: Tick) returns (ret: int, stopped: bool)
      requires Valid() && l.pos <= |l.input|
      modifies this, l
      ensures Valid() && buf == old(buf) && size == old(size)
      ensures Obeys(Finish(old(l.Unread()), StopServer), tick, ret, stopped)
    {
      hide AtEnd;
      var end := ExpectEnd(l);
      if !end { return -1, false; }
      Respond(true, []);
      return 0, true;
    }

    /** doCommand: parse and do one command; stopped stands for the exit(0) of STOP. */
    method DoCommand(line: Bytes, tick: Tick) returns (ret: int, stopped: bool)
      requires Valid()
      modifies this, repo
      ensures Valid() && buf == old(buf) && size == old(size)
      ensures sameUser ==> Obeys(Parse(line), tick, ret, stopped)
      ensures !sameUser ==> ret == -1 && !stopped && State() == old(State()) && repo.repo == old(repo.repo)
    {
      hide Lex, ParsePass, ParseExec, ParseSet, ParseDel, ParseNum, ParseStr, Finish, Perform, RenderAll;
      stopped := false;
      if !sameUser { return -1, false; }
      var l := new Lexer(line);
      assert l.Unread() == line;
      var tok := l.Scan();
      ghost var t := if tok != TokNone then l.Unread() else [];
      assert Parse(line) == ParseRest(tok, t);
      match tok {
        case TokPass => ret := DoPass(l, tick);
        case TokHost => ret := DoHost(l, tick);
        case TokPrio => ret := DoPrio(l, tick);
        case TokSched => ret := DoSched(l, tick);
        case TokExec => ret := DoExec(l, tick);
        case TokDelCmd => ret := DoDel(l, tick);
        case TokDelVar => ret := DoDelVar(l, tick);
        case TokDelGroup => ret := DoDelGroup(l, tick);
        case TokDelSpecialKey => ret := DoDelSpecial(l, tick);
        case TokSet => ret := DoSet(l, tick);
        case TokGet => ret := DoGet(l, tick);
        case TokGetKeys => ret := DoGetKeys(l, tick);
        case TokChkGroup => ret := DoChkGroup(l, tick);
        case TokPing => ret := DoPing(l, tick);
        case TokExit => ret := DoExit(l, tick);
        case TokStop => ret, stopped := DoStop(l, tick);
        case _ =>
          Respond(false, []);
          ret := -1;
      }
    }

    // -------------------------------------------------------------- handle

    /** memmove and memset: drop the first n bytes of the buffer. */
    method Shift(n: nat)
      requires size <= buf.Length && n <= size
      modifies buf, this`size
      ensures size == old(size) - n && Buffered() == old(Buffered())[n..]
    {
      ghost var was := buf[..size];
      var rest := size - n;
      for i := 0 to rest
        invariant size == old(size)
        invariant forall j | 0 <= j < i :: buf[j] == was[n + j]
        invariant forall j | n + i <= j < size :: buf[j] == was[j]
      {
        buf[i] := buf[n + i];
      }
      for i := rest to size
        invariant size == old(size)
        invariant forall j | 0 <= j < rest :: buf[j] == was[n + j]
      {
        buf[i] := 120;
      }
      size := rest;
    }

    /** The bytes that recv() puts behind what is buffered. */
    method Append(chunk: Bytes)
      requires size + |chunk| <= buf.Length
      modifies buf, this`size
      ensures size == old(size) + |chunk| && Buffered() == old(Buffered()) + chunk
    {
      for i := 0 to |chunk|
        invariant size == old(size) && size + i <= buf.Length
        invariant buf[..size + i] == old(buf[..size]) + chunk[..i]
      {
        buf[size + i] := chunk[i];
      }
      size := size + |chunk|;
    }

    /** Take the line of n bytes out of the buffer and do it. */
    method DoFirst(n: nat, tick: Tick) returns (ret: int, stopped: bool)
      requires Valid() && 0 < n <= size
      modifies this, buf, repo
      ensures Valid() && buf == old(buf) && size == old(size) - n && Buffered() == old(Buffered())[n..]
      ensures sameUser ==> Obeys(Parse(old(Buffered())[..n]), tick, ret, stopped)
      ensures !sameUser ==> ret == -1 && !stopped && State() == old(State()) && repo.repo == old(repo.repo)
    {
      hide Perform, Parse, RenderAll;
      var newbuf := buf[..n];
      assert newbuf == Buffered()[..n];
      Shift(n);
      ghost var rest := Buffered();
      ret, stopped := DoCommand(newbuf, tick);
      assert Buffered() == rest;
    }

    /** The loop of handle(): take the first complete line out of the buffer and do it.  The commands
        are numbered from first on; next is the number of the one after the last. */
    method DoLines(tick: nat -> Tick, first: nat) returns (ret: int, stopped: bool, next: nat)
      requires Valid() && size < BUF_SIZE - 1
      modifies this, buf, repo
      ensures Valid() && buf == old(buf) && size < BUF_SIZE - 1
      ensures
        match ServeFor(sameUser, old(State()), old(repo.repo), Lines(old(Buffered())), tick, first)
        case Served(c, t) =>
          && ret == 0 && !stopped && State() == c && repo.repo == t
          && Buffered() == Tail(old(Buffered())) && next == first + |Lines(old(Buffered()))|
        case Dropped(t, replies) => ret == -1 && !stopped && log == replies && repo.repo == t
        case Halted(c, t) => ret == 0 && stopped && State() == c && repo.repo == t
    {
      hide Perform, Parse, IndexOf, Lines, Tail, ServeFor, RenderAll;
      ghost var start := Buffered();
      ghost var result := ServeFor(sameUser, State(), repo.repo, Lines(start), tick, first);
      next := first;
      while true
        invariant Valid() && buf == old(buf) && size < BUF_SIZE - 1
        invariant result == ServeFor(sameUser, State(), repo.repo, Lines(Buffered()), tick, next)
        invariant Tail(start) == Tail(Buffered())
        invariant next + |Lines(Buffered())| == first + |Lines(start)|
        decreases size
      {
        ghost var b := Buffered();
        var n := IndexOf(buf[..size], NL);
        if n == -1 {
          Unterminated(b);
          FirstLineServed(sameUser, State(), repo.repo, Lines(b), tick, next);
          return 0, false, next;
        }
        n := n + 1;
        FirstLine(b);
        FirstLineServed(sameUser, State(), repo.repo, Lines(b), tick, next);
        ret, stopped := DoFirst(n, tick(next));
        if ret < 0 || stopped { return; }
        next := next + 1;
      }
    }

    /** handle(): receive, give up when the buffer is full, otherwise do every complete line. */
    method Handle(r: Recv, tick: nat -> Tick, first: nat) returns (ret: int, stopped: bool, next: nat)
      requires Valid() && size < BUF_SIZE - 1
      requires r.Data? ==> Fits(Buffered(), r.chunk)
      modifies this, buf, repo
      ensures Valid() && buf == old(buf) && (ret == 0 ==> size < BUF_SIZE - 1)
      ensures !r.Data? ==>
        && ret == (if r.Interrupted? then 0 else -1) && !stopped
        && State() == old(State()) && repo.repo == old(repo.repo) && Buffered() == old(Buffered())
      ensures r.Data? && old(size) + |r.chunk| == BUF_SIZE - 1 ==>
        ret == -1 && !stopped && State() == old(State()) && repo.repo == old(repo.repo)
      ensures r.Data? && old(size) + |r.chunk| < BUF_SIZE - 1 ==>
        match ServeFor(sameUser, old(State()), old(repo.repo), Lines(old(Buffered()) + r.chunk), tick, first)
        case Served(c, t) =>
          && ret == 0 && !stopped && State() == c && repo.repo == t
          && Buffered() == Tail(old(Buffered()) + r.chunk)
          && next == first + |Lines(old(Buffered()) + r.chunk)|
        case Dropped(t, replies) => ret == -1 && !stopped && log == replies && repo.repo == t
        case Halted(c, t) => ret == 0 && stopped && State() == c && repo.repo == t
    {
      hide Perform, Parse, ServeFor, Lines, Tail;
      stopped := false;
      next := first;
      match r {
        case Interrupted => return 0, false, next;
        case ReadError => return -1, false, next;
        case Eof => return -1, false, next;
        case Data(chunk) =>
          ghost var all := Buffered() + chunk;
          Append(chunk);
          if size == BUF_SIZE - 1 { return -1, false, next; }
          ret, stopped, next := DoLines(tick, first);
      }
    }

    /** handle() on chunk after chunk, until it fails or the daemon stops.  While the buffer does not
        fill up, however the stream is cut: exactly the lines of the stream are served, up to the
        first that is refused or stops the daemon, and otherwise the rest stays in the buffer.  When
        the buffer fills up, exactly the lines before that are, and then the connection ends. */
    method HandleAll(chunks: seq<Bytes>, tick: nat -> Tick) returns (ret: int, stopped: bool)
      requires Valid() && size < BUF_SIZE - 1 && NL !in Buffered()
      requires Legal(Buffered(), chunks)
      modifies this, buf, repo
      ensures Valid() && buf == old(buf)
      ensures
        var stream := old(Buffered()) + Concat(chunks);
        match Receive(old(Buffered()), chunks)
        case Frames(_, _) =>
          (match ServeFor(sameUser, old(State()), old(repo.repo), Lines(stream), tick, 0)
           case Served(c, t) => ret == 0 && !stopped && State() == c && repo.repo == t && Buffered() == Tail(stream)
           case Dropped(t, replies) => ret == -1 && !stopped && log == replies && repo.repo == t
           case Halted(c, t) => ret == 0 && stopped && State() == c && repo.repo == t)
        case TooLong(before) =>
          (match ServeFor(sameUser, old(State()), old(repo.repo), before, tick, 0)
           case Served(c, t) => ret == -1 && !stopped && log == c.log && repo.repo == t
           case Dropped(t, replies) => ret == -1 && !stopped && log == replies && repo.repo == t
           case Halted(c, t) => ret == 0 && stopped && State() == c && repo.repo == t)
    {
      hide Receive, ServeFor, Fate, Lines, Tail, RenderAll, Concat;
      ghost var b0, f := Buffered(), Receive(Buffered(), chunks);
      ghost var result := Fate(sameUser, State(), repo.repo, f, tick, 0);
      ghost var was, table := State(), repo.repo;
      if f.Frames? { FramingIgnoresChunkBorders(b0, chunks); }
      FateOf(sameUser, was, table, f, tick, 0);
      var next := 0;
      assert chunks[0..] == chunks;
      for i := 0 to |chunks|
        invariant Valid() && buf == old(buf) && size < BUF_SIZE - 1
        invariant Legal(Buffered(), chunks[i..])
        invariant result == Fate(sameUser, State(), repo.repo, Receive(Buffered(), chunks[i..]), tick, next)
        invariant f.Frames? <==> Receive(Buffered(), chunks[i..]).Frames?
        invariant f.Frames? ==> Receive(Buffered(), chunks[i..]).buf == f.buf
      {
        FateStep(sameUser, State(), repo.repo, Buffered(), chunks[i..], tick, next);
        ReceiveStep(Buffered(), chunks[i..]);
        assert chunks[i..][1..] == chunks[i + 1..] && chunks[i..][0] == chunks[i];
        ret, stopped, next := Handle(Data(chunks[i]), tick, next);
        if ret < 0 || stopped { return; }
      }
      assert chunks[|chunks|..] == [];
      NothingReceived(sameUser, State(), repo.repo, Buffered(), tick, next);
      return 0, false;
    }
  }

  /** A client of the owner on a new connection, all the way: whatever list of requests it sends, in
      whatever chunks, the handler and the repository end up as the requests say. */
  method HandleClient(repo: Repository, ghost rs: seq<Request>, chunks: seq<Bytes>, tick: nat -> Tick)
      returns (h: ConnectionHandler, ret: int, stopped: bool)
    requires repo.Valid() && Legal([], chunks)
    requires Concat(chunks) == Concat(Wires(rs)) && forall i | 0 <= i < |rs| :: CInts(rs[i])
    modifies repo
    ensures fresh(h) && h.Valid() && repo == h.repo
    ensures
      match Delivered(NEW_CONN, old(repo.repo), rs, Receive([], chunks), tick)
      case Served(c, t) => ret == 0 && !stopped && h.State() == c && repo.repo == t
      case Dropped(t, replies) => ret == -1 && !stopped && h.log == replies && repo.repo == t
      case Halted(c, t) => ret == 0 && stopped && h.State() == c && repo.repo == t
  {
    hide Receive, Serve, Effect, Concat, Lines, Tail, RenderAll, Delivered, Legal;
    ghost var table := repo.repo;
    ghost var f := Receive([], chunks);
    h := new ConnectionHandler(repo, true);
    EndToEndDelivery(NEW_CONN, table, rs, chunks, tick);
    FateOf(true, NEW_CONN, table, f, tick, 0);
    if f.Frames? { FramingIgnoresChunkBorders([], chunks); }
    ret, stopped := h.HandleAll(chunks, tick);
  }

  lemma SetIsAdd(c: Conn, t: Table, name: Bytes, value: Bytes, group: Bytes, timeout: UInt, tick: Tick)
    ensures Perform(c, t, SetVar(name, value, group, timeout), tick) ==
      Outcome(Answered(c, Yes), Apply(t, OpAdd(VarKey(name), value, group, timeout, tick.now)), false)
  {
    hide VarKey;
  }

  lemma TakeEnvUnfolds(t: Bytes)
    ensures TakeEnv(t) ==
      if Lex(t).tok == TokNewline then Some([])
      else if Lex(t).tok != TokStr then None
      else if TakeEnv(t[Lex(t).used..]).None? then None
      else Some([Lex(t).val] + TakeEnv(t[Lex(t).used..]).value)
  {
    hide Lex;
  }

  lemma EnvCheckNothing()
    ensures EnvCheck([]) == []
  {
  }

  lemma {:induction false} EnvCheckPush(env: seq<Bytes>, e: Bytes)
    ensures EnvCheck(env + [e]) == EnvCheck(env) + (if StartsWith(e, STARTUP_ID) then [] else [STAR] + e)
  {
    if env == [] {
      assert env + [e] == [e] && [e][1..] == [];
    } else {
      assert (env + [e])[1..] == env[1..] + [e];
      EnvCheckPush(env[1..], e);
    }
  }
}
