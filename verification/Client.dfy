/** The client side of the protocol (src/client.cpp): quoting, the request builders, and how a
    reply is taken apart. */
module Client {
  import opened ByteStrings
  import opened Lexer

  /** One call of the Client interface; ints are C ints. */
  datatype Request =
    | SetPass(password: Bytes, passTimeout: int)
    | SetHost(host: Bytes)
    | SetPriority(priority: int)
    | SetScheduler(scheduler: int)
    | Exec(command: Bytes, user: Bytes, options: Bytes, env: seq<Bytes>)
    | DelCommand(delCommand: Bytes, delUser: Bytes)
    | SetVar(name: Bytes, value: Bytes, group: Bytes, timeout: int)
    | GetVar(getName: Bytes)
    | GetKeys(getGroup: Bytes)
    | FindGroup(findGroup: Bytes)
    | DelVar(delName: Bytes)
    | DelGroup(delGroup: Bytes)
    | DelVars(specialKey: Bytes)
    | Ping
    | ExitCode
    | StopServer

  // ---------------------------------------------------------------- quoting

  function EscapeByte(c: Byte): (s: Bytes)
    ensures s != []
  {
    if c < 32 then [BACKSLASH, CARET, AddAt(c)]
    else if c == BACKSLASH || c == QUOTE then [BACKSLASH, c]
    else [c]
  }

  function EscapeBody(s: Bytes): (r: Bytes)
    ensures |s| <= |r|
  {
    if s == [] then [] else EscapeByte(s[0]) + EscapeBody(s[1..])
  }

  function Quoted(s: Bytes): Bytes
  {
    [QUOTE] + EscapeBody(s) + [QUOTE]
  }

  lemma {:induction false} EscapeBodyAppend(s: Bytes, c: Byte)
    ensures EscapeBody(s + [c]) == EscapeBody(s) + EscapeByte(c)
  {
    if s != [] {
      assert (s + [c])[0] == s[0] && (s + [c])[1..] == s[1..] + [c];
      EscapeBodyAppend(s[1..], c);
    } else {
      assert s + [c] == [c] && [c][1..] == [];
    }
  }

  lemma EscapeNothing()
    ensures EscapeBody([]) == [] && StrArgs([]) == []
  {
  }

  method Escape(str: Bytes) returns (copy: Bytes)
    ensures copy == Quoted(str)
  {
    hide EscapeBody;
    EscapeNothing();
    copy := [QUOTE];
    ghost var body: Bytes := [];
    for i := 0 to |str|
      invariant body == EscapeBody(str[..i]) && copy == [QUOTE] + body
    {
      var c := str[i];
      assert str[..i + 1] == str[..i] + [c];
      EscapeBodyAppend(str[..i], c);
      body := body + EscapeByte(c);
      if c < 32 {
        copy := copy + [BACKSLASH];
        copy := copy + [CARET];
        copy := copy + [AddAt(c)];
      } else {
        if c == BACKSLASH || c == QUOTE {
          copy := copy + [BACKSLASH];
        }
        copy := copy + [c];
      }
    }
    assert str[..|str|] == str;
    copy := copy + [QUOTE];
  }

  lemma LexEscapedByte(c: Byte, tail: Bytes)
    ensures c != DEL ==>
      LexQuoted(EscapeByte(c) + tail) == Prepend([c], |EscapeByte(c)|, LexQuoted(tail))
    ensures c == DEL ==> LexQuoted(EscapeByte(c) + tail).tok == TokNone
  {
  }

  /** What the lexer makes of the body of a quoted argument followed by anything at all: the
      original bytes when none of them is 127, and no token otherwise. */
  lemma {:induction false} LexQuotedBody(s: Bytes, rest: Bytes)
    ensures DEL !in s ==>
      LexQuoted(EscapeBody(s) + ([QUOTE] + rest)) == Lexeme(TokStr, s, |EscapeBody(s)| + 1)
    ensures DEL in s ==> LexQuoted(EscapeBody(s) + ([QUOTE] + rest)).tok == TokNone
  {
    if s == [] {
      assert EscapeBody(s) + ([QUOTE] + rest) == [QUOTE] + rest;
    } else {
      var tail := EscapeBody(s[1..]) + ([QUOTE] + rest);
      assert EscapeBody(s) + ([QUOTE] + rest) == EscapeByte(s[0]) + tail;
      assert s == [s[0]] + s[1..];
      LexEscapedByte(s[0], tail);
      LexQuotedBody(s[1..], rest);
    }
  }

  /** Quoting round trip, exactly: the argument comes back with the cursor just past its closing
      quote if and only if it has no byte 127; otherwise the lexer reports no token. */
  lemma QuotingRoundTrip(s: Bytes, rest: Bytes)
    ensures Lex(Quoted(s) + rest) == Lexeme(TokStr, s, |Quoted(s)|) <==> DEL !in s
    ensures Lex(Quoted(s) + rest).tok == TokNone <==> DEL in s
  {
    var t := Quoted(s) + rest;
    assert t[1..] == EscapeBody(s) + ([QUOTE] + rest);
    LexQuotedBody(s, rest);
  }

  /** A quoted argument never carries the byte that ends a request. */
  lemma {:induction false} EscapeHasNoNewline(s: Bytes)
    ensures NL !in EscapeBody(s)
    ensures forall c | c in EscapeBody(s) :: c >= 32
    ensures s != [] && s[0] < 32 ==> EscapeBody(s) == [92, 94, s[0] + 64] + EscapeBody(s[1..])
  {
    if s != [] {
      EscapeHasNoNewline(s[1..]);
      assert NL !in EscapeByte(s[0]);
    }
  }

  // ---------------------------------------------------------------- requests

  function StrArg(s: Bytes): Bytes { [SPACE] + Quoted(s) }

  function NumArg(n: int): Bytes { [SPACE] + SetNum(n) }

  function StrArgs(args: seq<Bytes>): Bytes
  {
    if args == [] then [] else StrArg(args[0]) + StrArgs(args[1..])
  }

  /** A request without its newline. */
  function Body(r: Request): Bytes
  {
    match r
    case SetPass(p, t) => PASS + StrArg(p) + NumArg(t)
    case SetHost(h) => HOST + StrArg(h)
    case SetPriority(n) => PRIO + NumArg(n)
    case SetScheduler(n) => SCHD + NumArg(n)
    case Exec(c, u, o, e) =>
      EXEC + StrArg(c) + StrArg(u) + (if o == [] && e == [] then [] else StrArg(o) + StrArgs(e))
    case DelCommand(c, u) => DELC + StrArg(c) + StrArg(u)
    case SetVar(n, v, g, t) => SET + StrArg(n) + StrArg(v) + StrArg(g) + NumArg(t)
    case GetVar(n) => GET + StrArg(n)
    case GetKeys(g) => GETK + StrArg(g)
    case FindGroup(g) => CHKG + StrArg(g)
    case DelVar(n) => DELV + StrArg(n)
    case DelGroup(g) => DELG + StrArg(g)
    case DelVars(k) => DELS + StrArg(k)
    case Ping => PING
    case ExitCode => EXIT
    case StopServer => STOP
  }

  function Wire(r: Request): Bytes { Body(r) + [NL] }

  /** One more quoted argument, behind a blank. */
  method AppendArg(cmd: Bytes, str: Bytes) returns (r: Bytes)
    ensures r == cmd + StrArg(str)
  {
    r := cmd + [SPACE];
    var copy := Escape(str);
    r := r + copy;
  }

  /** Client::exec, with its loop over the environment. */
  method BuildExec(prog: Bytes, user: Bytes, options: Bytes, env: seq<Bytes>) returns (cmd: Bytes)
    ensures cmd == Wire(Exec(prog, user, options, env))
  {
    hide StrArg, StrArgs;
    EscapeNothing();
    cmd := AppendArg(EXEC, prog);
    cmd := AppendArg(cmd, user);
    if options != [] || env != [] {
      ghost var head := cmd;
      cmd := AppendArg(cmd, options);
      for i := 0 to |env|
        invariant cmd == head + (StrArg(options) + StrArgs(env[..i]))
      {
        StrArgsAppend(env[..i], env[i]);
        assert env[..i + 1] == env[..i] + [env[i]];
        cmd := AppendArg(cmd, env[i]);
      }
      assert env[..|env|] == env;
    }
    cmd := cmd + [NL];
  }

  lemma {:induction false} StrArgsAppend(args: seq<Bytes>, a: Bytes)
    ensures StrArgs(args + [a]) == StrArgs(args) + StrArg(a)
  {
    if args == [] {
      assert args + [a] == [a] && [a][1..] == [];
    } else {
      assert (args + [a])[1..] == args[1..] + [a];
      StrArgsAppend(args[1..], a);
    }
  }

  /** Client::setVar. */
  method BuildSetVar(key: Bytes, value: Bytes, timeout: int, group: Bytes) returns (cmd: Bytes)
    ensures cmd == Wire(SetVar(key, value, group, timeout))
  {
    cmd := AppendArg(SET, key);
    cmd := AppendArg(cmd, value);
    cmd := AppendArg(cmd, group);
    cmd := cmd + NumArg(timeout);
    cmd := cmd + [NL];
  }

  // ---------------------------------------------------------------- one newline, at the end

  lemma NumArgHasNoNewline(n: int)
    ensures NL !in NumArg(n)
  {
  }

  lemma StrArgHasNoNewline(s: Bytes)
    ensures NL !in StrArg(s)
  {
    EscapeHasNoNewline(s);
  }

  lemma {:induction false} StrArgsHaveNoNewline(args: seq<Bytes>)
    ensures NL !in StrArgs(args)
  {
    hide StrArg;
    if args != [] {
      StrArgHasNoNewline(args[0]);
      StrArgsHaveNoNewline(args[1..]);
    }
  }

  /** Whatever the arguments are, a request is one line: its only newline is its last byte. */
  lemma RequestIsOneLine(r: Request)
    ensures NL !in Body(r)
  {
    hide StrArg, StrArgs, NumArg;
    forall s: Bytes ensures NL !in StrArg(s) { StrArgHasNoNewline(s); }
    forall n: int ensures NL !in NumArg(n) { NumArgHasNoNewline(n); }
    if r.Exec? { StrArgsHaveNoNewline(r.env); }
  }

  // ---------------------------------------------------------------- replies

  const OK: Bytes := [79, 75]
  const NO: Bytes := [78, 79]

  /** What one recv of a reply takes. */
  const REPLY_SIZE := 1023

  function FirstRead(reply: Bytes): Bytes
  {
    if |reply| <= REPLY_SIZE then reply else reply[..REPLY_SIZE]
  }

  /** What the client makes of a reply: it reads once, takes the bytes for a C string, and keeps
      the text behind "OK " less its last byte, or nothing when the reply does not begin so. */
  function Result(reply: Bytes): Option<Bytes>
  {
    var text := CString(FirstRead(reply));
    if Mid(text, 0, 2) != OK then None else Some(Mid(text, 3, |text| - 4))
  }
}
