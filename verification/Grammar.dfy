/** The command grammar of ConnectionHandler::doCommand (src/kdesud/handler.cpp:172-538) as a
    function of one framed line, and its agreement with the client's request builders. */
module Grammar {
  import opened ByteStrings
  import opened Lexer
  import opened Client

  /** Unknown: no command word (answered NO); Malformed: a parse error (no answer). */
  datatype Parsed = Command(request: Request) | Unknown | Malformed

  datatype Arg = Arg(val: Bytes, rest: Bytes) | NoArg

  function TakeStr(t: Bytes): (a: Arg)
    ensures a.Arg? ==> |a.rest| < |t|
  {
    var l := Lex(t);
    if l.tok == TokStr then Arg(l.val, t[l.used..]) else NoArg
  }

  function TakeNum(t: Bytes): (a: Arg)
    ensures a.Arg? ==> |a.rest| < |t| && AllDigits(a.val)
  {
    var l := Lex(t);
    if l.tok == TokNum then Arg(l.val, t[l.used..]) else NoArg
  }

  predicate AtEnd(t: Bytes) { Lex(t).tok == TokNewline }

  function Finish(t: Bytes, r: Request): Parsed
  {
    if AtEnd(t) then Command(r) else Malformed
  }

  /** The strings up to the newline; None when another token turns up.  It terminates because
      every string token moves the cursor. */
  function TakeEnv(t: Bytes): Option<seq<Bytes>>
    decreases |t|
  {
    if AtEnd(t) then Some([])
    else
      match TakeStr(t)
      case NoArg => None
      case Arg(e, rest) =>
        match TakeEnv(rest)
        case None => None
        case Some(env) => Some([e] + env)
  }

  function ParsePass(t: Bytes): Parsed
  {
    match TakeStr(t)
    case NoArg => Malformed
    case Arg(p, t1) =>
      match TakeNum(t1)
      case NoArg => Malformed
      case Arg(n, t2) => Finish(t2, SetPass(p, ToInt(n)))
  }

  function ParseExec(t: Bytes): Parsed
  {
    match TakeStr(t)
    case NoArg => Malformed
    case Arg(c, t1) =>
      match TakeStr(t1)
      case NoArg => Malformed
      case Arg(u, t2) =>
        if AtEnd(t2) then Command(Exec(c, u, [], []))
        else
          match TakeStr(t2)
          case NoArg => Malformed
          case Arg(o, t3) =>
            match TakeEnv(t3)
            case None => Malformed
            case Some(env) => Command(Exec(c, u, o, env))
  }

  function ParseSet(t: Bytes): Parsed
  {
    match TakeStr(t)
    case NoArg => Malformed
    case Arg(n, t1) =>
      match TakeStr(t1)
      case NoArg => Malformed
      case Arg(v, t2) =>
        match TakeStr(t2)
        case NoArg => Malformed
        case Arg(g, t3) =>
          match TakeNum(t3)
          case NoArg => Malformed
          case Arg(d, t4) => Finish(t4, SetVar(n, v, g, ToInt(d)))
  }

  function ParseDel(t: Bytes): Parsed
  {
    match TakeStr(t)
    case NoArg => Malformed
    case Arg(c, t1) =>
      match TakeStr(t1)
      case NoArg => Malformed
      case Arg(u, t2) => Finish(t2, DelCommand(c, u))
  }

  /** Commands with one number. */
  function ParseNum(tok: Token, t: Bytes): Parsed
  {
    match TakeNum(t)
    case NoArg => Malformed
    case Arg(n, t1) => Finish(t1, if tok == TokPrio then SetPriority(ToInt(n)) else SetScheduler(ToInt(n)))
  }

  /** Commands with one string; DELG and DELS do not look at what follows it. */
  function ParseStr(tok: Token, t: Bytes): Parsed
  {
    match TakeStr(t)
    case NoArg => Malformed
    case Arg(s, t1) =>
      match tok
      case TokHost => Finish(t1, SetHost(s))
      case TokGet => Finish(t1, GetVar(s))
      case TokGetKeys => Finish(t1, GetKeys(s))
      case TokChkGroup => Finish(t1, FindGroup(s))
      case TokDelVar => Finish(t1, DelVar(s))
      case TokDelGroup => Command(DelGroup(s))
      case _ => Command(DelVars(s))
  }

  function ParseRest(tok: Token, t: Bytes): Parsed
  {
    match tok
    case TokPass => ParsePass(t)
    case TokHost => ParseStr(tok, t)
    case TokPrio => ParseNum(tok, t)
    case TokSched => ParseNum(tok, t)
    case TokExec => ParseExec(t)
    case TokDelCmd => ParseDel(t)
    case TokDelVar => ParseStr(tok, t)
    case TokDelGroup => ParseStr(tok, t)
    case TokDelSpecialKey => ParseStr(tok, t)
    case TokSet => ParseSet(t)
    case TokGet => ParseStr(tok, t)
    case TokGetKeys => ParseStr(tok, t)
    case TokChkGroup => ParseStr(tok, t)
    case TokPing => Finish(t, Ping)
    case TokExit => Finish(t, ExitCode)
    case TokStop => Finish(t, StopServer)
    case TokNone => Unknown
    case TokNewline => Unknown
    case TokStr => Unknown
    case TokNum => Unknown
  }

  function Parse(line: Bytes): Parsed
  {
    var l := Lex(line);
    if l.tok == TokNone then Unknown else ParseRest(l.tok, line[l.used..])
  }

  // ---------------------------------------------------------------- agreement with the client

  predicate Clean(s: Bytes) { DEL !in s }

  predicate AllClean(ss: seq<Bytes>)
  {
    forall i | 0 <= i < |ss| :: Clean(ss[i])
  }

  predicate GoodInt(n: int) { 0 <= n <= INT_MAX }

  /** The requests that survive the wire: no argument has a byte 127, no int is negative. */
  predicate Deliverable(r: Request)
  {
    match r
    case SetPass(p, t) => Clean(p) && GoodInt(t)
    case SetHost(h) => Clean(h)
    case SetPriority(n) => GoodInt(n)
    case SetScheduler(n) => GoodInt(n)
    case Exec(c, u, o, e) => Clean(c) && Clean(u) && Clean(o) && AllClean(e)
    case DelCommand(c, u) => Clean(c) && Clean(u)
    case SetVar(n, v, g, t) => Clean(n) && Clean(v) && Clean(g) && GoodInt(t)
    case GetVar(n) => Clean(n)
    case GetKeys(g) => Clean(g)
    case FindGroup(g) => Clean(g)
    case DelVar(n) => Clean(n)
    case DelGroup(g) => Clean(g)
    case DelVars(k) => Clean(k)
    case Ping => true
    case ExitCode => true
    case StopServer => true
  }

  /** The ints of a request fit a C int. */
  predicate CInts(r: Request)
  {
    match r
    case SetPass(_, t) => -INT_MAX - 1 <= t <= INT_MAX
    case SetPriority(n) => -INT_MAX - 1 <= n <= INT_MAX
    case SetScheduler(n) => -INT_MAX - 1 <= n <= INT_MAX
    case SetVar(_, _, _, t) => -INT_MAX - 1 <= t <= INT_MAX
    case _ => true
  }

  lemma TakesStr(a: Bytes, rest: Bytes)
    ensures TakeStr(StrArg(a) + rest) == if Clean(a) then Arg(a, rest) else NoArg
    ensures !AtEnd(StrArg(a) + rest)
  {
    var q := Quoted(a) + rest;
    var t := [SPACE] + q;
    assert StrArg(a) + rest == t;
    LexBehindBlank(q);
    QuotingRoundTrip(a, rest);
    assert Clean(a) ==> t[1 + |Quoted(a)|..] == rest;
  }

  lemma RunsOf(w: Bytes, rest: Bytes)
    requires rest != []
    ensures AllDigits(w) && !IsDigit(rest[0]) ==> DigitRun(w + rest) == |w|
    ensures AllWordBytes(w) && !IsWordByte(rest[0]) ==> WordRun(w + rest) == |w|
  {
    assert (w + rest)[..|w|] == w;
    if AllDigits(w) && !IsDigit(rest[0]) { DigitRunEnds(w + rest, |w|); }
    if AllWordBytes(w) && !IsWordByte(rest[0]) { WordRunEnds(w + rest, |w|); }
  }

  /** Reading an item behind one blank. */
  lemma LexBehindBlank(q: Bytes)
    requires q != [] && !IsSpace(q[0])
    ensures Lex([SPACE] + q) == Prepend([], 1, LexItem(q))
  {
  }

  lemma DigitsAreANumber(w: Bytes)
    requires w != [] && AllDigits(w)
    ensures LexItem(w + [NL]) == Lexeme(TokNum, w, |w|)
  {
    hide LexQuoted, LexWord, DigitRun;
    var q := w + [NL];
    assert q[0] == w[0] && q[..|w|] == w;
    RunsOf(w, [NL]);
  }

  lemma TakesDigits(w: Bytes)
    requires w != [] && AllDigits(w)
    ensures TakeNum([SPACE] + (w + [NL])) == Arg(w, [NL])
  {
    hide Lex, LexItem;
    var q := w + [NL];
    assert q[0] == w[0];
    LexBehindBlank(q);
    DigitsAreANumber(w);
    assert [] + w == w && ([SPACE] + q)[1 + |w|..] == [NL];
  }

  lemma RefusesMinus(w: Bytes)
    requires w != [] && w[0] == MINUS && AllDigits(w[1..])
    ensures TakeNum([SPACE] + (w + [NL])) == NoArg
  {
  }

  /** A number argument is read back by value; the minus sign makes it a string instead. */
  lemma TakesNum(n: int)
    ensures n >= 0 ==> TakeNum(NumArg(n) + [NL]) == Arg(Digits(n), [NL])
    ensures n < 0 ==> TakeNum(NumArg(n) + [NL]) == NoArg
  {
    assert NumArg(n) + [NL] == [SPACE] + (SetNum(n) + [NL]);
    if n >= 0 {
      TakesDigits(SetNum(n));
    } else {
      assert SetNum(n)[1..] == Digits(-n);
      RefusesMinus(SetNum(n));
    }
  }

  lemma EndsLine()
    ensures AtEnd([NL])
  {
  }

  lemma GoodIntRoundTrip(n: nat)
    requires n <= INT_MAX
    ensures ToInt(Digits(n)) == n
  {
    DigitsRoundTrip(n);
  }

  predicate WordShape(w: Bytes)
  {
    w != [] && forall i | 0 <= i < |w| :: IsWordByte(w[i]) && !IsDigit(w[i]) && w[i] != QUOTE
  }

  lemma CommandWordsA()
    ensures WordShape(EXEC) && Keyword(EXEC) == TokExec
    ensures WordShape(PASS) && Keyword(PASS) == TokPass
    ensures WordShape(DELC) && Keyword(DELC) == TokDelCmd
    ensures WordShape(PING) && Keyword(PING) == TokPing
  {
  }

  lemma CommandWordsB()
    ensures WordShape(EXIT) && Keyword(EXIT) == TokExit
    ensures WordShape(STOP) && Keyword(STOP) == TokStop
    ensures WordShape(SET) && Keyword(SET) == TokSet
    ensures WordShape(GET) && Keyword(GET) == TokGet
  {
  }

  lemma CommandWordsC()
    ensures WordShape(HOST) && Keyword(HOST) == TokHost
    ensures WordShape(SCHD) && Keyword(SCHD) == TokSched
    ensures WordShape(PRIO) && Keyword(PRIO) == TokPrio
    ensures WordShape(DELV) && Keyword(DELV) == TokDelVar
  {
  }

  lemma CommandWordsD()
    ensures WordShape(DELG) && Keyword(DELG) == TokDelGroup
    ensures WordShape(DELS) && Keyword(DELS) == TokDelSpecialKey
    ensures WordShape(GETK) && Keyword(GETK) == TokGetKeys
    ensures WordShape(CHKG) && Keyword(CHKG) == TokChkGroup
  {
  }

  lemma CommandWords()
    ensures WordShape(EXEC) && Keyword(EXEC) == TokExec
    ensures WordShape(PASS) && Keyword(PASS) == TokPass
    ensures WordShape(DELC) && Keyword(DELC) == TokDelCmd
    ensures WordShape(PING) && Keyword(PING) == TokPing
    ensures WordShape(EXIT) && Keyword(EXIT) == TokExit
    ensures WordShape(STOP) && Keyword(STOP) == TokStop
    ensures WordShape(SET) && Keyword(SET) == TokSet
    ensures WordShape(GET) && Keyword(GET) == TokGet
    ensures WordShape(HOST) && Keyword(HOST) == TokHost
    ensures WordShape(SCHD) && Keyword(SCHD) == TokSched
    ensures WordShape(PRIO) && Keyword(PRIO) == TokPrio
    ensures WordShape(DELV) && Keyword(DELV) == TokDelVar
    ensures WordShape(DELG) && Keyword(DELG) == TokDelGroup
    ensures WordShape(DELS) && Keyword(DELS) == TokDelSpecialKey
    ensures WordShape(GETK) && Keyword(GETK) == TokGetKeys
    ensures WordShape(CHKG) && Keyword(CHKG) == TokChkGroup
  {
    hide WordShape, Keyword;
    CommandWordsA();
    CommandWordsB();
    CommandWordsC();
    CommandWordsD();
  }

  /** A command word followed by a blank or the newline is recognised. */
  lemma TakesKeyword(w: Bytes, rest: Bytes)
    requires WordShape(w)
    requires rest != [] && !IsWordByte(rest[0])
    ensures Lex(w + rest) == Lexeme(Keyword(w), w, |w|)
    ensures Keyword(w) != TokStr ==> Parse(w + rest) == ParseRest(Keyword(w), rest)
  {
    var t := w + rest;
    assert t[0] == w[0];
    RunsOf(w, rest);
    assert t[..|w|] == w && t[|w|..] == rest;
  }

  lemma {:induction false} TakesEnv(env: seq<Bytes>)
    ensures TakeEnv(StrArgs(env) + [NL]) == if AllClean(env) then Some(env) else None
  {
    hide Lex, TakeStr, StrArg, AtEnd, Clean;
    if env == [] {
      assert StrArgs(env) + [NL] == [NL];
      EndsLine();
    } else {
      var rest := StrArgs(env[1..]) + [NL];
      assert StrArgs(env) + [NL] == StrArg(env[0]) + rest;
      assert env == [env[0]] + env[1..];
      TakesStr(env[0], rest);
      TakesEnv(env[1..]);
    }
  }

  // ---------------------------------------------------------------- command by command

  lemma ParsesPass(p: Bytes, n: int)
    requires n <= INT_MAX
    ensures ParsePass(StrArg(p) + (NumArg(n) + [NL])) ==
      if Clean(p) && n >= 0 then Command(SetPass(p, n)) else Malformed
  {
    TakesStr(p, NumArg(n) + [NL]);
    TakesNum(n);
    EndsLine();
    if n >= 0 { GoodIntRoundTrip(n); }
  }

  lemma ParsesNum(tok: Token, n: int)
    requires n <= INT_MAX
    ensures ParseNum(tok, NumArg(n) + [NL]) ==
      if n < 0 then Malformed
      else Command(if tok == TokPrio then SetPriority(n) else SetScheduler(n))
  {
    TakesNum(n);
    EndsLine();
    if n >= 0 { GoodIntRoundTrip(n); }
  }

  function StrRequest(tok: Token, a: Bytes): Request
  {
    match tok
    case TokHost => SetHost(a)
    case TokGet => GetVar(a)
    case TokGetKeys => GetKeys(a)
    case TokChkGroup => FindGroup(a)
    case TokDelVar => DelVar(a)
    case TokDelGroup => DelGroup(a)
    case _ => DelVars(a)
  }

  lemma ParsesStr(tok: Token, a: Bytes)
    ensures ParseStr(tok, StrArg(a) + [NL]) == if Clean(a) then Command(StrRequest(tok, a)) else Malformed
  {
    TakesStr(a, [NL]);
    EndsLine();
  }

  lemma ParsesDel(c: Bytes, u: Bytes)
    ensures ParseDel(StrArg(c) + (StrArg(u) + [NL])) ==
      if Clean(c) && Clean(u) then Command(DelCommand(c, u)) else Malformed
  {
    TakesStr(c, StrArg(u) + [NL]);
    TakesStr(u, [NL]);
    EndsLine();
  }

  lemma ParsesSet(n: Bytes, v: Bytes, g: Bytes, t: int)
    requires t <= INT_MAX
    ensures ParseSet(StrArg(n) + (StrArg(v) + (StrArg(g) + (NumArg(t) + [NL])))) ==
      if Clean(n) && Clean(v) && Clean(g) && t >= 0 then Command(SetVar(n, v, g, t)) else Malformed
  {
    TakesStr(n, StrArg(v) + (StrArg(g) + (NumArg(t) + [NL])));
    TakesStr(v, StrArg(g) + (NumArg(t) + [NL]));
    TakesStr(g, NumArg(t) + [NL]);
    TakesNum(t);
    EndsLine();
    if t >= 0 { GoodIntRoundTrip(t); }
  }

  lemma ParsesExec(c: Bytes, u: Bytes, o: Bytes, e: seq<Bytes>)
    ensures ParseExec(StrArg(c) + (StrArg(u) + ExecTail(o, e))) ==
      if Clean(c) && Clean(u) && Clean(o) && AllClean(e) then Command(Exec(c, u, o, e)) else Malformed
  {
    hide Lex, TakeStr, StrArg, StrArgs, AtEnd;
    TakesStr(c, StrArg(u) + ExecTail(o, e));
    TakesStr(u, ExecTail(o, e));
    EndsLine();
    TakesStr(o, StrArgs(e) + [NL]);
    TakesEnv(e);
  }

  predicate Expected(r: Request)
  {
    Parse(Wire(r)) == if Deliverable(r) then Command(r) else Malformed
  }

  /** A command word and its arguments, with the parser that its token selects. */
  lemma DispatchesTo(w: Bytes, arg: Bytes, rest: Bytes)
    requires WordShape(w)
    requires arg != [] && arg[0] == SPACE && Keyword(w) != TokStr
    ensures Parse(w + (arg + rest)) == ParseRest(Keyword(w), arg + rest)
  {
    hide Lex, ParseRest, Parse;
    TakesKeyword(w, arg + rest);
  }

  lemma Regroup(a: Bytes, b: Bytes, c: Bytes, d: Bytes, e: Bytes)
    ensures a + b + e == a + (b + e)
    ensures a + b + c + e == a + (b + (c + e))
    ensures a + b + c + d + e == a + (b + (c + (d + e)))
  {
  }

  lemma RegroupSet(a: Bytes, b: Bytes, c: Bytes, d: Bytes, e: Bytes, f: Bytes)
    ensures a + b + c + d + e + f == a + (b + (c + (d + (e + f))))
  {
  }

  lemma DeliversPass(p: Bytes, t: int)
    requires t <= INT_MAX
    ensures Expected(SetPass(p, t))
  {
    hide Lex, TakeStr, TakeNum, AtEnd, TakeEnv, Keyword, WordShape, SetNum, EscapeBody;
    CommandWords();
    Regroup(PASS, StrArg(p), NumArg(t), [], [NL]);
    DispatchesTo(PASS, StrArg(p), NumArg(t) + [NL]);
    ParsesPass(p, t);
  }

  lemma DeliversNum(w: Bytes, n: int)
    requires w == PRIO || w == SCHD
    requires n <= INT_MAX
    ensures Expected(if w == PRIO then SetPriority(n) else SetScheduler(n))
  {
    hide Lex, TakeStr, TakeNum, AtEnd, TakeEnv, Keyword, WordShape, SetNum, EscapeBody;
    CommandWords();
    Regroup(w, NumArg(n), [], [], [NL]);
    DispatchesTo(w, NumArg(n), [NL]);
    ParsesNum(Keyword(w), n);
  }

  function ExecTail(o: Bytes, e: seq<Bytes>): Bytes
  {
    if o == [] && e == [] then [NL] else StrArg(o) + (StrArgs(e) + [NL])
  }

  lemma WireOfExec(c: Bytes, u: Bytes, o: Bytes, e: seq<Bytes>)
    ensures Wire(Exec(c, u, o, e)) == EXEC + (StrArg(c) + (StrArg(u) + ExecTail(o, e)))
  {
    hide StrArg, StrArgs;
    if o == [] && e == [] {
      assert EXEC + StrArg(c) + StrArg(u) + [] == EXEC + StrArg(c) + StrArg(u);
      Regroup(EXEC, StrArg(c), StrArg(u), [], [NL]);
    } else {
      Regroup(EXEC, StrArg(c), StrArg(u), StrArg(o) + StrArgs(e), [NL]);
      Regroup(StrArg(o), StrArgs(e), [], [], [NL]);
    }
  }

  lemma DeliversExec(c: Bytes, u: Bytes, o: Bytes, e: seq<Bytes>)
    ensures Expected(Exec(c, u, o, e))
  {
    hide Lex, ParseExec, Wire, Keyword, WordShape, Quoted, ExecTail;
    CommandWords();
    WireOfExec(c, u, o, e);
    DispatchesTo(EXEC, StrArg(c), StrArg(u) + ExecTail(o, e));
    ParsesExec(c, u, o, e);
  }

  lemma DeliversDel(c: Bytes, u: Bytes)
    ensures Expected(DelCommand(c, u))
  {
    hide Lex, TakeStr, TakeNum, AtEnd, TakeEnv, Keyword, WordShape, SetNum, EscapeBody;
    CommandWords();
    Regroup(DELC, StrArg(c), StrArg(u), [], [NL]);
    DispatchesTo(DELC, StrArg(c), StrArg(u) + [NL]);
    ParsesDel(c, u);
  }

  lemma DeliversSet(n: Bytes, v: Bytes, g: Bytes, t: int)
    requires t <= INT_MAX
    ensures Expected(SetVar(n, v, g, t))
  {
    hide Lex, TakeStr, TakeNum, AtEnd, TakeEnv, Keyword, WordShape, SetNum, EscapeBody;
    CommandWords();
    RegroupSet(SET, StrArg(n), StrArg(v), StrArg(g), NumArg(t), [NL]);
    DispatchesTo(SET, StrArg(n), StrArg(v) + (StrArg(g) + (NumArg(t) + [NL])));
    ParsesSet(n, v, g, t);
  }

  /** The commands with one string argument. */
  lemma DeliversStr(w: Bytes, a: Bytes)
    requires w in {HOST, GET, GETK, CHKG, DELV, DELG, DELS}
    ensures Parse(w + StrArg(a) + [NL]) ==
      if Clean(a) then Command(StrRequest(Keyword(w), a)) else Malformed
  {
    hide Lex, TakeStr, TakeNum, AtEnd, TakeEnv, Keyword, WordShape, SetNum, EscapeBody, StrRequest;
    CommandWords();
    Regroup(w, StrArg(a), [], [], [NL]);
    DispatchesTo(w, StrArg(a), [NL]);
    ParsesStr(Keyword(w), a);
  }

  lemma DeliversWord(w: Bytes)
    requires w in {PING, EXIT, STOP}
    ensures Parse(w + [NL]) == Command(if w == PING then Ping else if w == EXIT then ExitCode else StopServer)
  {
    hide Lex, Keyword, WordShape, AtEnd;
    CommandWords();
    TakesKeyword(w, [NL]);
    EndsLine();
  }

  predicate TakesOneString(r: Request)
  {
    r.SetHost? || r.GetVar? || r.GetKeys? || r.FindGroup? || r.DelVar? || r.DelGroup? || r.DelVars?
  }

  lemma DeliversOneString(r: Request)
    requires TakesOneString(r)
    ensures Expected(r)
  {
    hide Parse, Keyword, StrArg;
    CommandWords();
    match r {
      case SetHost(h) => DeliversStr(HOST, h);
      case GetVar(n) => DeliversStr(GET, n);
      case GetKeys(g) => DeliversStr(GETK, g);
      case FindGroup(g) => DeliversStr(CHKG, g);
      case DelVar(n) => DeliversStr(DELV, n);
      case DelGroup(g) => DeliversStr(DELG, g);
      case DelVars(k) => DeliversStr(DELS, k);
    }
  }

  lemma DeliversPlain(r: Request)
    requires r.Ping? || r.ExitCode? || r.StopServer?
    ensures Expected(r)
  {
    hide Parse;
    DeliversWord(Body(r));
  }

  /** One request through the wire, exactly: the daemon reads back the very request that the
      client made if and only if it is deliverable, and a parse error otherwise. */
  lemma ParseInvertsWire(r: Request)
    requires CInts(r)
    ensures Parse(Wire(r)) == if Deliverable(r) then Command(r) else Malformed
  {
    hide Parse, Wire, Deliverable;
    if TakesOneString(r) {
      DeliversOneString(r);
    } else if r.Ping? || r.ExitCode? || r.StopServer? {
      DeliversPlain(r);
    } else {
      match r {
        case SetPass(p, t) => DeliversPass(p, t);
        case SetPriority(n) => DeliversNum(PRIO, n);
        case SetScheduler(n) => DeliversNum(SCHD, n);
        case Exec(c, u, o, e) => DeliversExec(c, u, o, e);
        case DelCommand(c, u) => DeliversDel(c, u);
        case SetVar(n, v, g, t) => DeliversSet(n, v, g, t);
      }
    }
  }

  // ---------------------------------------------------------------- lines that no client makes

  /** What follows the one string of a command matters to all but two: DELG and DELS do not look for
      the end of the line. */
  lemma StringCommandsExactly(w: Bytes, a: Bytes, rest: Bytes)
    requires w in {HOST, GET, GETK, CHKG, DELV, DELG, DELS}
    ensures Parse(w + StrArg(a) + rest) ==
      if Clean(a) && (w in {DELG, DELS} || AtEnd(rest)) then Command(StrRequest(Keyword(w), a)) else Malformed
  {
    hide Lex, TakeStr, TakeNum, AtEnd, TakeEnv, Keyword, WordShape, SetNum, EscapeBody;
    CommandWords();
    Regroup(w, StrArg(a), [], [], rest);
    DispatchesTo(w, StrArg(a), rest);
    TakesStr(a, rest);
  }

  /** A line is answered NO, instead of being refused silently, exactly if it does not begin with one
      of the sixteen words. */
  lemma UnknownExactly(line: Bytes)
    ensures Parse(line) == Unknown <==> Lex(line).tok in {TokNone, TokNewline, TokStr, TokNum}
  {
    hide Lex, TakeStr, TakeNum, AtEnd, TakeEnv, ToInt;
  }

  /** A number of any length: what does not fit an int is taken for 0, so a timeout of 2147483648
      or more asks for no limit. */
  lemma AnyNumber(p: Bytes, digits: Bytes)
    requires Clean(p) && digits != [] && AllDigits(digits)
    ensures Parse(PASS + StrArg(p) + ([SPACE] + digits) + [NL]) ==
      Command(SetPass(p, if DigitsValue(digits) <= 0x7FFF_FFFF then DigitsValue(digits) else 0))
  {
    hide Lex, TakeNum, AtEnd, TakeEnv, Keyword, WordShape, EscapeBody, DigitsValue, TakeStr;
    CommandWords();
    Regroup(PASS, StrArg(p), [SPACE] + digits, [], [NL]);
    DispatchesTo(PASS, StrArg(p), [SPACE] + digits + [NL]);
    TakesStr(p, [SPACE] + digits + [NL]);
    assert [SPACE] + digits + [NL] == [SPACE] + (digits + [NL]);
    TakesDigits(digits);
    EndsLine();
  }
}
