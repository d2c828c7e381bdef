/** The parent's side of the conversation with kdesu_stub (src/stubprocess.cpp:117-222). */
module StubProcess {
  import opened ByteStrings
  import opened Quoting
  import opened StubWords

  const ADMIN_PATH: Bytes :=  // /sbin:/bin:/usr/sbin:/usr/bin
    [47, 115, 98, 105, 110, 58, 47, 98, 105, 110, 58, 47, 117, 115, 114, 47, 115, 98, 105, 110,
     58, 47, 117, 115, 114, 47, 98, 105, 110]
  const SCHED_REALTIME := 1

  const OK_WORD: Bytes := [111, 107]
  const YES: Bytes := [121, 101, 115]
  const NO_WORD: Bytes := [110, 111]
  const REALTIME: Bytes := [114, 101, 97, 108, 116, 105, 109, 101]
  const NORMAL: Bytes := [110, 111, 114, 109, 97, 108]

  /** Everything the answers are made from; display, cookie, PATH and process id are given. */
  datatype Settings = Settings(
    display: Bytes, displayAuth: Bytes, command: Bytes, user: Bytes, xOnly: bool,
    priority: int, scheduler: int, env: seq<Bytes>, envPath: Bytes, ownPid: int)

  function PathValue(s: Settings): Bytes
  {
    var path := if s.envPath != [] && s.envPath[0] == COLON then s.envPath[1..] else s.envPath;
    if s.user == ROOT then ADMIN_PATH + (if path != [] then [COLON] + path else []) else path
  }

  /** The last startup id of the environment. */
  function LastStartupId(env: seq<Bytes>): Bytes
  {
    if env == [] then []
    else
      var last := env[|env| - 1];
      if StartsWith(last, STARTUP_ID) then last[|STARTUP_ID|..] else LastStartupId(env[..|env| - 1])
  }

  function StartupId(env: seq<Bytes>): Bytes
  {
    if LastStartupId(env) == [] then [ZERO] else LastStartupId(env)
  }

  method StartupIdLoop(env: seq<Bytes>) returns (tmp: Bytes)
    ensures tmp == StartupId(env)
  {
    tmp := [];
    for i := 0 to |env|
      invariant tmp == LastStartupId(env[..i])
    {
      assert env[..i + 1][..i] == env[..i];
      if StartsWith(env[i], STARTUP_ID) {
        tmp := env[i][|STARTUP_ID|..];
      }
    }
    assert env[..|env|] == env;
    if tmp == [] { tmp := [ZERO]; }
  }

  function EnvLines(env: seq<Bytes>): Bytes
  {
    if env == [] then [] else Encode(env[0]) + [NL] + EnvLines(env[1..])
  }

  lemma {:induction false} EnvLinesPush(env: seq<Bytes>, e: Bytes)
    ensures EnvLines(env + [e]) == EnvLines(env) + (Encode(e) + [NL])
  {
    if env == [] {
      assert env + [e] == [e] && [e][1..] == [];
    } else {
      assert (env + [e])[1..] == env[1..] + [e];
      EnvLinesPush(env[1..], e);
    }
  }

  /** What is written in answer to a request; None for a line that is not a request. */
  function Answer(s: Settings, w: Word): Option<Bytes>
  {
    match w
    case Display => Some(s.display + [NL])
    case DisplayAuth => Some(s.displayAuth + [NL])
    case Command => Some(Encode(s.command) + [NL])
    case Path => Some(PathValue(s) + [NL])
    case User => Some(s.user + [NL])
    case Priority => Some(SetNum(s.priority) + [NL])
    case Scheduler => Some((if s.scheduler == SCHED_REALTIME then REALTIME else NORMAL) + [NL])
    case XWindowsOnly => Some((if s.xOnly then NO_WORD else YES) + [NL])
    case AppStartupId => Some(StartupId(s.env) + [NL])
    case AppStartPid => Some(SetNum(s.ownPid) + [NL])
    case Environment => Some(EnvLines(s.env) + [NL])
    case Header => None
    case End => None
  }

  datatype ParentState = WaitHeader | Serving | Done(ret: int)

  /** One line read by converseStub: the next state and what is written. */
  function ParentStep(s: Settings, check: int, st: ParentState, line: Bytes): (ParentState, Bytes)
    requires !st.Done?
  {
    if st.WaitHeader? then
      if line == NameOf(Header) then (Serving, (if check != 0 then STOP_WORD else OK_WORD) + [NL])
      else (WaitHeader, [])
    else
      match Recognise(line)
      case None => (Done(1), [])
      case Some(End) => (Done(0), [])
      case Some(w) =>
        match Answer(s, w)
        case None => (Done(1), [])
        case Some(out) => (Serving, out)
  }

  /** Running converseStub on the lines that readLine gives until it returns null. */
  function ParentRun(s: Settings, check: int, st: ParentState, lines: seq<Bytes>): (int, Bytes)
    decreases lines
  {
    if st.Done? then (st.ret, [])
    else if lines == [] then (-1, [])
    else
      var (st1, out) := ParentStep(s, check, st, lines[0]);
      var (ret, more) := ParentRun(s, check, st1, lines[1..]);
      (ret, out + more)
  }

  /** converseStub itself: two reading loops, the first one waiting for the header. */
  method ConverseStub(s: Settings, check: int, lines: seq<Bytes>) returns (ret: int, written: Bytes)
    ensures (ret, written) == ParentRun(s, check, WaitHeader, lines)
  {
    hide NameOf, Recognise, Answer, ParentRun;
    written := [];
    var k := 0;
    while true
      invariant k <= |lines| && written == []
      invariant ParentRun(s, check, WaitHeader, lines) == ParentRun(s, check, WaitHeader, lines[k..])
      decreases |lines| - k
    {
      ParentRunUnfolds(s, check, WaitHeader, lines[k..]);
      if k == |lines| { return -1, written; }
      var line := lines[k];
      assert lines[k..][0] == line && lines[k..][1..] == lines[k + 1..];
      k := k + 1;
      if line == NameOf(Header) {
        written := if check != 0 then STOP_WORD + [NL] else OK_WORD + [NL];
        break;
      }
      Unwritten(ParentRun(s, check, WaitHeader, lines[k..]).1);
    }
    while true
      invariant k <= |lines|
      invariant ParentRun(s, check, WaitHeader, lines) ==
        (ParentRun(s, check, Serving, lines[k..]).0, written + ParentRun(s, check, Serving, lines[k..]).1)
      decreases |lines| - k
    {
      ParentRunUnfolds(s, check, Serving, lines[k..]);
      ParentRunEnds(s, check, lines[k..]);
      Unwritten([]);
      assert written + [] == written;
      if k == |lines| {
        assert lines[k..] == [];
        return -1, written;
      }
      var line := lines[k];
      assert lines[k..][0] == line && lines[k..][1..] == lines[k + 1..];
      k := k + 1;
      var word := Recognise(line);
      if word == Some(End) {
        return 0, written;
      }
      if word.None? || word == Some(Header) {
        HeaderHasNoAnswer(s);
        return 1, written;
      }
      var out := Reply(s, word.value);
      Associate(written, out, ParentRun(s, check, Serving, lines[k..]).1);
      written := written + out;
    }
  }

  lemma ParentRunUnfolds(s: Settings, check: int, st: ParentState, lines: seq<Bytes>)
    requires !st.Done?
    ensures lines == [] ==> ParentRun(s, check, st, lines) == (-1, [])
    ensures lines != [] ==>
      var step := ParentStep(s, check, st, lines[0]);
      var rest := ParentRun(s, check, step.0, lines[1..]);
      ParentRun(s, check, st, lines) == (rest.0, step.1 + rest.1)
  {
    hide ParentStep;
  }

  lemma ParentRunEnds(s: Settings, check: int, lines: seq<Bytes>)
    ensures lines != [] ==> forall ret :: ParentRun(s, check, Done(ret), lines[1..]) == (ret, [])
  {
  }

  lemma Unwritten(b: Bytes)
    ensures [] + b == b
  {
  }

  lemma HeaderHasNoAnswer(s: Settings)
    ensures Answer(s, Header) == None
  {
  }

  /** The branches of the second loop that write something. */
  method Reply(s: Settings, w: Word) returns (out: Bytes)
    requires w != Header && w != End
    ensures Answer(s, w) == Some(out)
  {
    match w {
      case Display => out := s.display + [NL];
      case DisplayAuth => out := s.displayAuth + [NL];
      case Command =>
        var text := EncodeLoop(s.command);
        out := text + [NL];
      case Path =>
        var path := s.envPath;
        if path != [] && path[0] == COLON {
          path := path[1..];
        }
        if s.user == ROOT {
          if path != [] {
            path := ADMIN_PATH + ([COLON] + path);
          } else {
            path := ADMIN_PATH;
          }
        }
        assert ADMIN_PATH + [] == ADMIN_PATH;
        out := path + [NL];
      case User => out := s.user + [NL];
      case Priority => out := SetNum(s.priority) + [NL];
      case Scheduler => out := (if s.scheduler == SCHED_REALTIME then REALTIME else NORMAL) + [NL];
      case XWindowsOnly => out := (if s.xOnly then NO_WORD else YES) + [NL];
      case AppStartupId =>
        var tmp := StartupIdLoop(s.env);
        out := tmp + [NL];
      case AppStartPid => out := SetNum(s.ownPid) + [NL];
      case Environment =>
        out := [];
        for i := 0 to |s.env|
          invariant out == EnvLines(s.env[..i])
        {
          EnvLinesPush(s.env[..i], s.env[i]);
          assert s.env[..i + 1] == s.env[..i] + [s.env[i]];
          var text := EncodeLoop(s.env[i]);
          out := out + (text + [NL]);
        }
        assert s.env[..|s.env|] == s.env;
        out := out + [NL];
    }
  }

  // ---------------------------------------------------------------- what can come of it

  /** The first line that is the header; |lines| if there is none. */
  function HeaderAt(lines: seq<Bytes>, k: nat): (n: nat)
    requires k <= |lines|
    ensures k <= n <= |lines| && (forall i | k <= i < n :: lines[i] != NameOf(Header))
    ensures n < |lines| ==> lines[n] == NameOf(Header)
    decreases |lines| - k
  {
    if k == |lines| || lines[k] == NameOf(Header) then k else HeaderAt(lines, k + 1)
  }

  /** A line that is answered: any word but header and end. */
  predicate IsRequest(line: Bytes)
  {
    exists w: Word :: w != Header && w != End && line == NameOf(w)
  }

  /** The first line from k on that is not answered; |lines| if there is none. */
  ghost function LastAt(lines: seq<Bytes>, k: nat): (n: nat)
    requires k <= |lines|
    ensures k <= n <= |lines| && (forall i | k <= i < n :: IsRequest(lines[i]))
    ensures n < |lines| ==> !IsRequest(lines[n])
    decreases |lines| - k
  {
    if k == |lines| || !IsRequest(lines[k]) then k else LastAt(lines, k + 1)
  }

  lemma ServesRequest(s: Settings, check: int, line: Bytes)
    ensures
      var st := ParentStep(s, check, Serving, line).0;
      if IsRequest(line) then st == Serving
      else if line == NameOf(End) then st == Done(0)
      else st == Done(1)
  {
    hide NameOf, PathValue, StartupId, EnvLines, Recognise;
    forall w: Word ensures Recognise(line) == Some(w) <==> line == NameOf(w)
    {
      RecognisesNames(line, w);
    }
    if Recognise(line).Some? { assert line == NameOf(Recognise(line).value); }
  }

  lemma {:induction false} FromServing(s: Settings, check: int, lines: seq<Bytes>, k: nat)
    requires k <= |lines|
    ensures
      var e := LastAt(lines, k);
      ParentRun(s, check, Serving, lines[k..]).0 ==
        if e == |lines| then -1 else if lines[e] == NameOf(End) then 0 else 1
    decreases |lines| - k
  {
    hide NameOf, ParentStep, IsRequest;
    ParentRunUnfolds(s, check, Serving, lines[k..]);
    if k < |lines| {
      assert lines[k..][0] == lines[k] && lines[k..][1..] == lines[k + 1..];
      ServesRequest(s, check, lines[k]);
      ParentRunEnds(s, check, lines[k..]);
      if IsRequest(lines[k]) { FromServing(s, check, lines, k + 1); }
    }
  }

  lemma {:induction false} FromWaiting(s: Settings, check: int, lines: seq<Bytes>, k: nat)
    requires k <= |lines|
    ensures
      var h := HeaderAt(lines, k);
      ParentRun(s, check, WaitHeader, lines[k..]).0 ==
        if h == |lines| then -1 else ParentRun(s, check, Serving, lines[h + 1..]).0
    decreases |lines| - k
  {
    hide NameOf, Recognise, Answer;
    ParentRunUnfolds(s, check, WaitHeader, lines[k..]);
    if k < |lines| {
      assert lines[k..][0] == lines[k] && lines[k..][1..] == lines[k + 1..];
      if lines[k] != NameOf(Header) { FromWaiting(s, check, lines, k + 1); }
    }
  }

  /** The result of converseStub by its cause, for any lines: -1 when they end too early, before the
      header or among the requests; 0 when the first line that is no request is end; 1 when it is
      anything else, the header again included. */
  lemma ResultByCause(s: Settings, check: int, lines: seq<Bytes>)
    ensures
      var h := HeaderAt(lines, 0);
      var e := if h == |lines| then h else LastAt(lines, h + 1);
      ParentRun(s, check, WaitHeader, lines).0 == if e == |lines| then -1 else if lines[e] == NameOf(End) then 0 else 1
  {
    hide NameOf, HeaderAt, LastAt, ParentRun;
    assert lines[0..] == lines;
    FromWaiting(s, check, lines, 0);
    var h := HeaderAt(lines, 0);
    if h < |lines| { FromServing(s, check, lines, h + 1); }
  }

  /** The obsolete request, which today's stub does not make, is answered with the process id. */
  lemma ObsoleteRequest(s: Settings, check: int)
    requires s.ownPid >= 0
    ensures ParentStep(s, check, Serving, NameOf(AppStartPid)) == (Serving, Digits(s.ownPid) + [NL])
  {
    hide NameOf, Recognise;
    RecognisesNames(NameOf(AppStartPid), AppStartPid);
  }
}
