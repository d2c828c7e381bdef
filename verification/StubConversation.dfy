/** The two parties together: StubProcess::converseStub and kdesu_stub joined by two channels.
    Either party may run whenever it is not waiting for input. */
module StubConversation {
  import opened ByteStrings
  import opened Quoting
  import opened StubWords
  import opened StubProcess
  import opened Stub

  /** toParent holds whole lines, as the stub prints and flushes them; toStub is a byte stream. */
  datatype System = System(parent: ParentState, stub: StubState, toStub: Bytes, toParent: seq<Bytes>)

  const BEGIN := System(WaitHeader, Param(0, []), [], [NameOf(Header)])

  datatype Party = ParentTurn | StubTurn

  predicate CanMove(y: System, p: Party)
  {
    match p
    case ParentTurn => !y.parent.Done? && y.toParent != []
    case StubTurn => Waiting(y.stub) && Fgets(y.toStub).Some?
  }

  /** A party's turn; a party that has to wait does nothing. */
  function Turn(s: Settings, check: int, y: System, p: Party): System
  {
    if !CanMove(y, p) then y
    else
      match p
      case ParentTurn =>
        var (st, out) := ParentStep(s, check, y.parent, y.toParent[0]);
        System(st, y.stub, y.toStub + out, y.toParent[1..])
      case StubTurn =>
        var n := Fgets(y.toStub).value;
        var (st, out) := StubStep(y.stub, y.toStub[..n]);
        System(y.parent, st, y.toStub[n..], y.toParent + out)
  }

  // ---------------------------------------------------------------- what is to be conveyed

  /** A value that is sent as it is. */
  predicate RawLine(v: Bytes)
  {
    NUL !in v && NL !in v && |v| <= BUFSIZE - 2
  }

  /** A value that is sent quoted. */
  predicate QuotedLine(v: Bytes)
  {
    NUL !in v && |Encode(v)| <= BUFSIZE - 2
  }

  predicate Sendable(s: Settings)
  {
    && RawLine(s.display) && RawLine(s.displayAuth) && RawLine(PathValue(s)) && RawLine(s.user)
    && RawLine(StartupId(s.env)) && QuotedLine(s.command) && 0 <= s.priority <= 100  // as setPriority() clamps it
    && forall i | 0 <= i < |s.env| :: s.env[i] != [] && QuotedLine(s.env[i])
  }

  /** The parameters that the stub ought to end up with. */
  function Params(s: Settings): (v: seq<Bytes>)
    ensures |v| == P_LAST
  {
    [OK_WORD, s.display, s.displayAuth, Encode(s.command), PathValue(s), if s.xOnly then NO_WORD else YES,
     s.user, SetNum(s.priority), if s.scheduler == SCHED_REALTIME then REALTIME else NORMAL, StartupId(s.env)]
  }

  function Last(s: Settings): nat { 23 + |s.env| }

  /** The course of the conversation: 2k, the k-th request is under way; 2k + 1, its answer is;
      then the environment request, its lines read one by one, and the end. */
  function SystemAt(s: Settings, n: nat): System
    requires n <= Last(s)
  {
    if n < 20 && n % 2 == 0 then
      System(if n == 0 then WaitHeader else Serving, Param(n / 2, Params(s)[..n / 2]), [], [NameOf(ParamName(n / 2))])
    else if n < 20 then
      System(Serving, Param(n / 2, Params(s)[..n / 2]), Params(s)[n / 2] + [NL], [])
    else if n == 20 then
      System(Serving, EnvLoop(Params(s), []), [], [NameOf(Environment)])
    else if n <= 21 + |s.env| then
      System(Serving, EnvLoop(Params(s), s.env[..n - 21]), EnvLines(s.env[n - 21..]) + [NL], [])
    else if n == 22 + |s.env| then
      System(Serving, Complete(Params(s), s.env), [], [NameOf(End)])
    else
      System(Done(0), Complete(Params(s), s.env), [], [])
  }

  /** Whose move it is. */
  function Mover(s: Settings, n: nat): Party
  {
    if n <= 20 then (if n % 2 == 0 then ParentTurn else StubTurn)
    else if n <= 21 + |s.env| then StubTurn
    else ParentTurn
  }

  lemma FgetsLine(v: Bytes, rest: Bytes)
    requires NL !in v && |v| <= BUFSIZE - 2
    ensures Fgets(v + [NL] + rest) == Some(|v| + 1)
    ensures (v + [NL] + rest)[..|v| + 1] == v + [NL]
    ensures (v + [NL] + rest)[|v| + 1..] == rest
  {
    IndexOfAppend(v, rest, NL);
  }

  lemma RawValue(v: Bytes)
    requires RawLine(v)
    ensures ParamValue(v + [NL]) == v
  {
  }

  /** A raw value arrives as one line with its bytes intact exactly when it is a RawLine. */
  lemma RawLineIsExact(v: Bytes)
    ensures Fgets(v + [NL]) == Some(|v| + 1) && ParamValue(v + [NL]) == v <==> RawLine(v)
  {
  }

  /** Why environment entries must not be empty: an empty one ends the list for the stub. */
  lemma EmptyEntryEndsTheList(params: seq<Bytes>, before: seq<Bytes>)
    ensures StubStep(EnvLoop(params, before), Encode([]) + [NL]) == (Complete(params, before), [NameOf(End)])
  {
    hide NameOf;
    assert Encode([]) + [NL] == [NL];
    EmptyLineEnds();
  }

  lemma EachParamIsRaw(s: Settings, k: nat)
    requires Sendable(s) && k < P_LAST
    ensures RawLine(Params(s)[k])
  {
    hide Encode, PathValue, StartupId, SetNum;
    EncodedIsOneLine(s.command);
    PriorityIsShort(s.priority);
  }

  lemma PriorityIsShort(n: nat)
    requires n <= 100
    ensures RawLine(SetNum(n))
  {
    assert n >= 10 ==> |Digits(n)| == |Digits(n / 10)| + 1;
    assert |Digits(n / 10)| <= 2;
  }

  /** The parent's answer to the k-th request is the k-th parameter. */
  lemma ParentAnswers(s: Settings, k: nat)
    requires k < P_LAST
    ensures
      ParentStep(s, 0, if k == 0 then WaitHeader else Serving, NameOf(ParamName(k))) == (Serving, Params(s)[k] + [NL])
  {
    hide NameOf, Recognise, PathValue, StartupId, Encode;
    RecognisesNames(NameOf(ParamName(k)), ParamName(k));
  }

  lemma ParentMoves(s: Settings, n: nat)
    requires n <= 20 && n % 2 == 0
    ensures Turn(s, 0, SystemAt(s, n), ParentTurn) == SystemAt(s, n + 1)
  {
    hide NameOf, ParentStep, Params, EnvLines;
    var y := SystemAt(s, n);
    assert y.toParent[1..] == [];
    if n < 20 {
      ParentAnswers(s, n / 2);
      assert [] + (Params(s)[n / 2] + [NL]) == Params(s)[n / 2] + [NL];
    } else {
      ParentSendsEnvironment(s);
      assert [] + (EnvLines(s.env) + [NL]) == EnvLines(s.env) + [NL];
      assert s.env[0..] == s.env && s.env[..0] == [];
    }
  }

  lemma ParentSendsEnvironment(s: Settings)
    ensures ParentStep(s, 0, Serving, NameOf(Environment)) == (Serving, EnvLines(s.env) + [NL])
    ensures ParentStep(s, 0, Serving, NameOf(End)) == (Done(0), [])
  {
    hide NameOf, Recognise, EnvLines;
    RecognisesNames(NameOf(Environment), Environment);
    RecognisesNames(NameOf(End), End);
  }

  lemma StubReadsParam(s: Settings, n: nat)
    requires Sendable(s) && n < 20 && n % 2 == 1
    ensures CanMove(SystemAt(s, n), StubTurn)
    ensures Turn(s, 0, SystemAt(s, n), StubTurn) == SystemAt(s, n + 1)
  {
    hide NameOf, Params, Fgets, ParamValue, Sendable, RawLine;
    var k := n / 2;
    var v := Params(s)[k];
    EachParamIsRaw(s, k);
    RawFits(v);
    FgetsLine(v, []);
    RawValue(v);
    assert v + [NL] + [] == v + [NL];
    assert Params(s)[..k] + [v] == Params(s)[..k + 1];
    assert k + 1 == P_LAST ==> Params(s)[..k + 1] == Params(s);
    NotStop(s);
    assert forall l: seq<Bytes> {:trigger [] + l} :: [] + l == l;
  }

  lemma RawFits(v: Bytes)
    requires RawLine(v)
    ensures NL !in v && |v| <= BUFSIZE - 2
  {
  }

  lemma NotStop(s: Settings)
    ensures Params(s)[0] != STOP_WORD
  {
  }

  lemma StubReadsEnv(s: Settings, n: nat)
    requires Sendable(s) && 21 <= n <= 21 + |s.env|
    ensures CanMove(SystemAt(s, n), StubTurn)
    ensures Turn(s, 0, SystemAt(s, n), StubTurn) == SystemAt(s, n + 1)
  {
    hide NameOf, Params, Fgets, EnvEntry, Encode, PathValue, StartupId;
    var j := n - 21;
    if j < |s.env| {
      var e := s.env[j];
      EncodedIsOneLine(e);
      var rest := EnvLines(s.env[j + 1..]) + [NL];
      assert s.env[j..][1..] == s.env[j + 1..];
      assert SystemAt(s, n).toStub == Encode(e) + [NL] + rest;
      FgetsLine(Encode(e), rest);
      EnvRoundTrip(e);
      assert s.env[..j] + [e] == s.env[..j + 1];
    } else {
      assert s.env[j..] == [] && s.env[..j] == s.env;
      var y := SystemAt(s, n);
      assert y.toStub == [] + [NL] + [] && [] + [NL] == [NL];
      assert y.toParent + [NameOf(End)] == [NameOf(End)];
      FgetsLine([], []);
      EmptyLineEnds();
    }
  }

  lemma EmptyLineEnds()
    ensures EnvEntry([NL]) == []
  {
  }

  /** One step of the conversation: exactly one party can move, and its move leads on. */
  lemma Progress(s: Settings, n: nat)
    requires Sendable(s) && n < Last(s)
    ensures CanMove(SystemAt(s, n), Mover(s, n))
    ensures forall p | p != Mover(s, n) :: !CanMove(SystemAt(s, n), p)
    ensures Turn(s, 0, SystemAt(s, n), Mover(s, n)) == SystemAt(s, n + 1)
  {
    hide SystemAt, CanMove, Turn, Sendable;
    OnlyMover(s, n);
    if n <= 20 && n % 2 == 0 {
      ParentMoves(s, n);
    } else if n < 20 {
      StubReadsParam(s, n);
    } else if n <= 21 + |s.env| {
      StubReadsEnv(s, n);
    } else {
      ParentIsDone(s, n);
    }
  }

  lemma OnlyMover(s: Settings, n: nat)
    requires n < Last(s)
    ensures forall p | p != Mover(s, n) :: !CanMove(SystemAt(s, n), p)
    ensures Mover(s, n).ParentTurn? ==> CanMove(SystemAt(s, n), ParentTurn)
  {
    hide NameOf, Params, EnvLines, Fgets;
    NothingToRead();
  }

  lemma ParentIsDone(s: Settings, n: nat)
    requires n == 22 + |s.env|
    ensures Turn(s, 0, SystemAt(s, n), ParentTurn) == SystemAt(s, n + 1)
  {
    hide NameOf, Params, ParentStep, StubStep;
    ParentSendsEnvironment(s);
    assert SystemAt(s, n).toParent[1..] == [];
  }

  // ---------------------------------------------------------------- the installation check

  /** With check set the conversation is short: header, "stop", "end". */
  function CheckAt(n: nat): System
    requires n <= 3
  {
    if n == 0 then BEGIN
    else if n == 1 then System(Serving, Param(0, []), STOP_WORD + [NL], [])
    else if n == 2 then System(Serving, Stopped, [], [NameOf(End)])
    else System(Done(0), Stopped, [], [])
  }

  lemma CheckProgress(s: Settings, check: int, n: nat)
    requires check != 0 && n < 3
    ensures
      var mover := if n == 1 then StubTurn else ParentTurn;
      && CanMove(CheckAt(n), mover)
      && (forall p | p != mover :: !CanMove(CheckAt(n), p))
      && Turn(s, check, CheckAt(n), mover) == CheckAt(n + 1)
  {
    hide NameOf, Recognise, Fgets, ParamValue;
    if n == 1 {
      assert STOP_WORD + [NL] + [] == STOP_WORD + [NL];
      FgetsLine(STOP_WORD, []);
      assert RawLine(STOP_WORD);
      RawValue(STOP_WORD);
      assert [] + [NameOf(End)] == [NameOf(End)];
    } else {
      RecognisesNames(NameOf(End), End);
      assert [NameOf(Header)][1..] == [] && [NameOf(End)][1..] == [];
      assert [] + (STOP_WORD + [NL]) == STOP_WORD + [NL];
    }
    assert Fgets([]) == None by { NothingToRead(); }
  }

  lemma NothingToRead()
    ensures Fgets([]) == None
  {
  }

  // ---------------------------------------------------------------- every schedule

  /** The course for either value of check. */
  function Course(s: Settings, check: int, n: nat): System
    requires n <= EndOf(s, check)
  {
    if check == 0 then SystemAt(s, n) else CheckAt(n)
  }

  function EndOf(s: Settings, check: int): nat { if check == 0 then Last(s) else 3 }

  function Moves(s: Settings, check: int, n: nat): Party
  {
    if check == 0 then Mover(s, n) else if n == 1 then StubTurn else ParentTurn
  }

  lemma CourseLeadsOn(s: Settings, check: int, n: nat)
    requires Sendable(s) && n < EndOf(s, check)
    ensures CanMove(Course(s, check, n), Moves(s, check, n))
    ensures forall p | p != Moves(s, check, n) :: !CanMove(Course(s, check, n), p)
    ensures Turn(s, check, Course(s, check, n), Moves(s, check, n)) == Course(s, check, n + 1)
  {
    hide SystemAt, CheckAt, Turn, CanMove, Sendable;
    if check == 0 { Progress(s, n); } else { CheckProgress(s, check, n); }
  }

  function RunTurns(s: Settings, check: int, y: System, turns: seq<Party>): System
    decreases turns
  {
    if turns == [] then y else RunTurns(s, check, Turn(s, check, y, turns[0]), turns[1..])
  }

  lemma FinalIsFinal(s: Settings, check: int, p: Party)
    ensures !CanMove(Course(s, check, EndOf(s, check)), p)
  {
  }

  /** Whatever the schedule, the conversation stays on its course. */
  lemma {:induction false} StaysOnCourse(s: Settings, check: int, n: nat, turns: seq<Party>) returns (m: nat)
    requires Sendable(s) && n <= EndOf(s, check)
    ensures n <= m <= EndOf(s, check) && RunTurns(s, check, Course(s, check, n), turns) == Course(s, check, m)
    ensures n < EndOf(s, check) && Moves(s, check, n) in turns ==> n < m
    decreases turns
  {
    hide Course, Turn, CanMove, Moves, EndOf;
    if turns == [] { return n; }
    var n1 := n;
    if n < EndOf(s, check) {
      CourseLeadsOn(s, check, n);
      if turns[0] == Moves(s, check, n) { n1 := n + 1; } else { Idle(s, check, Course(s, check, n), turns[0]); }
    } else {
      FinalIsFinal(s, check, turns[0]);
      Idle(s, check, Course(s, check, n), turns[0]);
    }
    m := StaysOnCourse(s, check, n1, turns[1..]);
    assert turns == [turns[0]] + turns[1..];
  }

  lemma Idle(s: Settings, check: int, y: System, p: Party)
    requires !CanMove(y, p)
    ensures Turn(s, check, y, p) == y
  {
  }

  /** Under every schedule, at every moment, the conversation is over or exactly one party can
      move: it never deadlocks. */
  lemma NeverDeadlocks(s: Settings, check: int, turns: seq<Party>)
    requires Sendable(s)
    ensures
      var y := RunTurns(s, check, BEGIN, turns);
      y.parent == Done(0) || (CanMove(y, ParentTurn) <==> !CanMove(y, StubTurn))
  {
    hide CanMove, RunTurns, CheckAt, SystemAt;
    StartOfCourse(s, check);
    var m := StaysOnCourse(s, check, 0, turns);
    if m < EndOf(s, check) {
      CourseLeadsOn(s, check, m);
    } else {
      EndOfCourse(s, check);
    }
  }

  lemma StartOfCourse(s: Settings, check: int)
    ensures Course(s, check, 0) == BEGIN
  {
  }

  lemma EndOfCourse(s: Settings, check: int)
    ensures Course(s, check, EndOf(s, check)) ==
      System(Done(0), if check == 0 then Complete(Params(s), s.env) else Stopped, [], [])
  {
  }

  predicate BothTurn(round: seq<Party>) { ParentTurn in round && StubTurn in round }

  function RunRounds(s: Settings, check: int, y: System, rounds: seq<seq<Party>>): System
    decreases rounds
  {
    if rounds == [] then y else RunRounds(s, check, RunTurns(s, check, y, rounds[0]), rounds[1..])
  }

  lemma {:induction false} RoundsLeadOn(s: Settings, check: int, n: nat, rounds: seq<seq<Party>>)
    requires Sendable(s) && n <= EndOf(s, check)
    requires forall i | 0 <= i < |rounds| :: BothTurn(rounds[i])
    requires n + |rounds| >= EndOf(s, check)
    ensures RunRounds(s, check, Course(s, check, n), rounds) == Course(s, check, EndOf(s, check))
    decreases rounds
  {
    hide Course, Moves, RunTurns, EndOf;
    if rounds != [] {
      var m := StaysOnCourse(s, check, n, rounds[0]);
      assert BothTurn(rounds[0]) && (Moves(s, check, n) == ParentTurn || Moves(s, check, n) == StubTurn);
      RoundsLeadOn(s, check, m, rounds[1..]);
    }
  }

  /** Agreement of the two programs.  For settings whose raw values have no newline or NUL, whose
      environment entries are non-empty and NUL-free, and whose lines fit the stub's buffer: under
      every schedule in which both parties get enough turns the conversation comes to its end,
      converseStub has returned 0, nothing is left in the channels, and the stub holds every
      parameter, makes the original command of its command parameter, and has the same environment
      in the same order; with check set it has been stopped instead. */
  lemma StubConversationAgrees(s: Settings, check: int, rounds: seq<seq<Party>>)
    requires Sendable(s)
    requires forall i | 0 <= i < |rounds| :: BothTurn(rounds[i])
    requires |rounds| >= EndOf(s, check)
    ensures RunRounds(s, check, BEGIN, rounds) ==
      System(Done(0), if check == 0 then Complete(Params(s), s.env) else Stopped, [], [])
    ensures CommandOf(Params(s)[3]) == s.command
  {
    hide Course, RunRounds, EndOf, Params, CommandOf, Sendable, BothTurn;
    StartOfCourse(s, check);
    RoundsLeadOn(s, check, 0, rounds);
    EndOfCourse(s, check);
    CommandArrives(s);
  }

  lemma CommandArrives(s: Settings)
    requires Sendable(s)
    ensures CommandOf(Params(s)[3]) == s.command
  {
    hide Encode, CommandOf, ParamValue;
    CommandRoundTrip(s.command);
  }
}
