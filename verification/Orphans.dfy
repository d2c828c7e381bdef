/** What a DELS that cuts the cache's pairs apart leads to (src/kdesud/repo.cpp:56-73,
    src/kdesud/handler.cpp:276-297): a run of the main loop in which a password is used for another
    environment than the one it was stored for. */
module Orphans {
  import opened ByteStrings
  import opened Lexer
  import opened Client
  import opened Grammar
  import opened Framing
  import opened SafeStrings
  import opened TimedMap
  import opened Session
  import opened Environments
  import opened Delivery
  import opened Daemon
  import opened Inputs
  import opened PasswordCache

  // ---------------------------------------------------------------- one line, one input

  /** A connection of the owner whose buffer is empty. */
  predicate Ready(nd: Node, fd: nat)
  {
    Open(nd, fd) && SideOf(nd, fd) == Side([], true)
  }

  lemma OneLineInput(nd: Node, fd: nat, line: Bytes, r: Request, tick: nat -> Tick)
    requires Ready(nd, fd) && Framed(line) && |line| < BUF_SIZE - 1 && Parse(line) == Command(r)
    ensures
      var x := Readable(fd, Data(line), tick);
      var o := Perform(ConnAt(nd.d, fd).value, nd.d.table, r, tick(0));
      && LegalInput(nd, x)
      && EventsOf(nd, x) == [Line(fd, line, tick(0))]
      && NodeStep(nd, x).d == Daemon(nd.d.handler[fd := Some(o.conn)], o.table, !o.stopped)
      && RequestOf(nd.d, Line(fd, line, tick(0))) == Some(r)
      && forall f: nat :: SideOf(NodeStep(nd, x), f) == SideOf(nd, f)
  {
    hide Parse, Perform, Lines, Tail, LineEvents, After, StateAt, Framed;
    var x := Readable(fd, Data(line), tick);
    assert [] + line == line;
    FramedAlone(line);
    OneLineEvent(fd, line, tick);
    EventsOfData(nd, fd, line, tick);
    OneEvent(nd.d, Line(fd, line, tick(0)));
    SidesOfData(nd, fd, Data(line), tick);
    assert line != [] by { FramedIsSome(line); }
  }

  lemma FramedIsSome(line: Bytes)
    requires Framed(line)
    ensures line != []
  {
  }

  /** A sweep at time 0, when nothing is due. */
  lemma IdleWake(nd: Node)
    requires nd.d.running && forall k | k in nd.d.table :: nd.d.table[k].timeout > 0
    ensures NodeStep(nd, Wake(0)) == nd && EventsOf(nd, Wake(0)) == [Sweep(0)]
  {
    hide StateAt, After;
    OneEvent(nd.d, Sweep(0));
    assert ExpiredKeys(nd.d.table, 0) == {};
    assert Without(nd.d.table, {}) == nd.d.table;
  }

  // ---------------------------------------------------------------- the run

  const FIRST := Tick(0, 1)
  const SECOND := Tick(0, 2)

  /** The host that completes the argument to a key: see BrokenBody. */
  function HostOf(special: Bytes): Bytes { if |special| < 2 then [] else special[2..] }

  /** The lines sent: a password is stored for a command with one environment entry; DELS; and on
      another connection, without PASS, the same command is asked for without environment. */
  function LineNo(special: Bytes, k: nat): Bytes
  {
    match k
    case 1 => StrLine(HOST, HostOf(special))
    case 2 => Wire(SetPass([], 0))
    case 3 => Wire(Exec([], [], [], [[]]))
    case 4 => StrLine(DELS, special)
    case 6 => StrLine(HOST, HostOf(special))
    case _ => Wire(Exec([], [], [], []))
  }

  function RequestNo(special: Bytes, k: nat): Request
  {
    match k
    case 1 => SetHost(HostOf(special))
    case 2 => SetPass([], 0)
    case 3 => Exec([], [], [], [[]])
    case 4 => DelVars(special)
    case 6 => SetHost(HostOf(special))
    case _ => Exec([], [], [], [])
  }

  predicate Accepts(k: nat) { k == 0 || k == 5 }

  function Fd(k: nat): nat { if k < 5 then 0 else 1 }

  function TickNo(k: nat): Tick { if k < 5 then FIRST else SECOND }

  function StepNo(special: Bytes, k: nat): Input
  {
    if Accepts(k) then NewConnection(Fd(k), true)
    else Readable(Fd(k), Data(LineNo(special, k)), _ => TickNo(k))
  }

  /** Eight turns of the main loop with one input each. */
  function OrphanRun(special: Bytes): (ins: seq<Input>)
    ensures |ins| == 16
    ensures forall j | 0 <= j < 8 :: ins[2 * j] == Wake(0) && ins[2 * j + 1] == StepNo(special, j)
  {
    seq(16, j requires 0 <= j < 16 => if j % 2 == 0 then Wake(0) else StepNo(special, j / 2))
  }

  /** All lines of the run fit the buffer if the one with DELS does. */
  predicate Fitting(special: Bytes)
  {
    CutsEnvKeys(special) && |StrLine(DELS, special)| < BUF_SIZE - 1
  }

  lemma LinesOfRun(special: Bytes, k: nat)
    requires Fitting(special) && k < 8 && !Accepts(k)
    ensures Framed(LineNo(special, k)) && |LineNo(special, k)| < BUF_SIZE - 1
    ensures Parse(LineNo(special, k)) == Command(RequestNo(special, k))
  {
    hide Parse, Wire, StrLine, HostOf, Framed, CutsEnvKeys;
    assert HOST[0] != DELS[0];
    if k == 1 || k == 6 {
      StrLineIsRead(HOST, HostOf(special));
      HostIsShorter(special);
      StrLineIsFramed(HOST, HostOf(special));
    } else if k == 2 {
      ParseInvertsWire(SetPass([], 0));
      WireIsFramed(SetPass([], 0));
      ShortWires();
    } else if k == 3 {
      ParseInvertsWire(Exec([], [], [], [[]]));
      WireIsFramed(Exec([], [], [], [[]]));
      ShortWires();
    } else if k == 4 {
      StrLineIsRead(DELS, special);
      StrLineIsFramed(DELS, special);
    } else {
      ParseInvertsWire(Exec([], [], [], []));
      WireIsFramed(Exec([], [], [], []));
      ShortWires();
    }
  }

  lemma ShortWires()
    ensures |Wire(SetPass([], 0))| < 100
    ensures |Wire(Exec([], [], [], [[]]))| < 100
    ensures |Wire(Exec([], [], [], []))| < 100
  {
    var one: seq<Bytes> := [[]];
    assert one[1..] == [] && |StrArgs(one)| == |StrArg([])| + |StrArgs([])|;
    assert |Digits(0)| == 1;
  }

  lemma HostIsShorter(special: Bytes)
    ensures |StrLine(HOST, HostOf(special))| <= |StrLine(DELS, special)|
  {
    if |special| >= 2 {
      SafeBodyStep(special[0], special[1..]);
      SafeBodyStep(special[1], special[2..]);
      assert special == [special[0]] + special[1..] && special[1..] == [special[1]] + special[2..];
    }
  }

  lemma StrLineIsFramed(w: Bytes, a: Bytes)
    requires NL !in w
    ensures Framed(StrLine(w, a))
  {
    SafeBodyIsOneLine(a);
    var line := StrLine(w, a);
    assert line[..|line| - 1] == w + ([SPACE] + SafeQuoted(a));
  }

  lemma {:induction false} SafeBodyIsOneLine(s: Bytes)
    ensures NL !in SafeBody(s)
  {
    if s != [] { SafeBodyIsOneLine(s[1..]); }
  }

  // ---------------------------------------------------------------- its states

  /** The first connection once its host is set, which is also the second one in the end; with its
      password; with the child started; and after DELS. */
  function Hosted(special: Bytes): Conn { Answered(NEW_CONN.(host := HostOf(special)), Yes) }

  function WithPass(special: Bytes): Conn { Answered(Hosted(special).(pass := Some([]), timeout := 0), Yes) }

  function Launched(special: Bytes): Conn { Forking(WithPass(special), Exec([], [], [], [[]]), [], 1) }

  function Stored(special: Bytes): Table { Remember(WithPass(special), map[], [], [], [[]], [], 0) }

  function Orphaned(special: Bytes): Table { Apply(Stored(special), OpRemoveSpecial(special)) }

  function Deleted(special: Bytes): Conn
  {
    Perform(Launched(special), Stored(special), DelVars(special), FIRST).conn
  }

  /** The daemon before step k. */
  function Stage(special: Bytes, k: nat): Daemon
  {
    match k
    case 0 => START
    case 1 => Daemon([Some(NEW_CONN)], map[], true)
    case 2 => Daemon([Some(Hosted(special))], map[], true)
    case 3 => Daemon([Some(WithPass(special))], map[], true)
    case 4 => Daemon([Some(Launched(special))], Stored(special), true)
    case 5 => Daemon([Some(Deleted(special))], Orphaned(special), true)
    case 6 => Daemon([Some(Deleted(special)), Some(NEW_CONN)], Orphaned(special), true)
    case _ => Daemon([Some(Deleted(special)), Some(Hosted(special))], Orphaned(special), true)
  }

  /** What a request does to the only connection, or to the second one. */
  lemma StageStep(special: Bytes, k: nat)
    requires k < 7 && !Accepts(k)
    ensures ConnAt(Stage(special, k), Fd(k)).Some?
    ensures
      var d := Stage(special, k);
      var o := Perform(ConnAt(d, Fd(k)).value, d.table, RequestNo(special, k), TickNo(k));
      Stage(special, k + 1) == Daemon(d.handler[Fd(k) := Some(o.conn)], o.table, !o.stopped)
  {
    hide HostOf, Remember, Forking, EnvKey, PassKey, Apply, Answer;
    OneEmptyEntry();
    var a, b, c, e, f := NEW_CONN, Hosted(special), WithPass(special), Launched(special), Deleted(special);
    assert [Some(a)][0 := Some(b)] == [Some(b)] && [Some(b)][0 := Some(c)] == [Some(c)];
    assert [Some(c)][0 := Some(e)] == [Some(e)] && [Some(e)][0 := Some(f)] == [Some(f)];
    assert [Some(f), Some(a)][1 := Some(b)] == [Some(f), Some(b)];
  }

  /** One empty environment entry is not the same as none. */
  lemma OneEmptyEntry()
    ensures EnvCheck([[]]) == [STAR] && EnvCheck([]) == []
    ensures Filtered([[]]) == [[]] && Filtered([]) == []
  {
    var one: seq<Bytes> := [[]];
    assert one[1..] == [];
  }

  lemma NothingIsDue(special: Bytes, k: nat)
    requires k < 8
    ensures Stage(special, k).running
    ensures forall x | x in Stage(special, k).table :: Stage(special, k).table[x].timeout > 0
  {
    hide EnvKey, PassKey, HostOf, EnvCheck, Deletes, Forking, Perform;
  }

  lemma AcceptStage(special: Bytes, k: nat)
    requires Accepts(k)
    ensures
      var d := Stage(special, k);
      Stage(special, k + 1) == d.(handler := Extend(d.handler, Fd(k) + 1)[Fd(k) := Some(NEW_CONN)])
  {
    hide Hosted, Deleted, Orphaned;
    var h := Stage(special, k).handler;
    assert Extend(h, Fd(k) + 1) == h + [None];
    assert (h + [None])[Fd(k) := Some(NEW_CONN)] == h + [Some(NEW_CONN)];
    if k == 5 { assert [Some(Deleted(special))] + [Some(NEW_CONN)] == [Some(Deleted(special)), Some(NEW_CONN)]; }
  }

  /** The run goes through these stages, with one event for each input. */
  lemma {:induction false} Stages(special: Bytes, k: nat)
    requires Fitting(special) && k < 8
    ensures
      var ins := OrphanRun(special);
      var nd := NodeAt(ins, 2 * k);
      && nd.d == Stage(special, k)
      && (0 < k ==> Ready(nd, 0)) && (5 < k ==> Ready(nd, 1))
      && NodeAt(ins, 2 * k + 1) == nd
      && |EventsUpTo(ins, 2 * k)| == 2 * k && |EventsUpTo(ins, 2 * k + 1)| == 2 * k + 1
  {
    hide Stage, OrphanRun, EventsOf, NodeStep, StepNo, SideOf, LegalInput, NodeAt, EventsUpTo, Ready, Fitting, Accepts,
      CutsEnvKeys, StrLine;
    var ins := OrphanRun(special);
    if k == 0 {
      FirstStage(special, ins);
    } else {
      Stages(special, k - 1);
      assert ins[2 * (k - 1) + 1] == StepNo(special, k - 1);
      NextStage(special, k - 1, NodeAt(ins, 2 * k - 1));
      OneInput(ins, 2 * k - 1);
    }
    NothingIsDue(special, k);
    assert ins[2 * k] == Wake(0);
    IdleWake(NodeAt(ins, 2 * k));
    OneInput(ins, 2 * k);
  }

  lemma FirstStage(special: Bytes, ins: seq<Input>)
    ensures NodeAt(ins, 0).d == Stage(special, 0) && |EventsUpTo(ins, 0)| == 0
  {
  }

  lemma OneInput(ins: seq<Input>, m: nat)
    requires m < |ins|
    ensures NodeAt(ins, m + 1) == NodeStep(NodeAt(ins, m), ins[m])
    ensures |EventsUpTo(ins, m + 1)| == |EventsUpTo(ins, m)| + |EventsOf(NodeAt(ins, m), ins[m])|
  {
    hide NodeStep, EventsOf;
  }

  lemma NextStage(special: Bytes, k: nat, nd: Node)
    requires Fitting(special) && k < 7 && nd.d == Stage(special, k)
    requires (0 < k ==> Ready(nd, 0)) && (5 < k ==> Ready(nd, 1))
    ensures
      var x := StepNo(special, k);
      && NodeStep(nd, x).d == Stage(special, k + 1)
      && |EventsOf(nd, x)| == 1 && LegalInput(nd, x)
      && Ready(NodeStep(nd, x), 0) && (5 <= k ==> Ready(NodeStep(nd, x), 1))
      && (Accepts(k) ==> EventsOf(nd, x) == [Accept(Fd(k))])
      && (!Accepts(k) ==>
            && EventsOf(nd, x) == [Line(Fd(k), LineNo(special, k), TickNo(k))]
            && RequestOf(nd.d, EventsOf(nd, x)[0]) == Some(RequestNo(special, k)))
  {
    hide Stage, NodeStep, Perform, Parse, LineNo, RequestNo, LineEvents, Lines, Fitting, Framed;
    NothingIsDue(special, k);
    NothingIsDue(special, k + 1);
    if Accepts(k) {
      SimpleSteps(nd);
      AcceptStage(special, k);
      ReadyConnections(special, k + 1);
    } else {
      LinesOfRun(special, k);
      OneLineInput(nd, Fd(k), LineNo(special, k), RequestNo(special, k), _ => TickNo(k));
      StageStep(special, k);
      ReadyConnections(special, k + 1);
    }
  }

  lemma ReadyConnections(special: Bytes, k: nat)
    requires 0 < k < 8
    ensures ConnAt(Stage(special, k), 0).Some? && (5 < k ==> ConnAt(Stage(special, k), 1).Some?)
  {
    hide Hosted, Deleted, Orphaned, WithPass, Launched, Stored;
  }

  // ---------------------------------------------------------------- what it does

  /** The password is left in the store, its environment is gone. */
  lemma LeavesOrphan(special: Bytes)
    requires CutsEnvKeys(special)
    ensures EnvKey(Hosted(special), [], []) !in Orphaned(special)
    ensures PassKey(Hosted(special), [], []) in Orphaned(special)
    ensures Orphaned(special)[PassKey(Hosted(special), [], [])].value == []
  {
    hide EnvCheck, Deadline, MakeKey, Contains, CutsEnvKeys;
    var b := BrokenBody(special);
    assert b == KeyBody(HostOf(special), [], []);
    RememberStores(WithPass(special), map[], [], [], [[]], [], 0);
    BrokenBodyIsCut(special);
    MakeKeyIsKeyOf(0, HostOf(special), [], []);
    MakeKeyIsKeyOf(2, HostOf(special), [], []);
    assert special != [] by { NotEmpty(special); }
    assert IsSpecial(KeyOf(2, b), Stored(special)[KeyOf(2, b)], special);
  }

  lemma NotEmpty(special: Bytes)
    requires CutsEnvKeys(special)
    ensures special != [] && IsDigit(special[0])
  {
  }

  /** The event of an input of the run, in the run of events. */
  lemma EventNo(special: Bytes, j: nat)
    requires Fitting(special) && j < 16
    ensures
      var es := EventsUpTo(OrphanRun(special), 16);
      && |es| == 16 && StateAt(START, es, j) == Stage(special, j / 2)
      && EventsOf(NodeAt(OrphanRun(special), j), OrphanRun(special)[j]) == [es[j]]
  {
    hide *;
    var ins := OrphanRun(special);
    LastEvent(special);
    EventsBefore(special, j);
    StateBefore(ins, j, 16);
    OneEventAt(special, j);
    NextEvents(ins, j);
    EventsGrow(ins, j + 1, 16);
    NextOne(EventsUpTo(ins, j), EventsOf(NodeAt(ins, j), ins[j]), EventsUpTo(ins, 16));
  }

  lemma OneEventAt(special: Bytes, j: nat)
    requires Fitting(special) && j < 16
    ensures
      var nd := NodeAt(OrphanRun(special), j);
      nd.d == Stage(special, j / 2) && |EventsOf(nd, OrphanRun(special)[j])| == 1
  {
    hide *;
    InputNo(special, j);
  }

  lemma EventsBefore(special: Bytes, j: nat)
    requires Fitting(special) && j < 16
    ensures |EventsUpTo(OrphanRun(special), j)| == j
  {
    hide *;
    Stages(special, j / 2);
    assert j == 2 * (j / 2) || j == 2 * (j / 2) + 1;
  }

  lemma NextOne(a: seq<Event>, x: seq<Event>, es: seq<Event>)
    requires |x| == 1 && a + x <= es
    ensures |a| < |es| && x == [es[|a|]]
  {
    assert x[0] == (a + x)[|a|] == es[|a|];
  }

  /** An input of the run, and what it is as an event. */
  lemma InputNo(special: Bytes, j: nat)
    requires Fitting(special) && j < 16
    ensures
      var nd, x := NodeAt(OrphanRun(special), j), OrphanRun(special)[j];
      && nd.d == Stage(special, j / 2) && LegalInput(nd, x)
      && (x.Wake? <==> j % 2 == 0)
      && (j % 2 == 0 ==> EventsOf(nd, x) == [Sweep(0)])
      && (j % 2 == 1 && Accepts(j / 2) ==> EventsOf(nd, x) == [Accept(Fd(j / 2))])
      && (j % 2 == 1 && !Accepts(j / 2) ==>
            && EventsOf(nd, x) == [Line(Fd(j / 2), LineNo(special, j / 2), TickNo(j / 2))]
            && RequestOf(nd.d, EventsOf(nd, x)[0]) == Some(RequestNo(special, j / 2)))
  {
    hide Stage, OrphanRun, EventsOf, NodeAt, StateAt, EventsUpTo, LineNo, RequestNo, Fitting, StepNo, LegalInput, Ready,
      RequestOf;
    var ins, k := OrphanRun(special), j / 2;
    Stages(special, k);
    assert ins[2 * k] == Wake(0) && ins[2 * k + 1] == StepNo(special, k);
    if j % 2 == 0 {
      NothingIsDue(special, k);
      IdleWake(NodeAt(ins, j));
      WakesAreLegal(NodeAt(ins, j));
    } else {
      EachEvent(special, k, NodeAt(ins, j));
      StepIsNoWake(special, k);
    }
  }

  lemma WakesAreLegal(nd: Node)
    ensures LegalInput(nd, Wake(0))
  {
  }

  /** The last input counts too. */
  lemma EachEvent(special: Bytes, k: nat, nd: Node)
    requires Fitting(special) && k < 8 && nd.d == Stage(special, k)
    requires (0 < k ==> Ready(nd, 0)) && (5 < k ==> Ready(nd, 1))
    ensures |EventsOf(nd, StepNo(special, k))| == 1 && LegalInput(nd, StepNo(special, k))
    ensures Accepts(k) ==> EventsOf(nd, StepNo(special, k)) == [Accept(Fd(k))]
    ensures !Accepts(k) ==>
      && EventsOf(nd, StepNo(special, k)) == [Line(Fd(k), LineNo(special, k), TickNo(k))]
      && RequestOf(nd.d, Line(Fd(k), LineNo(special, k), TickNo(k))) == Some(RequestNo(special, k))
  {
    hide Stage, NodeStep, Perform, Parse, LineNo, RequestNo, LineEvents, Lines, Fitting, Framed;
    NothingIsDue(special, k);
    if !Accepts(k) {
      LinesOfRun(special, k);
      OneLineInput(nd, Fd(k), LineNo(special, k), RequestNo(special, k), _ => TickNo(k));
    }
  }

  lemma LastEvent(special: Bytes)
    requires Fitting(special)
    ensures |EventsUpTo(OrphanRun(special), 16)| == 16
  {
    hide Stage, OrphanRun, EventsOf, NodeAt, StateAt, LineNo, Fitting, StepNo;
    var ins := OrphanRun(special);
    Stages(special, 7);
    assert ins[15] == ins[2 * 7 + 1] == StepNo(special, 7);
    EachEvent(special, 7, NodeAt(ins, 15));
    NextEvents(ins, 15);
  }

  // ---------------------------------------------------------------- exactly

  /** No DELS of the run has another argument. */
  predicate OnlyDels(es: seq<Event>, n: nat, special: Bytes)
    requires n <= |es|
  {
    forall i | 0 <= i < n && RequestOf(StateAt(START, es, i), es[i]).Some? ::
      var r := RequestOf(StateAt(START, es, i), es[i]).value;
      r.DelVars? ==> r.specialKey == special
  }

  /** The environments of the run have no '*', so that each is compared exactly. */
  predicate PlainEnvironments(es: seq<Event>, n: nat)
    requires n <= |es|
  {
    forall i | 0 <= i < n && RequestOf(StateAt(START, es, i), es[i]).Some? ::
      var r := RequestOf(StateAt(START, es, i), es[i]).value;
      r.Exec? ==> StarFree(Filtered(r.env))
  }

  /** Event m stored this password for this environment, under the key of this request. */
  predicate StoredForIt(es: seq<Event>, m: nat, n: nat, c: Conn, r: Request, password: Bytes)
    requires m < n <= |es| && r.Exec?
  {
    && Origin(es, m, n, KeyBody(c.host, AuthUser(c, r.user), r.command), EnvCheck(r.env), password)
    && Filtered(RequestOf(StateAt(START, es, m), es[m]).value.env) == Filtered(r.env)
  }

  /** A program is started without PASS although no EXEC has stored a password under its key and
      for its environment. */
  ghost predicate Mislaunches(es: seq<Event>, n: nat)
    requires n < |es|
  {
    var d := StateAt(START, es, n);
    LaunchesWithoutPass(d, es[n]) &&
    var c, r := ConnAt(d, es[n].fd).value, RequestOf(d, es[n]).value;
    forall m, password | 0 <= m < n :: !StoredForIt(es, m, n, c, r, password)
  }

  /** A run of the main loop with legal reads in which event i does that. */
  ghost predicate MislaunchingRun(ins: seq<Input>, i: nat, special: Bytes)
  {
    var es := EventsUpTo(ins, |ins|);
    && (forall j | 0 <= j < |ins| :: LegalInput(NodeAt(ins, j), ins[j]))
    && i < |es| && OnlyDels(es, i, special) && PlainEnvironments(es, i + 1) && Mislaunches(es, i)
  }

  /** The request of an event of the run. */
  lemma RequestsOfRun(special: Bytes, j: nat)
    requires Fitting(special) && j < 16
    ensures
      var es := EventsUpTo(OrphanRun(special), 16);
      j < |es| &&
      RequestOf(StateAt(START, es, j), es[j]) ==
        if j % 2 == 1 && !Accepts(j / 2) then Some(RequestNo(special, j / 2)) else None
  {
    hide Stage, OrphanRun, EventsOf, NodeAt, StateAt, EventsUpTo, LineNo, RequestNo, Fitting, StepNo, Parse, LegalInput;
    EventNo(special, j);
    InputNo(special, j);
  }

  /** Each input of this run comes in a turn of its own, right behind the sweep. */
  lemma OrphanRunMislaunches(special: Bytes)
    requires Fitting(special)
    ensures MislaunchingRun(OrphanRun(special), 15, special)
    ensures forall j | 0 <= j < 16 :: OrphanRun(special)[j].Wake? <==> j % 2 == 0
  {
    hide Stage, OrphanRun, EventsOf, NodeAt, StateAt, EventsUpTo, LineNo, Fitting, StepNo, Parse, LegalInput, Step,
      LaunchesWithoutPass, EnvCheck, Filtered, HostOf;
    var ins := OrphanRun(special);
    var es := EventsUpTo(ins, 16);
    LastEvent(special);
    forall j: nat | j < 16
      ensures LegalInput(NodeAt(ins, j), ins[j])
      ensures
        RequestOf(StateAt(START, es, j), es[j]) ==
          if j % 2 == 1 && !Accepts(j / 2) then Some(RequestNo(special, j / 2)) else None
      ensures ins[j].Wake? <==> j % 2 == 0
    {
      InputNo(special, j);
      RequestsOfRun(special, j);
    }
    OneEmptyEntry();
    EventNo(special, 15);
    InputNo(special, 15);
    LaunchesAtLast(special, es[15]);
    forall m, password | 0 <= m < 15
      ensures !StoredForIt(es, m, 15, Hosted(special), Exec([], [], [], []), password)
    {
      ForOtherEnvironment(special, m, password);
    }
  }

  lemma StepIsNoWake(special: Bytes, k: nat)
    ensures !StepNo(special, k).Wake?
  {
  }

  lemma LaunchesAtLast(special: Bytes, e: Event)
    requires Fitting(special) && e == Line(1, LineNo(special, 7), SECOND)
    ensures LaunchesWithoutPass(Stage(special, 7), e)
    ensures RequestOf(Stage(special, 7), e) == Some(Exec([], [], [], []))
    ensures ConnAt(Stage(special, 7), 1) == Some(Hosted(special))
  {
    hide Parse, Wire, StrLine, Orphaned, Deleted, EnvCheck, EnvKey, PassKey, HostOf, Cached, Remember, CutsEnvKeys;
    LinesOfRun(special, 7);
    LeavesOrphan(special);
    OneEmptyEntry();
    OrphanServesEmptyEnvironment(Hosted(special), Orphaned(special), [], []);
  }

  /** No event has stored a password for the empty environment. */
  lemma ForOtherEnvironment(special: Bytes, m: nat, password: Bytes)
    requires Fitting(special) && m < 15
    ensures
      var es := EventsUpTo(OrphanRun(special), 16);
      15 <= |es| && !StoredForIt(es, m, 15, Hosted(special), Exec([], [], [], []), password)
  {
    hide Stage, OrphanRun, EventsOf, NodeAt, StateAt, LineNo, Fitting, StepNo, Parse, EventsUpTo, Step, EnvCheck,
      Filtered, HostOf, Cached, StoredUntil;
    LastEvent(special);
    RequestsOfRun(special, m);
    OneEmptyEntry();
  }

  /** What the daemon can receive in one line. */
  lemma {:induction false} LinesAreShort(ins: seq<Input>, n: nat)
    requires n <= |ins|
    ensures forall e | e in EventsUpTo(ins, n) && e.Line? :: Framed(e.line) && |e.line| < BUF_SIZE - 1
  {
    hide NodeAt, Framed, EventsOf;
    if n > 0 {
      LinesAreShort(ins, n - 1);
      ShortEvents(NodeAt(ins, n - 1), ins[n - 1]);
    }
  }

  lemma ShortEvents(nd: Node, x: Input)
    ensures forall e | e in EventsOf(nd, x) && e.Line? :: Framed(e.line) && |e.line| < BUF_SIZE - 1
  {
    hide Lines, Tail, Framed, ReapEvents;
    if x.Children? { ReapsAreNoLines(x.results); }
    if x.Readable? && x.recv.Data? {
      var all := SideOf(nd, x.fd).buf + x.recv.chunk;
      LinesAreFramed(all);
      LinesAreParts(all);
    }
  }

  /** A DELS that cuts pairs apart is only received if its line fits. */
  lemma CutsOnlyIfFitting(ins: seq<Input>, i: nat, special: Bytes)
    requires i < |EventsUpTo(ins, |ins|)| && OnlyDels(EventsUpTo(ins, |ins|), i, special)
    ensures !Fitting(special) ==> NoCut(EventsUpTo(ins, |ins|), i)
  {
    hide NodeAt, StateAt, EventsUpTo, Parse, StrLine, CutsEnvKeys, Framed;
    var es := EventsUpTo(ins, |ins|);
    LinesAreShort(ins, |ins|);
    if !Fitting(special) && CutsEnvKeys(special) {
      NotEmpty(special);
      forall j | 0 <= j < i && RequestOf(StateAt(START, es, j), es[j]).Some?
        ensures !RequestOf(StateAt(START, es, j), es[j]).value.DelVars?
      {
        var r := RequestOf(StateAt(START, es, j), es[j]).value;
        assert es[j] in es;
        if r.DelVars? { DelsLineIsNotShorter(es[j].line, special); }
      }
    }
  }

  /** DELS and the password check, exactly: there is a run of the main loop, with no other DELS
      argument and no '*' in environments, in which a program is started without PASS and without a
      password stored for its key and its environment, if and only if the argument is "2" or begins
      with "2*" and the shortest line that carries it fits the daemon's buffer. */
  lemma DelsArgumentsExactly(special: Bytes)
    ensures (exists ins: seq<Input>, i: nat :: MislaunchingRun(ins, i, special)) <==> Fitting(special)
  {
    hide StateAt, Step, RequestOf, EventsUpTo, NodeAt, Origin, LaunchesWithoutPass, EnvCheck, Fitting, AuthUser, KeyBody,
      StarFree, Filtered, ToldApart;
    if Fitting(special) {
      OrphanRunMislaunches(special);
    } else {
      forall ins: seq<Input>, i: nat | MislaunchingRun(ins, i, special) ensures false
      {
        CutsOnlyIfFitting(ins, i, special);
        HasItsOwnOrigin(EventsUpTo(ins, |ins|), i);
      }
    }
  }

  /** Without such a DELS every launch has a password stored for its environment. */
  lemma HasItsOwnOrigin(es: seq<Event>, n: nat)
    requires n < |es| && NoCut(es, n) && PlainEnvironments(es, n + 1)
    ensures !Mislaunches(es, n)
  {
    hide StateAt, Step, RequestOf, Origin, LaunchesWithoutPass, EnvCheck, AuthUser, KeyBody, StarFree, Filtered, ToldApart;
    var d := StateAt(START, es, n);
    if LaunchesWithoutPass(d, es[n]) {
      LaunchIsExec(d, es[n]);
      NoPasswordNoLaunch(es, n);
      var c, r := ConnAt(d, es[n].fd).value, RequestOf(d, es[n]).value;
      var m, password :| 0 <= m < n
        && Origin(es, m, n, KeyBody(c.host, AuthUser(c, r.user), r.command), EnvCheck(r.env), password)
        && SameCommand(StateAt(START, es, m), es[m], c, r);
      assert StoredForIt(es, m, n, c, r, password);
    }
  }

  lemma LaunchIsExec(d: Daemon, e: Event)
    requires LaunchesWithoutPass(d, e)
    ensures e.Line? && ConnAt(d, e.fd).Some? && RequestOf(d, e).Some? && RequestOf(d, e).value.Exec?
  {
  }
}
