/** The main loop (src/kdesud/kdesud.cpp:453-535) as a machine driven by what select, accept, recv
    and waitpid report: its connections with their buffers, and the run of events that its inputs
    amount to. */
module Inputs {
  import opened ByteStrings
  import opened Client
  import opened Grammar
  import opened Framing
  import opened TimedMap
  import opened Session
  import opened Delivery
  import opened Daemon

  /** Wake: select has returned, which begins a turn with a sweep.  Readable: the descriptor of a
      connection is readable, this is what recv returns, and the commands in it see these ticks.
      Children: what successive calls of waitpid report. */
  datatype Input =
    | Wake(now: UInt)
    | NewConnection(fd: nat, owner: bool)
    | Children(results: seq<(int, int)>)
    | Readable(fd: nat, recv: Recv, tick: nat -> Tick)

  /** The buffer of a connection, and whether its peer is the daemon's owner. */
  datatype Side = Side(buf: Bytes, owner: bool)

  datatype Node = Node(d: Daemon, sides: map<nat, Side>)

  const NODE0 := Node(START, map[])

  function SideOf(nd: Node, fd: nat): Side
  {
    if fd in nd.sides then nd.sides[fd] else Side([], false)
  }

  predicate Open(nd: Node, fd: nat) { nd.d.running && ConnAt(nd.d, fd).Some? }

  // ---------------------------------------------------------------- inputs as events

  function LineEvents(fd: nat, lines: seq<Bytes>, tick: nat -> Tick, k: nat): (es: seq<Event>)
    ensures |es| == |lines|
    ensures forall i | 0 <= i < |es| :: es[i] == Line(fd, lines[i], tick(k + i))
    decreases lines
  {
    if lines == [] then [] else [Line(fd, lines[0], tick(k))] + LineEvents(fd, lines[1..], tick, k + 1)
  }

  /** The children reported until waitpid has none left. */
  function ReapEvents(results: seq<(int, int)>): (es: seq<Event>)
    decreases results
  {
    if results == [] || results[0].0 <= 0 then []
    else [Reap(results[0].0, results[0].1)] + ReapEvents(results[1..])
  }

  function DataEvents(fd: nat, side: Side, recv: Recv, tick: nat -> Tick): seq<Event>
  {
    match recv
    case Interrupted => []
    case Eof => [Hangup(fd)]
    case ReadError => [Hangup(fd)]
    case Data(chunk) =>
      var all := side.buf + chunk;
      if |all| >= BUF_SIZE - 1 then [Hangup(fd)]
      else if side.owner then LineEvents(fd, Lines(all), tick, 0)
      else if Lines(all) == [] then []
      else [Hangup(fd)]
  }

  function EventsOf(nd: Node, x: Input): seq<Event>
  {
    if !nd.d.running then []
    else
      match x
      case Wake(now) => [Sweep(now)]
      case NewConnection(fd, _) => [Accept(fd)]
      case Children(results) => ReapEvents(results)
      case Readable(fd, recv, tick) =>
        if Open(nd, fd) then DataEvents(fd, SideOf(nd, fd), recv, tick) else []
  }

  function SidesAfter(nd: Node, x: Input): map<nat, Side>
  {
    match x
    case NewConnection(fd, owner) => nd.sides[fd := Side([], owner)]
    case Readable(fd, Data(chunk), _) =>
      nd.sides[fd := SideOf(nd, fd).(buf := Tail(SideOf(nd, fd).buf + chunk))]
    case _ => nd.sides
  }

  function After(d: Daemon, es: seq<Event>): Daemon { StateAt(d, es, |es|) }

  function NodeStep(nd: Node, x: Input): Node
  {
    Node(After(nd.d, EventsOf(nd, x)), SidesAfter(nd, x))
  }

  /** The state before input number n of a run. */
  function NodeAt(ins: seq<Input>, n: nat): Node
    requires n <= |ins|
  {
    if n == 0 then NODE0 else NodeStep(NodeAt(ins, n - 1), ins[n - 1])
  }

  /** The events of the inputs before number n. */
  function EventsUpTo(ins: seq<Input>, n: nat): seq<Event>
    requires n <= |ins|
  {
    if n == 0 then [] else EventsUpTo(ins, n - 1) + EventsOf(NodeAt(ins, n - 1), ins[n - 1])
  }

  lemma {:induction false} StateOfPrefix(d: Daemon, a: seq<Event>, b: seq<Event>, n: nat)
    requires n <= |a|
    ensures StateAt(d, a + b, n) == StateAt(d, a, n)
  {
    hide Step;
    if n > 0 {
      StateOfPrefix(d, a, b, n - 1);
      assert (a + b)[n - 1] == a[n - 1];
    }
  }

  lemma {:induction false} StateOfSuffix(d: Daemon, a: seq<Event>, b: seq<Event>, n: nat)
    requires n <= |b|
    ensures StateAt(d, a + b, |a| + n) == StateAt(After(d, a), b, n)
  {
    hide Step;
    if n == 0 {
      StateOfPrefix(d, a, b, |a|);
    } else {
      StateOfSuffix(d, a, b, n - 1);
      assert (a + b)[|a| + n - 1] == b[n - 1];
    }
  }

  /** The machine is the daemon run by the events of its inputs. */
  lemma {:induction false} InputsAreARun(ins: seq<Input>, n: nat)
    requires n <= |ins|
    ensures NodeAt(ins, n).d == After(START, EventsUpTo(ins, n))
  {
    hide EventsOf, SidesAfter, Step;
    if n > 0 {
      InputsAreARun(ins, n - 1);
      var a, b := EventsUpTo(ins, n - 1), EventsOf(NodeAt(ins, n - 1), ins[n - 1]);
      StateOfSuffix(START, a, b, |b|);
    }
  }

  lemma NextEvents(ins: seq<Input>, j: nat)
    requires j < |ins|
    ensures EventsUpTo(ins, j + 1) == EventsUpTo(ins, j) + EventsOf(NodeAt(ins, j), ins[j])
  {
  }

  lemma {:induction false} EventsGrow(ins: seq<Input>, m: nat, n: nat)
    requires m <= n <= |ins|
    ensures EventsUpTo(ins, m) <= EventsUpTo(ins, n)
  {
    hide EventsOf, NodeAt;
    if m < n { EventsGrow(ins, m, n - 1); }
  }

  /** The state before input m, in the run of any later input. */
  lemma StateBefore(ins: seq<Input>, m: nat, n: nat)
    requires m <= n <= |ins|
    ensures EventsUpTo(ins, m) <= EventsUpTo(ins, n)
    ensures StateAt(START, EventsUpTo(ins, n), |EventsUpTo(ins, m)|) == NodeAt(ins, m).d
  {
    hide EventsOf, NodeAt, StateAt, EventsUpTo;
    EventsGrow(ins, m, n);
    InputsAreARun(ins, m);
    var a := EventsUpTo(ins, m);
    var b := EventsUpTo(ins, n)[|a|..];
    assert EventsUpTo(ins, n) == a + b;
    StateOfPrefix(START, a, b, |a|);
  }

  // ---------------------------------------------------------------- what one input does

  lemma {:induction false} FirstEventFirst(d: Daemon, es: seq<Event>, n: nat)
    requires 0 < n <= |es|
    ensures StateAt(d, es, n) == StateAt(Step(d, es[0]), es[1..], n - 1)
  {
    hide Step;
    if n > 1 { FirstEventFirst(d, es, n - 1); }
  }

  lemma AfterEvents(d: Daemon, es: seq<Event>)
    ensures After(d, es) == if es == [] then d else After(Step(d, es[0]), es[1..])
  {
    hide Step;
    if es != [] { FirstEventFirst(d, es, |es|); }
  }

  lemma {:induction false} LinesToNobody(d: Daemon, fd: nat, lines: seq<Bytes>, tick: nat -> Tick, k: nat)
    requires !d.running || ConnAt(d, fd).None?
    ensures After(d, LineEvents(fd, lines, tick, k)) == d
    decreases lines
  {
    hide After, StateAt;
    AfterEvents(d, LineEvents(fd, lines, tick, k));
    if lines != [] {
      assert LineEvents(fd, lines, tick, k)[1..] == LineEvents(fd, lines[1..], tick, k + 1);
      LinesToNobody(d, fd, lines[1..], tick, k + 1);
    }
  }

  /** Handling the lines of one recv is the same as the run of one event for each line: a refused
      line ends the connection, STOP ends the daemon, and the remaining lines have no effect. */
  lemma {:induction false} ServeIsARun(d: Daemon, fd: nat, lines: seq<Bytes>, tick: nat -> Tick, k: nat)
    requires d.running && ConnAt(d, fd).Some?
    ensures
      After(d, LineEvents(fd, lines, tick, k)) ==
      match Serve(ConnAt(d, fd).value, d.table, lines, tick, k)
      case Served(c, t) => Daemon(d.handler[fd := Some(c)], t, true)
      case Dropped(t, _) => Daemon(d.handler[fd := None], t, true)
      case Halted(c, t) => Daemon(d.handler[fd := Some(c)], t, false)
    decreases lines
  {
    hide Parse, Perform, Serve, After, StateAt;
    var es := LineEvents(fd, lines, tick, k);
    AfterEvents(d, es);
    ServeUnfolds(ConnAt(d, fd).value, d.table, lines, tick, k);
    if lines == [] {
      assert d.handler[fd := Some(ConnAt(d, fd).value)] == d.handler;
    } else {
      var d1 := Step(d, es[0]);
      assert es[1..] == LineEvents(fd, lines[1..], tick, k + 1);
      if d1.running && ConnAt(d1, fd).Some? {
        ServeIsARun(d1, fd, lines[1..], tick, k + 1);
      } else {
        LinesToNobody(d1, fd, lines[1..], tick, k + 1);
      }
    }
  }

  /** The children that successive waitpid() calls report; the first result that is not positive,
      or the end of the list, ends the loop. */
  function ReapAll(h: seq<Option<Conn>>, results: seq<(int, int)>): seq<Option<Conn>>
    decreases results
  {
    if results == [] || results[0].0 <= 0 then h
    else ReapAll(ReapOne(h, results[0].0, results[0].1), results[1..])
  }

  /** Draining all exited children in one wake-up is one reaping event for each of them. */
  lemma {:induction false} DrainIsARun(d: Daemon, results: seq<(int, int)>)
    requires d.running
    ensures After(d, ReapEvents(results)) == d.(handler := ReapAll(d.handler, results))
    decreases results
  {
    hide ReapOne, After, StateAt;
    AfterEvents(d, ReapEvents(results));
    if results != [] && results[0].0 > 0 {
      var es := ReapEvents(results);
      assert es[1..] == ReapEvents(results[1..]);
      DrainIsARun(Step(d, es[0]), results[1..]);
    }
  }

  /** One readable descriptor: its connection as handle() leaves it. */
  lemma DataIsHandled(nd: Node, fd: nat, recv: Recv, tick: nat -> Tick)
    requires Open(nd, fd)
    ensures
      var d, side := nd.d, SideOf(nd, fd);
      var d1 := NodeStep(nd, Readable(fd, recv, tick)).d;
      match recv
      case Interrupted => d1 == d
      case Eof => d1 == d.(handler := d.handler[fd := None])
      case ReadError => d1 == d.(handler := d.handler[fd := None])
      case Data(chunk) =>
        if |side.buf + chunk| >= BUF_SIZE - 1 then d1 == d.(handler := d.handler[fd := None])
        else
          match ServeFor(side.owner, d.handler[fd].value, d.table, Lines(side.buf + chunk), tick, 0)
          case Served(c, t) => d1 == Daemon(d.handler[fd := Some(c)], t, true)
          case Dropped(t, _) => d1 == Daemon(d.handler[fd := None], t, true)
          case Halted(c, t) => d1 == Daemon(d.handler[fd := Some(c)], t, false)
  {
    hide Serve, Lines, StateAt, LineEvents, After, Tail;
    var d, side := nd.d, SideOf(nd, fd);
    AfterEvents(d, []);
    AfterEvents(d, [Hangup(fd)]);
    AfterEvents(Step(d, Hangup(fd)), []);
    assert [Hangup(fd)][1..] == [];
    assert d.handler[fd := d.handler[fd]] == d.handler;
    if recv.Data? { ServeIsARun(d, fd, Lines(side.buf + recv.chunk), tick, 0); }
  }

  function NodeRun(nd: Node, ins: seq<Input>): Node
    decreases ins
  {
    if ins == [] then nd else NodeRun(NodeStep(nd, ins[0]), ins[1..])
  }

  /** recv returns no more than the room that it was given. */
  predicate LegalInput(nd: Node, x: Input)
  {
    x.Readable? && x.recv.Data? && Open(nd, x.fd) ==> Fits(SideOf(nd, x.fd).buf, x.recv.chunk)
  }

  predicate LegalInputs(nd: Node, ins: seq<Input>)
    decreases ins
  {
    ins == [] || (LegalInput(nd, ins[0]) && LegalInputs(NodeStep(nd, ins[0]), ins[1..]))
  }

  lemma {:induction false} StaysDown(nd: Node, ins: seq<Input>)
    requires !nd.d.running
    ensures !NodeRun(nd, ins).d.running
    decreases ins
  {
    hide SidesAfter;
    if ins != [] { StaysDown(NodeStep(nd, ins[0]), ins[1..]); }
  }

  lemma SimpleSteps(nd: Node)
    requires nd.d.running
    ensures forall now :: NodeStep(nd, Wake(now)) == Node(nd.d.(table := Apply(nd.d.table, OpExpire(now))), nd.sides)
    ensures forall fd: nat, owner ::
      NodeStep(nd, NewConnection(fd, owner)) ==
        Node(nd.d.(handler := Extend(nd.d.handler, fd + 1)[fd := Some(NEW_CONN)]), nd.sides[fd := Side([], owner)])
    ensures forall results ::
      NodeStep(nd, Children(results)) == Node(nd.d.(handler := ReapAll(nd.d.handler, results)), nd.sides)
  {
    hide StateAt, ReapAll, ReapEvents, After, Apply, Extend;
    forall now: UInt ensures After(nd.d, [Sweep(now)]) == nd.d.(table := Apply(nd.d.table, OpExpire(now)))
    {
      OneEvent(nd.d, Sweep(now));
    }
    forall fd: nat ensures After(nd.d, [Accept(fd)]) == nd.d.(handler := Extend(nd.d.handler, fd + 1)[fd := Some(NEW_CONN)])
    {
      OneEvent(nd.d, Accept(fd));
    }
    forall results ensures After(nd.d, ReapEvents(results)) == nd.d.(handler := ReapAll(nd.d.handler, results))
    {
      DrainIsARun(nd.d, results);
    }
  }

  lemma OneEvent(d: Daemon, e: Event)
    ensures After(d, [e]) == Step(d, e)
  {
    hide Step, After, StateAt;
    AfterEvents(d, [e]);
    AfterEvents(Step(d, e), []);
    assert [e][1..] == [];
  }

  lemma SidesOfData(nd: Node, fd: nat, recv: Recv, tick: nat -> Tick)
    ensures
      var side, nd1 := SideOf(nd, fd), NodeStep(nd, Readable(fd, recv, tick));
      && SideOf(nd1, fd) == (if recv.Data? then side.(buf := Tail(side.buf + recv.chunk)) else side)
      && (forall i: nat | i != fd :: SideOf(nd1, i) == SideOf(nd, i))
  {
    hide Tail, After;
  }

  lemma ClosedInput(nd: Node, fd: nat, recv: Recv, tick: nat -> Tick)
    requires ConnAt(nd.d, fd).None?
    ensures NodeStep(nd, Readable(fd, recv, tick)).d == nd.d
  {
  }

  lemma NextInput(nd: Node, ins: seq<Input>)
    requires ins != []
    ensures NodeRun(nd, ins) == NodeRun(NodeStep(nd, ins[0]), ins[1..])
    ensures LegalInputs(nd, ins) ==> LegalInput(nd, ins[0]) && LegalInputs(NodeStep(nd, ins[0]), ins[1..])
  {
    hide NodeStep, LegalInput;
  }

  lemma NoMoreInputs(nd: Node)
    ensures NodeRun(nd, []) == nd
  {
  }

  // ---------------------------------------------------------------- one connection among others

  /** The bytes received on a descriptor since its connection was accepted. */
  function Received(ins: seq<Input>, n: nat, fd: nat): Bytes
    requires n <= |ins|
  {
    if n == 0 then []
    else
      match ins[n - 1]
      case NewConnection(f, _) => if f == fd then [] else Received(ins, n - 1, fd)
      case Readable(f, Data(chunk), _) =>
        if f == fd then Received(ins, n - 1, fd) + chunk else Received(ins, n - 1, fd)
      case _ => Received(ins, n - 1, fd)
  }

  /** The lines of the events on one descriptor. */
  function LinesOn(es: seq<Event>, fd: nat): seq<Bytes>
  {
    if es == [] then []
    else (if es[0].Line? && es[0].fd == fd then [es[0].line] else []) + LinesOn(es[1..], fd)
  }

  /** The lines handed to doCommand on a descriptor since its connection was accepted. */
  function Handed(ins: seq<Input>, n: nat, fd: nat): seq<Bytes>
    requires n <= |ins|
  {
    if n == 0 || ins[n - 1] == NewConnection(fd, true) || ins[n - 1] == NewConnection(fd, false) then []
    else Handed(ins, n - 1, fd) + LinesOn(EventsOf(NodeAt(ins, n - 1), ins[n - 1]), fd)
  }

  /** Only a new connection opens a descriptor. */
  lemma StaysClosed(d: Daemon, e: Event, fd: nat)
    requires !d.running || ConnAt(d, fd).None?
    requires e != Accept(fd)
    ensures !Step(d, e).running || ConnAt(Step(d, e), fd).None?
  {
    hide Parse, Perform;
  }

  lemma {:induction false} StayClosed(d: Daemon, es: seq<Event>, fd: nat)
    requires !d.running || ConnAt(d, fd).None?
    requires Accept(fd) !in es
    ensures !After(d, es).running || ConnAt(After(d, es), fd).None?
    decreases es
  {
    hide Step, After, StateAt;
    AfterEvents(d, es);
    if es != [] {
      StaysClosed(d, es[0], fd);
      StayClosed(Step(d, es[0]), es[1..], fd);
    }
  }

  lemma {:induction false} NoAcceptInLines(fd: nat, lines: seq<Bytes>, tick: nat -> Tick, k: nat, f: nat)
    ensures Accept(f) !in LineEvents(fd, lines, tick, k)
  {
  }

  lemma {:induction false} NoAcceptInReaps(results: seq<(int, int)>, f: nat)
    ensures Accept(f) !in ReapEvents(results)
    decreases results
  {
    if results != [] && results[0].0 > 0 { NoAcceptInReaps(results[1..], f); }
  }

  /** A connection that is open after an input was open before, or is the new one. */
  lemma WasOpen(nd: Node, x: Input, fd: nat)
    requires Open(NodeStep(nd, x), fd)
    ensures Open(nd, fd) || (x.NewConnection? && x.fd == fd)
  {
    hide StateAt, Lines, Tail, LineEvents, ReapEvents, After;
    if !Open(nd, fd) && !(x.NewConnection? && x.fd == fd) {
      match x {
        case Children(results) => NoAcceptInReaps(results, fd);
        case Readable(f, Data(chunk), tick) =>
          NoAcceptInLines(f, Lines(SideOf(nd, f).buf + chunk), tick, 0, fd);
        case _ =>
      }
      StayClosed(nd.d, EventsOf(nd, x), fd);
    }
  }

  /** What the input was, for a connection that is open after it. */
  lemma DataKeptOpen(nd: Node, fd: nat, chunk: Bytes, tick: nat -> Tick)
    requires Open(nd, fd) && Open(NodeStep(nd, Readable(fd, Data(chunk), tick)), fd)
    ensures |SideOf(nd, fd).buf + chunk| < BUF_SIZE - 1
  {
    hide StateAt, Lines, Tail, LineEvents, After, NodeStep, ServeFor;
    DataIsHandled(nd, fd, Data(chunk), tick);
  }

  lemma {:induction false} LinesOnOwn(fd: nat, lines: seq<Bytes>, tick: nat -> Tick, k: nat)
    ensures LinesOn(LineEvents(fd, lines, tick, k), fd) == lines
    decreases lines
  {
    if lines != [] {
      assert LineEvents(fd, lines, tick, k)[1..] == LineEvents(fd, lines[1..], tick, k + 1);
      LinesOnOwn(fd, lines[1..], tick, k + 1);
    }
  }

  lemma {:induction false} NoLinesOn(es: seq<Event>, fd: nat)
    requires forall i | 0 <= i < |es| && es[i].Line? :: es[i].fd != fd
    ensures LinesOn(es, fd) == []
  {
    if es != [] { NoLinesOn(es[1..], fd); }
  }

  lemma {:induction false} ReapsAreNoLines(results: seq<(int, int)>)
    ensures forall i | 0 <= i < |ReapEvents(results)| :: !ReapEvents(results)[i].Line?
    decreases results
  {
    if results != [] && results[0].0 > 0 { ReapsAreNoLines(results[1..]); }
  }

  lemma OtherInputs(nd: Node, x: Input, fd: nat)
    requires !(x.Readable? && x.fd == fd && x.recv.Data?)
    ensures LinesOn(EventsOf(nd, x), fd) == []
  {
    hide LineEvents, ReapEvents, Lines, LinesOn;
    if x.Children? { ReapsAreNoLines(x.results); }
    NoLinesOn(EventsOf(nd, x), fd);
  }

  /** Framing among other connections.  In every run, whatever happens on the other descriptors: the
      lines handed to doCommand on an open connection of the owner are the newline-terminated
      segments of what was received on it, in order, and its buffer holds the rest. */
  lemma {:induction false} ConnectionIsFramed(ins: seq<Input>, n: nat, fd: nat)
    requires n <= |ins| && Open(NodeAt(ins, n), fd)
    ensures SideOf(NodeAt(ins, n), fd).buf == Tail(Received(ins, n, fd))
    ensures SideOf(NodeAt(ins, n), fd).owner ==> Handed(ins, n, fd) == Lines(Received(ins, n, fd))
  {
    hide StateAt, Lines, Tail, LineEvents, ReapEvents, After, EventsOf;
    if n == 0 { return; }
    var nd, x := NodeAt(ins, n - 1), ins[n - 1];
    WasOpen(nd, x, fd);
    Unterminated([]);
    if !(x.NewConnection? && x.fd == fd) {
      ConnectionIsFramed(ins, n - 1, fd);
      var before := Received(ins, n - 1, fd);
      if x.Readable? && x.fd == fd && x.recv.Data? {
        LinesResume(before, x.recv.chunk);
        DataKeptOpen(nd, fd, x.recv.chunk, x.tick);
        if SideOf(nd, fd).owner { EventsOfData(nd, fd, x.recv.chunk, x.tick); }
      } else {
        OtherInputs(nd, x, fd);
        assert Handed(ins, n - 1, fd) + [] == Handed(ins, n - 1, fd);
      }
    }
  }

  lemma EventsOfData(nd: Node, fd: nat, chunk: Bytes, tick: nat -> Tick)
    requires Open(nd, fd) && |SideOf(nd, fd).buf + chunk| < BUF_SIZE - 1 && SideOf(nd, fd).owner
    ensures
      var lines := Lines(SideOf(nd, fd).buf + chunk);
      EventsOf(nd, Readable(fd, Data(chunk), tick)) == LineEvents(fd, lines, tick, 0)
    ensures
      LinesOn(EventsOf(nd, Readable(fd, Data(chunk), tick)), fd) == Lines(SideOf(nd, fd).buf + chunk)
  {
    hide Lines, LineEvents;
    LinesOnOwn(fd, Lines(SideOf(nd, fd).buf + chunk), tick, 0);
  }

  // ---------------------------------------------------------------- a client that waits for its replies

  /** Input number m completes the last of the requests that a client has sent on its connection.
      The client sends one request and reads its reply before it sends the next, so nothing else is
      in these bytes. */
  predicate Completes(ins: seq<Input>, m: nat, fd: nat, rs: seq<Request>)
    requires m < |ins|
  {
    && rs != [] && ins[m].Readable? && ins[m].fd == fd && ins[m].recv.Data? && ins[m].recv.chunk != []
    && Open(NodeAt(ins, m), fd) && SideOf(NodeAt(ins, m), fd).owner
    && Received(ins, m + 1, fd) == Concat(Wires(rs))
    && |Concat(Wires(rs[..|rs| - 1]))| <= |Received(ins, m, fd)|
  }

  /** Such an input is the dispatch of that request and of nothing else, if its line is short enough
      for the buffer. */
  lemma CompletedAlone(ins: seq<Input>, m: nat, fd: nat, rs: seq<Request>)
    requires m < |ins| && Completes(ins, m, fd, rs)
    requires |Wire(rs[|rs| - 1])| < BUF_SIZE - 1
    ensures EventsOf(NodeAt(ins, m), ins[m]) == [Line(fd, Wire(rs[|rs| - 1]), ins[m].tick(0))]
  {
    hide StateAt, Lines, Tail, LineEvents, After, EventsOf, NodeAt, Wire, Concat;
    var nd, chunk, last := NodeAt(ins, m), ins[m].recv.chunk, Wire(rs[|rs| - 1]);
    var earlier := Concat(Wires(rs[..|rs| - 1]));
    var before := Received(ins, m, fd);
    ConnectionIsFramed(ins, m, fd);
    LastWire(rs);
    WireIsFramed(rs[|rs| - 1]);
    assert before + chunk == earlier + last;
    var part := before[|earlier|..];
    assert before == earlier + part && last == part + chunk by { Overlap(before, chunk, earlier, last); }
    assert NL !in part by { assert part == last[..|last| - 1][..|part|]; }
    RestOfWires(rs[..|rs| - 1], part);
    FramedAlone(last);
    EventsOfData(nd, fd, chunk, ins[m].tick);
    OneLineEvent(fd, last, ins[m].tick);
  }

  lemma Overlap(a: Bytes, b: Bytes, c: Bytes, d: Bytes)
    requires a + b == c + d && |c| <= |a|
    ensures a == c + a[|c|..] && d == a[|c|..] + b
  {
    assert (a + b)[..|c|] == a[..|c|] && (c + d)[..|c|] == c;
    assert (a + b)[|c|..] == a[|c|..] + b && (c + d)[|c|..] == d;
  }

  lemma LastWire(rs: seq<Request>)
    requires rs != []
    ensures Concat(Wires(rs)) == Concat(Wires(rs[..|rs| - 1])) + Wire(rs[|rs| - 1])
  {
    hide Wire, Wires, Concat;
    var n := |rs| - 1;
    FirstWires(rs, n);
    LastApart(Wires(rs));
    ConcatAppend(Wires(rs[..n]), [Wire(rs[n])]);
    ConcatOne(Wire(rs[n]));
  }

  lemma RestOfWires(rs: seq<Request>, part: Bytes)
    requires NL !in part
    ensures Tail(Concat(Wires(rs)) + part) == part
  {
    hide Lines, Tail, Wire, Concat, Framed;
    forall i | 0 <= i < |rs| ensures Framed(Wires(rs)[i])
    {
      WireIsFramed(rs[i]);
    }
    LinesOfConcat(Wires(rs), part);
  }

  lemma OneLineEvent(fd: nat, line: Bytes, tick: nat -> Tick)
    ensures LineEvents(fd, [line], tick, 0) == [Line(fd, line, tick(0))]
  {
    assert |LineEvents(fd, [line], tick, 0)| == 1;
  }
}
