/** One connection from recv to the commands done: handle() called on chunk after chunk
    (src/kdesud/handler.cpp:58-102, 155-539). */
module Delivery {
  import opened ByteStrings
  import opened Lexer
  import opened Client
  import opened Grammar
  import opened Framing
  import opened TimedMap
  import opened Session

  // ---------------------------------------------------------------- line after line

  /** Lines served in two parts are served as one list. */
  lemma {:induction false} ServeAppend(c: Conn, t: Table, a: seq<Bytes>, b: seq<Bytes>, tick: nat -> Tick, k: nat)
    ensures Serve(c, t, a + b, tick, k) ==
      match Serve(c, t, a, tick, k)
      case Served(c1, t1) => Serve(c1, t1, b, tick, k + |a|)
      case other => other
    decreases a
  {
    hide Parse, Perform, Serve;
    ServeUnfolds(c, t, a, tick, k);
    if a == [] {
      assert a + b == b;
    } else {
      ServeUnfolds(c, t, a + b, tick, k);
      assert (a + b)[1..] == a[1..] + b;
      if Parse(a[0]).Command? {
        var o := Perform(c, t, Parse(a[0]).request, tick(k));
        ServeAppend(o.conn, o.table, a[1..], b, tick, k + 1);
      }
    }
  }

  lemma ServeUnfolds(c: Conn, t: Table, lines: seq<Bytes>, tick: nat -> Tick, k: nat)
    ensures Serve(c, t, lines, tick, k) ==
      if lines == [] then Served(c, t)
      else
        match Parse(lines[0])
        case Unknown => Dropped(t, c.log + [No])
        case Malformed => Dropped(t, c.log)
        case Command(r) =>
          var o := Perform(c, t, r, tick(k));
          if o.stopped then Halted(o.conn, o.table) else Serve(o.conn, o.table, lines[1..], tick, k + 1)
  {
    hide Parse, Perform;
  }

  /** One line of the loop of handle(). */
  lemma FirstLineServed(owner: bool, c: Conn, t: Table, lines: seq<Bytes>, tick: nat -> Tick, k: nat)
    ensures lines == [] ==> ServeFor(owner, c, t, lines, tick, k) == Served(c, t)
    ensures lines != [] ==>
      ServeFor(owner, c, t, lines, tick, k) ==
        if !owner then Dropped(t, c.log)
        else
          match Parse(lines[0])
          case Unknown => Dropped(t, c.log + [No])
          case Malformed => Dropped(t, c.log)
          case Command(r) =>
            var o := Perform(c, t, r, tick(k));
            if o.stopped then Halted(o.conn, o.table)
            else ServeFor(owner, o.conn, o.table, lines[1..], tick, k + 1)
  {
    hide Serve, Parse, Perform;
    ServeUnfolds(c, t, lines, tick, k);
  }

  // ---------------------------------------------------------------- chunk after chunk

  /** What comes of a connection whose chunks were framed like this. */
  function Fate(owner: bool, c: Conn, t: Table, f: Frames, tick: nat -> Tick, k: nat): Served
  {
    match f
    case Frames(lines, _) => ServeFor(owner, c, t, lines, tick, k)
    case TooLong(lines) =>
      match ServeFor(owner, c, t, lines, tick, k)
      case Served(c1, t1) => Dropped(t1, c1.log)
      case other => other
  }

  /** One call of handle() and the later ones. */
  lemma FateStep(owner: bool, c: Conn, t: Table, buf: Bytes, chunks: seq<Bytes>, tick: nat -> Tick, k: nat)
    requires chunks != []
    ensures
      var all := buf + chunks[0];
      Fate(owner, c, t, Receive(buf, chunks), tick, k) ==
        if |all| >= BUF_SIZE - 1 then Dropped(t, c.log)
        else
          match ServeFor(owner, c, t, Lines(all), tick, k)
          case Served(c1, t1) => Fate(owner, c1, t1, Receive(Tail(all), chunks[1..]), tick, k + |Lines(all)|)
          case other => other
  {
    hide Lines, Tail, Serve;
    var all := buf + chunks[0];
    ServeUnfolds(c, t, [], tick, k);
    match Receive(Tail(all), chunks[1..]) {
      case Frames(ls, _) => ServeAppend(c, t, Lines(all), ls, tick, k);
      case TooLong(ls) => ServeAppend(c, t, Lines(all), ls, tick, k);
    }
  }

  lemma FateOf(owner: bool, c: Conn, t: Table, f: Frames, tick: nat -> Tick, k: nat)
    ensures f.Frames? ==> Fate(owner, c, t, f, tick, k) == ServeFor(owner, c, t, f.lines, tick, k)
    ensures f.TooLong? ==>
      Fate(owner, c, t, f, tick, k) ==
        match ServeFor(owner, c, t, f.linesBefore, tick, k)
        case Served(c1, t1) => Dropped(t1, c1.log)
        case other => other
  {
    hide ServeFor;
  }

  lemma ReceiveStep(buf: Bytes, chunks: seq<Bytes>)
    requires chunks != []
    ensures
      var all := buf + chunks[0];
      if |all| >= BUF_SIZE - 1 then Receive(buf, chunks).TooLong?
      else
        var later := Receive(Tail(all), chunks[1..]);
        && (Receive(buf, chunks).Frames? <==> later.Frames?)
        && (later.Frames? ==> Receive(buf, chunks).buf == later.buf)
  {
    hide Tail, Lines;
  }

  lemma NothingReceived(owner: bool, c: Conn, t: Table, buf: Bytes, tick: nat -> Tick, k: nat)
    ensures Receive(buf, []) == Frames([], buf)
    ensures Fate(owner, c, t, Receive(buf, []), tick, k) == Served(c, t)
  {
    ServeUnfolds(c, t, [], tick, k);
  }

  // ---------------------------------------------------------------- request after request

  /** Requests performed one after the other. */
  function PerformEach(c: Conn, t: Table, rs: seq<Request>, tick: nat -> Tick, k: nat): (Conn, Table)
    decreases rs
  {
    if rs == [] then (c, t)
    else
      var o := Perform(c, t, rs[0], tick(k));
      PerformEach(o.conn, o.table, rs[1..], tick, k + 1)
  }

  /** The first request that ends the connection: STOP, or one that is not deliverable. */
  function Ending(rs: seq<Request>): (n: nat)
    ensures n <= |rs|
    ensures forall i | 0 <= i < n :: Deliverable(rs[i]) && !rs[i].StopServer?
    ensures n < |rs| ==> !Deliverable(rs[n]) || rs[n].StopServer?
  {
    if rs == [] || !Deliverable(rs[0]) || rs[0].StopServer? then 0 else 1 + Ending(rs[1..])
  }

  /** What a client brings about with its requests: all are performed, or those up to and with the
      first STOP, which ends the daemon, or those before the first that cannot be delivered, which
      ends the connection. */
  function Effect(c: Conn, t: Table, rs: seq<Request>, tick: nat -> Tick, k: nat): Served
  {
    var n := Ending(rs);
    if n == |rs| then
      var (c1, t1) := PerformEach(c, t, rs, tick, k);
      Served(c1, t1)
    else if Deliverable(rs[n]) then
      var (c1, t1) := PerformEach(c, t, rs[..n + 1], tick, k);
      Halted(c1, t1)
    else
      var (c1, t1) := PerformEach(c, t, rs[..n], tick, k);
      Dropped(t1, c1.log)
  }

  lemma EffectUnfolds(c: Conn, t: Table, rs: seq<Request>, tick: nat -> Tick, k: nat)
    requires rs != []
    ensures
      var o := Perform(c, t, rs[0], tick(k));
      Effect(c, t, rs, tick, k) ==
        if !Deliverable(rs[0]) then Dropped(t, c.log)
        else if rs[0].StopServer? then Halted(o.conn, o.table)
        else Effect(o.conn, o.table, rs[1..], tick, k + 1)
  {
    hide Perform, Deliverable;
    var n := Ending(rs[1..]);
    assert rs[..n + 1][1..] == rs[1..][..n];
    assert n < |rs[1..]| ==> rs[..n + 2][1..] == rs[1..][..n + 1];
    assert |rs[..0]| == 0;
    OneRequest(c, t, rs[..1], tick, k);
  }

  lemma {:induction false} WiresHaveTheirEffect(c: Conn, t: Table, rs: seq<Request>, tick: nat -> Tick, k: nat)
    requires forall i | 0 <= i < |rs| :: CInts(rs[i])
    ensures Serve(c, t, Wires(rs), tick, k) == Effect(c, t, rs, tick, k)
    decreases rs
  {
    hide Parse, Perform, Deliverable, Wire, Serve, Effect;
    ServeUnfolds(c, t, Wires(rs), tick, k);
    if rs == [] {
      NoEffect(c, t, rs, tick, k);
    } else {
      assert Wires(rs)[1..] == Wires(rs[1..]) && Wires(rs)[0] == Wire(rs[0]);
      ParseInvertsWire(rs[0]);
      EffectUnfolds(c, t, rs, tick, k);
      StopsForStop(c, t, rs[0], tick(k));
      if Deliverable(rs[0]) && !rs[0].StopServer? {
        var o := Perform(c, t, rs[0], tick(k));
        WiresHaveTheirEffect(o.conn, o.table, rs[1..], tick, k + 1);
      }
    }
  }

  lemma NoEffect(c: Conn, t: Table, rs: seq<Request>, tick: nat -> Tick, k: nat)
    requires rs == []
    ensures Effect(c, t, rs, tick, k) == Served(c, t)
  {
  }

  lemma StopsForStop(c: Conn, t: Table, r: Request, tick: Tick)
    ensures Perform(c, t, r, tick).stopped <==> r.StopServer?
    ensures r.StopServer? ==> Deliverable(r)
  {
    hide Cached, Remember, Forking, Find, Apply, Answer, MakeKey, VarKey, HasGroup;
  }

  lemma OneRequest(c: Conn, t: Table, rs: seq<Request>, tick: nat -> Tick, k: nat)
    requires |rs| == 1
    ensures
      var o := Perform(c, t, rs[0], tick(k));
      PerformEach(c, t, rs, tick, k) == (o.conn, o.table)
  {
    hide Perform;
    assert rs[1..] == [];
  }

  /** How many of the client's requests are framed before the buffer fills up, or all of them. */
  function Complete(rs: seq<Request>, f: Frames): nat
  {
    match f
    case Frames(_, _) => |rs|
    case TooLong(before) => if |before| <= |rs| then |before| else |rs|
  }

  /** The effect of a client's requests on a connection whose chunks were framed like this. */
  function Delivered(c: Conn, t: Table, rs: seq<Request>, f: Frames, tick: nat -> Tick): Served
  {
    match Effect(c, t, rs[..Complete(rs, f)], tick, 0)
    case Served(c1, t1) => if f.TooLong? then Dropped(t1, c1.log) else Served(c1, t1)
    case other => other
  }

  /** The client and the daemon agree on any list of requests in any chunks.  While the buffer does
      not fill up, the connection does exactly the requests, in order: all of them, or up to and
      with the first STOP, or up to the first that is not deliverable.  When it does fill up, the
      same is true of the requests whose lines were complete before, and then the connection ends. */
  lemma EndToEndDelivery(c: Conn, t: Table, rs: seq<Request>, chunks: seq<Bytes>, tick: nat -> Tick)
    requires forall i | 0 <= i < |rs| :: CInts(rs[i])
    requires Concat(chunks) == Concat(Wires(rs))
    ensures Fate(true, c, t, Receive([], chunks), tick, 0) == Delivered(c, t, rs, Receive([], chunks), tick)
  {
    hide Receive, Serve, Effect, Concat;
    var m := WiresAreFramed(rs, chunks);
    assert rs[..|rs|] == rs;
    WiresHaveTheirEffect(c, t, rs, tick, 0);
    WiresHaveTheirEffect(c, t, rs[..m], tick, 0);
  }

  // ---------------------------------------------------------------- refused lines

  /** A line that is no command ends the connection with nothing done.  It is answered NO if it does
      not begin with a command word, and not at all if what follows the word is wrong. */
  lemma RefusedLine(c: Conn, t: Table, line: Bytes, later: seq<Bytes>, tick: nat -> Tick, k: nat)
    requires !Parse(line).Command?
    ensures Serve(c, t, [line] + later, tick, k) ==
      Dropped(t, c.log + if Lex(line).tok in {TokNone, TokNewline, TokStr, TokNum} then [No] else [])
  {
    hide Lex, Parse;
    UnknownExactly(line);
    assert ([line] + later)[0] == line;
    assert c.log + [] == c.log;
  }

  /** A peer who is not the owner gets no answer and changes nothing; the first line ends it. */
  lemma StrangersGetNoAnswer(c: Conn, t: Table, lines: seq<Bytes>, tick: nat -> Tick, k: nat)
    ensures
      match ServeFor(false, c, t, lines, tick, k)
      case Served(c1, t1) => lines == [] && c1 == c && t1 == t
      case Dropped(t1, log) => lines != [] && t1 == t && log == c.log
      case Halted(_, _) => false
  {
  }
}
