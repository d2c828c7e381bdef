/** The main loop as objects (src/kdesud/kdesud.cpp:453-535): the handlers and the repository do what
    the machine of its inputs does. */
module Kdesud {
  import opened ByteStrings
  import opened Framing
  import opened Grammar
  import opened TimedMap
  import opened Repository
  import opened Session
  import opened Daemon
  import opened Inputs
  import opened Handler

  method ChildExited(c: ConnectionHandler, status: int)
    requires c.Valid()
    modifies c
    ensures c.Valid() && c.State() == Reaped(old(c.State()), status) && c.buf == old(c.buf) && c.size == old(c.size)
  {
    hide RenderAll;
    ghost var was := c.State();
    c.exitCode := status;
    c.hasExitCode := true;
    ghost var known := was.(exitCode := status, hasExit := true);
    assert c.State() == known;
    c.SendExitCode();
    assert c.State() == if was.needExit then Answered(known, ExitStatus(status)) else known;
    c.pid := 0;
  }

  class MainLoop {
    const repo: Repository
    var handler: seq<ConnectionHandler?>

    ghost predicate Valid()
      reads this, repo, handler
    {
      && repo.Valid()
      && (forall i | 0 <= i < |handler| && handler[i] != null ::
            handler[i].repo == repo && handler[i].Valid() && handler[i].size < BUF_SIZE - 1)
      && (forall i, j | 0 <= i < j < |handler| && handler[i] != null && handler[j] != null ::
            handler[i] != handler[j] && handler[i].buf != handler[j].buf)
    }

    /** The table of connections that the objects hold. */
    ghost predicate Holds(h: seq<Option<Conn>>)
      reads this, handler
    {
      && |h| == |handler|
      && forall i | 0 <= i < |h| :: h[i] == if handler[i] == null then None else Some(handler[i].State())
    }

    /** The buffers and peers of the connections. */
    ghost predicate HoldsSides(nd: Node)
      reads this, handler, set c | c in handler && c != null :: c.buf
    {
      forall i: nat | i < |handler| && handler[i] != null && handler[i].size <= handler[i].buf.Length ::
        handler[i].Buffered() == SideOf(nd, i).buf && handler[i].sameUser == SideOf(nd, i).owner
    }

    /** The objects are in this state of the machine. */
    ghost predicate HoldsNode(nd: Node)
      reads this, repo, handler, set c | c in handler && c != null :: c.buf
    {
      nd.d.running && Holds(nd.d.handler) && repo.repo == nd.d.table && HoldsSides(nd)
    }

    constructor (r: Repository)
      requires r.Valid()
      ensures Valid() && repo == r && handler == []
    {
      repo := r;
      handler := [];
    }

    /** A new connection takes the place of its descriptor. */
    method Accept(fd: nat, peerIsOwner: bool, ghost h: seq<Option<Conn>>)
      requires Valid() && Holds(h)
      modifies this
      ensures Valid() && Holds(Extend(h, fd + 1)[fd := Some(NEW_CONN)])
      ensures forall i | 0 <= i < |handler| && i != fd ::
        handler[i] == if i < |old(handler)| then old(handler)[i] else null
      ensures fd < |handler| && handler[fd] != null && handler[fd].sameUser == peerIsOwner && handler[fd].Buffered() == []
      ensures fresh(handler[fd]) && fresh(handler[fd].buf)
    {
      hide RenderAll;
      var table := handler;
      while fd + 1 > |table|
        invariant |h| <= |table| && table[..|h|] == handler
        invariant |table| <= fd + 1 || |table| == |h|
        invariant forall i | |h| <= i < |table| :: table[i] == null
        decreases fd + 1 - |table|
      {
        table := table + [null];
      }
      assert forall i | 0 <= i < |h| :: table[i] == handler[i] by {
        assert forall i | 0 <= i < |h| :: table[i] == table[..|h|][i];
      }
      var c := new ConnectionHandler(repo, peerIsOwner);
      handler := table[fd := c];
    }

    /** The search for the handler of a reaped child, from the last one down. */
    method FindHandler(pid: int, ghost h: seq<Option<Conn>>) returns (j: int)
      requires Holds(h)
      ensures j == FindPid(h, pid, |h|)
    {
      j := |handler|;
      while j != 0
        invariant 0 <= j <= |handler| && FindPid(h, pid, |h|) == FindPid(h, pid, j)
      {
        j := j - 1;
        if handler[j] != null && handler[j].pid == pid { return; }
      }
      return -1;
    }

    /** One reaped child: its handler, if it is still there, gets the status. */
    method Deliver(pid: int, status: int, ghost h: seq<Option<Conn>>)
      requires Valid() && Holds(h)
      modifies handler
      ensures Valid() && handler == old(handler) && repo.repo == old(repo.repo)
      ensures Holds(ReapOne(h, pid, status))
      ensures forall c | c in handler && c != null :: c.buf == old(c.buf) && c.size == old(c.size)
    {
      hide Reaped, RenderAll;
      var j := FindHandler(pid, h);
      if j >= 0 {
        ChildExited(handler[j], status);
      }
    }

    /** One wake-up of the pipe: all children that have exited are reaped. */
    method ReapChildren(results: seq<(int, int)>, ghost h: seq<Option<Conn>>)
      requires Valid() && Holds(h)
      modifies handler
      ensures Valid() && handler == old(handler) && repo.repo == old(repo.repo)
      ensures Holds(ReapAll(h, results))
      ensures forall c | c in handler && c != null :: c.buf == old(c.buf) && c.size == old(c.size)
    {
      ghost var now := h;
      var k := 0;
      while k < |results| && results[k].0 > 0
        invariant k <= |results| && Valid() && handler == old(handler) && repo.repo == old(repo.repo)
        invariant forall c | c in handler && c != null :: c.buf == old(c.buf) && c.size == old(c.size)
        invariant Holds(now) && ReapAll(h, results) == ReapAll(now, results[k..])
      {
        Deliver(results[k].0, results[k].1, now);
        assert results[k..][1..] == results[k + 1..];
        now := ReapOne(now, results[k].0, results[k].1);
        k := k + 1;
      }
    }

    /** The handler of a descriptor runs; all others stay as they are. */
    method Run(fd: nat, r: Recv, tick: nat -> Tick) returns (ret: int, stopped: bool)
      requires Valid() && fd < |handler| && handler[fd] != null
      requires r.Data? ==> Fits(handler[fd].Buffered(), r.chunk)
      modifies handler[fd], handler[fd].buf, repo
      ensures repo.Valid() && handler[fd].Valid() && handler[fd].buf == old(handler[fd].buf)
      ensures ret == 0 ==> handler[fd].size < BUF_SIZE - 1
      ensures forall i | 0 <= i < |handler| && i != fd && handler[i] != null :: handler[i].Valid() && Untouched(handler[i])
      ensures !r.Data? ==>
        && ret == (if r.Interrupted? then 0 else -1) && !stopped && repo.repo == old(repo.repo)
        && handler[fd].State() == old(handler[fd].State()) && handler[fd].Buffered() == old(handler[fd].Buffered())
      ensures r.Data? && old(handler[fd].size) + |r.chunk| == BUF_SIZE - 1 ==>
        ret == -1 && !stopped && repo.repo == old(repo.repo)
      ensures r.Data? && old(handler[fd].size) + |r.chunk| < BUF_SIZE - 1 ==>
        var all := old(handler[fd].Buffered()) + r.chunk;
        match ServeFor(handler[fd].sameUser, old(handler[fd].State()), old(repo.repo), Lines(all), tick, 0)
        case Served(c, t) =>
          && ret == 0 && !stopped && repo.repo == t
          && handler[fd].State() == c && handler[fd].Buffered() == Tail(all)
        case Dropped(t, _) => ret == -1 && !stopped && repo.repo == t
        case Halted(c, t) => ret == 0 && stopped && repo.repo == t && handler[fd].State() == c
    {
      hide ServeFor, Lines, Tail, RenderAll, IndexOf;
      var next;
      ret, stopped, next := handler[fd].Handle(r, tick, 0);
    }

    twostate predicate Untouched(c: ConnectionHandler)
      reads c, c.buf
    {
      c.State() == old(c.State()) && c.buf == old(c.buf) && c.size == old(c.size) && c.buf[..] == old(c.buf[..])
    }

    /** A descriptor is readable: its handler runs, and is deleted when it reports an error. */
    method Dispatch(fd: nat, r: Recv, tick: nat -> Tick, ghost h: seq<Option<Conn>>) returns (stopped: bool)
      requires Valid() && Holds(h) && fd < |handler|
      requires handler[fd] != null && r.Data? ==> Fits(handler[fd].Buffered(), r.chunk)
      modifies this, handler, repo, set c | c in handler && c != null :: c.buf
      ensures Valid()
      ensures old(handler[fd]) == null || r.Interrupted? ==>
        !stopped && Holds(h) && repo.repo == old(repo.repo)
      ensures old(handler[fd]) != null &&
              (r.Eof? || r.ReadError? || (r.Data? && old(handler[fd].size) + |r.chunk| == BUF_SIZE - 1)) ==>
        !stopped && Holds(h[fd := None]) && repo.repo == old(repo.repo)
      ensures old(handler[fd]) != null && r.Data? && old(handler[fd].size) + |r.chunk| < BUF_SIZE - 1 ==>
        var all := old(handler[fd].Buffered()) + r.chunk;
        match ServeFor(old(handler[fd]).sameUser, h[fd].value, old(repo.repo), Lines(all), tick, 0)
        case Served(c, t) =>
          !stopped && Holds(h[fd := Some(c)]) && repo.repo == t && handler[fd].Buffered() == Tail(all)
        case Dropped(t, _) => !stopped && Holds(h[fd := None]) && repo.repo == t
        case Halted(c, t) => stopped && Holds(h[fd := Some(c)]) && repo.repo == t
      ensures |handler| == |old(handler)| && (handler[fd] != null ==> handler[fd].buf == old(handler[fd].buf))
      ensures handler[fd] == null || handler[fd] == old(handler[fd])
      ensures !r.Data? && handler[fd] != null ==> handler[fd].Buffered() == old(handler[fd].Buffered())
      ensures forall i | 0 <= i < |handler| && i != fd ::
        handler[i] == old(handler)[i] &&
        (handler[i] != null ==> handler[i].Buffered() == old(handler[i].Buffered()) && handler[i].buf == old(handler[i].buf))
    {
      hide ServeFor, Lines, Tail, RenderAll, IndexOf, Holds;
      HoldsEach(h);
      assert h[fd := h[fd]] == h;
      stopped := false;
      if handler[fd] == null { return; }
      var ret;
      ret, stopped := Run(fd, r, tick);
      if ret < 0 {
        handler := handler[fd := null];
      }
      OthersHold(fd, h);
    }

    ghost function HeldAt(i: nat): Option<Conn>
      requires i < |handler|
      reads this, handler
    {
      if handler[i] == null then None else Some(handler[i].State())
    }

    lemma HoldsEach(h: seq<Option<Conn>>)
      requires Holds(h)
      ensures |h| == |handler| && forall i | 0 <= i < |h| :: h[i] == HeldAt(i)
    {
    }

    /** All connections but one are held as before. */
    lemma OthersHold(fd: nat, h: seq<Option<Conn>>)
      requires |handler| == |h| && fd < |handler|
      requires forall i | 0 <= i < |h| && i != fd :: h[i] == HeldAt(i)
      ensures Holds(h[fd := HeldAt(fd)])
    {
    }

    /** The handlers are those from before, with their buffers, and new ones. */
    twostate predicate Grown()
      reads this, handler
    {
      forall c | c in handler && c != null ::
        (c in old(handler) && c.buf == old(c.buf)) || (fresh(c) && fresh(c.buf))
    }

    method DoReadable(fd: nat, r: Recv, tick: nat -> Tick, ghost nd: Node) returns (stopped: bool)
      requires Valid() && HoldsNode(nd) && LegalInput(nd, Readable(fd, r, tick))
      modifies this, handler, repo, set c | c in handler && c != null :: c.buf
      ensures Valid() && Grown()
      ensures
        var nd1 := NodeStep(nd, Readable(fd, r, tick));
        if stopped then !nd1.d.running else HoldsNode(nd1)
    {
      hide NodeStep, ServeFor, Lines, Tail, RenderAll, SidesAfter;
      SidesOfData(nd, fd, r, tick);
      if fd >= |handler| {
        ClosedInput(nd, fd, r, tick);
        return false;
      }
      if handler[fd] == null {
        ClosedInput(nd, fd, r, tick);
        return false;
      }
      DataIsHandled(nd, fd, r, tick);
      stopped := Dispatch(fd, r, tick, nd.d.handler);
    }

    method DoChildren(results: seq<(int, int)>, ghost nd: Node)
      requires Valid() && HoldsNode(nd)
      modifies handler
      ensures Valid() && handler == old(handler) && Grown() && HoldsNode(NodeStep(nd, Children(results)))
    {
      hide NodeStep, ReapAll;
      SimpleSteps(nd);
      ReapChildren(results, nd.d.handler);
    }

    method DoConnection(fd: nat, owner: bool, ghost nd: Node)
      requires Valid() && HoldsNode(nd)
      modifies this
      ensures Valid() && Grown() && HoldsNode(NodeStep(nd, NewConnection(fd, owner)))
    {
      hide NodeStep, RenderAll, Extend;
      SimpleSteps(nd);
      Accept(fd, owner, nd.d.handler);
    }

    method DoWake(now: UInt, ghost nd: Node)
      requires Valid() && HoldsNode(nd)
      modifies repo
      ensures Valid() && HoldsNode(NodeStep(nd, Wake(now)))
    {
      hide NodeStep;
      SimpleSteps(nd);
      var _ := repo.Expire(now);
    }

    /** One input of the machine. */
    method DoInput(x: Input, ghost nd: Node) returns (stopped: bool)
      requires Valid() && HoldsNode(nd) && LegalInput(nd, x)
      modifies this, handler, repo, set c | c in handler && c != null :: c.buf
      ensures Valid() && Grown()
      ensures if stopped then !NodeStep(nd, x).d.running else HoldsNode(NodeStep(nd, x))
    {
      hide NodeStep;
      stopped := false;
      match x {
        case Wake(now) => DoWake(now, nd);
        case NewConnection(fd, owner) => DoConnection(fd, owner, nd);
        case Children(results) => DoChildren(results, nd);
        case Readable(fd, r, tick) => stopped := DoReadable(fd, r, tick, nd);
      }
    }

    /** One turn: select returns, the store is swept, and then every readable descriptor is handled.
        The objects do what the machine does; a STOP ends it all. */
    method Turn(now: UInt, ready: seq<Input>, ghost nd: Node) returns (stopped: bool)
      requires Valid() && HoldsNode(nd) && LegalInputs(NodeStep(nd, Wake(now)), ready)
      modifies this, handler, repo, set c | c in handler && c != null :: c.buf
      ensures Valid() && Grown()
      ensures
        var nd1 := NodeRun(NodeStep(nd, Wake(now)), ready);
        if stopped then !nd1.d.running else HoldsNode(nd1)
    {
      hide NodeStep, NodeRun, LegalInputs, LegalInput;
      DoWake(now, nd);
      ghost var here := NodeStep(nd, Wake(now));
      ghost var last := NodeRun(here, ready);
      assert ready[0..] == ready;
      for i := 0 to |ready|
        invariant Valid() && Grown() && HoldsNode(here)
        invariant LegalInputs(here, ready[i..]) && last == NodeRun(here, ready[i..])
      {
        NextInput(here, ready[i..]);
        assert ready[i..][1..] == ready[i + 1..];
        stopped := DoInput(ready[i], here);
        here := NodeStep(here, ready[i]);
        if stopped {
          StaysDown(here, ready[i + 1..]);
          return;
        }
      }
      assert ready[|ready|..] == [];
      NoMoreInputs(here);
      return false;
    }
  }
}
