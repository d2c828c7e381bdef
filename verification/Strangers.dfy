/** What ends a connection, and that a peer who is not the daemon's owner never gets a command done
    (src/kdesud/handler.cpp:57-107, 151-163), over runs of the main loop. */
module Strangers {
  import opened ByteStrings
  import opened Framing
  import opened TimedMap
  import opened Session
  import opened Daemon
  import opened Inputs

  /** The last connection accepted on this descriptor is from the owner, or from somebody else. */
  ghost predicate PeerIs(ins: seq<Input>, m: nat, fd: nat, owner: bool)
    requires m <= |ins|
  {
    exists a | 0 <= a < m :: ins[a] == NewConnection(fd, owner) && NoneSince(ins, a, m, fd)
  }

  predicate NoneSince(ins: seq<Input>, a: nat, m: nat, fd: nat)
    requires m <= |ins|
  {
    forall k | a < k < m :: !(ins[k].NewConnection? && ins[k].fd == fd)
  }

  lemma {:induction false} PeerIsKnown(ins: seq<Input>, a: nat, m: nat, fd: nat, owner: bool)
    requires a < m <= |ins| && ins[a] == NewConnection(fd, owner) && NoneSince(ins, a, m, fd)
    ensures SideOf(NodeAt(ins, m), fd).owner == owner
  {
    hide After, EventsOf;
    if m > a + 1 {
      PeerIsKnown(ins, a, m - 1, fd, owner);
      OwnerStays(NodeAt(ins, m - 1), ins[m - 1], fd);
    } else {
      OwnerIsSet(NodeAt(ins, a), fd, owner);
    }
  }

  lemma OwnerStays(nd: Node, x: Input, fd: nat)
    requires !(x.NewConnection? && x.fd == fd)
    ensures SideOf(NodeStep(nd, x), fd).owner == SideOf(nd, fd).owner
  {
    hide After, Tail;
  }

  lemma OwnerIsSet(nd: Node, fd: nat, owner: bool)
    ensures SideOf(NodeStep(nd, NewConnection(fd, owner)), fd).owner == owner
  {
    hide After;
  }

  /** The store and all other connections are as they were, and this one too or it is over. */
  ghost predicate NothingDone(nd: Node, nd1: Node, fd: nat)
  {
    && nd1.d.table == nd.d.table && nd1.d.running == nd.d.running
    && (forall g: nat | g != fd :: ConnAt(nd1.d, g) == ConnAt(nd.d, g))
    && (ConnAt(nd1.d, fd) == ConnAt(nd.d, fd) || ConnAt(nd1.d, fd).None?)
  }

  lemma HangupDoesNothing(d: Daemon, fd: nat)
    requires d.running
    ensures
      var d1 := Step(d, Hangup(fd));
      && d1.table == d.table && d1.running && ConnAt(d1, fd).None?
      && forall g: nat | g != fd :: ConnAt(d1, g) == ConnAt(d, g)
  {
  }

  lemma NoEvents(d: Daemon)
    ensures After(d, []) == d
  {
  }

  /** Whatever a stranger sends, however it is cut: no command is done and nothing is answered; and
      the connection is over as soon as a line is complete. */
  lemma StrangersAreRefused(ins: seq<Input>, m: nat)
    requires m < |ins| && ins[m].Readable? && PeerIs(ins, m, ins[m].fd, false)
    ensures NothingDone(NodeAt(ins, m), NodeAt(ins, m + 1), ins[m].fd)
    ensures ins[m].recv.Data? && NL in ins[m].recv.chunk && NodeAt(ins, m).d.running ==>
      ConnAt(NodeAt(ins, m + 1).d, ins[m].fd).None?
  {
    hide Lines, Tail, After, Step, NodeAt;
    var nd, fd := NodeAt(ins, m), ins[m].fd;
    var a :| 0 <= a < m && ins[a] == NewConnection(fd, false) && NoneSince(ins, a, m, fd);
    PeerIsKnown(ins, a, m, fd, false);
    NextNode(ins, m);
    OneEvent(nd.d, Hangup(fd));
    NoEvents(nd.d);
    if nd.d.running { HangupDoesNothing(nd.d, fd); }
    if ins[m].recv.Data? { HasLine(SideOf(nd, fd).buf, ins[m].recv.chunk); }
  }

  lemma HasLine(buf: Bytes, chunk: Bytes)
    ensures NL in chunk ==> Lines(buf + chunk) != []
  {
    hide Lines, Tail;
    LinesLoseNothing(buf + chunk);
    ConcatNothing();
    assert [] + Tail(buf + chunk) == Tail(buf + chunk);
  }

  lemma NextNode(ins: seq<Input>, m: nat)
    requires m < |ins|
    ensures NodeAt(ins, m + 1) == NodeStep(NodeAt(ins, m), ins[m])
  {
  }

  /** A connection is over, with nothing else done, when recv returns the end or an error, and when
      what it returned fills the buffer; an interrupted recv changes nothing. */
  lemma EndsWithoutCommand(ins: seq<Input>, m: nat)
    requires m < |ins| && ins[m].Readable?
    requires
      var r := ins[m].recv;
      !r.Data? || |SideOf(NodeAt(ins, m), ins[m].fd).buf + r.chunk| >= BUF_SIZE - 1
    ensures NothingDone(NodeAt(ins, m), NodeAt(ins, m + 1), ins[m].fd)
    ensures
      var after := ConnAt(NodeAt(ins, m + 1).d, ins[m].fd);
      if ins[m].recv.Interrupted? then after == ConnAt(NodeAt(ins, m).d, ins[m].fd)
      else NodeAt(ins, m).d.running ==> after.None?
  {
    hide Lines, Tail, After, Step, NodeAt;
    var nd, fd := NodeAt(ins, m), ins[m].fd;
    NextNode(ins, m);
    OneEvent(nd.d, Hangup(fd));
    NoEvents(nd.d);
    if nd.d.running { HangupDoesNothing(nd.d, fd); }
  }
}
