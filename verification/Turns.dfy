/** The password cache and the turns of the main loop (src/kdesud/kdesud.cpp:453-535): every turn
    begins with a sweep. */
module Turns {
  import opened ByteStrings
  import opened Client
  import opened TimedMap
  import opened Session
  import opened Daemon
  import opened Inputs
  import opened PasswordCache

  lemma SweepEvent(nd: Node, now: UInt)
    requires nd.d.running
    ensures EventsOf(nd, Wake(now)) == [Sweep(now)]
  {
  }

  /** The sweep of a turn, as an event of the run. */
  lemma SweepOf(ins: seq<Input>, w: nat, n: nat)
    requires w < n <= |ins| && ins[w].Wake? && NodeAt(ins, w).d.running
    ensures
      var es, s := EventsUpTo(ins, n), |EventsUpTo(ins, w)|;
      s < |EventsUpTo(ins, w + 1)| <= |es| && es[s] == Sweep(ins[w].now)
  {
    hide NodeAt, EventsOf, EventsUpTo;
    EventsGrow(ins, w + 1, n);
    NextEvents(ins, w);
    SweepEvent(NodeAt(ins, w), ins[w].now);
    var a, e, es := EventsUpTo(ins, w), Sweep(ins[w].now), EventsUpTo(ins, n);
    assert a + [e] <= es && (a + [e])[|a|] == e;
  }

  /** Whenever an EXEC starts a program although its connection never saw PASS, the password it used
      was stored by an earlier EXEC for the same key and environment; and it was alive at the sweep
      with which this turn began, or stored since.  (Input w is that sweep or an earlier one, input n
      the data that carried the EXEC, event i its line.) */
  lemma LaunchIsLiveAtItsTurn(ins: seq<Input>, w: nat, n: nat, i: nat)
    requires w < n < |ins| && ins[w].Wake?
    requires |EventsUpTo(ins, n)| <= i < |EventsUpTo(ins, n + 1)|
    requires NoCut(EventsUpTo(ins, n + 1), i)
    requires LaunchesWithoutPass(StateAt(START, EventsUpTo(ins, n + 1), i), EventsUpTo(ins, n + 1)[i])
    ensures
      var es := EventsUpTo(ins, n + 1);
      var d := StateAt(START, es, i);
      var c, r := ConnAt(d, es[i].fd).value, RequestOf(d, es[i]).value;
      exists m, password | 0 <= m < i ::
        && Origin(es, m, i, KeyBody(c.host, AuthUser(c, r.user), r.command), EnvCheck(r.env), password)
        && SameCommand(StateAt(START, es, m), es[m], c, r)
        && AddsLaunch(c, ConnAt(Step(d, es[i]), es[i].fd).value, r, password)
        && (m < |EventsUpTo(ins, w)| ==> ins[w].now < StoredUntil(StateAt(START, es, m), es[m]))
  {
    hide Step, StateAt, EventsUpTo, EventsOf, NodeAt, RequestOf, StoredBy, StoredUntil, EnvCheck, AuthUser, SameCommand,
      AddsLaunch, KeyBody;
    var es, s := EventsUpTo(ins, n + 1), |EventsUpTo(ins, w)|;
    var d := StateAt(START, es, i);
    LaunchNeedsRunning(d, es[i]);
    NoPasswordNoLaunch(es, i);
    var c, r := ConnAt(d, es[i].fd).value, RequestOf(d, es[i]).value;
    var m, password :| 0 <= m < i
      && Origin(es, m, i, KeyBody(c.host, AuthUser(c, r.user), r.command), EnvCheck(r.env), password)
      && SameCommand(StateAt(START, es, m), es[m], c, r)
      && AddsLaunch(c, ConnAt(Step(d, es[i]), es[i].fd).value, r, password);
    EventsGrow(ins, w, n);
    StateBefore(ins, w, n + 1);
    WasRunning(START, es, s, i);
    SweepOf(ins, w, n + 1);
    EventsGrow(ins, w + 1, n);
    assert s < i;
  }

  lemma LaunchNeedsRunning(d: Daemon, e: Event)
    requires LaunchesWithoutPass(d, e)
    ensures d.running && e.Line? && ConnAt(d, e.fd).Some?
    ensures RequestOf(d, e).Some? && RequestOf(d, e).value.Exec?
  {
  }
}
