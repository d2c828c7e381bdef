/** Persistent variables end to end: setVar on one connection, anything in between, getVar on
    another (src/client.cpp:181-209, 275-297; src/kdesud/handler.cpp:413-460). */
module Variables {
  import opened ByteStrings
  import opened Lexer
  import opened Client
  import opened Grammar
  import opened Framing
  import opened TimedMap
  import opened Groups
  import opened Session
  import opened Daemon
  import opened Inputs

  // ---------------------------------------------------------------- the store

  /** An event of a run that leaves the variable alone, said in terms of the request it carries:
      no SET or DELV of that name, no DELG of its group, no DELS that matches it, no sweep at or
      after its deadline. */
  predicate LeavesAlone(d: Daemon, e: Event, name: Bytes, entry: Entry)
  {
    && (e.Sweep? && d.running ==> e.now < entry.timeout)
    && match RequestOf(d, e)
       case Some(SetVar(n, _, _, _)) => n != name
       case Some(DelVar(n)) => n != name
       case Some(DelGroup(g)) => g == [] || g != entry.group
       case Some(DelVars(s)) => s == [] || !IsSpecial(VarKey(name), entry, s)
       case _ => true
  }

  lemma LeftAloneIsUndisturbed(d: Daemon, e: Event, name: Bytes, entry: Entry)
    requires LeavesAlone(d, e, name, entry)
    ensures Undisturbed(OpsOf(d, e), VarKey(name), entry)
  {
    hide Parse, IsSpecial, Cached, EnvCheck;
    MakeKeyIsKeyOf(1, name, [], []);
    if RequestOf(d, e).Some? {
      match RequestOf(d, e).value {
        case Exec(cmd, u, _, _) =>
          var c := ConnAt(d, e.fd).value;
          MakeKeyIsKeyOf(0, c.host, AuthUser(c, u), cmd);
          MakeKeyIsKeyOf(2, c.host, AuthUser(c, u), cmd);
          KeysAreDistinct(0, KeyBody(c.host, AuthUser(c, u), cmd), 1, KeyBody(name, [], []));
          KeysAreDistinct(2, KeyBody(c.host, AuthUser(c, u), cmd), 1, KeyBody(name, [], []));
        case DelCommand(cmd, u) =>
          var c := ConnAt(d, e.fd).value;
          MakeKeyIsKeyOf(0, c.host, u, cmd);
          KeysAreDistinct(0, KeyBody(c.host, u, cmd), 1, KeyBody(name, [], []));
        case SetVar(n, _, _, _) => VarKeysAreDistinct(n, name);
        case DelVar(n) => VarKeysAreDistinct(n, name);
        case _ =>
      }
    }
  }

  lemma {:induction false} StretchIsUndisturbed(es: seq<Event>, i: nat, n: nat, name: Bytes, entry: Entry)
    requires i <= n <= |es|
    requires forall k | i <= k < n :: LeavesAlone(StateAt(START, es, k), es[k], name, entry)
    ensures Undisturbed(OpsBetween(START, es, i, n), VarKey(name), entry)
  {
    hide OpsOf, StateAt, LeavesAlone, Spares, VarKey;
    if i < n {
      StretchIsUndisturbed(es, i, n - 1, name, entry);
      LeftAloneIsUndisturbed(StateAt(START, es, n - 1), es[n - 1], name, entry);
    }
  }

  /** A variable set by event m is found by any later event, as long as everything in between
      leaves it alone. */
  lemma VariableSurvives(es: seq<Event>, m: nat, n: nat, name: Bytes, value: Bytes, group: Bytes, timeout: int)
    requires m < n <= |es|
    requires RequestOf(StateAt(START, es, m), es[m]) == Some(SetVar(name, value, group, timeout))
    requires
      var entry := Entry(value, group, Deadline(ToUInt(timeout), es[m].tick.now));
      forall k | m < k < n :: LeavesAlone(StateAt(START, es, k), es[k], name, entry)
    ensures Find(StateAt(START, es, n).table, VarKey(name)) == Some(value)
  {
    hide Step, StateAt, OpsBetween, Parse, LeavesAlone, OpsOf, Run, Undisturbed, VarKey, Deadline, ConnAt;
    NextState(es, m);
    var entry := Entry(value, group, Deadline(ToUInt(timeout), es[m].tick.now));
    SettingEvent(StateAt(START, es, m), es[m], name, value, group, timeout);
    StretchIsUndisturbed(es, m + 1, n, name, entry);
    StoreRun(START, es, m + 1, n);
    UndisturbedStays(StateAt(START, es, m + 1).table, OpsBetween(START, es, m + 1, n), VarKey(name), entry);
  }

  lemma SettingEvent(d: Daemon, e: Event, name: Bytes, value: Bytes, group: Bytes, timeout: int)
    requires RequestOf(d, e) == Some(SetVar(name, value, group, timeout))
    ensures
      var t1 := Step(d, e).table;
      && VarKey(name) != [] && VarKey(name) in t1
      && t1[VarKey(name)] == Entry(value, group, Deadline(ToUInt(timeout), e.tick.now))
  {
    hide Parse, Deadline;
  }

  // ---------------------------------------------------------------- the reply

  /** What getVar returns for a reply: its text, or nothing. */
  function GetVarResult(reply: Bytes): Bytes { OrEmpty(Result(reply)) }

  /** The reply to GET for a variable with this value, or for a missing one. */
  function GetReply(value: Bytes): Reply { if value != [] then Value(value) else No }

  /** The longest text that fits one read, with "OK ", and a byte behind it. */
  const TEXT_SIZE := REPLY_SIZE - 4

  function FullReply(value: Bytes): Bytes { OK + [SPACE] + value + [NL] }

  /** What the client reads behind "OK ". */
  function TextRead(value: Bytes): Bytes
  {
    if |value| <= TEXT_SIZE then value + [NL] else value[..TEXT_SIZE + 1]
  }

  function WithoutLast(s: Bytes): Bytes { if s == [] then [] else s[..|s| - 1] }

  lemma ReadsText(value: Bytes)
    ensures FirstRead(FullReply(value)) == OK + [SPACE] + TextRead(value)
  {
  }

  lemma KeepsText(reply: Bytes, text: Bytes)
    requires FirstRead(reply) == OK + [SPACE] + text
    ensures Result(reply) == Some(WithoutLast(CString(text)))
  {
    hide IndexOf;
    var r := OK + [SPACE] + text;
    if NUL in text {
      var head, rest := CString(text), text[|CString(text)| + 1..];
      assert text == head + [NUL] + rest;
      assert r == OK + [SPACE] + head + [NUL] + rest;
      CStringCut(OK + [SPACE] + head, rest);
    }
    var kept := CString(text);
    assert CString(r) == OK + [SPACE] + kept;
    assert (OK + [SPACE] + kept)[0..2] == OK && (OK + [SPACE] + kept)[3..] == kept;
    assert kept != [] ==> (OK + [SPACE] + kept)[3..3 + (|kept| - 1)] == kept[..|kept| - 1];
  }

  /** What getVar keeps of any value: without its NUL bytes and up to the length of one read, all
      of it; otherwise what is before the first NUL less one byte, or the first 1019 bytes. */
  lemma KeptOfValue(value: Bytes)
    requires value != []
    ensures
      var k := IndexOf(value, NUL);
      GetVarResult(Render(GetReply(value))) ==
        if 0 <= k <= TEXT_SIZE then WithoutLast(value[..k])
        else if |value| <= TEXT_SIZE then value
        else value[..TEXT_SIZE]
  {
    hide IndexOf, Result, FirstRead, CString, TextRead, FullReply, WithoutLast, Render;
    RendersFullReply(value);
    ReadsText(value);
    KeepsText(FullReply(value), TextRead(value));
    CStringOfText(value);
    TextWithoutLast(value);
  }

  lemma RendersFullReply(value: Bytes)
    requires value != []
    ensures Render(GetReply(value)) == FullReply(value)
  {
    Associate(OK, [SPACE], value);
  }

  lemma TextWithoutLast(value: Bytes)
    ensures WithoutLast(TextRead(value)) == if |value| <= TEXT_SIZE then value else value[..TEXT_SIZE]
  {
  }

  lemma CStringOfText(value: Bytes)
    ensures
      var k := IndexOf(value, NUL);
      CString(TextRead(value)) == if 0 <= k <= TEXT_SIZE then value[..k] else TextRead(value)
  {
    hide IndexOf;
    var k := IndexOf(value, NUL);
    if 0 <= k <= TEXT_SIZE { NulIsRead(value, k); } else { NulIsNotRead(value, k); }
  }

  lemma NulIsRead(value: Bytes, k: nat)
    requires k <= TEXT_SIZE && k < |value| && value[k] == NUL && NUL !in value[..k]
    ensures CString(TextRead(value)) == value[..k]
  {
    hide CString;
    var rest := TextRead(value)[k + 1..];
    assert TextRead(value) == value[..k] + [NUL] + rest;
    CStringCut(value[..k], rest);
  }

  lemma NulIsNotRead(value: Bytes, k: int)
    requires k == IndexOf(value, NUL) && (k < 0 || k > TEXT_SIZE)
    ensures CString(TextRead(value)) == TextRead(value)
  {
    hide IndexOf;
    assert k >= 0 ==> value[..TEXT_SIZE + 1] == value[..k][..TEXT_SIZE + 1];
    assert NUL !in TextRead(value);
  }

  /** The client gets the value back exactly when it has no NUL byte and the reply fits one read. */
  lemma ReplyIsExact(value: Bytes)
    ensures GetVarResult(Render(GetReply(value))) == value
      <==> NUL !in value && |Render(GetReply(value))| <= REPLY_SIZE
  {
    hide IndexOf, GetVarResult;
    if value == [] {
      NothingRead();
    } else {
      KeptOfValue(value);
      assert |Render(GetReply(value))| == |value| + 4;
    }
  }

  lemma NothingRead()
    ensures GetVarResult(Render(No)) == [] && |Render(No)| <= REPLY_SIZE
  {
    var r := NO + [NL];
    assert CString(r) == r && Mid(r, 0, 2) == NO;
  }

  /** The client's command() succeeds on every answer but NO, whatever text the answer carries. */
  lemma AnswersAreToldApart(r: Reply)
    ensures Result(Render(r)).Some? <==> !r.No?
  {
    hide SetNum, Digits;
    var msg := FirstRead(Render(r));
    var n := IndexOf(msg, NUL);
    assert msg[0] != NUL && msg[1] != NUL;
    assert n >= 0 ==> msg[n] == NUL;
    assert CString(msg)[0..2] == msg[0..2];
  }

  /** The exit code that the client reads off the reply is the one that was sent. */
  lemma ExitCodeIsRead(code: nat)
    requires code <= INT_MAX
    ensures Result(Render(ExitStatus(code))) == Some(Digits(code)) && ToInt(Digits(code)) == code
  {
    hide Result, FirstRead;
    var text := Digits(code);
    DigitsBound(code, 10);
    assert Render(ExitStatus(code)) == FullReply(text);
    assert NUL !in text + [NL];
    ReadsText(text);
    KeepsText(FullReply(text), text + [NL]);
    assert CString(text + [NL]) == text + [NL] && (text + [NL])[..|text|] == text;
    DigitsRoundTrip(code);
  }

  function PowerOfTen(d: nat): nat { if d == 0 then 1 else 10 * PowerOfTen(d - 1) }

  lemma {:induction false} DigitsBound(n: nat, d: nat)
    requires 0 < d <= 10 && (d == 10 ==> n <= INT_MAX) && (d < 10 ==> n < PowerOfTen(d))
    ensures |Digits(n)| <= d
  {
    if n >= 10 {
      assert PowerOfTen(9) == 1_000_000_000 by {
        assert PowerOfTen(3) == 1000;
        assert PowerOfTen(6) == 1000 * PowerOfTen(3);
      }
      DigitsBound(n / 10, d - 1);
    }
  }

  // ---------------------------------------------------------------- through the wire

  /** A request that the daemon accepts is shorter than the client's receive buffer, and so is
      the reply that carries its value back. */
  lemma ReplyFits(name: Bytes, value: Bytes, group: Bytes, timeout: int)
    requires |Wire(SetVar(name, value, group, timeout))| < BUF_SIZE - 1
    ensures |Render(GetReply(value))| <= REPLY_SIZE
  {
  }

  /** SET then GET through the wire, in any run of the main loop.  A client that waits for its
      replies sends SET, in any chunks, as the latest of its requests; later a client on any
      connection sends GET in the same way.  For a name and group without byte 127, a value without
      bytes 0 and 127, and request lines that the daemon's buffer accepts: whatever happens in
      between that leaves the variable alone, the daemon's answer to GET carries the value, fits the
      client's read, and getVar returns exactly what setVar sent. */
  lemma SetThenGet(
      ins: seq<Input>, m: nat, n: nat, a: nat, b: nat, earlier: seq<Request>, others: seq<Request>,
      name: Bytes, value: Bytes, group: Bytes, timeout: nat)
    requires m < n < |ins|
    requires Clean(name) && Clean(value) && Clean(group) && NUL !in value && timeout <= INT_MAX
    requires |Wire(SetVar(name, value, group, timeout))| < BUF_SIZE - 1
    requires |Wire(GetVar(name))| < BUF_SIZE - 1
    requires Completes(ins, m, a, earlier + [SetVar(name, value, group, timeout)])
    requires Completes(ins, n, b, others + [GetVar(name)])
    requires
      var es := EventsUpTo(ins, n + 1);
      forall k | |EventsUpTo(ins, m)| < k < |EventsUpTo(ins, n)| ::
        LeavesAlone(StateAt(START, es, k), es[k], name, Entry(value, group, Deadline(timeout, ins[m].tick(0).now)))
    ensures
      var before, after := ConnAt(NodeAt(ins, n).d, b), ConnAt(NodeAt(ins, n + 1).d, b);
      && before.Some? && after.Some? && after.value.log == before.value.log + [GetReply(value)]
      && |Render(GetReply(value))| <= REPLY_SIZE
      && GetVarResult(Render(GetReply(value))) == value
  {
    hide Parse, Wire, LeavesAlone, Deadline, Step, StateAt, Render, GetVarResult, GetReply, NodeAt, EventsOf,
      EventsUpTo, After, Completes, Concat;
    var setting, getting := SetVar(name, value, group, timeout), GetVar(name);
    var es, i, j := EventsUpTo(ins, n + 1), |EventsUpTo(ins, m)|, |EventsUpTo(ins, n)|;
    DispatchOf(ins, m, n + 1, a, earlier, setting);
    DispatchOf(ins, n, n + 1, b, others, getting);
    EventsGrow(ins, m + 1, n);
    OneEventMore(ins, m, a, earlier, setting);
    assert ToUInt(timeout) == timeout;
    VariableSurvives(es, i, j, name, value, group, timeout);
    GettingEvent(StateAt(START, es, j), es[j], name, value);
    OneEventMore(ins, n, b, others, getting);
    NextState(es, j);
    StateBefore(ins, n + 1, n + 1);
    ReplyFits(name, value, group, timeout);
    ReplyIsExact(value);
  }

  /** Such an input, as an event of the run. */
  lemma DispatchOf(ins: seq<Input>, m: nat, n: nat, fd: nat, earlier: seq<Request>, r: Request)
    requires m < n <= |ins| && Completes(ins, m, fd, earlier + [r])
    requires CInts(r) && Deliverable(r) && |Wire(r)| < BUF_SIZE - 1
    ensures
      var es, i := EventsUpTo(ins, n), |EventsUpTo(ins, m)|;
      && i < |es| && es[i] == Line(fd, Wire(r), ins[m].tick(0))
      && StateAt(START, es, i) == NodeAt(ins, m).d
      && RequestOf(NodeAt(ins, m).d, es[i]) == Some(r)
      && ConnAt(NodeAt(ins, m).d, fd).Some?
  {
    hide Parse, Wire, StateAt, NodeAt, EventsOf, EventsUpTo, After, Concat, Deliverable, Received, Completes, Open, CInts;
    OneEventMore(ins, m, fd, earlier, r);
    CompletesOnOpen(ins, m, fd, earlier + [r]);
    StateBefore(ins, m, n);
    EventsGrow(ins, m + 1, n);
    ParseInvertsWire(r);
  }

  lemma CompletesOnOpen(ins: seq<Input>, m: nat, fd: nat, rs: seq<Request>)
    requires m < |ins| && Completes(ins, m, fd, rs)
    ensures ins[m].Readable? && ConnAt(NodeAt(ins, m).d, fd).Some? && NodeAt(ins, m).d.running
  {
    hide NodeAt, Received, Wires, Concat;
  }

  lemma OneEventMore(ins: seq<Input>, m: nat, fd: nat, earlier: seq<Request>, r: Request)
    requires m < |ins| && Completes(ins, m, fd, earlier + [r])
    requires |Wire(r)| < BUF_SIZE - 1
    ensures EventsUpTo(ins, m + 1) == EventsUpTo(ins, m) + [Line(fd, Wire(r), ins[m].tick(0))]
  {
    hide Wire, NodeAt, EventsOf, Completes;
    CompletedAlone(ins, m, fd, earlier + [r]);
  }

  lemma GettingEvent(d: Daemon, e: Event, name: Bytes, value: Bytes)
    requires RequestOf(d, e) == Some(GetVar(name)) && Find(d.table, VarKey(name)) == Some(value)
    ensures ConnAt(Step(d, e), e.fd).Some?
    ensures ConnAt(Step(d, e), e.fd).value.log == ConnAt(d, e.fd).value.log + [GetReply(value)]
  {
    hide Parse, Find, VarKey;
  }
}
