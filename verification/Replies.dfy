/** What the daemon answers to each command, and what the command does to the store, at any point of
    any run (src/kdesud/handler.cpp:180-521, src/kdesud/repo.cpp:24-190). */
module Replies {
  import opened ByteStrings
  import opened Lexer
  import opened Client
  import opened Grammar
  import opened TimedMap
  import opened Groups
  import opened Session
  import opened Daemon
  import opened Connections

  /** The daemon after event n has answered on this connection with this one reply. */
  predicate AnswersWith(es: seq<Event>, n: nat, fd: nat, reply: Reply)
    requires n < |es|
  {
    var before, after := ConnAt(StateAt(START, es, n), fd), ConnAt(StateAt(START, es, n + 1), fd);
    before.Some? && after.Some? && after.value.log == before.value.log + [reply]
  }

  function TableAt(es: seq<Event>, n: nat): Table
    requires n <= |es|
  {
    StateAt(START, es, n).table
  }

  /** The host that this connection has set. */
  function HostAt(es: seq<Event>, n: nat, fd: nat): Bytes
    requires n <= |es|
  {
    HostAsked(LastOf(es, n, fd, HostField))
  }

  function OkIf(yes: bool): Reply { if yes then Yes else No }

  /** What a request does, in terms of the function that describes its effect. */
  lemma Effect(es: seq<Event>, n: nat, fd: nat) returns (tick: Tick)
    requires n < |es| && AskedOn(es, n, fd).Some?
    ensures es[n].Line? && tick == es[n].tick
    ensures ConnAt(StateAt(START, es, n), fd).Some?
    ensures
      var c, r := ConnAt(StateAt(START, es, n), fd).value, AskedOn(es, n, fd).value;
      var o := Perform(c, TableAt(es, n), r, tick);
      && StateAt(START, es, n).running && StateAt(START, es, n + 1).running == !o.stopped
      && TableAt(es, n + 1) == o.table
      && (forall reply :: o.conn.log == c.log + [reply] ==> AnswersWith(es, n, fd, reply))
  {
    hide Parse, Perform;
    NextState(es, n);
    tick := es[n].tick;
  }

  lemma OpKeepsKeys(t: Table, op: Op)
    requires [] !in t && (op.OpAdd? ==> op.key != [])
    ensures [] !in Apply(t, op)
  {
  }

  lemma {:induction false} OpsKeepKeys(t: Table, ops: seq<Op>)
    requires [] !in t && forall i | 0 <= i < |ops| :: ops[i].OpAdd? ==> ops[i].key != []
    ensures [] !in Run(t, ops)
    decreases |ops|
  {
    hide Apply;
    if ops != [] {
      OpKeepsKeys(t, ops[0]);
      assert forall i | 0 <= i < |ops[1..]| :: ops[1..][i] == ops[i + 1];
      OpsKeepKeys(Apply(t, ops[0]), ops[1..]);
    }
  }

  lemma AddsHaveKeys(d: Daemon, e: Event)
    ensures forall i | 0 <= i < |OpsOf(d, e)| :: OpsOf(d, e)[i].OpAdd? ==> OpsOf(d, e)[i].key != []
  {
    hide Parse, Cached, EnvCheck, AuthUser;
  }

  /** No entry of the daemon's store sits under the empty key. */
  lemma {:induction false} NoEmptyKey(es: seq<Event>, n: nat)
    requires n <= |es|
    ensures [] !in TableAt(es, n)
  {
    hide Step, OpsOf, Run;
    if n > 0 {
      NoEmptyKey(es, n - 1);
      StoreStep(StateAt(START, es, n - 1), es[n - 1]);
      AddsHaveKeys(StateAt(START, es, n - 1), es[n - 1]);
      OpsKeepKeys(TableAt(es, n - 1), OpsOf(StateAt(START, es, n - 1), es[n - 1]));
    }
  }

  // ---------------------------------------------------------------- deleting

  ghost predicate DelsDone(t: Table, t1: Table, s: Bytes)
  {
    && (forall k :: k in t1 <==> k in t && !Meant(k, t[k], s))
    && (forall k | k in t1 :: t1[k] == t[k])
  }

  /** DELS s deletes the entries in whose key s occurs and whose group is an initial part of s, and
      no others; an empty s deletes nothing.  The answer is OK if there was such an entry. */
  lemma DelsIsExact(es: seq<Event>, n: nat, fd: nat, s: Bytes)
    requires n < |es| && AskedOn(es, n, fd) == Some(DelVars(s))
    ensures DelsDone(TableAt(es, n), TableAt(es, n + 1), s)
    ensures AnswersWith(es, n, fd, OkIf(exists k | k in TableAt(es, n) :: Meant(k, TableAt(es, n)[k], s)))
  {
    hide Perform, StateAt, AskedOn, Apply, Answer, AnswersWith, TableAt, Meant;
    var tick := Effect(es, n, fd);
    NoEmptyKey(es, n);
    var t := TableAt(es, n);
    SpecialIsExact(t, s);
    DelsEffect(ConnAt(StateAt(START, es, n), fd).value, t, s, tick);
  }

  lemma DelsEffect(c: Conn, t: Table, s: Bytes, tick: Tick)
    ensures
      var o := Perform(c, t, DelVars(s), tick);
      && o.table == Apply(t, OpRemoveSpecial(s))
      && o.conn.log == c.log + [OkIf(Answer(t, OpRemoveSpecial(s)) == 0)]
  {
    hide Deletes, Apply;
  }

  /** The key of a cached password, and of a variable. */
  function PasswordKey(host: Bytes, user: Bytes, command: Bytes): Bytes { KeyOf(0, KeyBody(host, user, command)) }

  function VariableKey(name: Bytes): Bytes { KeyOf(1, KeyBody(name, [], [])) }

  /** DEL deletes the password of that command and user for the host that the connection has set,
      and answers OK if there was one. */
  lemma DelIsExact(es: seq<Event>, n: nat, fd: nat, command: Bytes, user: Bytes)
    requires n < |es| && AskedOn(es, n, fd) == Some(DelCommand(command, user))
    ensures
      var k := PasswordKey(HostAt(es, n, fd), user, command);
      TableAt(es, n + 1) == TableAt(es, n) - {k} && AnswersWith(es, n, fd, OkIf(k in TableAt(es, n)))
  {
    hide Perform, StateAt, AskedOn, AnswersWith, MakeKey, KeyOf, LastOf;
    var tick := Effect(es, n, fd);
    FieldsAreAsked(es, n, fd);
    var c := ConnAt(StateAt(START, es, n), fd).value;
    MakeKeyIsKeyOf(0, c.host, user, command);
    RemoveEffect(c, TableAt(es, n), MakeKey(0, c.host, user, command));
    DelIsRemove(c, TableAt(es, n), command, user, tick);
  }

  lemma DelIsRemove(c: Conn, t: Table, command: Bytes, user: Bytes, tick: Tick)
    ensures Perform(c, t, DelCommand(command, user), tick) ==
      PerformDelete(c, t, OpRemove(MakeKey(0, c.host, user, command)))
  {
  }

  lemma RemoveEffect(c: Conn, t: Table, k: Bytes)
    requires k != []
    ensures
      var o := PerformDelete(c, t, OpRemove(k));
      o.table == t - {k} && o.conn.log == c.log + [OkIf(k in t)] && !o.stopped
  {
    var t1 := PerformDelete(c, t, OpRemove(k)).table;
    assert {k} * t.Keys - {[]} == {k} * t.Keys;
    assert t1.Keys == (t - {k}).Keys;
    assert forall x | x in t1 :: t1[x] == t[x] == (t - {k})[x];
  }

  /** DELV deletes that variable, and answers OK if there was one. */
  lemma DelVarIsExact(es: seq<Event>, n: nat, fd: nat, name: Bytes)
    requires n < |es| && AskedOn(es, n, fd) == Some(DelVar(name))
    ensures
      var k := VariableKey(name);
      TableAt(es, n + 1) == TableAt(es, n) - {k} && AnswersWith(es, n, fd, OkIf(k in TableAt(es, n)))
  {
    hide Perform, StateAt, AskedOn, AnswersWith, MakeKey, KeyOf;
    var tick := Effect(es, n, fd);
    var c := ConnAt(StateAt(START, es, n), fd).value;
    MakeKeyIsKeyOf(1, name, [], []);
    RemoveEffect(c, TableAt(es, n), VarKey(name));
    DelVarIsRemove(c, TableAt(es, n), name, tick);
  }

  lemma DelVarIsRemove(c: Conn, t: Table, name: Bytes, tick: Tick)
    ensures Perform(c, t, DelVar(name), tick) == PerformDelete(c, t, OpRemove(VarKey(name)))
  {
  }

  // ---------------------------------------------------------------- groups

  predicate HasEntryOf(t: Table, group: Bytes)
  {
    group != [] && exists k | k in t :: t[k].group == group
  }

  ghost predicate GroupDone(t: Table, t1: Table, group: Bytes)
  {
    && (forall k :: k in t1 <==> k in t && (group == [] || t[k].group != group))
    && (forall k | k in t1 :: t1[k] == t[k])
  }

  /** DELG deletes exactly the entries of that group, and CHKG nothing; both answer OK if the group
      has an entry, and NO for the empty group. */
  lemma GroupsAreExact(es: seq<Event>, n: nat, fd: nat, group: Bytes)
    requires n < |es|
    requires AskedOn(es, n, fd) == Some(DelGroup(group)) || AskedOn(es, n, fd) == Some(FindGroup(group))
    ensures AnswersWith(es, n, fd, OkIf(HasEntryOf(TableAt(es, n), group)))
    ensures
      if AskedOn(es, n, fd) == Some(DelGroup(group)) then GroupDone(TableAt(es, n), TableAt(es, n + 1), group)
      else TableAt(es, n + 1) == TableAt(es, n)
  {
    hide Perform, StateAt, AskedOn, AnswersWith, TableAt, Apply, Answer;
    var tick := Effect(es, n, fd);
    NoEmptyKey(es, n);
    GroupOperationsAgree(TableAt(es, n), group, group);
    GroupEffect(ConnAt(StateAt(START, es, n), fd).value, TableAt(es, n), group, tick);
  }

  lemma GroupEffect(c: Conn, t: Table, group: Bytes, tick: Tick)
    ensures
      var o := Perform(c, t, DelGroup(group), tick);
      && o.table == Apply(t, OpRemoveGroup(group))
      && o.conn.log == c.log + [OkIf(Answer(t, OpRemoveGroup(group)) == 0)]
    ensures
      var o := Perform(c, t, FindGroup(group), tick);
      o.table == t && o.conn.log == c.log + [OkIf(HasEntryOf(t, group))]
  {
    hide Deletes, Apply;
  }

  // ---------------------------------------------------------------- variables

  /** The answer that carries a text, or NO if there is none. */
  function TextReply(text: Bytes): Reply { if text == [] then No else Value(text) }

  /** GET answers with the value of that variable, GETK with the list of that group; NO stands for
      a missing variable, an empty value and an empty list. */
  lemma LookupsAreExact(es: seq<Event>, n: nat, fd: nat, x: Bytes)
    requires n < |es| && (AskedOn(es, n, fd) == Some(GetVar(x)) || AskedOn(es, n, fd) == Some(GetKeys(x)))
    ensures TableAt(es, n + 1) == TableAt(es, n)
    ensures
      var t := TableAt(es, n);
      var text := if AskedOn(es, n, fd) == Some(GetKeys(x)) then FindKeys(t, x)
                  else if VariableKey(x) in t then t[VariableKey(x)].value else [];
      AnswersWith(es, n, fd, TextReply(text))
  {
    hide Perform, StateAt, AskedOn, AnswersWith, TableAt, FindKeys, KeyOf;
    var tick := Effect(es, n, fd);
    LookupEffect(ConnAt(StateAt(START, es, n), fd).value, TableAt(es, n), x, tick);
  }

  lemma LookupEffect(c: Conn, t: Table, x: Bytes, tick: Tick)
    ensures
      var o := Perform(c, t, GetVar(x), tick);
      && o.table == t
      && o.conn.log == c.log + [TextReply(if VariableKey(x) in t then t[VariableKey(x)].value else [])]
    ensures
      var o := Perform(c, t, GetKeys(x), tick);
      o.table == t && o.conn.log == c.log + [TextReply(FindKeys(t, x))]
  {
    hide FindKeys, MakeKey, KeyOf;
    MakeKeyIsKeyOf(1, x, [], []);
  }

  /** The first time at which a sweep takes what was stored with this timeout: never if there is
      none, as far as an unsigned int goes, and otherwise the sum, which may wrap. */
  function EndOfLife(timeout: int, at: UInt): int
  {
    if timeout == 0 then 0xFFFF_FFFF
    else if timeout + at < 0x1_0000_0000 then timeout + at
    else timeout + at - 0x1_0000_0000
  }

  /** SET stores exactly that variable and answers OK. */
  lemma SetIsExact(es: seq<Event>, n: nat, fd: nat, name: Bytes, value: Bytes, group: Bytes, timeout: int)
    requires n < |es| && AskedOn(es, n, fd) == Some(SetVar(name, value, group, timeout))
    ensures es[n].Line?
    ensures 0 <= EndOfLife(timeout, es[n].tick.now) <= UINT_MAX
    ensures TableAt(es, n + 1) ==
      TableAt(es, n)[VariableKey(name) := Entry(value, group, EndOfLife(timeout, es[n].tick.now))]
    ensures AnswersWith(es, n, fd, Yes)
  {
    hide Perform, StateAt, AnswersWith, TableAt, KeyOf, Parse, Deadline;
    var tick := Effect(es, n, fd);
    ParsedSet(es[n].line);
    EndIsDeadline(timeout, tick.now);
    SetEffect(ConnAt(StateAt(START, es, n), fd).value, TableAt(es, n), name, value, group, timeout, tick);
  }

  lemma EndIsDeadline(timeout: int, now: UInt)
    requires 0 <= timeout <= INT_MAX
    ensures Deadline(ToUInt(timeout), now) == EndOfLife(timeout, now) <= UINT_MAX
  {
  }

  lemma ParsedSet(line: Bytes)
    requires Parse(line).Command? && Parse(line).request.SetVar?
    ensures 0 <= Parse(line).request.timeout <= INT_MAX
  {
    hide Lex, TakeStr, TakeNum, AtEnd, TakeEnv, ToInt;
  }

  lemma SetEffect(c: Conn, t: Table, name: Bytes, value: Bytes, group: Bytes, timeout: int, tick: Tick)
    ensures
      var o := Perform(c, t, SetVar(name, value, group, timeout), tick);
      && o.table == t[VariableKey(name) := Entry(value, group, Deadline(ToUInt(timeout), tick.now))]
      && o.conn.log == c.log + [Yes]
  {
    hide Deadline, MakeKey, KeyOf;
    MakeKeyIsKeyOf(1, name, [], []);
  }

  // ---------------------------------------------------------------- the rest

  /** The commands that set a field, and PING and STOP, answer OK and leave the store alone; EXIT
      leaves it alone too.  Only STOP ends the daemon. */
  lemma OthersAnswerOk(es: seq<Event>, n: nat, fd: nat)
    requires n < |es| && AskedOn(es, n, fd).Some?
    requires
      var r := AskedOn(es, n, fd).value;
      r.SetPass? || r.SetHost? || r.SetPriority? || r.SetScheduler? || r.Ping? || r.StopServer? || r.ExitCode?
    ensures TableAt(es, n + 1) == TableAt(es, n)
    ensures !AskedOn(es, n, fd).value.ExitCode? ==> AnswersWith(es, n, fd, Yes)
  {
    hide Perform, StateAt, AskedOn, AnswersWith, TableAt;
    var tick := Effect(es, n, fd);
    OtherEffect(ConnAt(StateAt(START, es, n), fd).value, TableAt(es, n), AskedOn(es, n, fd).value, tick);
  }

  lemma OtherEffect(c: Conn, t: Table, r: Request, tick: Tick)
    requires r.SetPass? || r.SetHost? || r.SetPriority? || r.SetScheduler? || r.Ping? || r.StopServer? || r.ExitCode?
    ensures Perform(c, t, r, tick).table == t
    ensures !r.ExitCode? ==> Perform(c, t, r, tick).conn.log == c.log + [Yes]
  {
  }

  lemma OnlyStopStops(es: seq<Event>, n: nat, fd: nat)
    requires n < |es| && AskedOn(es, n, fd).Some?
    ensures StateAt(START, es, n + 1).running <==> AskedOn(es, n, fd) != Some(StopServer)
  {
    hide Perform, StateAt, AskedOn, AnswersWith, TableAt;
    var tick := Effect(es, n, fd);
    StopEffect(ConnAt(StateAt(START, es, n), fd).value, TableAt(es, n), AskedOn(es, n, fd).value, tick);
  }

  lemma StopEffect(c: Conn, t: Table, r: Request, tick: Tick)
    ensures Perform(c, t, r, tick).stopped <==> r == StopServer
  {
    hide Cached, Remember, Forking, Answer, FindKeys, HasGroup, MakeKey, Apply, Add, Find, EnvKey, PassKey;
  }

  /** A group without a name has no list, whatever is stored. */
  lemma NoListForNoGroup(t: Table)
    ensures TextReply(FindKeys(t, [])) == No
  {
  }
}
