/** getKeys end to end: only variables have groups, their keys are cut at the last '-' of the
    name, and the client gets the cut names back. */
module GroupListing {
  import opened ByteStrings
  import opened Order
  import opened Client
  import opened TimedMap
  import opened Groups
  import opened Session
  import opened Daemon
  import opened Variables

  /** Entries with a group are variables. */
  ghost predicate GroupedAreVariables(t: Table)
  {
    forall k | k in t && t[k].group != [] :: IsVarKey(k)
  }

  ghost predicate IsVarKey(k: Bytes)
  {
    exists n: Bytes :: VarKey(n) == k
  }

  predicate GroupsOnlyVariables(op: Op, name: Bytes)
  {
    op.OpAdd? && op.group != [] ==> op.key == VarKey(name)
  }

  lemma OpKeepsGroups(t: Table, op: Op, name: Bytes)
    requires GroupedAreVariables(t) && GroupsOnlyVariables(op, name)
    ensures GroupedAreVariables(Apply(t, op))
  {
    hide VarKey;
    assert op.OpAdd? && op.group != [] ==> IsVarKey(op.key);
  }

  lemma {:induction false} OpsKeepGroups(t: Table, ops: seq<Op>, name: Bytes)
    requires GroupedAreVariables(t)
    requires forall i | 0 <= i < |ops| :: GroupsOnlyVariables(ops[i], name)
    ensures GroupedAreVariables(Run(t, ops))
    decreases |ops|
  {
    hide Apply, GroupsOnlyVariables, GroupedAreVariables;
    if ops != [] {
      OpKeepsGroups(t, ops[0], name);
      OpsKeepGroups(Apply(t, ops[0]), ops[1..], name);
    }
  }

  lemma {:induction false} OnlyVariablesHaveGroups(es: seq<Event>, n: nat)
    requires n <= |es|
    ensures GroupedAreVariables(StateAt(START, es, n).table)
  {
    if n > 0 {
      var d, e := StateAt(START, es, n - 1), es[n - 1];
      OnlyVariablesHaveGroups(es, n - 1);
      EventKeepsGroups(d, e);
    }
  }

  lemma EventKeepsGroups(d: Daemon, e: Event)
    requires GroupedAreVariables(d.table)
    ensures GroupedAreVariables(Step(d, e).table)
  {
    hide Step, Run, Cached, EnvCheck, VarKey, EnvKey, PassKey, GroupedAreVariables;
    StoreStep(d, e);
    var name := match RequestOf(d, e) case Some(SetVar(n, _, _, _)) => n case _ => [];
    OpsKeepGroups(d.table, OpsOf(d, e), name);
  }

  /** A variable's name up to its last '-'; nothing when it has none. */
  function CutVar(name: Bytes): Bytes
  {
    if MINUS in name then name[..LastIndexOf(name, MINUS)] else []
  }

  lemma {:induction false} LastIndexAppend(a: Bytes, c: Byte, b: Bytes)
    requires c !in b
    ensures LastIndexOf(a + [c] + b, c) == |a|
  {
    var s := a + [c] + b;
    var n := |s| - 1;
    if b != [] {
      assert s[n] == b[|b| - 1] && s[..n] == a + [c] + b[..|b| - 1];
      LastIndexAppend(a, c, b[..|b| - 1]);
    }
  }

  lemma CutOfVarKey(name: Bytes)
    ensures CutName(VarKey(name)) == CutVar(name)
  {
    hide LastIndexOf, VarKey;
    VarKeyShape(name);
    if MINUS in name {
      var p := LastIndexOf(name, MINUS);
      var head, tail := [ZERO + 1, STAR] + name[..p], name[p + 1..] + [STAR, STAR];
      assert name == name[..p] + [MINUS] + name[p + 1..];
      assert VarKey(name) == head + [MINUS] + tail;
      LastIndexAppend(head, MINUS, tail);
      assert VarKey(name)[..|head|] == head && head[2..] == name[..p];
    }
  }

  lemma VarKeyShape(name: Bytes)
    ensures VarKey(name) == [ZERO + 1, STAR] + name + [STAR, STAR]
  {
  }

  /** What getKeys returns for a reply. */
  function GetKeysResult(reply: Bytes): seq<Bytes>
  {
    var text := OrEmpty(Result(reply));
    if text == [] then [] else Split(text)
  }

  /** All the elements of the joined list. */
  function Elements(list: Bytes): seq<Bytes> { if list == [] then [] else Split(list) }

  /** getKeys gets the list that was sent exactly when it has no NUL byte and fits one read. */
  lemma ListIsExact(list: Bytes)
    ensures GetKeysResult(Render(GetReply(list))) == Elements(list)
      <==> NUL !in list && |Render(GetReply(list))| <= REPLY_SIZE
  {
    hide Split, Render, Result;
    ReplyIsExact(list);
    var got := GetVarResult(Render(GetReply(list)));
    if got != [] && list != [] {
      RejoinsSplit(got);
      RejoinsSplit(list);
    }
  }

  /** Of a longer list without NUL it gets an initial part: the elements of the list in order, the
      last one possibly cut short, and the others not at all. */
  lemma LongListIsCut(list: Bytes) returns (j: nat)
    requires NUL !in list && |Render(GetReply(list))| > REPLY_SIZE
    ensures GetKeysResult(Render(GetReply(list))) == Split(list[..TEXT_SIZE])
    ensures
      var got := GetKeysResult(Render(GetReply(list)));
      && j < |Elements(list)| && |got| == j + 1
      && got[..j] == Elements(list)[..j] && got[j] <= Elements(list)[j]
  {
    hide Split, Result;
    if list == [] { NothingRead(); }
    KeptOfValue(list);
    assert |Render(GetReply(list))| == |list| + 4;
    j := SplitOfPrefix(list, TEXT_SIZE);
  }

  predicate InGroup(t: Table, group: Bytes, name: Bytes)
  {
    VarKey(name) in t && t[VarKey(name)].group == group
  }

  /** GETK through the wire, in every reachable store: if the names of a group have no BEL byte and
      the joined reply has no NUL and fits one read, the client gets distinct names; each is the cut
      name of a variable of the group; and the cut name of every variable of the group occurs in
      the reply. */
  lemma GetKeysListsTheGroup(es: seq<Event>, n: nat, group: Bytes, x: Bytes)
    requires n <= |es| && group != [] && Plain(x)
    requires forall name: Bytes | InGroup(StateAt(START, es, n).table, group, name) :: BELL !in name
    requires NUL !in FindKeys(StateAt(START, es, n).table, group)
    requires |Render(GetReply(FindKeys(StateAt(START, es, n).table, group)))| <= REPLY_SIZE
    ensures
      var t := StateAt(START, es, n).table;
      var list := FindKeys(t, group);
      var got := GetKeysResult(Render(GetReply(list)));
      && Distinct(got)
      && (x in got <==> FirstMet(GroupNames(t, group), x))
      && (x in got ==> exists name: Bytes :: InGroup(t, group, name) && CutVar(name) == x)
      && (forall name: Bytes | InGroup(t, group, name) && CutVar(name) == x :: Contains(list, x))
  {
    hide StateAt, FindKeys, CutVar, VarKey, FirstMet, Contains, CutName, Render, GetReply, Result;
    var t := StateAt(START, es, n).table;
    OnlyVariablesHaveGroups(es, n);
    NamesOfVariables(t, group, x);
    AllNamesPlain(t, group);
    GroupNamesRoundTrip(t, group, x);
    ListIsExact(FindKeys(t, group));
    if FirstMet(GroupNames(t, group), x) { FirstMetIsName(GroupNames(t, group), x); }
  }

  lemma FirstMetIsName(names: seq<Bytes>, x: Bytes)
    requires FirstMet(names, x)
    ensures x in names
  {
  }

  lemma NamesOfVariables(t: Table, group: Bytes, x: Bytes)
    requires GroupedAreVariables(t) && group != []
    ensures x in GroupNames(t, group) <==> exists name: Bytes :: InGroup(t, group, name) && CutVar(name) == x
  {
    hide CutVar, VarKey, CutName;
    NamesAreCutNames(InOrder(t.Keys), t, group, x);
    if x in GroupNames(t, group) {
      var k :| k in InOrder(t.Keys) && t[k].group == group && CutName(k) == x;
      assert IsVarKey(k);
      var name: Bytes :| VarKey(name) == k;
      CutOfVarKey(name);
      assert InGroup(t, group, name) && CutVar(name) == x;
    }
    if name: Bytes :| InGroup(t, group, name) && CutVar(name) == x {
      CutOfVarKey(name);
      assert VarKey(name) in InOrder(t.Keys);
    }
  }

  lemma AllNamesPlain(t: Table, group: Bytes)
    requires GroupedAreVariables(t) && group != []
    requires forall name: Bytes | InGroup(t, group, name) :: BELL !in name
    ensures forall i | 0 <= i < |GroupNames(t, group)| :: BELL !in GroupNames(t, group)[i]
  {
    hide VarKey, InGroup, Names, CutVar;
    forall i | 0 <= i < |GroupNames(t, group)| ensures BELL !in GroupNames(t, group)[i]
    {
      var x := GroupNames(t, group)[i];
      NamesOfVariables(t, group, x);
      var name: Bytes :| InGroup(t, group, name) && CutVar(name) == x;
      CutIsPart(name);
    }
  }

  lemma CutIsPart(name: Bytes)
    ensures BELL !in name ==> BELL !in CutVar(name)
  {
  }
}
