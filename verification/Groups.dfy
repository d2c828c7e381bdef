/** The names of a group: findKeys() joins them (src/kdesud/repo.cpp:107-136), the client's
    getKeys() splits them again (src/client.cpp:299-326). */
module Groups {
  import opened ByteStrings
  import opened Order
  import opened TimedMap

  /** truncate() at the last '-' (to nothing when there is none), then remove(0, 2). */
  function CutName(key: Bytes): Bytes
  {
    var pos := LastIndexOf(key, MINUS);
    var cut := if pos < 0 then [] else key[..pos];
    if |cut| <= 2 then [] else cut[2..]
  }

  function AddName(list: Bytes, name: Bytes): Bytes
  {
    if list == [] then name
    else if Contains(list, name) then list
    else list + [BELL] + name
  }

  /** The cut names of a group's entries, in the order in which they are met. */
  function Names(ks: seq<Bytes>, t: Table, group: Bytes): seq<Bytes>
    requires forall k | k in ks :: k in t
    decreases ks
  {
    if ks == [] then []
    else (if t[ks[0]].group == group then [CutName(ks[0])] else []) + Names(ks[1..], t, group)
  }

  function GroupNames(t: Table, group: Bytes): seq<Bytes>
  {
    Names(InOrder(t.Keys), t, group)
  }

  function Join(list: Bytes, names: seq<Bytes>): Bytes
    decreases names
  {
    if names == [] then list else Join(AddName(list, names[0]), names[1..])
  }

  function FindKeys(t: Table, group: Bytes): Bytes
  {
    if group == [] then [] else Join([], GroupNames(t, group))
  }

  /** Repository::findKeys, walking the map in key order. */
  method FindKeysLoop(t: Table, group: Bytes) returns (list: Bytes)
    ensures list == FindKeys(t, group)
  {
    hide Contains, CutName, Join, Names;
    list := [];
    if group != [] {
      var keys := InOrder(t.Keys);
      assert keys[0..] == keys;
      for i := 0 to |keys|
        invariant FindKeys(t, group) == Join(list, Names(keys[i..], t, group))
      {
        ghost var rest := Names(keys[i + 1..], t, group);
        assert keys[i..][0] == keys[i] && keys[i..][1..] == keys[i + 1..];
        NamesUnfold(keys[i..], t, group);
        if t[keys[i]].group == group {
          var key := CutName(keys[i]);
          JoinStep(list, key, rest);
          if list != [] {
            if !Contains(list, key) {
              list := list + [BELL];
              list := list + key;
            }
          } else {
            list := key;
          }
        } else {
          assert [] + rest == rest;
        }
      }
      NothingToJoin(list, keys[|keys|..], t, group);
    }
  }

  lemma NamesUnfold(ks: seq<Bytes>, t: Table, group: Bytes)
    requires ks != [] && forall k | k in ks :: k in t
    ensures Names(ks, t, group) ==
      (if t[ks[0]].group == group then [CutName(ks[0])] else []) + Names(ks[1..], t, group)
  {
    hide CutName;
  }

  lemma NothingToJoin(list: Bytes, ks: seq<Bytes>, t: Table, group: Bytes)
    requires ks == []
    ensures Join(list, Names(ks, t, group)) == list
  {
  }

  lemma JoinStep(list: Bytes, name: Bytes, rest: seq<Bytes>)
    ensures Join(list, [name] + rest) == Join(AddName(list, name), rest)
  {
  }

  /** The pieces between the BEL bytes. */
  function Split(s: Bytes): (parts: seq<Bytes>)
    ensures parts != []
    decreases |s|
  {
    var p := IndexOf(s, BELL);
    if p < 0 then [s] else [s[..p]] + Split(s[p + 1..])
  }

  /** The splitting loop of Client::getKeys. */
  method SplitLoop(reply: Bytes) returns (list: seq<Bytes>)
    ensures list == if reply == [] then [] else Split(reply)
  {
    hide Split, IndexOf;
    list := [];
    if reply == [] { return; }
    var index := 0;
    assert reply[0..] == reply && [] + Split(reply) == Split(reply);
    while true
      invariant 0 <= index <= |reply|
      invariant Split(reply) == list + Split(reply[index..])
      decreases |reply| - index
    {
      ghost var rest := reply[index..];
      var off := IndexOf(reply[index..], BELL);
      SplitUnfolds(rest);
      if off < 0 {
        list := list + [reply[index..]];
        return;
      }
      assert rest[..off] == reply[index..index + off];
      assert rest[off + 1..] == reply[index + off + 1..];
      assert list + ([rest[..off]] + Split(rest[off + 1..])) == list + [rest[..off]] + Split(rest[off + 1..]);
      list := list + [reply[index..index + off]];
      index := index + off + 1;
    }
  }

  lemma SplitUnfolds(s: Bytes)
    ensures
      var p := IndexOf(s, BELL);
      Split(s) == if p < 0 then [s] else [s[..p]] + Split(s[p + 1..])
  {
  }

  lemma SplitAtBell(head: Bytes, rest: Bytes)
    requires BELL !in head
    ensures Split(head + [BELL] + rest) == [head] + Split(rest)
  {
    hide IndexOf, Split;
    var w := head + [BELL] + rest;
    IndexOfAppend(head, rest, BELL);
    SplitUnfolds(w);
    assert w[..|head|] == head && w[|head| + 1..] == rest;
  }

  lemma SplitWithoutBell(s: Bytes)
    requires BELL !in s
    ensures Split(s) == [s]
  {
  }

  lemma {:induction false} SplitAppend(s: Bytes, e: Bytes)
    requires BELL !in e
    ensures Split(s + [BELL] + e) == Split(s) + [e]
    decreases |s|
  {
    hide IndexOf, Split;
    SplitWithoutBell(e);
    if BELL !in s {
      SplitAtBell(s, e);
      SplitWithoutBell(s);
    } else {
      var p := IndexOf(s, BELL);
      var head, rest := s[..p], s[p + 1..];
      assert s == head + [BELL] + rest;
      Associate(head + [BELL], rest, [BELL]);
      Associate(head + [BELL], rest + [BELL], e);
      SplitAtBell(head, rest);
      SplitAtBell(head, rest + [BELL] + e);
      SplitAppend(rest, e);
    }
  }

  function Rejoin(parts: seq<Bytes>): Bytes
    requires parts != []
  {
    if |parts| == 1 then parts[0] else parts[0] + [BELL] + Rejoin(parts[1..])
  }

  /** Splitting loses nothing, so different lists split differently. */
  lemma {:induction false} RejoinsSplit(s: Bytes)
    ensures Rejoin(Split(s)) == s
    decreases |s|
  {
    hide IndexOf, Split;
    SplitUnfolds(s);
    if BELL in s {
      var head, rest := s[..IndexOf(s, BELL)], s[IndexOf(s, BELL) + 1..];
      assert s == head + [BELL] + rest;
      RejoinsSplit(rest);
      assert ([head] + Split(rest))[1..] == Split(rest);
    }
  }

  /** The pieces of an initial part of a list: those of the list, and the beginning of one more. */
  lemma {:induction false} SplitOfPrefix(s: Bytes, n: nat) returns (j: nat)
    requires n <= |s|
    ensures j < |Split(s)| && |Split(s[..n])| == j + 1
    ensures Split(s[..n])[..j] == Split(s)[..j] && Split(s[..n])[j] <= Split(s)[j]
    decreases |s|
  {
    hide IndexOf, Split;
    SplitUnfolds(s);
    var p := IndexOf(s, BELL);
    if p < 0 || n <= p {
      j := 0;
      var piece := if p < 0 then s else s[..p];
      assert s[..n] == piece[..n];
      SplitWithoutBell(piece[..n]);
    } else {
      var head, rest := s[..p], s[p + 1..];
      assert s[..n] == head + [BELL] + rest[..n - p - 1];
      SplitAtBell(head, rest[..n - p - 1]);
      var i := SplitOfPrefix(rest, n - p - 1);
      OneMorePiece(head, Split(rest[..n - p - 1]), Split(rest), i);
      j := i + 1;
    }
  }

  lemma OneMorePiece(head: Bytes, a: seq<Bytes>, b: seq<Bytes>, i: nat)
    requires i < |b| && |a| == i + 1 && a[..i] == b[..i] && a[i] <= b[i]
    ensures ([head] + a)[..i + 1] == ([head] + b)[..i + 1]
    ensures ([head] + a)[i + 1] <= ([head] + b)[i + 1]
  {
    assert ([head] + a)[..i + 1] == [head] + a[..i];
    assert ([head] + b)[..i + 1] == [head] + b[..i];
  }

  lemma {:induction false} SplitPartsOccur(s: Bytes, e: Bytes)
    requires e in Split(s)
    ensures Contains(s, e)
    decreases |s|
  {
    hide IndexOf, Split, Contains;
    SplitUnfolds(s);
    var p := IndexOf(s, BELL);
    if p < 0 {
      PartsAre(s, 0);
    } else {
      PartsAre(s, p);
      if e != s[..p] {
        SplitPartsOccur(s[p + 1..], e);
        OccursBehind(s, p, e);
      }
    }
  }

  lemma PartsAre(s: Bytes, p: nat)
    requires p <= |s|
    ensures Contains(s, s) && Contains(s, s[..p])
  {
    hide Contains;
    ContainsStart(s, []);
    ContainsStart(s[..p], s[p..]);
    assert s + [] == s && s[..p] + s[p..] == s;
  }

  lemma OccursBehind(s: Bytes, p: nat, e: Bytes)
    requires p < |s| && Contains(s[p + 1..], e)
    ensures Contains(s, e)
  {
    hide Contains;
    ContainsAppend(s[p + 1..], e, s[..p + 1], []);
    assert s[..p + 1] + s[p + 1..] + [] == s;
  }

  /** A text without a BEL byte occurs in a joined list only inside one of its names. */
  lemma OccursInOnePart(s: Bytes, e: Bytes, x: Bytes)
    requires BELL !in x && x != []
    ensures Contains(s + [BELL] + e, x) <==> Contains(s, x) || Contains(e, x)
  {
    var w := s + [BELL] + e;
    if Contains(w, x) {
      var i :| 0 <= i <= |w| && OccursAt(w, x, i);
      assert forall k | i <= k < i + |x| :: w[k] == x[k - i];
      assert forall k | i <= k < i + |x| :: w[k] in x;
      assert w[|s|] == BELL;
      if i + |x| <= |s| {
        assert s[i..i + |x|] == w[i..i + |x|];
        ContainsIntro(s, x, i);
      } else {
        assert w[|s| + 1..] == e;
        assert e[i - |s| - 1..i - |s| - 1 + |x|] == w[i..i + |x|];
        ContainsIntro(e, x, i - |s| - 1);
      }
    }
    if Contains(s, x) {
      ContainsAppend(s, x, [], [BELL] + e);
      assert [] + s + ([BELL] + e) == w;
    }
    if Contains(e, x) {
      ContainsAppend(e, x, s + [BELL], []);
      assert s + [BELL] + e + [] == w;
    }
  }

  lemma ContainsIsTransitive(a: Bytes, b: Bytes, c: Bytes)
    requires Contains(a, b) && Contains(b, c)
    ensures Contains(a, c)
  {
    var i :| 0 <= i <= |a| && OccursAt(a, b, i);
    assert a == a[..i] + b + a[i + |b|..];
    ContainsAppend(b, c, a[..i], a[i + |b|..]);
  }

  predicate Distinct(es: seq<Bytes>)
  {
    forall i, j | 0 <= i < j < |es| :: es[i] != es[j]
  }

  predicate Listed(list: Bytes, x: Bytes)
  {
    list != [] && x in Split(list)
  }

  /** Some earlier name contains x. */
  predicate Covered(names: seq<Bytes>, x: Bytes)
  {
    exists j | 0 <= j < |names| :: Contains(names[j], x)
  }

  /** The name was met at a moment when no earlier name contained it. */
  predicate FirstMet(names: seq<Bytes>, x: Bytes)
  {
    exists j | 0 <= j < |names| :: names[j] == x && !Covered(names[..j], x)
  }

  predicate Plain(x: Bytes) { x != [] && BELL !in x }

  /** What the list under construction holds once these names have been met. */
  ghost predicate ListOf(list: Bytes, names: seq<Bytes>)
  {
    && (list != [] ==> Distinct(Split(list)) && forall e | e in Split(list) :: Plain(e))
    && (forall x | Plain(x) :: Contains(list, x) <==> Covered(names, x))
    && (forall x | Plain(x) :: Listed(list, x) <==> FirstMet(names, x))
  }

  lemma CoveredPush(names: seq<Bytes>, name: Bytes, x: Bytes)
    ensures Covered(names + [name], x) <==> Covered(names, x) || Contains(name, x)
    ensures FirstMet(names + [name], x) <==> FirstMet(names, x) || (name == x && !Covered(names, x))
  {
    var more := names + [name];
    assert forall j | 0 <= j < |names| :: more[j] == names[j] && more[..j] == names[..j];
    assert more[|names|] == name && more[..|names|] == names;
  }

  lemma AddNameKeeps(list: Bytes, names: seq<Bytes>, name: Bytes)
    requires ListOf(list, names) && BELL !in name
    ensures ListOf(AddName(list, name), names + [name])
  {
    var list1 := AddName(list, name);
    if name == [] {
      ContainsIntro(list, [], 0);
      assert list1 == list;
    }
    if list1 != [] {
      AddNameKeepsDistinct(list, names, name);
    }
    forall x | Plain(x)
      ensures Contains(list1, x) <==> Covered(names + [name], x)
      ensures Listed(list1, x) <==> FirstMet(names + [name], x)
    {
      CoveredPush(names, name, x);
      AddNameAndOneName(list, name, x);
    }
  }

  lemma AddNameKeepsDistinct(list: Bytes, names: seq<Bytes>, name: Bytes)
    requires ListOf(list, names) && BELL !in name && AddName(list, name) != []
    ensures Distinct(Split(AddName(list, name)))
    ensures forall e | e in Split(AddName(list, name)) :: Plain(e)
  {
    if list != [] && !Contains(list, name) {
      if name == [] { ContainsIntro(list, [], 0); }
      SplitAppend(list, name);
      if name in Split(list) { SplitPartsOccur(list, name); }
    }
  }

  /** Adding a name, seen from any name x. */
  lemma AddNameAndOneName(list: Bytes, name: Bytes, x: Bytes)
    requires Plain(x) && BELL !in name
    ensures Contains(AddName(list, name), x) <==> Contains(list, x) || Contains(name, x)
    ensures Listed(AddName(list, name), x) <==> Listed(list, x) || (name == x && !Contains(list, x))
  {
    assert !Contains([], x);
    ContainsIntro(x, x, 0);
    if list != [] {
      if Contains(list, name) {
        if Contains(name, x) { ContainsIsTransitive(list, name, x); }
      } else {
        OccursInOnePart(list, name, x);
        SplitAppend(list, name);
      }
    }
  }

  lemma {:induction false} JoinLists(list: Bytes, before: seq<Bytes>, names: seq<Bytes>)
    requires forall i | 0 <= i < |names| :: BELL !in names[i]
    requires ListOf(list, before)
    ensures ListOf(Join(list, names), before + names)
    decreases names
  {
    if names == [] {
      assert before + names == before;
    } else {
      AddNameKeeps(list, before, names[0]);
      JoinLists(AddName(list, names[0]), before + [names[0]], names[1..]);
      assert before + [names[0]] + names[1..] == before + names;
    }
  }

  /** GETK and getKeys, exactly: for names without a BEL byte the client gets distinct names, and
      a name is among them if and only if some entry of the group has it as its cut name and no
      earlier entry's cut name contains it.  (So a name that is part of an earlier one is missing
      from the list, but always occurs inside the reply.) */
  lemma GroupNamesRoundTrip(t: Table, group: Bytes, x: Bytes)
    requires group != [] && Plain(x)
    requires forall i | 0 <= i < |GroupNames(t, group)| :: BELL !in GroupNames(t, group)[i]
    ensures
      var list := FindKeys(t, group);
      && (list != [] ==> Distinct(Split(list)))
      && (Listed(list, x) <==> FirstMet(GroupNames(t, group), x))
      && (x in GroupNames(t, group) ==> Contains(list, x))
  {
    assert ListOf([], []) by {
      assert forall y | Plain(y) :: !Contains([], y);
    }
    JoinLists([], [], GroupNames(t, group));
    assert [] + GroupNames(t, group) == GroupNames(t, group);
    ContainsIntro(x, x, 0);
  }

  /** The names met are those of the group's entries. */
  lemma {:induction false} NamesAreCutNames(ks: seq<Bytes>, t: Table, group: Bytes, x: Bytes)
    requires forall k | k in ks :: k in t
    ensures x in Names(ks, t, group) <==> exists k | k in ks :: t[k].group == group && CutName(k) == x
    decreases ks
  {
    if ks != [] {
      NamesAreCutNames(ks[1..], t, group, x);
      assert ks == [ks[0]] + ks[1..];
    }
  }
}
