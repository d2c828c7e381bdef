/** The Repository class (src/kdesud/repo.cpp): a map with a lazily maintained head_time. */
module Repository {
  import opened ByteStrings
  import opened Order
  import opened TimedMap

  function Min(a: UInt, b: UInt): UInt { if a < b then a else b }

  function SetOf(ks: seq<Bytes>): set<Bytes> { set k | k in ks }

  class Repository {
    var repo: Table
    var headTime: UInt

    /** head_time is a lower bound on every stored timeout; the empty key is the exception,
        because expire() recomputes the bound without the entries it then fails to remove. */
    ghost predicate Valid()
      reads this
    {
      forall k | k in repo && k != [] :: headTime <= repo[k].timeout
    }

    constructor ()
      ensures Valid() && repo == map[]
    {
      repo := map[];
      headTime := UINT_MAX;
    }

    method Add(key: Bytes, value: Bytes, group: Bytes, timeout: UInt, now: UInt)
      requires Valid()
      modifies this
      ensures Valid() && repo == Apply(old(repo), OpAdd(key, value, group, timeout, now))
    {
      if key in repo {
        var _ := Remove(key);
      }
      var deadline := if timeout == 0 then UINT_MAX else (timeout + now) % 0x1_0000_0000;
      headTime := Min(headTime, deadline);
      repo := repo[key := Entry(value, group, deadline)];
      assert repo == TimedMap.Add(old(repo), key, value, group, timeout, now);
    }

    method Remove(key: Bytes) returns (ret: int)
      modifies this`repo
      ensures old(Valid()) ==> Valid()
      ensures repo == Apply(old(repo), OpRemove(key))
      ensures ret == Answer(old(repo), OpRemove(key))
    {
      if key == [] { return -1; }
      if key !in repo { return -1; }
      repo := repo - {key};
      assert repo == Without(old(repo), {key});
      return 0;
    }

    /** The removal stack that three operations end with: pop and remove until it is empty. */
    method RemoveStack(stack: seq<Bytes>)
      modifies this`repo
      ensures old(Valid()) ==> Valid()
      ensures repo == Without(old(repo), SetOf(stack))
    {
      var left := stack;
      while left != []
        invariant left <= stack
        invariant repo == Without(old(repo), SetOf(stack[|left|..]))
        decreases |left|
      {
        var top := left[|left| - 1];
        ghost var popped := stack[|left|..];
        left := left[..|left| - 1];
        assert stack[|left|..] == [top] + popped;
        assert SetOf(stack[|left|..]) == {top} + SetOf(popped);
        var _ := Remove(top);
      }
      assert stack[0..] == stack;
    }

    method RemoveSpecialKey(key: Bytes) returns (found: int)
      requires Valid()
      modifies this`repo
      ensures Valid() && repo == Apply(old(repo), OpRemoveSpecial(key))
      ensures found == Answer(old(repo), OpRemoveSpecial(key))
    {
      if key == [] {
        assert repo == Without(repo, {});
        return -1;
      }
      var rmKeys;
      rmKeys, found := StackSpecial(repo, key);
      RemoveStack(rmKeys);
    }

    method RemoveGroup(group: Bytes) returns (found: int)
      requires Valid()
      modifies this`repo
      ensures Valid() && repo == Apply(old(repo), OpRemoveGroup(group))
      ensures found == Answer(old(repo), OpRemoveGroup(group))
    {
      if group == [] {
        assert repo == Without(repo, {});
        return -1;
      }
      var rmKeys;
      rmKeys, found := StackGroup(repo, group);
      RemoveStack(rmKeys);
    }

    method HasGroup(group: Bytes) returns (ret: int)
      ensures ret == if TimedMap.HasGroup(repo, group) then 0 else -1
    {
      if group != [] {
        hide IsLeast;
        var todo := repo.Keys;
        while todo != {}
          invariant todo <= repo.Keys
          invariant forall k | k in repo && k !in todo :: repo[k].group != group
          decreases |todo|
        {
          var k := Least(todo);
          todo := todo - {k};
          if repo[k].group == group { return 0; }
        }
      }
      return -1;
    }

    method Find(key: Bytes) returns (r: Option<Bytes>)
      ensures r == TimedMap.Find(repo, key)
    {
      if key == [] { return None; }
      if key !in repo { return None; }
      return Some(repo[key].value);
    }

    /** The lazy sweep does what a full sweep does: it removes exactly the entries whose time is
        up, and when no entry has the empty key it returns how many those were. */
    method Expire(now: UInt) returns (n: int)
      requires Valid()
      modifies this
      ensures Valid() && repo == Apply(old(repo), OpExpire(now))
      ensures [] !in repo ==> n == Answer(old(repo), OpExpire(now))
    {
      if now < headTime {
        assert ExpiredKeys(repo, now) <= {[]};
        assert repo == Without(repo, ExpiredKeys(repo, now));
        if [] !in repo { assert ExpiredKeys(repo, now) == {}; }
        return 0;
      }
      var stack;
      stack, headTime := StackExpired(repo, now);
      RemoveStack(stack);
      return |stack|;
    }

    /** Whole runs: after any operations on non-empty keys the object holds the table of the
        plain timed map, and has given the same answers. */
    method RunAll(ops: seq<Op>) returns (answers: seq<int>)
      requires Valid() && [] !in repo
      requires forall i | 0 <= i < |ops| && ops[i].OpAdd? :: ops[i].key != []
      modifies this
      ensures Valid() && repo == Run(old(repo), ops) && answers == Answers(old(repo), ops)
    {
      hide Apply, Run, Answers;
      answers := [];
      assert ops[0..] == ops && answers + Answers(repo, ops) == Answers(repo, ops);
      for i := 0 to |ops|
        invariant Valid() && [] !in repo
        invariant Run(old(repo), ops) == Run(repo, ops[i..])
        invariant Answers(old(repo), ops) == answers + Answers(repo, ops[i..])
      {
        assert ops[i..][1..] == ops[i + 1..];
        NoEmptyKey(repo, ops[i]);
        RunsUnfold(repo, ops[i..]);
        ghost var rest := Answers(Apply(repo, ops[i]), ops[i + 1..]);
        assert answers + ([Answer(repo, ops[i])] + rest) == answers + [Answer(repo, ops[i])] + rest;
        var r := 0;
        match ops[i] {
          case OpAdd(k, v, g, t, now) => Add(k, v, g, t, now);
          case OpRemove(k) => r := Remove(k);
          case OpRemoveGroup(g) => r := RemoveGroup(g);
          case OpRemoveSpecial(s) => r := RemoveSpecialKey(s);
          case OpExpire(now) => r := Expire(now);
        }
        answers := answers + [r];
      }
      RunsUnfold(repo, []);
      assert ops[|ops|..] == [] && answers + [] == answers;
    }
  }

  /** The loop of removeSpecialKey(): walk the map and stack the keys that match. */
  method StackSpecial(t: Table, special: Bytes) returns (stack: seq<Bytes>, found: int)
    ensures SetOf(stack) == SpecialKeys(t, special)
    ensures found == if SpecialKeys(t, special) == {} then -1 else 0
  {
    hide IsLeast, SetOf;
    SetOfNothing();
    ghost var victims := SpecialKeys(t, special);
    stack := [];
    found := -1;
    var todo := t.Keys;
    while todo != {}
      invariant todo <= t.Keys && SetOf(stack) == victims - todo
      invariant found == if SetOf(stack) == {} then -1 else 0
      decreases |todo|
    {
      var k := Least(todo);
      TakeOut(victims, todo, k);
      todo := todo - {k};
      assert k in victims <==> IsSpecial(k, t[k], special);
      if IsSpecial(k, t[k], special) {
        SetOfPush(stack, k);
        stack := stack + [k];
        found := 0;
      }
    }
  }

  /** The loop of removeGroup(). */
  method StackGroup(t: Table, group: Bytes) returns (stack: seq<Bytes>, found: int)
    ensures SetOf(stack) == GroupKeys(t, group)
    ensures found == if GroupKeys(t, group) == {} then -1 else 0
  {
    hide IsLeast, SetOf;
    SetOfNothing();
    ghost var victims := GroupKeys(t, group);
    stack := [];
    found := -1;
    var todo := t.Keys;
    while todo != {}
      invariant todo <= t.Keys && SetOf(stack) == victims - todo
      invariant found == if SetOf(stack) == {} then -1 else 0
      decreases |todo|
    {
      var k := Least(todo);
      TakeOut(victims, todo, k);
      todo := todo - {k};
      assert k in victims <==> t[k].group == group;
      if t[k].group == group {
        SetOfPush(stack, k);
        stack := stack + [k];
        found := 0;
      }
    }
  }

  /** The loop of expire(): stack the expired keys, take the new bound over the others. */
  method StackExpired(t: Table, now: UInt) returns (stack: seq<Bytes>, head: UInt)
    ensures SetOf(stack) == ExpiredKeys(t, now)
    ensures |stack| == |ExpiredKeys(t, now)|
    ensures forall k | k in t && t[k].timeout > now :: head <= t[k].timeout
  {
    hide IsLeast, SetOf;
    SetOfNothing();
    ghost var victims := ExpiredKeys(t, now);
    stack := [];
    head := UINT_MAX;
    var todo := t.Keys;
    while todo != {}
      invariant todo <= t.Keys && SetOf(stack) == victims - todo
      invariant |stack| == |SetOf(stack)|
      invariant forall k | k in t && k !in todo && t[k].timeout > now :: head <= t[k].timeout
      decreases |todo|
    {
      var k := Least(todo);
      TakeOut(victims, todo, k);
      todo := todo - {k};
      assert k in victims <==> t[k].timeout <= now;
      if t[k].timeout <= now {
        SetOfPush(stack, k);
        stack := stack + [k];
      } else {
        head := Min(head, t[k].timeout);
      }
    }
  }

  lemma RunsUnfold(t: Table, ops: seq<Op>)
    ensures Run(t, ops) == if ops == [] then t else Run(Apply(t, ops[0]), ops[1..])
    ensures Answers(t, ops) == if ops == [] then [] else [Answer(t, ops[0])] + Answers(Apply(t, ops[0]), ops[1..])
  {
  }

  lemma NoEmptyKey(t: Table, op: Op)
    requires [] !in t && (op.OpAdd? ==> op.key != [])
    ensures [] !in Apply(t, op)
  {
  }

  lemma SetOfNothing()
    ensures SetOf([]) == {}
  {
  }

  lemma SetOfPush(ks: seq<Bytes>, k: Bytes)
    ensures SetOf(ks + [k]) == SetOf(ks) + {k}
  {
  }

  lemma TakeOut(victims: set<Bytes>, todo: set<Bytes>, k: Bytes)
    requires k in todo
    ensures victims - (todo - {k}) == if k in victims then (victims - todo) + {k} else victims - todo
  {
  }
}
