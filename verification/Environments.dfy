/** How EXEC compares environments (src/kdesud/handler.cpp:257-278): as one string, in which a '*' of
    an entry cannot be told from the beginning of another entry. */
module Environments {
  import opened ByteStrings
  import opened Session

  predicate IsStartupId(e: Bytes) { StartsWith(e, STARTUP_ID) }

  /** The environment that counts: the entries but for the startup ids. */
  function Filtered(env: seq<Bytes>): seq<Bytes>
  {
    if env == [] then [] else (if IsStartupId(env[0]) then [] else [env[0]]) + Filtered(env[1..])
  }

  function Joined(f: seq<Bytes>): Bytes
  {
    if f == [] then [] else [STAR] + f[0] + Joined(f[1..])
  }

  lemma {:induction false} CheckJoinsFiltered(env: seq<Bytes>)
    ensures EnvCheck(env) == Joined(Filtered(env))
    ensures forall e | e in Filtered(env) :: e in env && !IsStartupId(e)
  {
    if env != [] {
      CheckJoinsFiltered(env[1..]);
      var rest := Filtered(env[1..]);
      if IsStartupId(env[0]) {
        assert [] + rest == rest && [] + EnvCheck(env[1..]) == EnvCheck(env[1..]);
      } else {
        assert Filtered(env)[0] == env[0] && Filtered(env)[1..] == rest;
      }
    }
  }

  lemma {:induction false} FilteredAsIs(f: seq<Bytes>)
    requires forall e | e in f :: !IsStartupId(e)
    ensures Filtered(f) == f
  {
    hide IsStartupId;
    if f != [] {
      FilteredAsIs(f[1..]);
      assert f == [f[0]] + f[1..];
    }
  }

  // ---------------------------------------------------------------- entries without a '*'

  predicate StarFree(f: seq<Bytes>)
  {
    forall i | 0 <= i < |f| :: STAR !in f[i]
  }

  lemma {:induction false} JoinedIsInjective(f: seq<Bytes>, g: seq<Bytes>)
    requires StarFree(f) && StarFree(g) && Joined(f) == Joined(g)
    ensures f == g
    decreases f
  {
    if f != [] && g != [] {
      var x, y := f[0] + Joined(f[1..]), g[0] + Joined(g[1..]);
      assert Joined(f) == [STAR] + x && Joined(g) == [STAR] + y;
      assert x == Joined(f)[1..] == Joined(g)[1..] == y;
      FirstEntry(f[0], Joined(f[1..]), g[0], Joined(g[1..]));
      JoinedIsInjective(f[1..], g[1..]);
      assert f == [f[0]] + f[1..] && g == [g[0]] + g[1..];
    }
  }

  predicate EmptyOrStar(t: Bytes) { t == [] || t[0] == STAR }

  lemma FirstEntry(a: Bytes, s: Bytes, b: Bytes, t: Bytes)
    requires STAR !in a && STAR !in b && EmptyOrStar(s) && EmptyOrStar(t) && a + s == b + t
    ensures a == b && s == t
  {
    NoShorter(a, s, b, t);
    NoShorter(b, t, a, s);
    assert (a + s)[..|a|] == a && (a + s)[|a|..] == s;
    assert (b + t)[..|b|] == b && (b + t)[|b|..] == t;
  }

  lemma NoShorter(a: Bytes, s: Bytes, b: Bytes, t: Bytes)
    requires STAR !in b && EmptyOrStar(s) && a + s == b + t
    ensures |b| <= |a|
  {
    assert forall i | 0 <= i < |b| :: (b + t)[i] == b[i] && b[i] in b;
    assert s != [] ==> (a + s)[|a|] == s[0];
  }

  // ---------------------------------------------------------------- told apart from all others

  /** In an entry, what follows a '*' is a startup id each time: nothing can be split off. */
  predicate Unsplittable(e: Bytes)
  {
    forall p | 0 <= p < |e| && e[p] == STAR :: IsStartupId(e[p + 1..])
  }

  /** The environment has at most one entry that counts, and that one cannot be split. */
  predicate ToldApart(env: seq<Bytes>)
  {
    var f := Filtered(env);
    f == [] || (|f| == 1 && Unsplittable(f[0]))
  }

  /** A startup id at the start of joined entries is one of the first entry. */
  lemma IdOfFirst(a: Bytes, t: Bytes)
    requires EmptyOrStar(t)
    ensures IsStartupId(a + t) == IsStartupId(a)
  {
    var x := a + t;
    assert forall i | 0 <= i < |STARTUP_ID| :: STARTUP_ID[i] != STAR;
    assert t != [] ==> x[|a|] == t[0];
    if IsStartupId(x) {
      assert forall i | 0 <= i < |STARTUP_ID| :: x[i] == x[0..|STARTUP_ID|][i] == STARTUP_ID[i];
      assert a[0..|STARTUP_ID|] == x[0..|STARTUP_ID|];
    }
    if IsStartupId(a) { assert x[0..|STARTUP_ID|] == a[0..|STARTUP_ID|]; }
  }

  lemma JoinedBeginsWithStar(f: seq<Bytes>)
    ensures EmptyOrStar(Joined(f)) && (Joined(f) == [] <==> f == [])
  {
  }

  /** Environments and their comparison, exactly: no environment with other entries compares equal
      if and only if this one has no entry that counts, or one that cannot be split at a '*'. */
  lemma ToldApartExactly(env: seq<Bytes>)
    ensures (forall env': seq<Bytes> | EnvCheck(env') == EnvCheck(env) :: Filtered(env') == Filtered(env))
      <==> ToldApart(env)
  {
    hide IsStartupId, EnvCheck, Joined, Filtered, Unsplittable;
    CheckJoinsFiltered(env);
    var f := Filtered(env);
    if ToldApart(env) {
      forall env': seq<Bytes> | EnvCheck(env') == EnvCheck(env) ensures Filtered(env') == f
      {
        CheckJoinsFiltered(env');
        OnlyOneReading(f, Filtered(env'));
      }
    } else {
      var other := OtherReading(f);
      CheckJoinsFiltered(other);
      FilteredAsIs(other);
    }
  }

  lemma OnlyOneReading(f: seq<Bytes>, g: seq<Bytes>)
    requires Joined(f) == Joined(g) && (f == [] || (|f| == 1 && Unsplittable(f[0])))
    requires forall e | e in g :: !IsStartupId(e)
    ensures g == f
  {
    hide IsStartupId, Joined, Unsplittable;
    JoinedBeginsWithStar(f);
    JoinedBeginsWithStar(g);
    if f != [] {
      assert f == [f[0]];
      JoinOne(f[0]);
      JoinFirst(g);
      SameTail([STAR], f[0], g[0] + Joined(g[1..]));
      if g[1..] == [] {
        JoinedBeginsWithStar(g[1..]);
        assert g[0] + [] == g[0] && g == [g[0]];
      } else {
        SplitOff(f[0], g);
      }
    }
  }

  lemma SameTail(h: Bytes, a: Bytes, b: Bytes)
    requires h + a == h + b
    ensures a == b
  {
    assert (h + a)[|h|..] == a && (h + b)[|h|..] == b;
  }

  lemma JoinFirst(g: seq<Bytes>)
    requires g != []
    ensures Joined(g) == [STAR] + (g[0] + Joined(g[1..]))
  {
    Associate([STAR], g[0], Joined(g[1..]));
  }

  /** What is made of two entries or more can be split. */
  lemma SplitOff(e: Bytes, g: seq<Bytes>)
    requires |g| > 1 && e == g[0] + Joined(g[1..]) && !IsStartupId(g[1])
    ensures !Unsplittable(e)
  {
    hide IsStartupId, Joined;
    var p, rest := |g[0]|, g[1] + Joined(g[1..][1..]);
    JoinFirst(g[1..]);
    assert e == g[0] + [STAR] + rest by { Associate(g[0], [STAR], rest); }
    assert e[p] == STAR && e[p + 1..] == rest;
    JoinedBeginsWithStar(g[1..][1..]);
    IdOfFirst(g[1], Joined(g[1..][1..]));
  }

  /** Other entries that join to the same string. */
  lemma OtherReading(f: seq<Bytes>) returns (g: seq<Bytes>)
    requires forall e | e in f :: !IsStartupId(e)
    requires f != [] && (|f| == 1 ==> !Unsplittable(f[0]))
    ensures Joined(g) == Joined(f) && g != f
    ensures forall e | e in g :: !IsStartupId(e)
  {
    hide IsStartupId;
    if |f| == 1 {
      var e := f[0];
      var p :| 0 <= p < |e| && e[p] == STAR && !IsStartupId(e[p + 1..]);
      g := [e[..p], e[p + 1..]];
      assert e == e[..p] + e[p..];
      IdOfFirst(e[..p], e[p..]);
      JoinTwo(e[..p], e[p + 1..]);
      JoinOne(e);
      assert f == [e] && [STAR] + e == [STAR] + e[..p] + [STAR] + e[p + 1..];
    } else {
      var x := f[0] + Joined(f[1..]);
      g := [x];
      JoinedBeginsWithStar(f[1..]);
      IdOfFirst(f[0], Joined(f[1..]));
      JoinOne(x);
      Associate([STAR], f[0], Joined(f[1..]));
    }
  }

  lemma JoinOne(e: Bytes)
    ensures Joined([e]) == [STAR] + e
  {
    assert [STAR] + e + [] == [STAR] + e;
  }

  lemma JoinTwo(a: Bytes, b: Bytes)
    ensures Joined([a, b]) == [STAR] + a + [STAR] + b
  {
    var two: seq<Bytes> := [a, b];
    JoinOne(b);
    assert two[1..] == [b];
    Associate([STAR] + a, [STAR], b);
  }

  // ---------------------------------------------------------------- for the cache

  /** The entries that count are the same, if none of them contains a '*' or if one of the two
      environments is told apart from all others. */
  predicate SameEnvironment(env: seq<Bytes>, env': seq<Bytes>)
  {
    (StarFree(Filtered(env)) && StarFree(Filtered(env'))) || ToldApart(env) || ToldApart(env')
    ==> Filtered(env) == Filtered(env')
  }

  lemma SameCheckSameEnvironment(env: seq<Bytes>, env': seq<Bytes>)
    requires EnvCheck(env) == EnvCheck(env')
    ensures SameEnvironment(env, env')
  {
    hide EnvCheck, Filtered, Joined, StarFree, ToldApart;
    CheckJoinsFiltered(env);
    CheckJoinsFiltered(env');
    ToldApartExactly(env);
    ToldApartExactly(env');
    if StarFree(Filtered(env)) && StarFree(Filtered(env')) { JoinedIsInjective(Filtered(env), Filtered(env')); }
  }

  /** Environments without '*' are compared exactly. */
  lemma StarFreeExactly(env: seq<Bytes>, env': seq<Bytes>)
    requires StarFree(Filtered(env)) && StarFree(Filtered(env'))
    ensures EnvCheck(env) == EnvCheck(env') <==> Filtered(env) == Filtered(env')
  {
    hide EnvCheck, Filtered, Joined, StarFree;
    CheckJoinsFiltered(env);
    CheckJoinsFiltered(env');
    if EnvCheck(env) == EnvCheck(env') { SameCheckSameEnvironment(env, env'); }
  }
}
