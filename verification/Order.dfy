/** The order in which a QMap keyed by byte strings is walked. */
module Order {
  import opened ByteStrings

  /** Byte-wise lexicographic order, as QByteArray compares. */
  predicate Leq(a: Bytes, b: Bytes)
  {
    a == [] || (b != [] && (a[0] < b[0] || (a[0] == b[0] && Leq(a[1..], b[1..]))))
  }

  lemma {:induction false} LeqTotal(a: Bytes, b: Bytes)
    ensures Leq(a, b) || Leq(b, a)
  {
    if a != [] && b != [] { LeqTotal(a[1..], b[1..]); }
  }

  lemma {:induction false} LeqAntisymmetric(a: Bytes, b: Bytes)
    requires Leq(a, b) && Leq(b, a)
    ensures a == b
  {
    if a != [] && b != [] {
      LeqAntisymmetric(a[1..], b[1..]);
      assert a == [a[0]] + a[1..] && b == [b[0]] + b[1..];
    }
  }

  lemma {:induction false} LeqTransitive(a: Bytes, b: Bytes, c: Bytes)
    requires Leq(a, b) && Leq(b, c)
    ensures Leq(a, c)
  {
    if a != [] && b != [] && c != [] && a[0] == b[0] && b[0] == c[0] {
      LeqTransitive(a[1..], b[1..], c[1..]);
    }
  }

  predicate IsLeast(k: Bytes, keys: set<Bytes>)
  {
    k in keys && forall x | x in keys :: Leq(k, x)
  }

  lemma {:induction false} LeastExists(keys: set<Bytes>)
    requires keys != {}
    ensures exists k :: IsLeast(k, keys)
    decreases |keys|
  {
    var k :| k in keys;
    var rest := keys - {k};
    LeqTotal(k, k);
    if rest == {} {
      assert keys == {k};
      assert IsLeast(k, keys);
    } else {
      LeastExists(rest);
      var m :| IsLeast(m, rest);
      LeqTotal(k, m);
      var least := if Leq(k, m) then k else m;
      forall x | x in keys
        ensures Leq(least, x)
      {
        if x != k && Leq(k, m) { LeqTransitive(k, m, x); }
      }
      assert IsLeast(least, keys);
    }
  }

  lemma LeastIsUnique(keys: set<Bytes>)
    ensures forall a, b | IsLeast(a, keys) && IsLeast(b, keys) :: a == b
  {
    forall a, b | IsLeast(a, keys) && IsLeast(b, keys)
      ensures a == b
    {
      LeqAntisymmetric(a, b);
    }
  }

  function Least(keys: set<Bytes>): (k: Bytes)
    requires keys != {}
    ensures k in keys && IsLeast(k, keys)
  {
    LeastExists(keys);
    LeastIsUnique(keys);
    var k :| IsLeast(k, keys);
    k
  }

  /** All keys in the order of the map. */
  function InOrder(keys: set<Bytes>): (ks: seq<Bytes>)
    ensures forall k :: k in ks <==> k in keys
    decreases |keys|
  {
    if keys == {} then []
    else
      var k := Least(keys);
      [k] + InOrder(keys - {k})
  }

  /** Each key once, and none before a smaller one. */
  predicate Sorted(ks: seq<Bytes>)
  {
    forall i, j | 0 <= i < j < |ks| :: ks[i] != ks[j] && Leq(ks[i], ks[j])
  }

  lemma SmallestFirst(k: Bytes, rest: seq<Bytes>)
    requires Sorted(rest) && forall x | x in rest :: x != k && Leq(k, x)
    ensures Sorted([k] + rest)
  {
    hide Leq;
    var all := [k] + rest;
    forall i, j | 0 <= i < j < |all| ensures all[i] != all[j] && Leq(all[i], all[j])
    {
      assert all[j] == rest[j - 1] && all[j] in rest;
      if i > 0 { assert all[i] == rest[i - 1]; }
    }
  }

  lemma {:induction false} InOrderIsSorted(keys: set<Bytes>)
    ensures |InOrder(keys)| == |keys| && Sorted(InOrder(keys))
    decreases |keys|
  {
    hide Leq, Sorted;
    if keys == {} {
      NothingSorted();
    } else {
      var k := Least(keys);
      InOrderIsSorted(keys - {k});
      SmallestFirst(k, InOrder(keys - {k}));
    }
  }

  lemma NothingSorted()
    ensures Sorted([])
  {
  }
}
