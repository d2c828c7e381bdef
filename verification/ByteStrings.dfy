/** Byte strings as kdesu handles them: QByteArray values, the C character classes and
    decimal numbers.  A QByteArray that may be null is an Option<Bytes>. */
module ByteStrings {

  type Byte = b: int | 0 <= b < 256
  type Bytes = seq<Byte>

  datatype Option<+T> = None | Some(value: T)

  const NUL: Byte := 0
  const BELL: Byte := 7
  const NL: Byte := 10
  const SPACE: Byte := 32
  const QUOTE: Byte := 34
  const STAR: Byte := 42
  const MINUS: Byte := 45
  const SLASH: Byte := 47
  const ZERO: Byte := 48
  const COLON: Byte := 58
  const BACKSLASH: Byte := 92
  const CARET: Byte := 94
  const DEL: Byte := 127

  const INT_MAX := 0x7FFF_FFFF

  const ROOT: Bytes := [114, 111, 111, 116]

  /** DESKTOP_STARTUP_ID= */
  const STARTUP_ID: Bytes :=
    [68, 69, 83, 75, 84, 79, 80, 95, 83, 84, 65, 82, 84, 85, 80, 95, 73, 68, 61]

  // iscntrl, isspace and isdigit of the C locale; bytes from 128 on are in none of them.
  predicate IsCntrl(c: Byte) { c < 32 || c == DEL }

  predicate IsSpace(c: Byte) { 9 <= c <= 13 || c == SPACE }

  predicate IsDigit(c: Byte) { ZERO <= c <= 57 }

  lemma CharacterClasses(c: Byte)
    ensures IsSpace(c) <==> c in {9, 10, 11, 12, 13, 32}
    ensures IsCntrl(c) <==> c in {127} || c <= 31
    ensures IsDigit(c) <==> c in {48, 49, 50, 51, 52, 53, 54, 55, 56, 57}
  {
  }

  predicate AllDigits(s: Bytes)
  {
    forall i | 0 <= i < |s| :: IsDigit(s[i])
  }

  /** Reading a QByteArray at its length gives the terminating zero. */
  function At(s: Bytes, i: nat): Byte
    requires i <= |s|
  {
    if i < |s| then s[i] else NUL
  }

  /** c - '@' and c + '@' stored in a char wrap at eight bits. */
  function SubAt(c: Byte): Byte { (c + 192) % 256 }

  function AddAt(c: Byte): Byte { (c + 64) % 256 }

  function IndexOf(s: Bytes, c: Byte): (r: int)
    ensures -1 <= r < |s|
    ensures r == -1 <==> c !in s
    ensures r >= 0 ==> s[r] == c && c !in s[..r]
  {
    if s == [] then -1
    else if s[0] == c then 0
    else
      var r := IndexOf(s[1..], c);
      NotAtStart(s, c, r);
      if r < 0 then -1 else r + 1
  }

  lemma NotAtStart(s: Bytes, c: Byte, r: int)
    requires s != [] && s[0] != c && -1 <= r < |s| - 1
    requires r == -1 <==> c !in s[1..]
    requires r >= 0 ==> c !in s[1..][..r]
    ensures r == -1 <==> c !in s
    ensures r >= 0 ==> c !in s[..r + 1]
  {
    assert s == [s[0]] + s[1..];
    assert r >= 0 ==> s[..r + 1] == [s[0]] + s[1..][..r];
  }

  function LastIndexOf(s: Bytes, c: Byte): (r: int)
    ensures -1 <= r < |s|
    ensures r == -1 <==> c !in s
    ensures r >= 0 ==> s[r] == c && c !in s[r + 1..]
  {
    if s == [] then -1
    else
      var n := |s| - 1;
      assert s == s[..n] + [s[n]];
      if s[n] == c then n
      else
        var r := LastIndexOf(s[..n], c);
        assert r >= 0 ==> s[r + 1..] == s[..n][r + 1..] + [s[n]];
        r
  }

  predicate OccursAt(s: Bytes, t: Bytes, i: nat)
  {
    i + |t| <= |s| && s[i..i + |t|] == t
  }

  /** QByteArray::contains and indexOf(t) >= 0. */
  predicate Contains(s: Bytes, t: Bytes)
  {
    exists i | 0 <= i <= |s| :: OccursAt(s, t, i)
  }

  /** indexOf(t) == 0, which the empty string always satisfies. */
  predicate StartsWith(s: Bytes, t: Bytes)
  {
    OccursAt(s, t, 0)
  }

  /** QByteArray::mid for a non-negative position: a negative length means "to the end". */
  function Mid(s: Bytes, pos: nat, len: int): Bytes
  {
    if pos > |s| then []
    else if len < 0 || len > |s| - pos then s[pos..]
    else s[pos..pos + len]
  }

  /** The C string that starts a buffer: everything before the first NUL. */
  function CString(s: Bytes): Bytes
  {
    var n := IndexOf(s, NUL);
    if n < 0 then s else s[..n]
  }

  function Concat(parts: seq<Bytes>): Bytes
  {
    if parts == [] then [] else parts[0] + Concat(parts[1..])
  }

  lemma Associate(a: Bytes, b: Bytes, c: Bytes)
    ensures a + (b + c) == a + b + c
  {
  }

  lemma LastApart(s: seq<Bytes>)
    requires s != []
    ensures s == s[..|s| - 1] + [s[|s| - 1]]
  {
  }

  lemma {:induction false} ConcatAppend(a: seq<Bytes>, b: seq<Bytes>)
    ensures Concat(a + b) == Concat(a) + Concat(b)
  {
    if a == [] {
      assert a + b == b;
    } else {
      assert (a + b)[1..] == a[1..] + b;
      ConcatAppend(a[1..], b);
    }
  }

  lemma ConcatNothing()
    ensures Concat([]) == []
  {
  }

  lemma ConcatFirst(parts: seq<Bytes>)
    requires parts != []
    ensures Concat(parts) == parts[0] + Concat(parts[1..])
  {
  }

  lemma ConcatOne(s: Bytes)
    ensures Concat([s]) == s
  {
    assert s + [] == s;
  }

  // ---------------------------------------------------------------- decimal numbers

  /** The decimal digits of a number, as QByteArray::setNum writes them. */
  function Digits(n: nat): (s: Bytes)
    ensures s != []
    ensures AllDigits(s)
  {
    if n < 10 then [ZERO + n] else Digits(n / 10) + [ZERO + n % 10]
  }

  function SetNum(n: int): (s: Bytes)
  {
    if n < 0 then [MINUS] + Digits(-n) else Digits(n)
  }

  function DigitsValue(s: Bytes): nat
    requires AllDigits(s)
  {
    if s == [] then 0
    else
      DigitsValue(s[..|s| - 1]) * 10 + (s[|s| - 1] - ZERO)
  }

  /** QByteArray::toInt on a digit string: 0 when the value does not fit 32 bits. */
  function ToInt(s: Bytes): (n: nat)
    requires AllDigits(s)
    ensures n <= INT_MAX
  {
    if DigitsValue(s) <= INT_MAX then DigitsValue(s) else 0
  }

  lemma {:induction false} DigitsRoundTrip(n: nat)
    ensures DigitsValue(Digits(n)) == n
  {
    if n >= 10 {
      DigitsRoundTrip(n / 10);
      var s := Digits(n);
      assert s[..|s| - 1] == Digits(n / 10);
    }
  }

  // ---------------------------------------------------------------- facts about searching

  lemma {:induction false} IndexOfAppend(s: Bytes, t: Bytes, c: Byte)
    requires c !in s
    ensures IndexOf(s + [c] + t, c) == |s|
  {
    var w := s + [c] + t;
    if s != [] {
      assert w[0] == s[0] && w[1..] == s[1..] + [c] + t;
      IndexOfAppend(s[1..], t, c);
    }
  }

  lemma CStringCut(head: Bytes, tail: Bytes)
    requires NUL !in head
    ensures CString(head + [NUL] + tail) == head
  {
    IndexOfAppend(head, tail, NUL);
    assert (head + [NUL] + tail)[..|head|] == head;
  }

  lemma ContainsIntro(s: Bytes, t: Bytes, i: nat)
    requires OccursAt(s, t, i)
    ensures Contains(s, t)
  {
  }

  lemma ContainsStart(s: Bytes, t: Bytes)
    ensures Contains(s + t, s)
  {
    assert (s + t)[0..|s|] == s;
    ContainsIntro(s + t, s, 0);
  }

  lemma ContainsAppend(s: Bytes, t: Bytes, u: Bytes, v: Bytes)
    requires Contains(s, t)
    ensures Contains(u + s + v, t)
  {
    var i :| 0 <= i <= |s| && OccursAt(s, t, i);
    assert (u + s + v)[|u| + i..|u| + i + |t|] == s[i..i + |t|];
    ContainsIntro(u + s + v, t, |u| + i);
  }

  /** The search by bytes: s is a part of k. */
  lemma ContainsMeans(k: Bytes, s: Bytes)
    ensures Contains(k, s) <==> exists p: Bytes, q: Bytes :: p + s + q == k
  {
    if Contains(k, s) {
      var i :| 0 <= i <= |k| && OccursAt(k, s, i);
      assert k[..i] + s + k[i + |s|..] == k;
    }
    if p: Bytes, q: Bytes :| p + s + q == k {
      assert k[|p|..|p| + |s|] == s;
      ContainsIntro(k, s, |p|);
    }
  }
}
