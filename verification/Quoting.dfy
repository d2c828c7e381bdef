/** The quoting between libkdesu and kdesu_stub: StubProcess::writeString on one side, dequote()
    and xstrdup() of kdesu_stub.c on the other. */
module Quoting {
  import opened ByteStrings

  function EncodeByte(c: Byte): (r: Bytes)
    ensures r != [] && NUL !in r && NL !in r
  {
    if c < 32 then [BACKSLASH, AddAt(c)]
    else if c == BACKSLASH then [BACKSLASH, SLASH]
    else [c]
  }

  function Encode(s: Bytes): Bytes
  {
    if s == [] then [] else EncodeByte(s[0]) + Encode(s[1..])
  }

  /** dequote() as a function of the C string. */
  function Decode(s: Bytes): (r: Bytes)
    ensures |r| <= |s|
  {
    if s == [] then []
    else if s[0] == BACKSLASH && |s| > 1 then
      [if s[1] == SLASH then BACKSLASH else SubAt(s[1])] + Decode(s[2..])
    else [s[0]] + Decode(s[1..])
  }

  /** xstrdup(): one newline is dropped from the end. */
  function StripNewline(s: Bytes): Bytes
  {
    if s != [] && s[|s| - 1] == NL then s[..|s| - 1] else s
  }

  /** StubProcess::writeString, up to the newline that writeLine adds. */
  method EncodeLoop(str: Bytes) returns (out: Bytes)
    ensures out == Encode(str)
  {
    out := [];
    for i := 0 to |str|
      invariant out == Encode(str[..i])
    {
      var c := str[i];
      EncodePush(str[..i], c);
      assert str[..i + 1] == str[..i] + [c];
      if c < 32 {
        out := out + [BACKSLASH];
        out := out + [AddAt(c)];
      } else if c == BACKSLASH {
        out := out + [BACKSLASH];
        out := out + [SLASH];
      } else {
        out := out + [c];
      }
    }
    assert str[..|str|] == str;
  }

  lemma {:induction false} EncodePush(s: Bytes, c: Byte)
    ensures Encode(s + [c]) == Encode(s) + EncodeByte(c)
  {
    if s == [] {
      assert s + [c] == [c] && [c][1..] == [];
    } else {
      assert (s + [c])[1..] == s[1..] + [c];
      EncodePush(s[1..], c);
    }
  }

  /** What is sent is one line of a C string: no NUL and no newline in it. */
  lemma {:induction false} EncodedIsOneLine(s: Bytes)
    ensures NUL !in Encode(s) && NL !in Encode(s)
  {
    if s != [] { EncodedIsOneLine(s[1..]); }
  }

  lemma DecodeByte(c: Byte, rest: Bytes)
    ensures Decode(EncodeByte(c) + rest) == [c] + Decode(rest)
  {
  }

  /** The decoder undoes the encoder in front of anything. */
  lemma {:induction false} DecodeInvertsEncode(s: Bytes, rest: Bytes)
    ensures Decode(Encode(s) + rest) == s + Decode(rest)
  {
    hide Decode, EncodeByte;
    if s == [] {
      assert Encode(s) + rest == rest;
    } else {
      assert Encode(s) + rest == EncodeByte(s[0]) + (Encode(s[1..]) + rest);
      DecodeByte(s[0], Encode(s[1..]) + rest);
      DecodeInvertsEncode(s[1..], rest);
    }
  }

  /** The value that the stub gets from a line for a parameter, and the command it makes of it:
      first the newline is stripped, then, when the command is started, it is dequoted. */
  function ParamValue(line: Bytes): Bytes { StripNewline(CString(line)) }

  function CommandOf(value: Bytes): Bytes { CString(Decode(CString(value))) }

  /** The environment entry that the stub gets from a line: dequoted first, then stripped. */
  function EnvEntry(line: Bytes): Bytes { StripNewline(CString(Decode(CString(line)))) }

  lemma NoNul(s: Bytes)
    ensures CString(s) == s <==> NUL !in s
  {
  }

  /** No control character is ever sent, and each is sent as the letter that is 64 above it. */
  lemma {:induction false} NoControlIsSent(s: Bytes)
    ensures forall c | c in Encode(s) :: c >= 32
    ensures s != [] && s[0] < 32 ==> Encode(s) == [92, s[0] + 64] + Encode(s[1..])
  {
    if s != [] { NoControlIsSent(s[1..]); }
  }

  /** Command: strip, then dequote, gives back what was written, exactly for NUL-free strings. */
  lemma CommandRoundTrip(s: Bytes)
    ensures ParamValue(Encode(s) + [NL]) == Encode(s)
    ensures CommandOf(ParamValue(Encode(s) + [NL])) == s <==> NUL !in s
  {
    hide IndexOf, Encode, Decode, CString;
    EncodedIsOneLine(s);
    NoNul(Encode(s) + [NL]);
    NoNul(Encode(s));
    NoNul(s);
    DecodeInvertsEncode(s, []);
    DecodeNothing();
    assert Encode(s) + [] == Encode(s) && s + [] == s;
    assert (Encode(s) + [NL])[..|Encode(s)|] == Encode(s);
  }

  lemma DecodeNothing()
    ensures Decode([]) == []
  {
  }

  /** Environment: dequote, then strip, gives back what was written, exactly for NUL-free
      strings, also when the string itself ends in a newline. */
  lemma EnvRoundTrip(s: Bytes)
    ensures EnvEntry(Encode(s) + [NL]) == s <==> NUL !in s
  {
    hide IndexOf, Encode;
    EncodedIsOneLine(s);
    NoNul(Encode(s) + [NL]);
    DecodeInvertsEncode(s, [NL]);
    assert Decode([NL]) == [NL] by { assert [NL][1..] == []; }
    var d := Decode(Encode(s) + [NL]);
    assert d == s + [NL];
    if NUL !in s {
      NoNul(d);
      assert d[..|d| - 1] == s;
    } else {
      assert NUL !in CString(d);
      assert NUL !in EnvEntry(Encode(s) + [NL]);
    }
  }

  /** dequote() in place.  It never writes ahead of the byte it is about to read (out <= in), it
      ends, and it leaves the decoded string, its terminator, and beyond that what was there. */
  method Dequote(buf: array<Byte>)
    requires NUL in buf[..]
    modifies buf
    ensures
      var d := Decode(CString(old(buf[..])));
      buf[..] == d + [NUL] + old(buf[..])[|d| + 1..]
  {
    hide IndexOf, Decode, CString, Dequoting;
    ghost var was := buf[..];
    ghost var done: Bytes := [];
    var in_, out := 0, 0;
    DequotingStarts(was);
    while buf[in_] != NUL
      invariant out == |done| && in_ < buf.Length
      invariant Dequoting(buf[..], was, done, in_)
      decreases buf.Length - in_
    {
      in_ := DequoteByte(buf, in_, out, was, done);
      done := done + [buf[out]];
      out := out + 1;
    }
    DequotingEnds(buf[..], was, done, in_);
    buf[out] := NUL;
  }

  /** In the middle of it: what is done, then what there was; and the text still to be decoded. */
  predicate Dequoting(now: Bytes, was: Bytes, done: Bytes, i: nat)
  {
    var s := CString(was);
    && |done| <= i <= |s| < |was|
    && now == done + was[|done|..]
    && done + Decode(s[i..]) == Decode(s)
  }

  lemma DequotingStarts(was: Bytes)
    requires NUL in was
    ensures was != [] && Dequoting(was, was, [], 0)
  {
    hide Decode, CString;
    CStringBounds(was);
    var s := CString(was);
    assert s[0..] == s && [] + Decode(s) == Decode(s) && [] + was[0..] == was;
  }

  lemma DequotingEnds(now: Bytes, was: Bytes, done: Bytes, i: nat)
    requires Dequoting(now, was, done, i) && i < |now| && now[i] == NUL && NUL in was
    ensures |done| < |now| && now[|done| := NUL] == Decode(CString(was)) + [NUL] + was[|done| + 1..]
    ensures |done| == |Decode(CString(was))|
  {
    hide Decode, CString;
    CStringBounds(was);
    var s := CString(was);
    assert now[i] == was[i];
    DecodeAt(s, i);
    assert done + [] == done;
  }

  /** The text that is still to be decoded is untouched. */
  lemma Untouched(now: Bytes, was: Bytes, done: Bytes, i: nat)
    requires Dequoting(now, was, done, i) && NUL in was && now[i] != NUL
    ensures i < |CString(was)| < |now| && forall k | i <= k <= |CString(was)| :: now[k] == was[k]
    ensures forall k | 0 <= k < |CString(was)| :: was[k] == CString(was)[k] != NUL
    ensures was[|CString(was)|] == NUL
  {
    hide Decode, CString;
    CStringBounds(was);
    assert now[i] == was[i];
  }

  /** One character is decoded. */
  lemma DecodesOne(now: Bytes, was: Bytes, done: Bytes, i: nat, j: nat, c: Byte)
    requires Dequoting(now, was, done, i) && i < j <= |CString(was)|
    requires Decode(CString(was)[i..]) == [c] + Decode(CString(was)[j..])
    ensures |done| < |now| && Dequoting(now[|done| := c], was, done + [c], j)
  {
    hide Decode, CString;
    var s := CString(was);
    Associate(done, [c], Decode(s[j..]));
    assert now[|done| := c] == done + [c] + was[|done| + 1..];
  }

  /** One character: the byte at in_, or the two bytes of an escape. */
  method DequoteByte(buf: array<Byte>, in_: nat, out: nat, ghost was: Bytes, ghost done: Bytes) returns (next: nat)
    requires NUL in was && Dequoting(buf[..], was, done, in_) && in_ < buf.Length && out == |done| && buf[in_] != NUL
    modifies buf
    ensures in_ < next < buf.Length && out < buf.Length
    ensures Dequoting(buf[..], was, done + [buf[out]], next)
  {
    hide Decode, CString, Dequoting;
    ghost var s, now := CString(was), buf[..];
    Untouched(now, was, done, in_);
    DecodeAt(s, in_);
    next := in_;
    var c := buf[next];
    if c == BACKSLASH && buf[next + 1] != NUL {
      next := next + 1;
      c := buf[next];
      c := if c == SLASH then BACKSLASH else SubAt(c);
    }
    next := next + 1;
    DecodesOne(now, was, done, in_, next, c);
    buf[out] := c;
    assert buf[..] == now[out := c];
  }

  lemma CStringBounds(s: Bytes)
    requires NUL in s
    ensures |CString(s)| < |s| && s[|CString(s)|] == NUL
    ensures forall k | 0 <= k < |CString(s)| :: s[k] == CString(s)[k] != NUL
  {
  }

  lemma DecodeAt(s: Bytes, i: nat)
    requires i <= |s|
    ensures Decode(s[i..]) ==
      if i == |s| then []
      else if s[i] == BACKSLASH && i + 1 < |s| then
        [if s[i + 1] == SLASH then BACKSLASH else SubAt(s[i + 1])] + Decode(s[i + 2..])
      else [s[i]] + Decode(s[i + 1..])
  {
  }
}
