/** Strings on the wire as the lexer could take them (src/kdesud/lexer.cpp:72-100), and how long such a
    line has to be. */
module SafeStrings {
  import opened ByteStrings
  import opened Lexer
  import opened Client
  import opened Grammar
  import opened Framing

  // ---------------------------------------------------------------- any string on the wire

  /** The lexer can be given any byte, 127 too, as a control character with the top bit set; the
      client's own quoting does not do this. */
  function SafeByte(c: Byte): (s: Bytes)
    ensures s != []
  {
    if c == DEL then [BACKSLASH, CARET, AddAt(DEL)] else EscapeByte(c)
  }

  function SafeBody(s: Bytes): Bytes
  {
    if s == [] then [] else SafeByte(s[0]) + SafeBody(s[1..])
  }

  function SafeQuoted(s: Bytes): Bytes { [QUOTE] + SafeBody(s) + [QUOTE] }

  lemma LexSafeByte(c: Byte, tail: Bytes)
    ensures LexQuoted(SafeByte(c) + tail) == Prepend([c], |SafeByte(c)|, LexQuoted(tail))
  {
    hide LexQuoted;
    if c == DEL {
      var t := SafeByte(c) + tail;
      assert t[0] == BACKSLASH && t[1] == CARET && t[2] == AddAt(DEL) && t[3..] == tail;
      LexQuotedUnfolds(t);
    } else {
      LexEscapedByte(c, tail);
    }
  }

  lemma {:induction false} LexSafeBody(s: Bytes, rest: Bytes)
    ensures LexQuoted(SafeBody(s) + ([QUOTE] + rest)) == Lexeme(TokStr, s, |SafeBody(s)| + 1)
  {
    hide LexQuoted;
    if s == [] {
      assert SafeBody(s) + ([QUOTE] + rest) == [QUOTE] + rest;
      LexQuotedUnfolds([QUOTE] + rest);
    } else {
      var tail := SafeBody(s[1..]) + ([QUOTE] + rest);
      assert SafeBody(s) + ([QUOTE] + rest) == SafeByte(s[0]) + tail;
      assert s == [s[0]] + s[1..];
      LexSafeByte(s[0], tail);
      LexSafeBody(s[1..], rest);
    }
  }

  function StrLine(w: Bytes, a: Bytes): Bytes { w + ([SPACE] + SafeQuoted(a) + [NL]) }

  /** Every string can be the argument of HOST and DELS. */
  lemma StrLineIsRead(w: Bytes, a: Bytes)
    requires w == HOST || w == DELS
    ensures Parse(StrLine(w, a)) == Command(if w == HOST then SetHost(a) else DelVars(a))
  {
    hide Parse, Lex, Keyword, WordShape;
    CommandWords();
    var arg := [SPACE] + SafeQuoted(a);
    DispatchesTo(w, arg, [NL]);
    TakesSafe(a, [NL]);
    EndsLine();
  }

  lemma TakesSafe(a: Bytes, rest: Bytes)
    ensures TakeStr([SPACE] + SafeQuoted(a) + rest) == Arg(a, rest)
  {
    hide LexQuoted, SafeBody;
    var q := SafeQuoted(a) + rest;
    assert [SPACE] + SafeQuoted(a) + rest == [SPACE] + q;
    assert q[1..] == SafeBody(a) + ([QUOTE] + rest);
    LexBehindBlank(q);
    LexSafeBody(a, rest);
    assert ([SPACE] + q)[1 + |SafeQuoted(a)|..] == rest;
  }

  // ---------------------------------------------------------------- no line is shorter

  lemma SafeBodyStep(c: Byte, s: Bytes)
    ensures SafeBody([c] + s) == SafeByte(c) + SafeBody(s)
  {
    assert ([c] + s)[1..] == s;
  }

  /** A quoted string that the lexer takes is no shorter than this quoting of its value, and it ends
      with a quote. */
  lemma {:induction false} QuotedIsNotShorter(t: Bytes)
    requires LexQuoted(t).tok == TokStr
    ensures |SafeBody(LexQuoted(t).val)| + 1 <= LexQuoted(t).used <= |t|
    ensures t[LexQuoted(t).used - 1] == QUOTE
    decreases |t|
  {
    hide LexQuoted, SafeBody;
    LexQuotedUnfolds(t);
    if At(t, 0) == QUOTE {
      EmptyBody();
    } else if t[0] != BACKSLASH {
      RestIsNotShorter(t, 1, t[0]);
    } else if t[1] != CARET {
      RestIsNotShorter(t, 2, t[1]);
    } else {
      RestIsNotShorter(t, 3, SubAt(t[2]));
    }
  }

  lemma EmptyBody()
    ensures SafeBody([]) == []
  {
  }

  lemma RestIsNotShorter(t: Bytes, k: nat, c: Byte)
    requires LexQuoted(t).tok == TokStr && 0 < k <= |t| && LexQuoted(t) == Prepend([c], k, LexQuoted(t[k..]))
    requires k < 3 ==> c >= 32 && c != DEL && (k == 1 ==> c != BACKSLASH && c != QUOTE)
    requires k <= 3 && (k == 3 || |SafeByte(c)| <= k)
    ensures |SafeBody(LexQuoted(t).val)| + 1 <= LexQuoted(t).used <= |t|
    ensures t[LexQuoted(t).used - 1] == QUOTE
    decreases |t|, 0
  {
    QuotedIsNotShorter(t[k..]);
    SafeBodyStep(c, LexQuoted(t[k..]).val);
    assert |SafeByte(c)| <= 3;
  }

  /** A string argument that begins with a digit has to be quoted. */
  lemma DigitsNeedQuotes(t: Bytes)
    requires !IsWordByte(At(t, 0)) && Lex(t).tok == TokStr && Lex(t).val != [] && IsDigit(Lex(t).val[0])
    ensures |SafeBody(Lex(t).val)| + 3 <= Lex(t).used <= |t|
    ensures t[Lex(t).used - 1] == QUOTE
  {
    hide LexQuoted, SafeBody;
    var n := 1 + SpaceRun(t[1..]);
    var item := t[n..];
    if At(item, 0) == QUOTE {
      QuotedIsNotShorter(item[1..]);
      var v := LexQuoted(item[1..]).val;
      assert [] + ([] + v) == v;
    }
  }

  /** A line that is read as DELS with an argument that begins with a digit is no shorter than
      StrLine. */
  lemma DelsLineIsNotShorter(line: Bytes, special: Bytes)
    requires Framed(line) && Parse(line) == Command(DelVars(special)) && special != [] && IsDigit(special[0])
    ensures |StrLine(DELS, special)| <= |line|
  {
    hide Lex, SafeBody;
    var l := Lex(line);
    var rest := line[l.used..];
    OnlyDels(line, special);
    KeywordEnds(line);
    DigitsNeedQuotes(rest);
    assert rest[|rest| - 1] == NL;
  }

  lemma OnlyDels(line: Bytes, special: Bytes)
    requires Parse(line) == Command(DelVars(special))
    ensures
      var l := Lex(line);
      l.tok == TokDelSpecialKey && TakeStr(line[l.used..]).Arg? && TakeStr(line[l.used..]).val == special
  {
    hide Lex, TakeEnv, TakeStr, TakeNum;
  }

  lemma KeywordEnds(line: Bytes)
    requires Lex(line).tok == TokDelSpecialKey
    ensures 4 <= Lex(line).used <= |line| && !IsWordByte(At(line[Lex(line).used..], 0))
  {
    hide LexQuoted;
    var n := if IsSpace(At(line, 0)) then 1 + SpaceRun(line[1..]) else 0;
    SkippingBlanks(line);
    var item := line[n..];
    assert LexItem(item) == LexWord(item) && |item[..WordRun(item)]| == 4;
    assert line[n + 4..] == item[4..];
  }
}
