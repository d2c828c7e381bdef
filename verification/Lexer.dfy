/** The tokenizer of the kdesud protocol (src/kdesud/lexer.cpp).  `Lex` describes one call of
    lex() on the bytes that are still unread; the class is the cursor-based original. */
module Lexer {
  import opened ByteStrings

  datatype Token =
    | TokNone | TokNewline | TokStr | TokNum
    | TokExec | TokPass | TokDelCmd | TokPing | TokExit | TokStop | TokSet | TokGet | TokHost
    | TokSched | TokPrio | TokDelVar | TokDelGroup | TokDelSpecialKey | TokGetKeys | TokChkGroup

  /** A token, its value (lval) and how many bytes lex() moved the cursor. */
  datatype Lexeme = Lexeme(tok: Token, val: Bytes, used: nat)

  const EXEC: Bytes := [69, 88, 69, 67]
  const PASS: Bytes := [80, 65, 83, 83]
  const DELC: Bytes := [68, 69, 76]  // DEL
  const PING: Bytes := [80, 73, 78, 71]
  const EXIT: Bytes := [69, 88, 73, 84]
  const STOP: Bytes := [83, 84, 79, 80]
  const SET: Bytes := [83, 69, 84]
  const GET: Bytes := [71, 69, 84]
  const HOST: Bytes := [72, 79, 83, 84]
  const SCHD: Bytes := [83, 67, 72, 68]
  const PRIO: Bytes := [80, 82, 73, 79]
  const DELV: Bytes := [68, 69, 76, 86]
  const DELG: Bytes := [68, 69, 76, 71]
  const DELS: Bytes := [68, 69, 76, 83]
  const GETK: Bytes := [71, 69, 84, 75]
  const CHKG: Bytes := [67, 72, 75, 71]

  /** The word, letter by letter. */
  predicate Spells(w: Bytes, word: Bytes)
    requires 3 <= |word| <= 4
  {
    |w| == |word| && w[0] == word[0] && w[1] == word[1] && w[2] == word[2] && (|word| == 4 ==> w[3] == word[3])
  }

  function Keyword(w: Bytes): Token
  {
    if Spells(w, EXEC) then TokExec
    else if Spells(w, PASS) then TokPass
    else if Spells(w, DELC) then TokDelCmd
    else if Spells(w, PING) then TokPing
    else if Spells(w, EXIT) then TokExit
    else if Spells(w, STOP) then TokStop
    else if Spells(w, SET) then TokSet
    else if Spells(w, GET) then TokGet
    else if Spells(w, HOST) then TokHost
    else if Spells(w, SCHD) then TokSched
    else if Spells(w, PRIO) then TokPrio
    else if Spells(w, DELV) then TokDelVar
    else if Spells(w, DELG) then TokDelGroup
    else if Spells(w, DELS) then TokDelSpecialKey
    else if Spells(w, GETK) then TokGetKeys
    else if Spells(w, CHKG) then TokChkGroup
    else TokStr
  }

  // Lengths of the runs that lex() steps over.
  function SpaceRun(t: Bytes): (n: nat)
    ensures n <= |t|
    ensures !IsSpace(At(t, n))
    ensures forall i | 0 <= i < n :: IsSpace(t[i])
  {
    if t == [] || !IsSpace(t[0]) then 0 else 1 + SpaceRun(t[1..])
  }

  function DigitRun(t: Bytes): (n: nat)
    ensures n <= |t|
    ensures !IsDigit(At(t, n))
    ensures forall i | 0 <= i < n :: IsDigit(t[i])
  {
    if t == [] || !IsDigit(t[0]) then 0 else 1 + DigitRun(t[1..])
  }

  predicate IsWordByte(c: Byte) { !IsSpace(c) && !IsCntrl(c) }

  predicate AllWordBytes(s: Bytes)
  {
    forall i | 0 <= i < |s| :: IsWordByte(s[i])
  }

  function WordRun(t: Bytes): (n: nat)
    ensures n <= |t|
    ensures !IsWordByte(At(t, n))
    ensures forall i | 0 <= i < n :: IsWordByte(t[i])
  {
    if t == [] || !IsWordByte(t[0]) then 0 else 1 + WordRun(t[1..])
  }

  function Prepend(val: Bytes, used: nat, l: Lexeme): Lexeme
  {
    Lexeme(l.tok, val + l.val, used + l.used)
  }

  /** The rest of a quoted string, from just after the opening quote. */
  function LexQuoted(t: Bytes): (l: Lexeme)
    ensures l.tok == TokStr || l.tok == TokNone
    ensures 0 < l.used <= |t| + 1
    ensures l.tok == TokStr ==> l.used <= |t|
  {
    if At(t, 0) == QUOTE then Lexeme(TokStr, [], 1)
    else if IsCntrl(At(t, 0)) then Lexeme(TokNone, [], 1)
    else if t[0] != BACKSLASH then Prepend([t[0]], 1, LexQuoted(t[1..]))
    else if IsCntrl(At(t, 1)) then Lexeme(TokNone, [], 2)
    else if t[1] != CARET then Prepend([t[1]], 2, LexQuoted(t[2..]))
    else if At(t, 2) == QUOTE || IsCntrl(At(t, 2)) then Lexeme(TokNone, [], 3)
    else Prepend([SubAt(t[2])], 3, LexQuoted(t[3..]))
  }

  function LexNumber(t: Bytes): Lexeme { Lexeme(TokNum, t[..DigitRun(t)], DigitRun(t)) }

  function LexWord(t: Bytes): Lexeme { Lexeme(Keyword(t[..WordRun(t)]), t[..WordRun(t)], WordRun(t)) }

  /** What is read once blanks have been skipped. */
  function LexItem(t: Bytes): (l: Lexeme)
    ensures l.used <= |t| + 1
    ensures l.tok != TokNone ==> l.used <= |t|
    ensures l.tok == TokNum ==> l.val != [] && AllDigits(l.val)
  {
    if IsDigit(At(t, 0)) then LexNumber(t)
    else if At(t, 0) == QUOTE then Prepend([], 1, LexQuoted(t[1..]))
    else LexWord(t)
  }

  /** One call of lex(), for any bytes whatever: it never reads past the terminating zero
      (at index |t|), and every token but Tok_none moves the cursor forward inside the line. */
  function Lex(t: Bytes): (l: Lexeme)
    ensures 0 < l.used <= |t| + 1
    ensures l.tok != TokNone ==> l.used <= |t|
    ensures l.tok == TokNewline ==> t[0] == NL
    ensures l.tok == TokNum ==> l.val != [] && AllDigits(l.val)
  {
    if At(t, 0) == NL then Lexeme(TokNewline, [], 1)
    else if IsCntrl(At(t, 0)) then Lexeme(TokNone, [], 1)
    else if IsSpace(t[0]) then
      var n := 1 + SpaceRun(t[1..]);
      Prepend([], n, LexItem(t[n..]))
    else LexItem(t)
  }

  lemma SliceOfSlice(s: Bytes, i: nat, n: nat)
    requires i + n <= |s| + 1 && i <= |s|
    ensures i + n <= |s| ==> s[i..][n..] == s[i + n..]
  {
  }

  lemma LexOfControl(t: Bytes)
    ensures At(t, 0) == NL ==> Lex(t) == Lexeme(TokNewline, [], 1)
    ensures At(t, 0) != NL && IsCntrl(At(t, 0)) ==> Lex(t) == Lexeme(TokNone, [], 1)
  {
  }

  lemma SkippingBlanks(t: Bytes)
    requires !IsCntrl(At(t, 0))
    ensures
      var n := if IsSpace(t[0]) then 1 + SpaceRun(t[1..]) else 0;
      Lex(t) == Prepend([], n, LexItem(t[n..]))
  {
    hide LexItem;
    assert t[0..] == t;
  }

  /** The item behind the blanks, for a cursor that has just read its first byte. */
  lemma ItemAfterBlanks(input: Bytes, start: nat, p: nat)
    requires start < |input| && !IsCntrl(input[start])
    requires p == start + 1 + if IsSpace(input[start]) then 1 + SpaceRun(input[start + 1..]) else 0
    ensures p <= |input| + 1
    ensures Prepend([], start + 1, Lex(input[start..])) == Prepend([], p, LexItem(input[p - 1..]))
  {
    hide Lex, LexItem, SpaceRun;
    SkippingBlanks(input[start..]);
    SliceOfSlice(input, start, 1);
    SliceOfSlice(input, start, p - 1 - start);
  }

  /** The lexer object: the line and a cursor into it. */
  class Lexer {
    const input: Bytes
    var pos: nat
    var output: Bytes

    constructor (line: Bytes)
      ensures input == line && pos == 0
    {
      input := line;
      pos := 0;
      output := [];
    }

    /** The next byte; the precondition is the bound that the caller has to respect. */
    method Next() returns (c: Byte)
      requires pos <= |input|
      modifies this`pos
      ensures c == At(input, old(pos)) && pos == old(pos) + 1
    {
      c := At(input, pos);
      pos := pos + 1;
    }

    /** The bytes not yet read. */
    function Unread(): Bytes
      requires pos <= |input|
      reads this
    {
      input[pos..]
    }

    /** lex() itself: from any cursor position up to the terminator it reads no index beyond
        the terminator, and its token, value and new cursor are those of `Lex`. */
    method Scan() returns (tok: Token)
      requires pos <= |input|
      modifies this
      ensures tok == Lex(old(Unread())).tok
      ensures output == Lex(old(Unread())).val
      ensures pos == old(pos) + Lex(old(Unread())).used
      ensures tok != TokNone ==> Unread() == old(Unread())[Lex(old(Unread())).used..]
    {
      hide Lex;
      ghost var t := Unread();
      LexOfControl(t);
      var c := Next();
      output := [];
      if c == NL {
        tok := TokNewline;
      } else if IsCntrl(c) {
        tok := TokNone;
      } else {
        tok := ScanAfter(c);
      }
      assert tok == Lex(t).tok && output == Lex(t).val && pos == old(pos) + Lex(t).used;
      SliceOfSlice(input, old(pos), Lex(t).used);
    }

    /** Behind the checks for newline and control characters: blanks, then one item. */
    method ScanAfter(first: Byte) returns (tok: Token)
      requires 0 < pos <= |input| && first == input[pos - 1] && !IsCntrl(first) && output == []
      modifies this
      ensures Lexeme(tok, output, pos + 1) == Prepend([], old(pos), Lex(input[old(pos) - 1..]))
    {
      hide Lex, LexItem, SpaceRun;
      ghost var start := pos - 1;
      var c := first;
      if IsSpace(c) { c := SkipBlanks(); }
      ItemAfterBlanks(input, start, pos);
      tok := ScanItem(c);
    }

    method ScanItem(first: Byte) returns (tok: Token)
      requires 0 < pos <= |input| + 1 && first == At(input, pos - 1) && output == []
      modifies this
      ensures Lexeme(tok, output, pos + 1) == Prepend([], old(pos), LexItem(input[old(pos) - 1..]))
    {
      ghost var item := input[pos - 1..];
      if IsDigit(first) {
        tok := ScanNumber(first);
      } else if first == QUOTE {
        assert item[1..] == input[pos..];
        tok := ScanQuoted();
      } else {
        ReadWord(first);
        tok := Keyword(output);
      }
    }

    method SkipBlanks() returns (c: Byte)
      requires pos <= |input|
      modifies this`pos
      ensures pos == old(pos) + SpaceRun(input[old(pos)..]) + 1
      ensures c == At(input, pos - 1)
    {
      ghost var rest := input[pos..];
      c := Next();
      while IsSpace(c)
        invariant old(pos) < pos <= |input| + 1 && c == At(input, pos - 1)
        invariant SpaceRun(rest) == pos - 1 - old(pos) + SpaceRun(input[pos - 1..])
        decreases |input| + 1 - pos
      {
        c := Next();
      }
    }

    method ScanNumber(first: Byte) returns (tok: Token)
      requires 0 < pos <= |input| && first == input[pos - 1] && IsDigit(first) && output == []
      modifies this
      ensures tok == LexNumber(input[old(pos) - 1..]).tok
      ensures output == LexNumber(input[old(pos) - 1..]).val
      ensures pos == old(pos) - 1 + LexNumber(input[old(pos) - 1..]).used
    {
      hide DigitRun;
      ghost var start := pos - 1;
      output := output + [first];
      var c := Next();
      while IsDigit(c)
        invariant start + 1 < pos <= |input| + 1 && c == At(input, pos - 1)
        invariant output == input[start..pos - 1] && AllDigits(output)
        decreases |input| - pos
      {
        output := output + [c];
        c := Next();
      }
      pos := pos - 1;
      assert output == input[start..][..|output|];
      DigitRunEnds(input[start..], |output|);
      return TokNum;
    }

    method ReadWord(first: Byte)
      requires 0 < pos <= |input| + 1 && first == At(input, pos - 1) && output == []
      modifies this
      ensures output == input[old(pos) - 1..][..WordRun(input[old(pos) - 1..])]
      ensures pos == old(pos) - 1 + |output|
    {
      hide WordRun;
      ghost var start := pos - 1;
      var c := first;
      while IsWordByte(c)
        invariant start < pos <= |input| + 1 && c == At(input, pos - 1)
        invariant output == input[start..pos - 1] && AllWordBytes(output)
        decreases |input| + 1 - pos
      {
        output := output + [c];
        c := Next();
      }
      pos := pos - 1;
      assert output == input[start..][..|output|];
      WordRunEnds(input[start..], |output|);
    }

    method ScanQuoted() returns (tok: Token)
      requires 0 < pos <= |input| && output == []
      modifies this
      ensures Lexeme(tok, output, pos) == Prepend([], old(pos), LexQuoted(old(Unread())))
    {
      hide LexQuoted;
      ghost var body := Unread();
      ghost var start := pos;
      var c := Next();
      while c != QUOTE && !IsCntrl(c)
        invariant start < pos <= |input| + 1 && c == At(input, pos - 1)
        invariant LexQuoted(body) == Prepend(output, pos - 1 - start, LexQuoted(input[pos - 1..]))
        decreases |input| + 1 - pos
      {
        if c == BACKSLASH {
          var ok := ReadEscaped(pos - 1 - start);
          if !ok { return TokNone; }
        } else {
          ghost var rest := input[pos - 1..];
          LexQuotedUnfolds(rest);
          QuotedStep(rest, 1, c, output, pos - 1 - start);
          assert input[pos..] == rest[1..];
          output := output + [c];
        }
        c := Next();
      }
      LexQuotedUnfolds(input[pos - 1..]);
      return if c == QUOTE then TokStr else TokNone;
    }

    /** What follows a backslash, the n-th byte of the quoted string. */
    method ReadEscaped(ghost n: nat) returns (ok: bool)
      requires 0 < pos <= |input| && input[pos - 1] == BACKSLASH
      modifies this
      ensures
        var whole := Prepend(old(output), n, LexQuoted(input[old(pos) - 1..]));
        && old(pos) < pos <= |input| + 1
        && (ok ==> pos <= |input| && whole == Prepend(output, n + pos - old(pos) + 1, LexQuoted(input[pos..])))
        && (!ok ==> whole == Lexeme(TokNone, output, n + pos - old(pos) + 1))
    {
      hide LexQuoted;
      ghost var rest, first := input[pos - 1..], pos;
      LexQuotedUnfolds(rest);
      var c := Next();
      if IsCntrl(c) { return false; }
      if c == CARET {
        c := Next();
        if c == QUOTE || IsCntrl(c) { return false; }
        c := SubAt(c);
      }
      QuotedStep(rest, pos - first + 1, c, output, n);
      assert input[pos..] == rest[pos - first + 1..];
      output := output + [c];
      return true;
    }
  }

  lemma {:induction false} DigitRunEnds(t: Bytes, n: nat)
    requires n <= |t| && AllDigits(t[..n]) && !IsDigit(At(t, n))
    ensures DigitRun(t) == n
  {
  }

  lemma {:induction false} WordRunEnds(t: Bytes, n: nat)
    requires n <= |t| && AllWordBytes(t[..n]) && !IsWordByte(At(t, n))
    ensures WordRun(t) == n
  {
  }

  lemma LexQuotedUnfolds(t: Bytes)
    ensures LexQuoted(t) ==
      if At(t, 0) == QUOTE then Lexeme(TokStr, [], 1)
      else if IsCntrl(At(t, 0)) then Lexeme(TokNone, [], 1)
      else if t[0] != BACKSLASH then Prepend([t[0]], 1, LexQuoted(t[1..]))
      else if IsCntrl(At(t, 1)) then Lexeme(TokNone, [], 2)
      else if t[1] != CARET then Prepend([t[1]], 2, LexQuoted(t[2..]))
      else if At(t, 2) == QUOTE || IsCntrl(At(t, 2)) then Lexeme(TokNone, [], 3)
      else Prepend([SubAt(t[2])], 3, LexQuoted(t[3..]))
  {
  }

  /** One turn of the quoted-string loop: k bytes are read and c is appended. */
  lemma QuotedStep(t: Bytes, k: nat, c: Byte, before: Bytes, n: nat)
    requires 0 < k <= |t| && At(t, 0) != QUOTE && !IsCntrl(At(t, 0))
    requires LexQuoted(t) == Prepend([c], k, LexQuoted(t[k..]))
    ensures Prepend(before, n, LexQuoted(t)) == Prepend(before + [c], n + k, LexQuoted(t[k..]))
  {
    assert before + ([c] + LexQuoted(t[k..]).val) == before + [c] + LexQuoted(t[k..]).val;
  }
}
