/** The conversation with su or sudo (src/suprocess.cpp:222-304) and the return codes of
    SuProcess::exec (src/suprocess.cpp:104-216). */
module SuProcess {
  import opened ByteStrings
  import opened StubWords
  import opened Prompt
  import opened PtyProcess
  import StubProcess

  const HEADER: Bytes := NameOf(Header)

  // SuErrors
  const ERROR := -1
  const OK := 0
  const KILL_ME := 1
  const NOT_AUTHORIZED := 2

  datatype SuState = WaitForPrompt | CheckStar | HandleStub

  /** What the outside world answers while line number k is handled: is more output waiting after
      100 ms (waitMS), and did the terminal go into no-echo mode (waitSlave)? */
  datatype World = World(more: nat -> bool, noEcho: nat -> bool)

  // QByteArray::trimmed()
  function TrimLeft(s: Bytes): Bytes { if s != [] && IsSpace(s[0]) then TrimLeft(s[1..]) else s }

  function TrimRight(s: Bytes): Bytes
  {
    if s != [] && IsSpace(s[|s| - 1]) then TrimRight(s[..|s| - 1]) else s
  }

  function Trimmed(s: Bytes): Bytes { TrimRight(TrimLeft(s)) }

  /** m is what is left of s without the blanks at both ends. */
  predicate MiddleOf(s: Bytes, i: nat, j: nat)
  {
    && i <= j <= |s|
    && (forall k | 0 <= k < i :: IsSpace(s[k])) && (forall k | j <= k < |s| :: IsSpace(s[k]))
    && (i < j ==> !IsSpace(s[i]) && !IsSpace(s[j - 1]))
  }

  lemma {:induction false} LeftIsTrimmed(s: Bytes) returns (i: nat)
    ensures i <= |s| && TrimLeft(s) == s[i..]
    ensures (forall k | 0 <= k < i :: IsSpace(s[k])) && (i < |s| ==> !IsSpace(s[i]))
  {
    if s != [] && IsSpace(s[0]) {
      i := LeftIsTrimmed(s[1..]);
      assert forall k | 1 <= k < |s| :: s[k] == s[1..][k - 1];
      i := i + 1;
    } else {
      i := 0;
    }
  }

  lemma {:induction false} RightIsTrimmed(s: Bytes) returns (j: nat)
    ensures j <= |s| && TrimRight(s) == s[..j]
    ensures (forall k | j <= k < |s| :: IsSpace(s[k])) && (j > 0 ==> !IsSpace(s[j - 1]))
  {
    if s != [] && IsSpace(s[|s| - 1]) {
      j := RightIsTrimmed(s[..|s| - 1]);
      assert s[..|s| - 1][..j] == s[..j];
    } else {
      j := |s|;
    }
  }

  lemma TrimmedPart(s: Bytes) returns (i: nat, j: nat)
    ensures MiddleOf(s, i, j) && Trimmed(s) == s[i..j]
  {
    i := LeftIsTrimmed(s);
    var rest := s[i..];
    var n := RightIsTrimmed(rest);
    j := i + n;
    assert forall k | i <= k < |s| :: s[k] == rest[k - i];
  }

  /** trimmed() is the one part of the string that has only blanks around it and no blank at either
      end. */
  lemma TrimmedIsTheMiddle(s: Bytes, m: Bytes)
    ensures (exists i: nat, j: nat | i <= j <= |s| :: MiddleOf(s, i, j) && s[i..j] == m) <==> m == Trimmed(s)
  {
    hide Trimmed, IsSpace;
    var a, b := TrimmedPart(s);
    forall i: nat, j: nat | i <= j <= |s| && MiddleOf(s, i, j) ensures s[i..j] == s[a..b]
    {
      if i < j { assert a <= i && j <= b; }
      if a < b { assert i <= a && b <= j; }
    }
  }

  /** What may follow the password: blanks, or the stars that stand for it with blanks around them.
      There is no other byte than a star from any non-blank to any other one. */
  predicate OnlyStars(line: Bytes)
  {
    forall i, k, j | 0 <= i <= k <= j < |line| && !IsSpace(line[i]) && !IsSpace(line[j]) :: line[k] == STAR
  }

  lemma StarsAreTrimmed(line: Bytes)
    ensures OnlyStars(line) <==> forall k | 0 <= k < |Trimmed(line)| :: Trimmed(line)[k] == STAR
  {
    hide Trimmed;
    var a, b := TrimmedPart(line);
    var m := Trimmed(line);
    assert forall k | a <= k < b :: line[k] == m[k - a];
    if OnlyStars(line) {
      forall k | 0 <= k < |m| ensures m[k] == STAR
      {
        assert line[a + k] == STAR;
      }
    }
  }

  /** One line, behind the tests for a ':' and for the header: end the conversation, or go on,
      with the password written or not. */
  datatype LineResult = Return(ret: int) | GoOn(state: SuState, write: bool)

  function HandleLine(hasPassword: bool, line: Bytes, more: bool, noEcho: bool, st: SuState): LineResult
  {
    match st
    case WaitForPrompt =>
      if more || !IsPrompt(line) then GoOn(WaitForPrompt, false)
      else if !hasPassword then Return(KILL_ME)
      else if !noEcho then Return(ERROR)
      else GoOn(CheckStar, true)
    case CheckStar => if OnlyStars(line) then GoOn(HandleStub, false) else Return(ERROR)
    case HandleStub => GoOn(HandleStub, false)
  }

  /** converseSU from line number k on: its result, and the numbers of the lines upon which the
      password is written.  Past the last line readLine returns null. */
  function SuRun(password: Option<Bytes>, lines: seq<Bytes>, w: World, st: SuState, k: nat): (int, seq<nat>)
    requires k <= |lines|
    decreases |lines| - k
  {
    if k == |lines| || (COLON in lines[k] && !st.WaitForPrompt?) then
      (if st.HandleStub? then NOT_AUTHORIZED else ERROR, [])
    else if lines[k] == HEADER then (OK, [])
    else
      match HandleLine(password.Some?, lines[k], w.more(k), w.noEcho(k), st)
      case Return(ret) => (ret, [])
      case GoOn(st1, write) =>
        var (ret, writes) := SuRun(password, lines, w, st1, k + 1);
        (ret, if write then [k] + writes else writes)
  }

  // ---------------------------------------------------------------- the lines of a terminal

  /** The chunk that the next read() returns, and the ones after it. */
  function NextChunk(incoming: seq<Bytes>): Bytes { if incoming == [] then [] else incoming[0] }

  function LaterChunks(incoming: seq<Bytes>): seq<Bytes> { if incoming == [] then [] else incoming[1..] }

  /** The lines that successive readLine calls give until one returns null. */
  function LineStream(buf: Bytes, incoming: seq<Bytes>): seq<Bytes>
    decreases |incoming|, |buf|
  {
    match TakeLine(buf + NextChunk(incoming))
    case (None, _) => []
    case (Some(line), rest) => [line] + LineStream(rest, LaterChunks(incoming))
  }

  lemma LineStreamUnfolds(buf: Bytes, incoming: seq<Bytes>)
    ensures
      var all := buf + NextChunk(incoming);
      LineStream(buf, incoming) ==
        if TakeLine(all).0.None? then []
        else [TakeLine(all).0.value] + LineStream(TakeLine(all).1, LaterChunks(incoming))
  {
  }

  /** The buffer and the chunks to come after k calls of readLine. */
  function AfterLines(buf: Bytes, incoming: seq<Bytes>, k: nat): (Bytes, seq<Bytes>)
  {
    if k == 0 then (buf, incoming)
    else
      var (b, inc) := AfterLines(buf, incoming, k - 1);
      (TakeLine(b + NextChunk(inc)).1, LaterChunks(inc))
  }

  /** What is buffered and read together when line number k is taken. */
  function InHand(buf: Bytes, incoming: seq<Bytes>, k: nat): Bytes
  {
    var (b, inc) := AfterLines(buf, incoming, k);
    b + NextChunk(inc)
  }

  /** unreadLine adds a newline: all of it again, with a newline added if there was none. */
  function WithNewline(all: Bytes): Bytes { if NL in all then all else all + [NL] }

  /** Line number k is the header, and it has been put back. */
  predicate HeaderPutBack(buf: Bytes, incoming: seq<Bytes>, k: nat, buf1: Bytes, incoming1: seq<Bytes>)
  {
    && TakeLine(InHand(buf, incoming, k)).0 == Some(HEADER)
    && buf1 == WithNewline(InHand(buf, incoming, k))
    && incoming1 == LaterChunks(AfterLines(buf, incoming, k).1)
  }

  /** readLine and unreadLine of the header, whatever else is in hand. */
  lemma PutsHeaderBack(all: Bytes)
    requires TakeLine(all).0 == Some(HEADER)
    ensures BufferAfter(TakeLine(all).1, Unread(HEADER, true)) == WithNewline(all)
  {
    UnreadUndoesRead(all);
  }

  lemma IsPutBack(buf: Bytes, incoming: seq<Bytes>, k: nat, buf1: Bytes, incoming1: seq<Bytes>)
    requires TakeLine(InHand(buf, incoming, k)).0 == Some(HEADER)
    requires buf1 == WithNewline(InHand(buf, incoming, k)) && incoming1 == LaterChunks(AfterLines(buf, incoming, k).1)
    ensures HeaderPutBack(buf, incoming, k, buf1, incoming1)
  {
  }

  /** The switch of converseSU. */
  method Switch(hasPassword: bool, line: Bytes, more: bool, noEcho: bool, state: SuState) returns (r: LineResult)
    ensures r == HandleLine(hasPassword, line, more, noEcho, state)
  {
    match state {
      case WaitForPrompt =>
        if more { return GoOn(state, false); }
        var prompt := MatchPrompt(line);
        if prompt {
          if !hasPassword { return Return(KILL_ME); }
          if !noEcho { return Return(ERROR); }
          return GoOn(CheckStar, true);
        }
        return GoOn(state, false);
      case CheckStar =>
        var s := Trimmed(line);
        StarsAreTrimmed(line);
        if s == [] { return GoOn(HandleStub, false); }
        var starCond := exists i | 0 <= i < |s| :: s[i] != STAR;
        return if starCond then Return(ERROR) else GoOn(HandleStub, false);
      case HandleStub =>
        return GoOn(state, false);
    }
  }

  /** k lines of what was on the terminal have been read. */
  predicate AtLine(buf: Bytes, incoming: seq<Bytes>, k: nat, buf1: Bytes, incoming1: seq<Bytes>)
  {
    var lines := LineStream(buf, incoming);
    k <= |lines| && (buf1, incoming1) == AfterLines(buf, incoming, k) && lines[k..] == LineStream(buf1, incoming1)
  }

  lemma AtFirstLine(buf: Bytes, incoming: seq<Bytes>)
    ensures AtLine(buf, incoming, 0, buf, incoming)
  {
    hide LineStream;
    assert LineStream(buf, incoming)[0..] == LineStream(buf, incoming);
    BeforeFirstLine(buf, incoming);
  }

  /** readLine, as the line number k of the terminal. */
  method TakeNext(pty: LineBuffer, ghost buf: Bytes, ghost incoming: seq<Bytes>, ghost k: nat)
      returns (line: Option<Bytes>)
    requires AtLine(buf, incoming, k, pty.inputBuffer, pty.incoming)
    modifies pty
    ensures
      var lines := LineStream(buf, incoming);
      if k < |lines|
      then line == Some(lines[k]) && AtLine(buf, incoming, k + 1, pty.inputBuffer, pty.incoming)
      else k == |lines| && line == None
    ensures line == TakeLine(InHand(buf, incoming, k)).0
    ensures (pty.inputBuffer, pty.incoming) == AfterLines(buf, incoming, k + 1)
  {
    hide TakeLine, LineStream, AfterLines;
    ghost var rest := LineStream(buf, incoming)[k..];
    OneMoreLine(buf, incoming, k);
    LineStreamUnfolds(pty.inputBuffer, pty.incoming);
    line := pty.ReadLine();
    assert line.Some? ==> line.value == rest[0] && LineStream(pty.inputBuffer, pty.incoming) == rest[1..];
  }

  /** unreadLine, for the header that was line number k. */
  method GiveHeaderBack(pty: LineBuffer, ghost buf: Bytes, ghost incoming: seq<Bytes>, ghost k: nat)
    requires TakeLine(InHand(buf, incoming, k)).0 == Some(HEADER)
    requires (pty.inputBuffer, pty.incoming) == AfterLines(buf, incoming, k + 1)
    modifies pty`inputBuffer
    ensures HeaderPutBack(buf, incoming, k, pty.inputBuffer, pty.incoming)
  {
    hide TakeLine, NameOf, LineStream, AfterLines, WithNewline, BufferAfter, HeaderPutBack, InHand;
    OneMoreLine(buf, incoming, k);
    PutsHeaderBack(InHand(buf, incoming, k));
    pty.UnreadLine(HEADER, true);
    IsPutBack(buf, incoming, k, pty.inputBuffer, pty.incoming);
  }

  /** converseSU on a terminal.  written is what goes to the terminal; line number n is the last one
      read; when the answer is ok, that was the header and has been put back: the buffer holds all
      that was in hand then. */
  method ConverseSU(pty: LineBuffer, password: Option<Bytes>, w: World)
      returns (ret: int, written: Bytes, ghost writes: seq<nat>, ghost n: nat)
    modifies pty
    ensures
      var lines := LineStream(old(pty.inputBuffer), old(pty.incoming));
      (ret, writes) == SuRun(password, lines, w, WaitForPrompt, 0)
    ensures writes != [] ==> password.Some?
    ensures written == if writes == [] then [] else password.value + [NL]
    ensures
      if ret == OK then HeaderPutBack(old(pty.inputBuffer), old(pty.incoming), n, pty.inputBuffer, pty.incoming)
      else (pty.inputBuffer, pty.incoming) == AfterLines(old(pty.inputBuffer), old(pty.incoming), n + 1)
  {
    hide TakeLine, NameOf, LineStream, HandleLine, SuRun, AfterLines, WithNewline, BufferAfter, HeaderPutBack, AtLine,
      InHand;
    ghost var buf, incoming := pty.inputBuffer, pty.incoming;
    ghost var lines := LineStream(buf, incoming);
    ghost var result := SuRun(password, lines, w, WaitForPrompt, 0);
    var state := WaitForPrompt;
    var k := 0;
    written := [];
    writes := [];
    assert writes + result.1 == result.1;
    AtFirstLine(buf, incoming);
    while true
      invariant k <= |lines| && AtLine(buf, incoming, k, pty.inputBuffer, pty.incoming)
      invariant result == (SuRun(password, lines, w, state, k).0, writes + SuRun(password, lines, w, state, k).1)
      invariant state.WaitForPrompt? <==> writes == []
      invariant writes != [] ==> password.Some?
      invariant written == if writes == [] then [] else password.value + [NL]
      decreases |lines| - k
    {
      n := k;
      SuRunUnfolds(password, lines, w, state, k, writes);
      var line := TakeNext(pty, buf, incoming, k);
      if line.None? || (COLON in line.value && state != WaitForPrompt) {
        ret := if state == HandleStub then NOT_AUTHORIZED else ERROR;
        return;
      }
      if line.value == HEADER {
        GiveHeaderBack(pty, buf, incoming, k);
        ret := OK;
        return;
      }
      var step := Switch(password.Some?, line.value, w.more(k), w.noEcho(k), state);
      StepFacts(password.Some?, line.value, w.more(k), w.noEcho(k), state);
      if step.Return? {
        ret := step.ret;
        return;
      }
      if step.write {
        written := written + password.value;
        written := written + [NL];
        writes := writes + [k];
      }
      state := step.state;
      k := k + 1;
    }
  }

  lemma BeforeFirstLine(buf: Bytes, incoming: seq<Bytes>)
    ensures AfterLines(buf, incoming, 0) == (buf, incoming)
  {
  }

  lemma OneMoreLine(buf: Bytes, incoming: seq<Bytes>, k: nat)
    ensures AfterLines(buf, incoming, k + 1) ==
      (TakeLine(InHand(buf, incoming, k)).1, LaterChunks(AfterLines(buf, incoming, k).1))
  {
    hide TakeLine;
  }

  lemma StepFacts(hasPassword: bool, line: Bytes, more: bool, noEcho: bool, st: SuState)
    ensures
      match HandleLine(hasPassword, line, more, noEcho, st)
      case Return(ret) => ret != OK
      case GoOn(st1, write) =>
        && (write ==> hasPassword && st.WaitForPrompt?)
        && (st1.WaitForPrompt? <==> st.WaitForPrompt? && !write)
  {
    hide IsPrompt, OnlyStars;
  }

  /** One line of the run, with what has been written before it. */
  lemma SuRunUnfolds(password: Option<Bytes>, lines: seq<Bytes>, w: World, st: SuState, k: nat, before: seq<nat>)
    requires k <= |lines|
    ensures
      var (ret, writes) := SuRun(password, lines, w, st, k);
      if k == |lines| || (COLON in lines[k] && !st.WaitForPrompt?) then
        ret == (if st.HandleStub? then NOT_AUTHORIZED else ERROR) && before + writes == before
      else if lines[k] == HEADER then ret == OK && before + writes == before
      else
        match HandleLine(password.Some?, lines[k], w.more(k), w.noEcho(k), st)
        case Return(ret1) => ret == ret1 && before + writes == before
        case GoOn(st1, write) =>
          var (ret1, writes1) := SuRun(password, lines, w, st1, k + 1);
          ret == ret1 && before + writes == (if write then before + [k] else before) + writes1
  {
    hide HandleLine, NameOf;
    var writes := SuRun(password, lines, w, st, k).1;
    assert writes == [] ==> before + writes == before;
    if k < |lines| {
      var step := HandleLine(password.Some?, lines[k], w.more(k), w.noEcho(k), st);
      if step.GoOn? {
        var writes1 := SuRun(password, lines, w, step.state, k + 1).1;
        assert before + ([k] + writes1) == before + [k] + writes1;
      }
    }
  }

  /** After ok, whatever was in hand and whatever arrives later: converseStub reads the header first
      and begins to serve.  It then meets an empty line, and gives up with 1, exactly when what was
      read after the header began with a newline too many: the header's own newline if that had not
      come when the header was handed out (unreadLine has added one), or an empty line of output. */
  lemma HeaderThenStub(all: Bytes, later: seq<Bytes>, s: StubProcess.Settings, check: int)
    requires TakeLine(all).0 == Some(HEADER)
    ensures
      var lines := LineStream(WithNewline(all), later);
      var read := all + NextChunk(later) + NextChunk(LaterChunks(later));
      var follows := read[|HEADER|..];
      && lines != [] && lines[0] == HEADER
      && StubProcess.ParentStep(s, check, StubProcess.WaitHeader, HEADER).0 == StubProcess.Serving
      && (|lines| > 1 && lines[1] == [] <==> if NL in all then [NL, NL] <= follows else [NL] <= follows)
      && (|lines| > 1 && lines[1] == [] ==> StubProcess.ParentRun(s, check, StubProcess.WaitHeader, lines).0 == 1)
  {
    hide NameOf, TakeLine, LineStream, WithNewline, StubProcess.ParentRun, StubProcess.Answer;
    BehindHeader(all);
    var x := WithNewline(all)[|HEADER| + 1..];
    var lines := LineStream(WithNewline(all), later);
    HeaderFirst(all, x, later);
    SecondLine(x + NextChunk(later), LaterChunks(later));
    Following(all, x, NextChunk(later), NextChunk(LaterChunks(later)));
    assert |lines| > 1 ==> lines[1] == lines[1..][0];
    if |lines| > 1 && lines[1] == [] {
      EmptyAfterHeader(lines, s, check);
    }
  }

  lemma HeaderFirst(all: Bytes, x: Bytes, later: seq<Bytes>)
    requires WithNewline(all) == HEADER + [NL] + x
    ensures
      var lines := LineStream(WithNewline(all), later);
      lines != [] && lines[0] == HEADER && lines[1..] == LineStream(x + NextChunk(later), LaterChunks(later))
  {
    hide NameOf, TakeLine, LineStream, WithNewline;
    HeaderIsOneLine();
    LineStreamUnfolds(WithNewline(all), later);
    Associate(HEADER + [NL], x, NextChunk(later));
    UnreadThenRead(HEADER, x + NextChunk(later));
  }

  lemma SecondLine(buf: Bytes, later: seq<Bytes>)
    ensures
      var lines := LineStream(buf, later);
      lines != [] && lines[0] == [] <==> [NL] <= buf + NextChunk(later)
  {
    hide TakeLine, LineStream;
    LineStreamUnfolds(buf, later);
    FirstLineEmpty(buf + NextChunk(later));
  }

  lemma Following(all: Bytes, x: Bytes, c1: Bytes, c2: Bytes)
    requires all == HEADER + (if NL in all then [NL] else []) + x
    ensures
      var follows := (all + c1 + c2)[|HEADER|..];
      [NL] <= x + c1 + c2 <==> if NL in all then [NL, NL] <= follows else [NL] <= follows
  {
    hide NameOf;
    var y := x + c1 + c2;
    TwoNewlines(y);
    assert (all + c1 + c2)[|HEADER|..] == if NL in all then [NL] + y else y;
  }

  lemma BehindHeader(all: Bytes)
    requires TakeLine(all).0 == Some(HEADER)
    ensures |WithNewline(all)| > |HEADER|
    ensures WithNewline(all) == HEADER + [NL] + WithNewline(all)[|HEADER| + 1..]
    ensures all == HEADER + (if NL in all then [NL] else []) + WithNewline(all)[|HEADER| + 1..]
  {
    hide NameOf;
    LineConservation(all);
    assert NL !in all ==> all + [NL] == HEADER + [NL] + [];
  }

  lemma TwoNewlines(y: Bytes)
    ensures [NL, NL] <= [NL] + y <==> [NL] <= y
  {
    assert y != [] ==> ([NL] + y)[1] == y[0];
  }

  lemma FirstLineEmpty(x: Bytes)
    ensures TakeLine(x).0 == Some([]) <==> [NL] <= x
  {
    var n := IndexOf(x, NL);
    assert n > 0 ==> x[..n] != [] && x[..n][0] == x[0];
    assert [NL] <= x <==> x != [] && x[0] == NL;
    assert n == 0 ==> x[..0] == [];
  }

  lemma EmptyAfterHeader(lines: seq<Bytes>, s: StubProcess.Settings, check: int)
    requires |lines| > 1 && lines[0] == HEADER && lines[1] == []
    ensures StubProcess.ParentRun(s, check, StubProcess.WaitHeader, lines).0 == 1
  {
    hide NameOf, StubProcess.ParentRun, StubProcess.Answer;
    StubProcess.ParentRunUnfolds(s, check, StubProcess.WaitHeader, lines);
    StubProcess.ParentRunUnfolds(s, check, StubProcess.Serving, lines[1..]);
    StubProcess.ParentRunEnds(s, check, lines[1..]);
    EmptyIsNoRequest();
  }

  lemma EmptyIsNoRequest()
    ensures Recognise([]) == None
  {
    hide NameOf;
    forall w: Word ensures NameOf(w) != []
    {
      HasLetters(w);
    }
  }

  lemma HasLetters(w: Word)
    ensures NameOf(w) != []
  {
  }

  lemma HeaderIsOneLine()
    ensures HEADER != [] && NL !in HEADER && COLON !in HEADER
  {
  }

  // ---------------------------------------------------------------- what can happen

  /** Lines k to n - 1 show neither a ':' nor the header. */
  predicate Quiet(lines: seq<Bytes>, k: nat, n: nat)
    requires n <= |lines|
  {
    forall i | k <= i < n :: COLON !in lines[i] && lines[i] != HEADER
  }

  /** A line upon which su is taken to wait for a password. */
  predicate Asks(lines: seq<Bytes>, w: World, i: nat)
    requires i < |lines|
  {
    !w.more(i) && IsPrompt(lines[i])
  }

  /** Lines k to n - 1 are neither the header nor a request for the password. */
  predicate Waits(lines: seq<Bytes>, w: World, k: nat, n: nat)
    requires n <= |lines|
  {
    forall i | k <= i < n :: lines[i] != HEADER && !Asks(lines, w, i)
  }

  /** The password is accepted: from line k on only stars, then silence, then the header. */
  predicate HeaderAfterPassword(lines: seq<Bytes>, k: nat, n: nat)
  {
    k <= n < |lines| && lines[n] == HEADER && Quiet(lines, k, n) && (k < n ==> OnlyStars(lines[k]))
  }

  predicate Accepted(lines: seq<Bytes>, k: nat)
  {
    exists n | k <= n < |lines| :: HeaderAfterPassword(lines, k, n)
  }

  lemma {:induction false} OkFromHandleStub(password: Option<Bytes>, lines: seq<Bytes>, w: World, k: nat)
    requires k <= |lines|
    ensures SuRun(password, lines, w, HandleStub, k).0 == OK <==>
      exists n | k <= n < |lines| :: lines[n] == HEADER && Quiet(lines, k, n)
    ensures SuRun(password, lines, w, HandleStub, k).1 == []
    decreases |lines| - k
  {
    hide IsPrompt, OnlyStars, NameOf;
    HeaderIsOneLine();
    if k < |lines| && COLON !in lines[k] && lines[k] != HEADER {
      OkFromHandleStub(password, lines, w, k + 1);
      assert forall n | k < n < |lines| :: Quiet(lines, k, n) <==> Quiet(lines, k + 1, n);
    } else if k < |lines| && lines[k] == HEADER {
      assert Quiet(lines, k, k);
    }
  }

  lemma OkFromCheckStar(password: Option<Bytes>, lines: seq<Bytes>, w: World, k: nat)
    requires k <= |lines|
    ensures SuRun(password, lines, w, CheckStar, k).0 == OK <==> Accepted(lines, k)
    ensures SuRun(password, lines, w, CheckStar, k).1 == []
  {
    hide IsPrompt, OnlyStars, NameOf;
    HeaderIsOneLine();
    if k < |lines| && COLON !in lines[k] && lines[k] != HEADER {
      OkFromHandleStub(password, lines, w, k + 1);
      assert forall n | k < n < |lines| :: Quiet(lines, k, n) <==> Quiet(lines, k + 1, n);
      forall n | k < n < |lines| && lines[n] == HEADER && Quiet(lines, k + 1, n) && OnlyStars(lines[k])
        ensures HeaderAfterPassword(lines, k, n)
      {
      }
    } else if k < |lines| && lines[k] == HEADER {
      assert HeaderAfterPassword(lines, k, k);
    }
  }

  /** The first line that decides: the header or a request for the password; |lines| if none. */
  function Decider(lines: seq<Bytes>, w: World, k: nat): (n: nat)
    requires k <= |lines|
    ensures k <= n <= |lines| && Waits(lines, w, k, n)
    ensures n < |lines| ==> lines[n] == HEADER || Asks(lines, w, n)
    decreases |lines| - k
  {
    if k == |lines| || lines[k] == HEADER || Asks(lines, w, k) then k else Decider(lines, w, k + 1)
  }

  lemma {:induction false} RunFromWaiting(password: Option<Bytes>, lines: seq<Bytes>, w: World, k: nat)
    requires k <= |lines|
    ensures SuRun(password, lines, w, WaitForPrompt, k) ==
      SuRun(password, lines, w, WaitForPrompt, Decider(lines, w, k))
    decreases |lines| - k
  {
    hide IsPrompt, OnlyStars, NameOf;
    if Decider(lines, w, k) != k { RunFromWaiting(password, lines, w, k + 1); }
  }

  /** The conversation with su, exactly, for any lines and any answers of the world.  Everything
      hangs on the first line that is the header or asks for the password (a recognised prompt with
      no further output waiting).  The password is written upon that line and at no other time, only
      if there is one and the terminal went silent; ok means that the header came, either at once or
      after the password with nothing but stars and no ':' in between; "not authorised" means that
      after the password the stars came, and then a ':' or the end of input before the header. */
  lemma SuConversation(password: Option<Bytes>, lines: seq<Bytes>, w: World)
    ensures
      var (ret, writes) := SuRun(password, lines, w, WaitForPrompt, 0);
      var d := Decider(lines, w, 0);
      var answered := d < |lines| && lines[d] != HEADER && password.Some? && w.noEcho(d);
      && writes == (if answered then [d] else [])
      && (ret == OK <==>
            d < |lines| && (lines[d] == HEADER || (answered && Accepted(lines, d + 1))))
      && (ret == KILL_ME <==> d < |lines| && lines[d] != HEADER && password.None?)
      && (ret == NOT_AUTHORIZED <==> answered && StarsAt(lines, d + 1) && !Accepted(lines, d + 1))
  {
    hide IsPrompt, OnlyStars, NameOf;
    var d := Decider(lines, w, 0);
    RunFromWaiting(password, lines, w, 0);
    if d < |lines| {
      OkFromCheckStar(password, lines, w, d + 1);
      AfterPassword(password, lines, w, d + 1);
    }
  }

  /** Line k is what su prints in place of the password. */
  predicate StarsAt(lines: seq<Bytes>, k: nat)
  {
    k < |lines| && COLON !in lines[k] && lines[k] != HEADER && OnlyStars(lines[k])
  }

  lemma AfterPassword(password: Option<Bytes>, lines: seq<Bytes>, w: World, k: nat)
    requires k <= |lines|
    ensures
      var ret := SuRun(password, lines, w, CheckStar, k).0;
      if StarsAt(lines, k) then ret == OK || ret == NOT_AUTHORIZED else ret == OK || ret == ERROR
  {
    hide IsPrompt, OnlyStars, NameOf;
    if StarsAt(lines, k) { AfterStars(password, lines, w, k + 1); }
  }

  lemma {:induction false} AfterStars(password: Option<Bytes>, lines: seq<Bytes>, w: World, k: nat)
    requires k <= |lines|
    ensures SuRun(password, lines, w, HandleStub, k).0 in {OK, NOT_AUTHORIZED}
    decreases |lines| - k
  {
    hide IsPrompt, OnlyStars, NameOf;
    if k < |lines| { AfterStars(password, lines, w, k + 1); }
  }

  /** Once the password has been written, a line with a ':' ends the conversation without ok, if the
      header did not come before it: no later line is read, and for the first such line the result
      is "not authorised" if the stars came first and an error otherwise. */
  lemma ColonAfterPassword(password: Option<Bytes>, lines: seq<Bytes>, w: World, c: nat)
    requires
      var writes := SuRun(password, lines, w, WaitForPrompt, 0).1;
      writes != [] && writes[0] < c < |lines| && COLON in lines[c]
      && forall i | writes[0] < i < c :: lines[i] != HEADER
    ensures SuRun(password, lines, w, WaitForPrompt, 0).0 != OK
    ensures SuRun(password, lines[..c + 1], w, WaitForPrompt, 0) == SuRun(password, lines, w, WaitForPrompt, 0)
    ensures
      var (ret, writes) := SuRun(password, lines, w, WaitForPrompt, 0);
      (forall i | writes[0] < i < c :: COLON !in lines[i]) ==>
        ret == if c > writes[0] + 1 && OnlyStars(lines[writes[0] + 1]) then NOT_AUTHORIZED else ERROR
  {
    hide IsPrompt, OnlyStars, NameOf;
    HeaderIsOneLine();
    SuConversation(password, lines, w);
    NotAccepted(lines, Decider(lines, w, 0) + 1, c);
    EndsAtColon(password, lines, w, WaitForPrompt, 0, c);
    AfterPassword(password, lines, w, Decider(lines, w, 0) + 1);
    RunFromWaiting(password, lines, w, 0);
  }

  lemma {:induction false} EndsAtColon(
      password: Option<Bytes>, lines: seq<Bytes>, w: World, st: SuState, k: nat, c: nat)
    requires k <= c < |lines| && COLON in lines[c]
    requires st.WaitForPrompt? ==>
      SuRun(password, lines, w, st, k).1 != [] && SuRun(password, lines, w, st, k).1[0] < c
    ensures SuRun(password, lines[..c + 1], w, st, k) == SuRun(password, lines, w, st, k)
    decreases c - k
  {
    hide IsPrompt, OnlyStars, NameOf;
    assert lines[..c + 1][k] == lines[k];
    if lines[k] != HEADER && (COLON in lines[k] ==> st.WaitForPrompt?) {
      var step := HandleLine(password.Some?, lines[k], w.more(k), w.noEcho(k), st);
      if step.GoOn? {
        WritesAreLater(password, lines, w, st, k);
        EndsAtColon(password, lines, w, step.state, k + 1, c);
      }
    }
  }

  lemma {:induction false} WritesAreLater(password: Option<Bytes>, lines: seq<Bytes>, w: World, st: SuState, k: nat)
    requires k <= |lines|
    ensures
      var writes := SuRun(password, lines, w, st, k).1;
      writes != [] ==> k <= writes[0] && st.WaitForPrompt?
    decreases |lines| - k
  {
    hide IsPrompt, OnlyStars, NameOf;
    if k < |lines| {
      var step := HandleLine(password.Some?, lines[k], w.more(k), w.noEcho(k), st);
      if step.GoOn? { WritesAreLater(password, lines, w, step.state, k + 1); }
    }
  }

  lemma NotAccepted(lines: seq<Bytes>, k: nat, c: nat)
    requires k <= c < |lines| && COLON in lines[c]
    requires forall i | k <= i < c :: lines[i] != HEADER
    ensures !Accepted(lines, k)
  {
    hide NameOf, OnlyStars;
    HeaderIsOneLine();
    forall n | k <= n < |lines| ensures !HeaderAfterPassword(lines, k, n)
    {
      if n > c { assert !Quiet(lines, k, n); }
    }
  }

  // ---------------------------------------------------------------- exec

  datatype CheckMode = NoCheck | Install | NeedPassword

  const SU_NOT_FOUND := 1
  const SU_INCORRECT_PASSWORD := 3

  /** The return code of SuProcess::exec from what its parts report: whether the program was found
      and started, converseSU, converseStub, whether SIGKILL could be sent, and waitForChild. */
  function ExecCode(mode: CheckMode, sudo: bool, started: bool, su: int, killed: bool, stub: int, child: int): int
  {
    if !started then (if mode.NoCheck? then -1 else SU_NOT_FOUND)
    else if su == ERROR then ERROR
    else if mode.NeedPassword? then
      if su == KILL_ME && !sudo && (!killed || child < 0) then ERROR else su
    else if su != OK then SU_INCORRECT_PASSWORD
    else if stub < 0 then stub
    else if stub == 1 then SU_INCORRECT_PASSWORD
    else if mode.Install? then 0
    else child
  }

  function CheckNumber(mode: CheckMode): nat
  {
    match mode
    case NoCheck => 0
    case Install => 1
    case NeedPassword => 2
  }

  /** SuProcess::exec in its order of steps.  The terminal is the one of the started program; found,
      started, killable and child are what the system reports.  converseStub is given the lines of
      that same terminal, from the header that converseSU has put back. */
  method Exec(mode: CheckMode, sudo: bool, found: bool, started: bool, pty: LineBuffer, password: Option<Bytes>,
              w: World, s: StubProcess.Settings, killable: bool, child: int)
      returns (code: int, ghost su: int, ghost stub: int, ghost n: nat)
    modifies pty
    ensures su == SuRun(password, LineStream(old(pty.inputBuffer), old(pty.incoming)), w, WaitForPrompt, 0).0
    ensures found && started && su == OK && !mode.NeedPassword? ==>
      var all := InHand(old(pty.inputBuffer), old(pty.incoming), n);
      && TakeLine(all).0 == Some(HEADER)
      && stub == StubProcess.ParentRun(s, CheckNumber(mode), StubProcess.WaitHeader,
           LineStream(WithNewline(all), LaterChunks(AfterLines(old(pty.inputBuffer), old(pty.incoming), n).1))).0
    ensures code == ExecCode(mode, sudo, found && started, su, killable, stub, child)
  {
    hide SuRun, LineStream, TakeLine, AfterLines, StubProcess.ParentRun;
    su := SuRun(password, LineStream(pty.inputBuffer, pty.incoming), w, WaitForPrompt, 0).0;
    stub, n := 0, 0;
    if !found { return if mode.NoCheck? then -1 else SU_NOT_FOUND, su, stub, n; }
    if !started { return if mode.NoCheck? then -1 else SU_NOT_FOUND, su, stub, n; }
    var ret, written;
    ghost var writes;
    ret, written, writes, n := ConverseSU(pty, password, w);
    if ret == ERROR { return ret, su, stub, n; }
    if mode == NeedPassword {
      if ret == KILL_ME {
        if sudo { return ret, su, stub, n; }
        if !killable {
          ret := ERROR;
        } else if child < 0 {
          ret := ERROR;
        }
      }
      return ret, su, stub, n;
    }
    if ret != OK { return SU_INCORRECT_PASSWORD, su, stub, n; }
    var iret, answers := StubProcess.ConverseStub(s, CheckNumber(mode), LineStream(pty.inputBuffer, pty.incoming));
    stub := iret;
    if iret < 0 { return iret, su, stub, n; }
    if iret == 1 { return SU_INCORRECT_PASSWORD, su, stub, n; }
    if mode == Install { return 0, su, stub, n; }
    return child, su, stub, n;
  }

  /** checkInstall answers 0 exactly when everything went well. */
  lemma InstallIsExact(sudo: bool, started: bool, su: int, killed: bool, stub: int, child: int)
    requires su in {ERROR, OK, KILL_ME, NOT_AUTHORIZED} && stub in {-1, 0, 1}
    ensures ExecCode(Install, sudo, started, su, killed, stub, child) == 0 <==> started && su == OK && stub == 0
  {
  }

  /** checkNeedPassword cannot tell "no such program" from "a password is needed": both are 1. */
  lemma NeedPasswordIsAmbiguous(sudo: bool, started: bool, su: int, killed: bool, stub: int, child: int)
    requires su in {ERROR, OK, KILL_ME, NOT_AUTHORIZED}
    ensures ExecCode(NeedPassword, sudo, started, su, killed, stub, child) == 1 <==>
      !started || (su == KILL_ME && (sudo || (killed && child >= 0)))
  {
  }

  // What can come of the conversation with su, by what its lines show.

  /** The header came, at once or after the password. */
  predicate HeaderCame(password: Option<Bytes>, lines: seq<Bytes>, w: World)
  {
    var d := Decider(lines, w, 0);
    d < |lines| && (lines[d] == HEADER || (password.Some? && w.noEcho(d) && Accepted(lines, d + 1)))
  }

  /** A password was asked for and there is none. */
  predicate PasswordMissing(password: Option<Bytes>, lines: seq<Bytes>, w: World)
  {
    var d := Decider(lines, w, 0);
    d < |lines| && lines[d] != HEADER && password.None?
  }

  /** The stars for the password came, and then a ':' or the end before the header. */
  predicate PasswordRejected(password: Option<Bytes>, lines: seq<Bytes>, w: World)
  {
    var d := Decider(lines, w, 0);
    d < |lines| && lines[d] != HEADER && password.Some? && w.noEcho(d) && StarsAt(lines, d + 1) && !Accepted(lines, d + 1)
  }

  /** Anything else: the end of the output, an echoing terminal, or something else than stars. */
  predicate Broken(password: Option<Bytes>, lines: seq<Bytes>, w: World)
  {
    !HeaderCame(password, lines, w) && !PasswordMissing(password, lines, w) && !PasswordRejected(password, lines, w)
  }

  /** The return codes of exec by their causes, for any lines of su: those of checkInstall, of
      checkNeedPassword, and of exec without a check, where the program's own status is the code if and
      only if both conversations went well. */
  lemma ExecCodesByCause(password: Option<Bytes>, lines: seq<Bytes>, w: World, sudo: bool, started: bool, killed: bool,
                         stub: int, child: int)
    requires stub in {-1, 0, 1}
    ensures
      var su := SuRun(password, lines, w, WaitForPrompt, 0).0;
      var code := ExecCode(Install, sudo, started, su, killed, stub, child);
      && (code == 1 <==> !started)
      && (code == 0 <==> started && HeaderCame(password, lines, w) && stub == 0)
      && (code == 3 <==> started && (PasswordMissing(password, lines, w) || PasswordRejected(password, lines, w)
                                     || (HeaderCame(password, lines, w) && stub == 1)))
      && (code == -1 <==> started && (Broken(password, lines, w) || (HeaderCame(password, lines, w) && stub == -1)))
    ensures
      var su := SuRun(password, lines, w, WaitForPrompt, 0).0;
      var code := ExecCode(NeedPassword, sudo, started, su, killed, stub, child);
      var missing := PasswordMissing(password, lines, w);
      && (code == 1 <==> !started || (missing && (sudo || (killed && child >= 0))))
      && (code == 0 <==> started && HeaderCame(password, lines, w))
      && (code == 2 <==> started && PasswordRejected(password, lines, w))
      && (code == -1 <==> started && (Broken(password, lines, w) || (missing && !sudo && (!killed || child < 0))))
    ensures
      var su := SuRun(password, lines, w, WaitForPrompt, 0).0;
      ExecCode(NoCheck, sudo, started, su, killed, stub, child) ==
        if started && HeaderCame(password, lines, w) && stub == 0 then child
        else if started && !Broken(password, lines, w) && !(HeaderCame(password, lines, w) && stub == -1) then 3
        else -1
  {
    hide IsPrompt, OnlyStars, NameOf, SuRun, Decider, Accepted, StarsAt;
    SuConversation(password, lines, w);
    SuResults(password, lines, w);
  }

  lemma SuResults(password: Option<Bytes>, lines: seq<Bytes>, w: World)
    ensures SuRun(password, lines, w, WaitForPrompt, 0).0 in {ERROR, OK, KILL_ME, NOT_AUTHORIZED}
  {
    hide IsPrompt, OnlyStars, NameOf, StarsAt;
    var d := Decider(lines, w, 0);
    RunFromWaiting(password, lines, w, 0);
    if d < |lines| { AfterPassword(password, lines, w, d + 1); }
  }
}
