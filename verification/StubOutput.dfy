/** Which cuts of kdesu_stub's output converseStub understands (src/stubprocess.cpp:117-222,
    src/kdesu_stub.c:186-302): readLine may hand out a piece of a line as if it were one. */
module StubOutput {
  import opened ByteStrings
  import opened PtyProcess
  import opened SuProcess
  import opened StubWords
  import opened TerminalLines
  import StubProcess
  import Stub
  import StubConversation

  type Settings = StubProcess.Settings
  type ParentState = StubProcess.ParentState

  /** What the stub prints, one word a line. */
  function Requests(check: int): seq<Word>
  {
    if check != 0 then [Header, End]
    else
      [Header, Display, DisplayAuth, Command, Path, XWindowsOnly, User, Priority, Scheduler, AppStartupId,
       Environment, End]
  }

  function Names(ws: seq<Word>): seq<Bytes>
  {
    if ws == [] then [] else [NameOf(ws[0])] + Names(ws[1..])
  }

  /** The words that are still to come, up to the first and last end. */
  predicate OnCourse(st: ParentState, ws: seq<Word>)
  {
    && !st.Done? && ws != [] && ws[|ws| - 1] == End
    && (st.WaitHeader? <==> ws[0] == Header)
    && (forall i | 0 < i < |ws| :: ws[i] != Header)
    && (forall i | 0 <= i < |ws| - 1 :: ws[i] != End)
  }

  /** Each read but the last has come as far as its line's newline, the last one as far as its word. */
  predicate Timely(buf: Bytes, chunks: seq<Bytes>, n: nat)
  {
    n > 0 && InTime(buf, chunks, n - 1) && |ReadBy(buf, chunks, n)| + 1 >= |buf + Concat(chunks)|
  }

  // ---------------------------------------------------------------- pieces of words

  /** The first letters of a word: kde dis com pat xwi use pri sch app env end */
  predicate Begins(a: Byte, b: Byte, c: Byte)
  {
    || (a == 107 && b == 100 && c == 101) || (a == 100 && b == 105 && c == 115)
    || (a == 99 && b == 111 && c == 109) || (a == 112 && b == 97 && c == 116)
    || (a == 120 && b == 119 && c == 105) || (a == 117 && b == 115 && c == 101)
    || (a == 112 && b == 114 && c == 105) || (a == 115 && b == 99 && c == 104)
    || (a == 97 && b == 112 && c == 112) || (a == 101 && b == 110 && c == 118)
    || (a == 101 && b == 110 && c == 100)
  }

  lemma NamesBegin(v: Word)
    ensures |NameOf(v)| >= 3 && Begins(NameOf(v)[0], NameOf(v)[1], NameOf(v)[2])
    ensures NL !in NameOf(v)
  {
  }

  predicate LongWord(w: Word) { w.DisplayAuth? || w.XWindowsOnly? || w.AppStartupId? || w.AppStartPid? }

  lemma NoneInside(w: Word, i: nat)
    requires 0 < i
    ensures i + 3 <= |NameOf(w)| ==> !Begins(NameOf(w)[i], NameOf(w)[i + 1], NameOf(w)[i + 2])
  {
    hide *;
    if LongWord(w) { NoneInsideLong(w, i); } else { NoneInsideShort(w, i); }
  }

  lemma NoneInsideLong(w: Word, i: nat)
    requires 0 < i && LongWord(w)
    ensures i + 3 <= |NameOf(w)| ==> !Begins(NameOf(w)[i], NameOf(w)[i + 1], NameOf(w)[i + 2])
  {
    match w {
      case DisplayAuth =>
      case XWindowsOnly =>
      case AppStartupId =>
      case AppStartPid =>
    }
  }

  lemma NoneInsideShort(w: Word, i: nat)
    requires 0 < i && !LongWord(w)
    ensures i + 3 <= |NameOf(w)| ==> !Begins(NameOf(w)[i], NameOf(w)[i + 1], NameOf(w)[i + 2])
  {
    match w {
      case Header =>
      case Display =>
      case Command =>
      case Path =>
      case User =>
      case Priority =>
      case Scheduler =>
      case Environment =>
      case End =>
    }
  }

  /** No word is found inside another one, unless at its beginning. */
  lemma InnerIsNoWord(w: Word, i: nat, j: nat)
    requires 0 < i <= j <= |NameOf(w)|
    ensures Recognise(NameOf(w)[i..j]) == None
  {
    hide NameOf, Recognise, Begins;
    var x := NameOf(w)[i..j];
    NoneInside(w, i);
    assert forall k | 0 <= k < |x| :: x[k] == NameOf(w)[i + k];
    if Recognise(x).Some? {
      RecognisesNames(x, Recognise(x).value);
      NamesBegin(Recognise(x).value);
    }
  }

  lemma EndIsNoBeginning(w: Word, j: nat)
    requires j <= |NameOf(w)| && NameOf(w)[..j] == NameOf(End)
    ensures w == End
  {
    assert NameOf(w)[..j][2] == NameOf(w)[2];
    assert NameOf(w)[..j][0] == NameOf(w)[0];
  }

  lemma BeginningOfEnd(j: nat)
    requires j < |NameOf(End)|
    ensures Recognise(NameOf(End)[..j]) == None
  {
    hide NameOf, Recognise;
    var x := NameOf(End)[..j];
    if Recognise(x).Some? {
      RecognisesNames(x, Recognise(x).value);
      NamesBegin(Recognise(x).value);
      EndHasThree();
    }
  }

  lemma EndHasThree()
    ensures |NameOf(End)| == 3
  {
  }

  const LETTER_K: Byte := 107

  lemma OnlyHeaderHasK(w: Word)
    ensures w != Header ==> LETTER_K !in NameOf(w)
    ensures NameOf(w) != [] && (w == Header ==> LETTER_K in NameOf(w) && LETTER_K !in NameOf(w)[1..])
  {
    hide NameOf;
    if w == Header { HeaderBegins(); } else { OthersHaveNoK(w); }
  }

  lemma HeaderBegins()
    ensures NameOf(Header) != [] && LETTER_K in NameOf(Header) && LETTER_K !in NameOf(Header)[1..]
  {
    assert NameOf(Header)[0] == LETTER_K;
  }

  lemma OthersHaveNoK(w: Word)
    requires w != Header
    ensures NameOf(w) != [] && LETTER_K !in NameOf(w)
  {
    match w {
      case Display =>
      case DisplayAuth =>
      case Command =>
      case Path =>
      case XWindowsOnly =>
      case User =>
      case Priority =>
      case Scheduler =>
      case AppStartupId =>
      case AppStartPid =>
      case Environment =>
      case End =>
    }
  }

  // ---------------------------------------------------------------- one piece

  /** Without a newline, what was read is the beginning of the first line. */
  lemma PieceIsBeginning(all: Bytes, more: Bytes, ls: seq<Bytes>)
    requires NL !in all && ls != [] && all + more == Text(ls)
    ensures |all| <= |ls[0]| && all == ls[0][..|all|]
    ensures more == Text([ls[0][|all|..]] + ls[1..])
  {
    var line, t := ls[0], Text(ls[1..]);
    assert Text(ls)[|line|] == NL;
    assert forall k | 0 <= k < |all| :: all[k] == (all + more)[k];
    assert all == Text(ls)[..|all|] == line[..|all|];
    assert more == Text(ls)[|all|..] == line[|all|..] + [NL] + t;
    var cut := [line[|all|..]] + ls[1..];
    assert cut[0] == line[|all|..] && cut[1..] == ls[1..];
  }

  /** What a request does to a parent that is being asked. */
  lemma ServingStep(s: Settings, check: int, line: Bytes)
    ensures
      var st := StubProcess.ParentStep(s, check, StubProcess.Serving, line).0;
      && (Recognise(line) == None ==> st == StubProcess.Done(1))
      && (Recognise(line) == Some(End) ==> st == StubProcess.Done(0))
      && (Recognise(line) == Some(Header) ==> st == StubProcess.Done(1))
      && (Recognise(line).Some? && Recognise(line).value != Header && Recognise(line).value != End
          ==> st == StubProcess.Serving)
  {
    hide NameOf, Recognise, StubProcess.PathValue, StubProcess.StartupId, StubProcess.EnvLines;
  }

  lemma WaitingStep(s: Settings, check: int, line: Bytes)
    ensures
      StubProcess.ParentStep(s, check, StubProcess.WaitHeader, line).0 ==
        if line == NameOf(Header) then StubProcess.Serving else StubProcess.WaitHeader
  {
    hide NameOf;
  }

  function Ret(s: Settings, check: int, st: ParentState, buf: Bytes, chunks: seq<Bytes>): int
  {
    StubProcess.ParentRun(s, check, st, LineStream(buf, chunks)).0
  }

  /** One readLine and what it does. */
  lemma RetStep(s: Settings, check: int, st: ParentState, buf: Bytes, chunks: seq<Bytes>)
    requires !st.Done?
    ensures
      var (line, rest) := TakeLine(buf + NextChunk(chunks));
      Ret(s, check, st, buf, chunks) ==
        if line.None? then -1
        else Ret(s, check, StubProcess.ParentStep(s, check, st, line.value).0, rest, LaterChunks(chunks))
  {
    hide TakeLine, LineStream, StubProcess.ParentStep;
    LineStreamUnfolds(buf, chunks);
    var all := buf + NextChunk(chunks);
    if TakeLine(all).0.Some? {
      var line := TakeLine(all).0.value;
      var later := LineStream(TakeLine(all).1, LaterChunks(chunks));
      assert ([line] + later)[1..] == later;
      StubProcess.ParentRunUnfolds(s, check, st, [line] + later);
    }
  }

  lemma RetDone(s: Settings, check: int, ret: int, buf: Bytes, chunks: seq<Bytes>)
    ensures Ret(s, check, StubProcess.Done(ret), buf, chunks) == ret
  {
  }

  /** Once a line was cut, the rest of it is not understood. */
  lemma OffCourse(s: Settings, check: int, chunks: seq<Bytes>, w: Word, i: nat, ls: seq<Bytes>)
    requires 0 < i <= |NameOf(w)| && Concat(chunks) == Text([NameOf(w)[i..]] + ls)
    ensures Ret(s, check, StubProcess.Serving, [], chunks) != 0
  {
    hide TakeLine, NameOf, Recognise, Ret, Text, Concat, StubProcess.ParentStep;
    var all, later := [] + NextChunk(chunks), LaterChunks(chunks);
    var unread := [NameOf(w)[i..]] + ls;
    RetStep(s, check, StubProcess.Serving, [], chunks);
    LineConservation(all);
    AllRead([], chunks);
    assert [] + Concat(chunks) == Concat(chunks);
    if all != [] {
      var line := TakeLine(all).0.value;
      NamesBegin(w);
      if NL in all {
        FirstIsPrinted(all, Concat(later), unread);
        assert line == NameOf(w)[i..|NameOf(w)|];
        InnerIsNoWord(w, i, |NameOf(w)|);
      } else {
        WholePiece(all);
        PieceIsBeginning(all, Concat(later), unread);
        assert line == NameOf(w)[i..i + |all|];
        InnerIsNoWord(w, i, i + |all|);
      }
      ServingStep(s, check, line);
      RetDone(s, check, 1, TakeLine(all).1, later);
    }
  }

  /** Once the header was cut, it is waited for until the end. */
  lemma {:induction false} NoHeaderLeft(s: Settings, check: int, buf: Bytes, chunks: seq<Bytes>)
    requires LETTER_K !in buf + Concat(chunks)
    ensures Ret(s, check, StubProcess.WaitHeader, buf, chunks) == -1
    decreases |chunks|, |buf|
  {
    hide TakeLine, NameOf, Ret, Concat, StubProcess.ParentStep;
    var all, later := buf + NextChunk(chunks), LaterChunks(chunks);
    RetStep(s, check, StubProcess.WaitHeader, buf, chunks);
    LineConservation(all);
    AllRead(buf, chunks);
    if all != [] {
      var line, rest := TakeLine(all).0.value, TakeLine(all).1;
      PiecesOf(all, later);
      WaitingStep(s, check, line);
      OnlyHeaderHasK(Header);
      Shrinks(buf, chunks);
      NoHeaderLeft(s, check, rest, later);
    }
  }

  lemma PiecesOf(all: Bytes, later: seq<Bytes>)
    requires all != [] && LETTER_K !in all + Concat(later)
    ensures TakeLine(all).0.Some? && LETTER_K !in TakeLine(all).0.value
    ensures LETTER_K !in TakeLine(all).1 + Concat(later)
  {
    hide TakeLine, Concat;
    LineConservation(all);
    if NL in all { OneLineLess(all); } else { WholePiece(all); }
  }

  // ---------------------------------------------------------------- all of them

  lemma TextMeasure(line: Bytes, ls: seq<Bytes>)
    ensures Text([line] + ls) == line + [NL] + Text(ls)
    ensures |Text([line] + ls)| == |line| + 1 + |Text(ls)|
  {
    assert ([line] + ls)[1..] == ls;
  }

  lemma NamesFirst(ws: seq<Word>)
    requires ws != []
    ensures Names(ws) == [NameOf(ws[0])] + Names(ws[1..])
    ensures Text(Names(ws)) == NameOf(ws[0]) + [NL] + Text(Names(ws[1..]))
  {
    hide NameOf;
    TextMeasure(NameOf(ws[0]), Names(ws[1..]));
  }

  lemma {:induction false} NoOtherK(ws: seq<Word>)
    requires Header !in ws
    ensures LETTER_K !in Text(Names(ws))
  {
    hide NameOf, Names;
    if ws == [] {
      assert Names(ws) == [] by { NoNames(); }
    } else {
      NamesFirst(ws);
      OnlyHeaderHasK(ws[0]);
      NoOtherK(ws[1..]);
    }
  }

  lemma NoNames()
    ensures Names([]) == []
  {
  }

  lemma ReadFirst(buf: Bytes, chunks: seq<Bytes>)
    ensures ReadBy(buf, chunks, 1) == buf + NextChunk(chunks)
  {
    ReadByStep(buf, chunks, 0);
    NothingMore(buf + NextChunk(chunks), LaterChunks(chunks));
  }

  /** With one line read, the others have to be in time. */
  lemma TimelyStep(buf: Bytes, chunks: seq<Bytes>, rest: Bytes, n: nat)
    requires n > 1
    requires NL in buf + NextChunk(chunks) && rest == TakeLine(buf + NextChunk(chunks)).1
    ensures Timely(buf, chunks, n) <==> Timely(rest, LaterChunks(chunks), n - 1)
  {
    hide TakeLine, InTime, Concat;
    var all, later := buf + NextChunk(chunks), LaterChunks(chunks);
    InTimeStep(buf, chunks, rest, n - 1);
    ReadByStep(buf, chunks, n - 1);
    AllRead(buf, chunks);
    OneLineLess(all);
  }

  /** The last word, with or without its newline. */
  lemma LastWord(s: Settings, check: int, buf: Bytes, chunks: seq<Bytes>)
    requires buf + Concat(chunks) == Text(Names([End]))
    ensures Ret(s, check, StubProcess.Serving, buf, chunks) == 0 <==> Timely(buf, chunks, 1)
  {
    hide TakeLine, NameOf, Recognise, Ret, Text, Concat, StubProcess.ParentStep, Names, ReadBy;
    var all, later := buf + NextChunk(chunks), LaterChunks(chunks);
    var names := Names([End]);
    RetStep(s, check, StubProcess.Serving, buf, chunks);
    LineConservation(all);
    AllRead(buf, chunks);
    ReadFirst(buf, chunks);
    NoneInTime(buf, chunks);
    OnlyEnd();
    if all != [] {
      var line := TakeLine(all).0.value;
      ServingStep(s, check, line);
      RetDone(s, check, 0, TakeLine(all).1, later);
      RetDone(s, check, 1, TakeLine(all).1, later);
      RecognisesNames(NameOf(End), End);
      if NL in all {
        FirstIsPrinted(all, Concat(later), names);
        OneLineLess(all);
      } else {
        WholePiece(all);
        PieceIsBeginning(all, Concat(later), names);
        if |all| < 3 { BeginningOfEnd(|all|); }
        assert |all| == 3 ==> all == NameOf(End);
      }
    }
  }

  lemma OnlyEnd()
    ensures Names([End]) == [NameOf(End)] && |NameOf(End)| == 3 && NL !in NameOf(End)
    ensures |Text(Names([End]))| == 4
  {
    NamesFirst([End]);
    NoNames();
    assert |Text([])| == 0;
  }

  /** A line that was cut at its beginning, with others behind it. */
  lemma CutLine(s: Settings, check: int, st: ParentState, ws: seq<Word>, all: Bytes, later: seq<Bytes>)
    requires OnCourse(st, ws) && |ws| > 1
    requires NL !in all && all != [] && all + Concat(later) == Text(Names(ws))
    ensures Ret(s, check, StubProcess.ParentStep(s, check, st, all).0, [], later) != 0
  {
    hide NameOf, Recognise, Ret, Text, Concat, StubProcess.ParentStep, Names;
    NamesFirst(ws);
    var w, ls := ws[0], Names(ws[1..]);
    PieceIsBeginning(all, Concat(later), Names(ws));
    assert Names(ws)[0] == NameOf(w) && Names(ws)[1..] == ls;
    if st.WaitHeader? {
      WaitingStep(s, check, all);
      if all == NameOf(Header) {
        OffCourse(s, check, later, w, |all|, ls);
      } else {
        OnlyHeaderHasK(Header);
        NoOtherK(ws[1..]);
        TextMeasure(NameOf(w)[|all|..], ls);
        assert forall x | x in NameOf(w)[|all|..] :: x in NameOf(w)[1..];
        assert [] + Concat(later) == Concat(later);
        NoHeaderLeft(s, check, [], later);
      }
    } else {
      ServingStep(s, check, all);
      RetDone(s, check, 1, [], later);
      if Recognise(all).Some? {
        var v := Recognise(all).value;
        RecognisesNames(all, v);
        if v == End { EndIsNoBeginning(w, |all|); }
        if v != Header { OffCourse(s, check, later, w, |all|, ls); }
      }
    }
  }

  /** A line that was read as a whole, with others behind it. */
  lemma WholeLine(s: Settings, check: int, st: ParentState, ws: seq<Word>)
    requires OnCourse(st, ws) && |ws| > 1
    ensures StubProcess.ParentStep(s, check, st, NameOf(ws[0])).0 == StubProcess.Serving
    ensures OnCourse(StubProcess.Serving, ws[1..])
  {
    hide NameOf, Recognise, StubProcess.ParentStep;
    RecognisesNames(NameOf(ws[0]), ws[0]);
    ServingStep(s, check, NameOf(ws[0]));
    WaitingStep(s, check, NameOf(ws[0]));
  }

  /** converseStub and any cut of such output, exactly: it returns 0 if and only if every read comes
      in time, where the last word need not have its newline yet. */
  lemma {:induction false} ConversesExactly(
      s: Settings, check: int, st: ParentState, ws: seq<Word>, buf: Bytes, chunks: seq<Bytes>)
    requires OnCourse(st, ws) && buf + Concat(chunks) == Text(Names(ws))
    ensures Ret(s, check, st, buf, chunks) == 0 <==> Timely(buf, chunks, |ws|)
    decreases ws
  {
    hide TakeLine, NameOf, Ret, Text, Concat, StubProcess.ParentStep, Names, ReadBy, InTime, OnCourse;
    var all, later := buf + NextChunk(chunks), LaterChunks(chunks);
    CourseBegins(st, ws);
    if |ws| == 1 {
      assert ws == [End];
      LastWord(s, check, buf, chunks);
    } else {
      RetStep(s, check, st, buf, chunks);
      LineConservation(all);
      AllRead(buf, chunks);
      NamesFirst(ws);
      if NL in all {
        NamesBegin(ws[0]);
        assert Names(ws)[0] == NameOf(ws[0]) && Names(ws)[1..] == Names(ws[1..]);
        FirstIsPrinted(all, Concat(later), Names(ws));
        WholeLine(s, check, st, ws);
        ConversesExactly(s, check, StubProcess.Serving, ws[1..], TakeLine(all).1, later);
        TimelyStep(buf, chunks, TakeLine(all).1, |ws|);
      } else {
        TooLate(buf, chunks, |ws| - 1);
        if all != [] {
          WholePiece(all);
          CutLine(s, check, st, ws, all, later);
        }
      }
    }
  }

  lemma CourseBegins(st: ParentState, ws: seq<Word>)
    requires OnCourse(st, ws)
    ensures !st.Done? && ws != [] && (|ws| == 1 ==> ws == [End] && st.Serving?)
  {
    if |ws| == 1 { assert ws == [ws[0]]; }
  }

  // ---------------------------------------------------------------- what the stub prints

  /** The lines that the parent takes in the first n moves of the conversation. */
  function Taken(s: Settings, check: int, n: nat): seq<Bytes>
    requires n <= StubConversation.EndOf(s, check)
  {
    if n == 0 then []
    else
      Taken(s, check, n - 1)
      + if StubConversation.Moves(s, check, n - 1).StubTurn? then []
        else StubConversation.Course(s, check, n - 1).toParent
  }

  function CountAt(s: Settings, n: nat): nat
  {
    if n <= 21 then (n + 1) / 2 else if n <= 22 + |s.env| then 11 else 12
  }

  lemma LineOfMove(s: Settings, n: nat)
    requires n < StubConversation.Last(s)
    ensures
      CountAt(s, n + 1) == CountAt(s, n) + if StubConversation.Mover(s, n).StubTurn? then 0 else 1
    ensures CountAt(s, n + 1) <= 12
    ensures StubConversation.Mover(s, n).ParentTurn? ==>
      StubConversation.SystemAt(s, n).toParent == [NameOf(Requests(0)[CountAt(s, n)])]
  {
    hide NameOf, StubConversation.Params, StubProcess.EnvLines;
  }

  lemma {:induction false} NamesPush(ws: seq<Word>, w: Word)
    ensures Names(ws + [w]) == Names(ws) + [NameOf(w)]
  {
    hide NameOf;
    if ws == [] {
      NamesFirst([w]);
      NoNames();
      assert ws + [w] == [w];
    } else {
      NamesFirst(ws + [w]);
      assert (ws + [w])[1..] == ws[1..] + [w];
      NamesPush(ws[1..], w);
    }
  }

  lemma {:induction false} TakenSoFar(s: Settings, n: nat)
    requires n <= StubConversation.Last(s)
    ensures CountAt(s, n) <= 12 && Taken(s, 0, n) == Names(Requests(0)[..CountAt(s, n)])
  {
    hide NameOf, Names, StubConversation.SystemAt, CountAt, StubConversation.Mover;
    if n == 0 {
      CountsFromZero(s);
      NoNames();
      assert Requests(0)[..0] == [];
    } else {
      TakenSoFar(s, n - 1);
      LineOfMove(s, n - 1);
      var c := CountAt(s, n - 1);
      if StubConversation.Mover(s, n - 1).ParentTurn? {
        NamesPush(Requests(0)[..c], Requests(0)[c]);
        assert Requests(0)[..c + 1] == Requests(0)[..c] + [Requests(0)[c]];
      }
    }
  }

  lemma CountsFromZero(s: Settings)
    ensures CountAt(s, 0) == 0 && CountAt(s, StubConversation.Last(s)) == 12
  {
  }

  /** The lines of the whole conversation. */
  lemma TakesRequests(s: Settings, check: int)
    ensures Taken(s, check, StubConversation.EndOf(s, check)) == Names(Requests(check))
  {
    hide NameOf, Names, CountAt, StubConversation.SystemAt, StubConversation.Mover;
    if check == 0 {
      TakenSoFar(s, StubConversation.Last(s));
      CountsFromZero(s);
      assert Requests(0)[..12] == Requests(0);
    } else {
      NamesFirst([Header, End]);
      OnlyEnd();
      assert [Header, End][1..] == [End];
      assert Taken(s, check, 1) == [NameOf(Header)];
    }
  }

  /** The whole output of the stub, however it is cut: converseStub returns 0 if and only if every
      read comes in time. */
  lemma StubIsHeardExactly(s: Settings, check: int, buf: Bytes, chunks: seq<Bytes>)
    requires buf + Concat(chunks) == Text(Taken(s, check, StubConversation.EndOf(s, check)))
    ensures
      StubProcess.ParentRun(s, check, StubProcess.WaitHeader, LineStream(buf, chunks)).0 == 0
      <==> Timely(buf, chunks, |Requests(check)|)
  {
    hide NameOf, Names, Text, Timely, LineStream, Concat, Taken, StubProcess.ParentRun;
    TakesRequests(s, check);
    ConversesExactly(s, check, StubProcess.WaitHeader, Requests(check), buf, chunks);
  }
}
