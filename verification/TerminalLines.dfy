/** Which cuts of a program's output reach the conversations as whole lines: readLine makes one read()
    and then hands out what there is (src/ptyprocess.cpp:228-249). */
module TerminalLines {
  import opened ByteStrings
  import opened PtyProcess
  import opened SuProcess
  import StubProcess

  function Newlines(s: Bytes): nat { multiset(s)[NL] }

  /** The output of a program that prints these lines. */
  function Text(ls: seq<Bytes>): Bytes
  {
    if ls == [] then [] else ls[0] + [NL] + Text(ls[1..])
  }

  /** read() blocks while nothing is buffered: it then returns something, unless it is at the end. */
  predicate Blocking(buf: Bytes, chunks: seq<Bytes>)
    decreases |chunks|, |buf|
  {
    var all := buf + NextChunk(chunks);
    && (buf == [] && chunks != [] ==> chunks[0] != [])
    && (all != [] ==> Blocking(TakeLine(all).1, LaterChunks(chunks)))
  }

  /** What the first k reads have brought. */
  function ReadBy(buf: Bytes, chunks: seq<Bytes>, k: nat): Bytes
  {
    buf + Concat(if k <= |chunks| then chunks[..k] else chunks)
  }

  predicate Enough(buf: Bytes, chunks: seq<Bytes>, k: nat)
  {
    Newlines(ReadBy(buf, chunks, k)) >= k
  }

  /** With each read, at least as many lines have come as are then handed out. */
  predicate InTime(buf: Bytes, chunks: seq<Bytes>, n: nat)
  {
    forall k: nat | 1 <= k <= n :: Enough(buf, chunks, k)
  }

  lemma NewlinesAdd(a: Bytes, b: Bytes)
    ensures Newlines(a + b) == Newlines(a) + Newlines(b)
    ensures Newlines(a) == 0 <==> NL !in a
  {
  }

  /** One readLine, in these terms. */
  lemma OneLineLess(all: Bytes)
    requires NL in all
    ensures TakeLine(all).0.Some? && all == TakeLine(all).0.value + [NL] + TakeLine(all).1
    ensures Newlines(all) == 1 + Newlines(TakeLine(all).1)
  {
    LineConservation(all);
    NewlinesAdd(TakeLine(all).0.value + [NL], TakeLine(all).1);
    NewlinesAdd(TakeLine(all).0.value, [NL]);
  }

  lemma AllRead(buf: Bytes, chunks: seq<Bytes>)
    ensures buf + Concat(chunks) == buf + NextChunk(chunks) + Concat(LaterChunks(chunks))
  {
    if chunks == [] {
      ConcatNothing();
      assert buf + [] + [] == buf + [];
    } else {
      ConcatFirst(chunks);
      Associate(buf, chunks[0], Concat(chunks[1..]));
    }
  }

  /** At least one line is handed out for each that was printed. */
  lemma {:induction false} NoFewerLines(buf: Bytes, chunks: seq<Bytes>)
    requires Blocking(buf, chunks)
    ensures |LineStream(buf, chunks)| >= Newlines(buf + Concat(chunks))
    decreases |chunks|, |buf|
  {
    hide TakeLine, LineStream, Concat, Newlines;
    var all := buf + NextChunk(chunks);
    LineStreamUnfolds(buf, chunks);
    LineConservation(all);
    AllRead(buf, chunks);
    if all == [] {
      NothingRead(chunks);
    } else {
      var rest, later := TakeLine(all).1, LaterChunks(chunks);
      Shrinks(buf, chunks);
      NoFewerLines(rest, later);
      NewlinesAdd(all, Concat(later));
      NewlinesAdd(rest, Concat(later));
      if NL in all { OneLineLess(all); } else { NewlinesAdd(all, []); WholePiece(all); }
    }
  }

  lemma NothingRead(chunks: seq<Bytes>)
    requires chunks == []
    ensures Newlines([] + Concat(chunks)) == 0
  {
  }

  lemma WholePiece(all: Bytes)
    requires NL !in all && all != []
    ensures TakeLine(all) == (Some(all), [])
  {
  }

  lemma Shrinks(buf: Bytes, chunks: seq<Bytes>)
    requires buf + NextChunk(chunks) != []
    ensures |LaterChunks(chunks)| < |chunks| || |TakeLine(buf + NextChunk(chunks)).1| < |buf|
  {
  }

  /** The lines handed out, exactly: they are the lines printed if and only if every read comes in
      time.  Otherwise some piece of a line is handed out as if it were one. */
  lemma {:induction false} WholeLinesExactly(buf: Bytes, chunks: seq<Bytes>, ls: seq<Bytes>)
    requires Blocking(buf, chunks)
    requires forall i | 0 <= i < |ls| :: NL !in ls[i]
    requires buf + Concat(chunks) == Text(ls)
    ensures LineStream(buf, chunks) == ls <==> InTime(buf, chunks, |ls|)
    decreases ls
  {
    hide TakeLine, LineStream, Concat, Newlines, InTime;
    var all, later := buf + NextChunk(chunks), LaterChunks(chunks);
    LineStreamUnfolds(buf, chunks);
    AllRead(buf, chunks);
    LineConservation(all);
    if ls == [] {
      assert all == [] by { assert |all + Concat(later)| == 0; }
      NoneInTime(buf, chunks);
    } else if NL in all {
      FirstIsPrinted(all, Concat(later), ls);
      WholeLinesExactly(TakeLine(all).1, later, ls[1..]);
      OneLineLess(all);
      InTimeStep(buf, chunks, TakeLine(all).1, |ls|);
      assert ls == [ls[0]] + ls[1..];
    } else {
      TooLate(buf, chunks, |ls|);
      TextNewlines(ls);
      if all != [] {
        WholePiece(all);
        NoFewerLines([], later);
        NewlinesAdd(all, Concat(later));
        assert [] + Concat(later) == Concat(later);
      }
    }
  }

  lemma NoneInTime(buf: Bytes, chunks: seq<Bytes>)
    ensures InTime(buf, chunks, 0)
  {
  }

  lemma {:induction false} TextNewlines(ls: seq<Bytes>)
    requires forall i | 0 <= i < |ls| :: NL !in ls[i]
    ensures Newlines(Text(ls)) == |ls|
  {
    hide Newlines;
    NewlinesAdd([], []);
    if ls != [] {
      TextNewlines(ls[1..]);
      NewlinesAdd(ls[0] + [NL], Text(ls[1..]));
      NewlinesAdd(ls[0], [NL]);
      assert Newlines([NL]) == 1 by { JustOne(); }
    }
  }

  lemma JustOne()
    ensures Newlines([NL]) == 1
  {
  }

  /** The first newline that was read ends the first line that was printed. */
  lemma FirstIsPrinted(all: Bytes, more: Bytes, ls: seq<Bytes>)
    requires NL in all && ls != [] && NL !in ls[0] && all + more == Text(ls)
    ensures TakeLine(all).0 == Some(ls[0]) && TakeLine(all).1 + more == Text(ls[1..])
  {
    hide TakeLine, IndexOf;
    OneLineLess(all);
    LineConservation(all);
    var line, rest := TakeLine(all).0.value, TakeLine(all).1;
    assert line + [NL] + (rest + more) == Text(ls);
    IndexOfAppend(line, rest + more, NL);
    IndexOfAppend(ls[0], Text(ls[1..]), NL);
    assert Text(ls)[..|line|] == line && Text(ls)[..|line|] == ls[0];
    assert Text(ls)[|line| + 1..] == rest + more && Text(ls)[|line| + 1..] == Text(ls[1..]);
  }

  lemma ReadByStep(buf: Bytes, chunks: seq<Bytes>, k: nat)
    ensures ReadBy(buf, chunks, k + 1) == ReadBy(buf + NextChunk(chunks), LaterChunks(chunks), k)
  {
    hide Concat;
    if chunks == [] {
      ConcatNothing();
    } else {
      var c := if k + 1 <= |chunks| then chunks[..k + 1] else chunks;
      ConcatFirst(c);
      assert c[1..] == if k <= |chunks[1..]| then chunks[1..][..k] else chunks[1..];
      Associate(buf, chunks[0], Concat(c[1..]));
    }
  }

  lemma InTimeStep(buf: Bytes, chunks: seq<Bytes>, rest: Bytes, n: nat)
    requires n > 0
    requires NL in buf + NextChunk(chunks) && rest == TakeLine(buf + NextChunk(chunks)).1
    ensures InTime(buf, chunks, n) <==> InTime(rest, LaterChunks(chunks), n - 1)
  {
    hide TakeLine, Newlines, ReadBy, Enough;
    var all, later := buf + NextChunk(chunks), LaterChunks(chunks);
    forall k: nat ensures Enough(buf, chunks, k + 1) <==> Enough(rest, later, k)
    {
      ReadByStep(buf, chunks, k);
      OneLineLess(all);
      ReadsOn(all, rest, later, k);
      EnoughMeans(buf, chunks, k + 1);
      EnoughMeans(rest, later, k);
    }
    EnoughMeans(rest, later, 0);
    if InTime(buf, chunks, n) {
      forall k: nat | 1 <= k <= n - 1 ensures Enough(rest, later, k)
      {
        assert Enough(buf, chunks, k + 1);
      }
    }
    if InTime(rest, later, n - 1) {
      forall k: nat | 1 <= k <= n ensures Enough(buf, chunks, k)
      {
        assert Enough(buf, chunks, (k - 1) + 1) <==> Enough(rest, later, k - 1);
      }
    }
  }

  lemma EnoughMeans(buf: Bytes, chunks: seq<Bytes>, k: nat)
    ensures Enough(buf, chunks, k) <==> Newlines(ReadBy(buf, chunks, k)) >= k
  {
  }

  lemma ReadsOn(all: Bytes, rest: Bytes, later: seq<Bytes>, k: nat)
    requires Newlines(all) == 1 + Newlines(rest)
    ensures Newlines(ReadBy(all, later, k)) == 1 + Newlines(ReadBy(rest, later, k))
  {
    hide Newlines, Concat;
    var c := Concat(if k <= |later| then later[..k] else later);
    NewlinesAdd(all, c);
    NewlinesAdd(rest, c);
  }

  lemma TooLate(buf: Bytes, chunks: seq<Bytes>, n: nat)
    requires n > 0 && NL !in buf + NextChunk(chunks)
    ensures !InTime(buf, chunks, n)
  {
    hide Newlines;
    ReadByStep(buf, chunks, 0);
    NewlinesAdd(buf + NextChunk(chunks), []);
    NothingMore(buf + NextChunk(chunks), LaterChunks(chunks));
    assert !Enough(buf, chunks, 1) by { EnoughMeans(buf, chunks, 0 + 1); }
  }

  lemma NothingMore(buf: Bytes, chunks: seq<Bytes>)
    ensures ReadBy(buf, chunks, 0) == buf
  {
    assert chunks[..0] == [] && buf + [] == buf;
  }

  /** So a conversation over output that comes in time is the one over its lines. */
  lemma ConversesInLines(
      buf: Bytes, chunks: seq<Bytes>, ls: seq<Bytes>, s: StubProcess.Settings, check: int, st: StubProcess.ParentState)
    requires Blocking(buf, chunks) && InTime(buf, chunks, |ls|)
    requires (forall i | 0 <= i < |ls| :: NL !in ls[i]) && buf + Concat(chunks) == Text(ls)
    ensures StubProcess.ParentRun(s, check, st, LineStream(buf, chunks)) == StubProcess.ParentRun(s, check, st, ls)
  {
    hide InTime, Blocking, LineStream, Concat, Text;
    WholeLinesExactly(buf, chunks, ls);
  }
}
