/** How many signals waitForChild sends (src/ptyprocess.cpp:462-472).  After a match the rest of the
    line is taken for the beginning of one, so a second copy there is found when it arrives later. */
module SignalCount {
  import opened ByteStrings
  import opened PtyProcess

  /** Two copies of the exit string, the first one at a line start. */
  predicate DoubledAt(out: Bytes, m: Bytes, p: nat)
  {
    MatchAt(out, m, p) && OccursAt(out, m, p + |m|)
  }

  predicate Doubled(out: Bytes, m: Bytes)
  {
    exists p: nat | p <= |out| :: DoubledAt(out, m, p)
  }

  /** What is left of a text once a match at its start has been removed. */
  function Unmatched(r: Bytes, m: Bytes): (r1: Bytes)
    requires |r| >= |m|
    ensures |r1| <= |r|
  {
    if StartsWith(r, m) then r[|m|..] else r
  }

  function Counted(r: Bytes, m: Bytes, k: nat): nat { if StartsWith(r, m) then k + 1 else k }

  function NextLineOf(x: Bytes): (r: Bytes)
    requires NL in x
    ensures |r| < |x|
  {
    x[IndexOf(x, NL) + 1..]
  }

  /** One turn of the loop, in these terms. */
  lemma DrainTurn(r: Bytes, m: Bytes, k: nat)
    requires m != []
    ensures |r| < |m| ==> Drain(r, m, k) == (r, k)
    ensures |r| >= |m| ==> Drain(r, m, k) == NextLines(Unmatched(r, m), m, Counted(r, m, k))
  {
    hide IndexOf, StartsWith;
  }

  /** What happens behind a match: on to the next line, if there is one. */
  function NextLines(x: Bytes, m: Bytes, k: nat): (Bytes, nat)
    requires m != []
  {
    if NL in x then Drain(NextLineOf(x), m, k) else (x, k)
  }

  /** No match that the loop meets is directly followed by another one. */
  predicate Single(r: Bytes, m: Bytes)
    requires m != []
    decreases |r|
  {
    |r| < |m| ||
    (&& (StartsWith(r, m) ==> !StartsWith(Unmatched(r, m), m))
     && (NL in Unmatched(r, m) ==> Single(NextLineOf(Unmatched(r, m)), m)))
  }

  lemma UnmatchedOfMore(r: Bytes, t: Bytes, m: Bytes)
    requires |r| >= |m|
    ensures StartsWith(r + t, m) == StartsWith(r, m)
    ensures Unmatched(r + t, m) == Unmatched(r, m) + t
    ensures !StartsWith(r, m) ==> Unmatched(r, m) == r
  {
    assert (r + t)[0..|m|] == r[0..|m|];
    assert (r + t)[|m|..] == r[|m|..] + t;
  }

  lemma NextLineOfMore(r: Bytes, t: Bytes)
    requires NL in r
    ensures NL in r + t && NextLineOf(r + t) == NextLineOf(r) + t
  {
    hide IndexOf;
    var p := IndexOf(r, NL);
    var head, rest := r[..p], r[p + 1..];
    assert r + t == head + [NL] + (rest + t);
    IndexOfAppend(head, rest + t, NL);
    assert (head + [NL] + (rest + t))[p + 1..] == rest + t;
  }

  /** Going on with more output sends as many signals as if it had all come at once. */
  lemma {:induction false} ResumeCount(r: Bytes, t: Bytes, m: Bytes, k: nat)
    requires m != [] && Single(r + t, m)
    ensures
      var (r1, k1) := Drain(r, m, k);
      Single(r1 + t, m) && Drain(r1 + t, m, k1).1 == Drain(r + t, m, k).1
    decreases |r|
  {
    hide Drain, IndexOf, StartsWith, Unmatched, NextLineOf;
    DrainTurn(r, m, k);
    if |r| >= |m| {
      UnmatchedOfMore(r, t, m);
      DrainTurn(r + t, m, k);
      var r1 := Unmatched(r, m);
      if NL in r1 {
        NextLineOfMore(r1, t);
        ResumeCount(NextLineOf(r1), t, m, Counted(r, m, k));
      } else {
        RestOfLine(r1 + t, m, Counted(r, m, k));
      }
    }
  }

  /** The rest of a line, when it does not begin with another match. */
  lemma RestOfLine(x: Bytes, m: Bytes, k: nat)
    requires m != [] && !StartsWith(x, m)
    requires NL in x ==> Single(NextLineOf(x), m)
    ensures Drain(x, m, k).1 == NextLines(x, m, k).1
    ensures Single(x, m)
  {
    hide Drain, IndexOf, StartsWith, NextLineOf;
    DrainTurn(x, m, k);
    if |x| < |m| && NL in x {
      DrainTurn(NextLineOf(x), m, k);
    }
  }

  lemma {:induction false} CountOfPieces(r: Bytes, m: Bytes, k: nat, pieces: seq<Bytes>)
    requires m != [] && Single(r + Concat(pieces), m)
    requires pieces == [] ==> Drain(r, m, k).1 == k
    ensures Signals(r, m, k, pieces).1 == Drain(r + Concat(pieces), m, k).1
    decreases pieces
  {
    hide Drain, Single;
    if pieces == [] {
      assert r + Concat(pieces) == r;
    } else {
      var all, rest := r + pieces[0], Concat(pieces[1..]);
      assert r + Concat(pieces) == all + rest;
      ResumeCount(all, rest, m, k);
      assert pieces[1..] == [] ==> all + rest == all && Drain(all, m, k).0 + rest == Drain(all, m, k).0;
      CountOfPieces(Drain(all, m, k).0, m, Drain(all, m, k).1, pieces[1..]);
    }
  }

  /** The loop meets exactly the matches at line starts. */
  lemma {:induction false} SingleIsExact(out: Bytes, m: Bytes)
    requires m != [] && NL !in m
    ensures Single(out, m) <==> !Doubled(out, m)
    decreases |out|
  {
    hide IndexOf, OccursAt, StartsWith, Doubled, DoubledAt, Unmatched, NextLineOf;
    if |out| < |m| {
      TooShortToMatch(out, m);
    } else {
      AtStart(out, m);
      SameNextLine(out, m);
      if NL in out {
        SingleIsExact(NextLineOf(out), m);
        LaterLines(out, m);
      } else {
        OneLine(out, m);
      }
    }
  }

  lemma TooShortToMatch(out: Bytes, m: Bytes)
    requires |out| < |m|
    ensures !Doubled(out, m)
  {
  }

  lemma AtStart(out: Bytes, m: Bytes)
    requires |out| >= |m|
    ensures DoubledAt(out, m, 0) <==> StartsWith(out, m) && StartsWith(Unmatched(out, m), m)
  {
    SuffixMatch(out, m, |m|);
  }

  /** Removing a match does not remove a newline, so the next line begins where it did. */
  lemma SameNextLine(out: Bytes, m: Bytes)
    requires NL !in m && |out| >= |m|
    ensures NL in out <==> NL in Unmatched(out, m)
    ensures NL in out ==> NextLineOf(Unmatched(out, m)) == NextLineOf(out)
  {
    hide NextLineOf;
    if StartsWith(out, m) {
      var r1 := out[|m|..];
      assert out == m + r1;
      if NL in r1 { BehindText(m, r1); }
    }
  }

  lemma BehindText(m: Bytes, x: Bytes)
    requires NL !in m && NL in x
    ensures NL in m + x && NextLineOf(m + x) == NextLineOf(x)
  {
    hide IndexOf;
    var head, rest := x[..IndexOf(x, NL)], x[IndexOf(x, NL) + 1..];
    assert m + x == m + head + [NL] + rest;
    IndexOfAppend(m + head, rest, NL);
    assert (m + head + [NL] + rest)[|m + head| + 1..] == rest;
  }

  lemma OneLine(out: Bytes, m: Bytes)
    requires |out| >= |m| && NL !in m
    requires NL !in out
    ensures Doubled(out, m) <==> DoubledAt(out, m, 0)
  {
  }

  /** The first line holds a double exactly at its start; the others are those of the rest. */
  lemma LaterLines(out: Bytes, m: Bytes)
    requires NL in out
    ensures Doubled(out, m) <==> DoubledAt(out, m, 0) || Doubled(NextLineOf(out), m)
  {
    hide OccursAt, IndexOf;
    var o := IndexOf(out, NL);
    var rest := out[o + 1..];
    forall p: nat | p <= |rest| ensures DoubledAt(rest, m, p) <==> DoubledAt(out, m, o + 1 + p)
    {
      OccursInRest(out, m, o + 1, p);
      OccursInRest(out, m, o + 1, p + |m|);
    }
    forall p: nat | 0 < p <= o ensures !LineStart(out, p)
    {
      assert out[p - 1] == out[..o][p - 1];
    }
    if p: nat :| p <= |out| && DoubledAt(out, m, p) && p > 0 {
      assert p > o && DoubledAt(rest, m, p - o - 1);
    }
  }

  lemma OccursInRest(out: Bytes, m: Bytes, q: nat, p: nat)
    requires q <= |out|
    ensures OccursAt(out[q..], m, p) <==> OccursAt(out, m, q + p)
  {
    assert q + p + |m| <= |out| ==> out[q..][p..p + |m|] == out[q + p..q + p + |m|];
  }

  // ---------------------------------------------------------------- a double is counted twice

  lemma {:induction false} CountShifts(r: Bytes, m: Bytes, k: nat)
    requires m != []
    ensures Drain(r, m, k + 1) == (Drain(r, m, k).0, Drain(r, m, k).1 + 1)
    decreases |r|
  {
    hide Drain, IndexOf, StartsWith, Unmatched, NextLineOf;
    DrainTurn(r, m, k);
    DrainTurn(r, m, k + 1);
    if |r| >= |m| && NL in Unmatched(r, m) { CountShifts(NextLineOf(Unmatched(r, m)), m, Counted(r, m, k)); }
  }

  /** The loop on a text whose first line ends: it goes on with the next line. */
  lemma SkipLine(out: Bytes, m: Bytes, k: nat)
    requires m != [] && NL !in m && |out| >= |m| && NL in out
    ensures Drain(out, m, k) == Drain(NextLineOf(out), m, Counted(out, m, k))
  {
    hide Drain, IndexOf, StartsWith, Unmatched, NextLineOf;
    DrainTurn(out, m, k);
    SameNextLine(out, m);
  }

  /** Up to a match at a line start, the output read so far and all of the output go alike. */
  lemma {:induction false} UpToMatch(out: Bytes, m: Bytes, p: nat, k: nat) returns (k1: nat)
    requires m != [] && NL !in m && p <= |out| && MatchAt(out, m, p)
    ensures Drain(out[..p + |m|], m, k) == ([], k1)
    ensures Drain(out, m, k) == NextLines(out[p + |m|..], m, k1)
    decreases |out|
  {
    hide Drain, IndexOf, OccursAt, NextLines, NextLineOf;
    MatchText(out, m, p);
    var head, rest := out[..p + |m|], out[p + |m|..];
    assert out == head + rest;
    if p == 0 {
      MatchedLine(m, [], m, k);
      MatchedLine(m, rest, m, k);
      assert m + [] == m;
      NothingNext(m, k + 1);
      k1 := k + 1;
    } else {
      NextLineStart(out, m, p);
      var p1 := p - (|out| - |NextLineOf(out)|);
      NextLineOfMore(head, rest);
      UnmatchedOfMore(head, rest, m);
      SkipLine(out, m, k);
      SkipLine(head, m, k);
      k1 := UpToMatch(NextLineOf(out), m, p1, Counted(out, m, k));
      Halves(NextLineOf(out), NextLineOf(head), rest);
    }
  }

  /** A match at a later line start is one of the text from the next line on. */
  lemma NextLineStart(out: Bytes, m: Bytes, p: nat)
    requires 0 < p <= |out| && MatchAt(out, m, p)
    ensures NL in out && NL in out[..p + |m|]
    ensures
      var q := |out| - |NextLineOf(out)|;
      q <= p && MatchAt(NextLineOf(out), m, p - q)
  {
    hide OccursAt, IndexOf;
    MatchText(out, m, p);
    assert out[..p + |m|][p - 1] == out[p - 1] == NL;
    var o := IndexOf(out, NL);
    assert forall i | 0 <= i < o :: out[i] == out[..o][i];
    OccursInRest(out, m, o + 1, p - o - 1);
  }

  lemma Halves(all: Bytes, a: Bytes, b: Bytes)
    requires all == a + b
    ensures all[..|a|] == a && all[|a|..] == b
  {
  }

  lemma MatchText(out: Bytes, m: Bytes, p: nat)
    requires OccursAt(out, m, p)
    ensures p + |m| <= |out| && out[p..p + |m|] == m
  {
  }

  /** The loop on a text that begins with the exit string. */
  lemma MatchedLine(a: Bytes, x: Bytes, m: Bytes, k: nat)
    requires a == m && m != []
    ensures Drain(a + x, m, k) == NextLines(x, m, k + 1)
  {
    hide Drain, NextLines;
    DrainTurn(a + x, m, k);
    assert (a + x)[0..|m|] == m && (a + x)[|m|..] == x;
  }

  lemma NothingNext(m: Bytes, k: nat)
    requires m != []
    ensures NextLines([], m, k) == ([], k)
  {
  }

  lemma SecondCopy(rest: Bytes, m: Bytes, k: nat)
    requires m != [] && NL !in m && StartsWith(rest, m)
    ensures Drain(rest, m, k).1 == NextLines(rest, m, k).1 + 1
  {
    hide Drain, IndexOf, Unmatched, NextLineOf;
    if NL in rest {
      SkipLine(rest, m, k);
      CountShifts(NextLineOf(rest), m, k);
    } else {
      SameNextLine(rest, m);
      DrainTurn(rest, m, k);
    }
  }

  lemma FirstPiece(r: Bytes, m: Bytes, k: nat, pieces: seq<Bytes>)
    requires m != [] && pieces != []
    ensures Signals(r, m, k, pieces) ==
      Signals(Drain(r + pieces[0], m, k).0, m, Drain(r + pieces[0], m, k).1, pieces[1..])
  {
    hide Drain;
  }

  lemma LastPiece(r: Bytes, m: Bytes, k: nat, piece: Bytes)
    requires m != []
    ensures Signals(r, m, k, [piece]) == Drain(r + piece, m, k)
  {
    hide Drain;
  }

  /** More pieces never send fewer signals. */
  lemma {:induction false} ResumeSendsMore(r: Bytes, t: Bytes, m: Bytes, k: nat)
    requires m != [] && NL !in m
    ensures Drain(Drain(r, m, k).0 + t, m, Drain(r, m, k).1).1 >= Drain(r + t, m, k).1
    decreases |r|
  {
    hide Drain, IndexOf, StartsWith, Unmatched, NextLineOf;
    DrainTurn(r, m, k);
    if |r| >= |m| {
      UnmatchedOfMore(r, t, m);
      DrainTurn(r + t, m, k);
      var r1 := Unmatched(r, m);
      if NL in r1 {
        NextLineOfMore(r1, t);
        ResumeSendsMore(NextLineOf(r1), t, m, Counted(r, m, k));
      } else {
        AtLeastNextLines(r1 + t, m, Counted(r, m, k));
      }
    }
  }

  lemma AtLeastNextLines(x: Bytes, m: Bytes, k: nat)
    requires m != [] && NL !in m
    ensures Drain(x, m, k).1 >= NextLines(x, m, k).1
  {
    hide Drain, IndexOf, StartsWith, Unmatched, NextLineOf;
    DrainTurn(x, m, k);
    if NL in x { DrainTurn(NextLineOf(x), m, k); }
    if |x| >= |m| {
      SameNextLine(x, m);
      if NL in x { CountShifts(NextLineOf(x), m, k); }
    }
  }

  lemma {:induction false} PiecesSendMore(r: Bytes, m: Bytes, k: nat, pieces: seq<Bytes>)
    requires m != [] && NL !in m && pieces != []
    ensures Signals(r, m, k, pieces).1 >= Drain(r + Concat(pieces), m, k).1
    decreases pieces
  {
    hide Drain, Signals, Concat;
    ConcatFirst(pieces);
    FirstPiece(r, m, k, pieces);
    var all := r + pieces[0];
    if pieces[1..] == [] {
      ConcatOne(pieces[0]);
      LastPiece(r, m, k, pieces[0]);
      assert pieces == [pieces[0]];
    } else {
      var rest := Concat(pieces[1..]);
      Associate(r, pieces[0], rest);
      PiecesSendMore(Drain(all, m, k).0, m, Drain(all, m, k).1, pieces[1..]);
      ResumeSendsMore(all, rest, m, k);
    }
  }

  // ---------------------------------------------------------------- exactly

  /** What one read() takes. */
  const READ_SIZE := 0x8000

  /** How the output can arrive: in pieces of one read() each; the first also holds what earlier reads
      have left in the line buffer. */
  predicate Cut(out: Bytes, pieces: seq<Bytes>)
  {
    && Concat(pieces) == out
    && (forall i | 0 <= i < |pieces| :: pieces[i] != [])
    && (forall i | 1 <= i < |pieces| :: |pieces[i]| <= READ_SIZE)
  }

  function Chop(x: Bytes): (pieces: seq<Bytes>)
    requires x != []
    ensures pieces != []
    ensures forall i | 0 <= i < |pieces| :: 0 < |pieces[i]| <= READ_SIZE
    decreases |x|
  {
    if |x| <= READ_SIZE then [x] else [x[..READ_SIZE]] + Chop(x[READ_SIZE..])
  }

  lemma {:induction false} ChopLosesNothing(x: Bytes)
    requires x != []
    ensures Concat(Chop(x)) == x
    decreases |x|
  {
    hide Concat;
    if |x| <= READ_SIZE {
      ConcatOne(x);
    } else {
      ChopLosesNothing(x[READ_SIZE..]);
      ConcatFirst(Chop(x));
      assert Chop(x)[1..] == Chop(x[READ_SIZE..]);
      assert x[..READ_SIZE] + x[READ_SIZE..] == x;
    }
  }

  /** A cut behind the first copy of a double, which costs one signal more at least. */
  lemma DoubleCountsTwice(out: Bytes, m: Bytes, p: nat)
    requires m != [] && NL !in m && p <= |out| && DoubledAt(out, m, p)
    ensures
      p + |m| < |out| &&
      var cut := [out[..p + |m|]] + Chop(out[p + |m|..]);
      Cut(out, cut) && Signals([], m, 0, cut).1 > Drain(out, m, 0).1
  {
    hide Drain, IndexOf, OccursAt, Signals, Concat, Chop, Cut, NextLines;
    DoubleText(out, m, p);
    var head, rest := out[..p + |m|], out[p + |m|..];
    var k := UpToMatch(out, m, p, 0);
    OccursInRest(out, m, p + |m|, 0);
    SecondCopy(rest, m, k);
    assert head + rest == out;
    FirstThenRest(head, rest, m, k);
  }

  /** One piece, and what follows it chopped up. */
  lemma FirstThenRest(head: Bytes, rest: Bytes, m: Bytes, k: nat)
    requires m != [] && NL !in m && head != [] && rest != [] && Drain(head, m, 0) == ([], k)
    ensures
      var cut := [head] + Chop(rest);
      Cut(head + rest, cut) && Signals([], m, 0, cut).1 >= Drain(rest, m, k).1
  {
    hide Drain, Signals, Concat, Chop;
    var cut := [head] + Chop(rest);
    assert cut[1..] == Chop(rest);
    ChopLosesNothing(rest);
    ConcatFirst(cut);
    assert [] + head == head && [] + rest == rest;
    FirstPiece([], m, 0, cut);
    PiecesSendMore([], m, k, Chop(rest));
  }

  lemma DoubleText(out: Bytes, m: Bytes, p: nat)
    requires DoubledAt(out, m, p)
    ensures p + 2 * |m| <= |out|
  {
  }

  lemma InOnePiece(out: Bytes, m: Bytes)
    requires m != [] && out != []
    ensures Cut(out, [out]) && Signals([], m, 0, [out]) == Drain(out, m, 0)
  {
    hide Drain, Concat;
    ConcatOne(out);
    LastPiece([], m, 0, out);
    assert [] + out == out;
  }

  /** The number of signals, exactly: for an exit string without a newline, it is the same however
      the output arrives if and only if no copy of it at a line start is directly followed by
      another copy; and then it is the number for the output in one piece. */
  lemma SignalCountIsExact(out: Bytes, m: Bytes)
    requires m != [] && NL !in m
    ensures
      (forall a, b | Cut(out, a) && Cut(out, b) :: Signals([], m, 0, a).1 == Signals([], m, 0, b).1)
      <==> !Doubled(out, m)
    ensures !Doubled(out, m) ==> forall a | Cut(out, a) :: Signals([], m, 0, a).1 == Drain(out, m, 0).1
  {
    hide Drain, Single, DoubledAt, Signals, Concat, Chop;
    if Doubled(out, m) {
      var p: nat :| p <= |out| && DoubledAt(out, m, p);
      DoubleCountsTwice(out, m, p);
      InOnePiece(out, m);
      assert Cut(out, [out]) && Cut(out, [out[..p + |m|]] + Chop(out[p + |m|..]));
    } else {
      SingleIsExact(out, m);
      assert [] + out == out;
      forall a | Cut(out, a) ensures Signals([], m, 0, a).1 == Drain(out, m, 0).1
      {
        DrainUnfolds([], m, 0);
        CountOfPieces([], m, 0, a);
      }
    }
  }
}
