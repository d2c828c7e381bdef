/** Stream handling of PtyProcess (src/ptyprocess.cpp): the line buffer behind readLine and
    unreadLine, and the search for the exit string in waitForChild. */
module PtyProcess {
  import opened ByteStrings

  // ---------------------------------------------------------------- lines

  /** What readLine returns (None is the null QByteArray) and what it leaves in the buffer, when
      this much was buffered and read together. */
  function TakeLine(all: Bytes): (Option<Bytes>, Bytes)
  {
    var n := IndexOf(all, NL);
    if all == [] then (None, [])
    else if n < 0 then (Some(all), [])
    else (Some(all[..n]), all[n + 1..])
  }

  /** The bytes that a returned line stands for. */
  function LineBytes(all: Bytes): Bytes
  {
    match TakeLine(all).0
    case None => []
    case Some(line) => if NL in all then line + [NL] else line
  }

  /** Nothing is lost, doubled or reordered by one readLine, and the end of input is told apart
      from an empty line. */
  lemma LineConservation(all: Bytes)
    ensures LineBytes(all) + TakeLine(all).1 == all
    ensures TakeLine(all).0.None? <==> all == []
    ensures TakeLine(all).0.Some? ==> NL !in TakeLine(all).0.value
  {
  }

  /** A line that was put back is the next one read, whatever is read with it. */
  lemma UnreadThenRead(line: Bytes, rest: Bytes)
    requires NL !in line
    ensures TakeLine(line + [NL] + rest) == (Some(line), rest)
  {
    IndexOfAppend(line, rest, NL);
    assert (line + [NL] + rest)[..|line|] == line;
  }

  /** The operations on the buffer: readLine with the chunk that its one read() gives (empty when
      there is nothing), and unreadLine. */
  datatype LineOp = Read(chunk: Bytes) | Unread(line: Bytes, addNewline: bool)

  function PutBack(line: Bytes, addNewline: bool): Bytes { if addNewline then line + [NL] else line }

  function BufferAfter(buf: Bytes, op: LineOp): Bytes
  {
    match op
    case Read(chunk) => TakeLine(buf + chunk).1
    case Unread(line, nl) => PutBack(line, nl) + buf
  }

  /** The bytes that the caller holds: the lines read, less what was put back from their end. */
  function HeldAfter(held: Bytes, buf: Bytes, op: LineOp): Bytes
    requires Returns(held, op)
  {
    match op
    case Read(chunk) => held + LineBytes(buf + chunk)
    case Unread(line, nl) => held[..|held| - |PutBack(line, nl)|]
  }

  /** unreadLine puts back the end of what the caller holds. */
  predicate Returns(held: Bytes, op: LineOp)
  {
    op.Unread? ==>
      var back := PutBack(op.line, op.addNewline);
      |back| <= |held| && held[|held| - |back|..] == back
  }

  predicate AllReturn(held: Bytes, buf: Bytes, ops: seq<LineOp>)
    decreases ops
  {
    ops == [] ||
    (Returns(held, ops[0]) && AllReturn(HeldAfter(held, buf, ops[0]), BufferAfter(buf, ops[0]), ops[1..]))
  }

  /** What the caller holds and what is buffered after a run. */
  function RunOps(held: Bytes, buf: Bytes, ops: seq<LineOp>): (Bytes, Bytes)
    requires AllReturn(held, buf, ops)
    decreases ops
  {
    if ops == [] then (held, buf)
    else RunOps(HeldAfter(held, buf, ops[0]), BufferAfter(buf, ops[0]), ops[1..])
  }

  function Chunks(ops: seq<LineOp>): Bytes
  {
    if ops == [] then [] else (if ops[0].Read? then ops[0].chunk else []) + Chunks(ops[1..])
  }

  lemma StepConservation(held: Bytes, buf: Bytes, op: LineOp)
    requires Returns(held, op)
    ensures HeldAfter(held, buf, op) + BufferAfter(buf, op) == held + buf + if op.Read? then op.chunk else []
  {
    match op {
      case Read(chunk) =>
        var all := buf + chunk;
        LineConservation(all);
        Associate(held, LineBytes(all), TakeLine(all).1);
        Associate(held, buf, chunk);
      case Unread(line, nl) =>
        assert held == held[..|held| - |PutBack(line, nl)|] + PutBack(line, nl);
    }
  }

  /** Conservation over a whole run of reads and unreads, where unreads put back what was read
      last: what the caller holds followed by what is buffered is what there was at the start
      followed by everything read, in order. */
  lemma {:induction false} RunConservation(held: Bytes, buf: Bytes, ops: seq<LineOp>)
    requires AllReturn(held, buf, ops)
    ensures RunOps(held, buf, ops).0 + RunOps(held, buf, ops).1 == held + buf + Chunks(ops)
    decreases ops
  {
    if ops == [] {
      assert held + buf + [] == held + buf;
    } else {
      hide TakeLine, LineBytes, HeldAfter, BufferAfter, Returns;
      var chunk: Bytes := if ops[0].Read? then ops[0].chunk else [];
      StepConservation(held, buf, ops[0]);
      RunConservation(HeldAfter(held, buf, ops[0]), BufferAfter(buf, ops[0]), ops[1..]);
      Associate(held + buf, chunk, Chunks(ops[1..]));
    }
  }

  /** Putting the line just read back undoes the read exactly when the line had its newline; a
      piece without one comes back with a newline that was never read. */
  lemma UnreadUndoesRead(all: Bytes)
    requires all != []
    ensures
      var back := BufferAfter(TakeLine(all).1, Unread(TakeLine(all).0.value, true));
      && (back == all <==> NL in all)
      && (NL !in all ==> back == all + [NL])
  {
    LineConservation(all);
    assert all + [NL] + [] == all + [NL];
  }

  /** The buffer of PtyProcess, with the child's output as the chunks that successive read() calls
      return. */
  class LineBuffer {
    var inputBuffer: Bytes
    var incoming: seq<Bytes>

    constructor (output: seq<Bytes>)
      ensures inputBuffer == [] && incoming == output
    {
      inputBuffer := [];
      incoming := output;
    }

    /** The chunk that the next read() will return; empty at the end of the output. */
    function Next(): Bytes
      reads this
    {
      if incoming == [] then [] else incoming[0]
    }

    method ReadAll() returns (ret: Bytes)
      modifies this
      ensures ret == old(inputBuffer) + old(Next()) && inputBuffer == []
      ensures incoming == if old(incoming) == [] then [] else old(incoming)[1..]
    {
      ret := [];
      if inputBuffer != [] {
        ret := inputBuffer;
        inputBuffer := [];
      }
      if incoming != [] {
        ret := ret + incoming[0];
        incoming := incoming[1..];
      }
    }

    method ReadLine() returns (ret: Option<Bytes>)
      modifies this
      ensures (ret, inputBuffer) == TakeLine(old(inputBuffer) + old(Next()))
      ensures incoming == if old(incoming) == [] then [] else old(incoming)[1..]
    {
      inputBuffer := ReadAll();
      ret := None;
      if inputBuffer != [] {
        var pos := IndexOf(inputBuffer, NL);
        if pos == -1 {
          ret := Some(inputBuffer);
          inputBuffer := [];
        } else {
          ret := Some(inputBuffer[..pos]);
          inputBuffer := inputBuffer[pos + 1..];
        }
      }
    }

    method UnreadLine(line: Bytes, addNewline: bool)
      modifies this`inputBuffer
      ensures inputBuffer == BufferAfter(old(inputBuffer), Unread(line, addNewline))
    {
      var tmp := line;
      if addNewline {
        tmp := tmp + [NL];
      }
      if tmp != [] {
        inputBuffer := tmp + inputBuffer;
      }
      assert [] + inputBuffer == inputBuffer;
    }
  }

  // ---------------------------------------------------------------- the exit string

  predicate LineStart(out: Bytes, p: nat)
  {
    p == 0 || (p <= |out| && out[p - 1] == NL)
  }

  predicate MatchAt(out: Bytes, m: Bytes, p: nat)
  {
    LineStart(out, p) && OccursAt(out, m, p)
  }

  /** The whole output contains the exit string at its start or right after a newline. */
  predicate HasExitLine(out: Bytes, m: Bytes)
  {
    exists p: nat | p <= |out| :: MatchAt(out, m, p)
  }

  /** The inner loop of waitForChild with k signals sent so far: what is left of the remainder,
      and how many signals have been sent. */
  function Drain(r: Bytes, m: Bytes, k: nat): (Bytes, nat)
    requires m != []
    decreases |r|
  {
    if |r| < |m| then (r, k)
    else
      var r1 := if StartsWith(r, m) then r[|m|..] else r;
      var k1 := if StartsWith(r, m) then k + 1 else k;
      var off := IndexOf(r1, NL);
      if off < 0 then (r1, k1) else Drain(r1[off + 1..], m, k1)
  }

  /** Looking for the exit string in the output as it arrives. */
  class ExitMatcher {
    const exitString: Bytes
    var remainder: Bytes
    var kills: nat
    ghost var seen: Bytes

    constructor (m: Bytes)
      ensures exitString == m && remainder == [] && kills == 0 && seen == []
      ensures m != [] ==> Valid()
    {
      exitString := m;
      remainder := [];
      kills := 0;
      seen := [];
    }

    /** While nothing was found, the remainder is the output from some line start on: no line
        start before it matches, and behind it there is no complete candidate. */
    ghost predicate Valid()
      reads this
    {
      && exitString != []
      && (kills > 0 <==> HasExitLine(seen, exitString))
      && (kills == 0 ==> Searching(seen, exitString, remainder) && NoneFurther(remainder, exitString))
    }

    /** The inner loop of waitForChild for one piece of output. */
    method Feed(output: Bytes)
      requires Valid()
      modifies this
      ensures Valid() && seen == old(seen) + output
      ensures (remainder, kills) == Drain(old(remainder) + output, exitString, old(kills))
    {
      hide Searching, NoneFurther, HasExitLine, Drain;
      if kills > 0 {
        LaterOutputKeepsMatch(seen, output, exitString);
      } else {
        MoreToSearch(seen, output, exitString, remainder);
      }
      remainder := remainder + output;
      seen := seen + output;
      remainder, kills := Match(seen, exitString, remainder, kills);
      if kills == 0 { NothingFound(seen, exitString, remainder); }
    }
  }

  /** The loop itself, on the remainder r and the number k of signals sent. */
  method Match(ghost seen: Bytes, m: Bytes, remainder: Bytes, kills: nat) returns (r: Bytes, k: nat)
    requires m != []
    requires kills > 0 ==> HasExitLine(seen, m)
    requires kills == 0 ==> Searching(seen, m, remainder)
    ensures kills <= k && (k > 0 ==> HasExitLine(seen, m))
    ensures k == 0 ==> Searching(seen, m, r) && NoneFurther(r, m)
    ensures (r, k) == Drain(remainder, m, kills)
  {
    hide IndexOf, Searching, NoneFurther, HasExitLine, StartsWith, Drain;
    r, k := remainder, kills;
    while |r| >= |m|
      invariant kills <= k && Drain(r, m, k) == Drain(remainder, m, kills)
      invariant k > 0 ==> HasExitLine(seen, m)
      invariant k == 0 ==> Searching(seen, m, r)
      decreases |r|
    {
      DrainUnfolds(r, m, k);
      if StartsWith(r, m) {
        if k == 0 { FoundHere(seen, m, r); }
        k := k + 1;
        r := r[|m|..];
      }
      var off := IndexOf(r, NL);
      if off < 0 {
        if k == 0 { LastLine(r, m); }
        return;
      }
      if k == 0 { NextLine(seen, m, r); }
      r := r[off + 1..];
    }
    DrainUnfolds(r, m, k);
    TooShort(r, m);
  }

  /** The remainder and the number of signals after these pieces of output. */
  function Signals(r: Bytes, m: Bytes, k: nat, pieces: seq<Bytes>): (Bytes, nat)
    requires m != []
    decreases pieces
  {
    if pieces == [] then (r, k)
    else
      var (r1, k1) := Drain(r + pieces[0], m, k);
      Signals(r1, m, k1, pieces[1..])
  }

  /** Any output, in any pieces: SIGTERM has been sent by the end if and only if the output has
      the exit string at its start or right after a newline. */
  method SearchAll(m: Bytes, pieces: seq<Bytes>) returns (signals: nat)
    requires m != []
    ensures signals == Signals([], m, 0, pieces).1
    ensures signals > 0 <==> HasExitLine(Concat(pieces), m)
  {
    hide HasExitLine, Drain, Concat;
    var x := new ExitMatcher(m);
    assert Concat(pieces[..0]) == [] by { ConcatNothing(); }
    assert pieces[0..] == pieces;
    for i := 0 to |pieces|
      invariant x.Valid() && x.exitString == m && x.seen == Concat(pieces[..i])
      invariant Signals([], m, 0, pieces) == Signals(x.remainder, m, x.kills, pieces[i..])
    {
      ConcatAppend(pieces[..i], [pieces[i]]);
      assert pieces[..i + 1] == pieces[..i] + [pieces[i]];
      assert pieces[i..][1..] == pieces[i + 1..];
      ConcatOne(pieces[i]);
      x.Feed(pieces[i]);
    }
    assert pieces[..|pieces|] == pieces;
    return x.kills;
  }

  lemma DrainUnfolds(r: Bytes, m: Bytes, k: nat)
    requires m != []
    ensures
      Drain(r, m, k) ==
        if |r| < |m| then (r, k)
        else
          var r1 := if StartsWith(r, m) then r[|m|..] else r;
          var k1 := if StartsWith(r, m) then k + 1 else k;
          var off := IndexOf(r1, NL);
          if off < 0 then (r1, k1) else Drain(r1[off + 1..], m, k1)
  {
  }

  lemma LastLine(remainder: Bytes, m: Bytes)
    requires NL !in remainder && !StartsWith(remainder, m)
    ensures NoneFurther(remainder, m)
  {
  }

  lemma TooShort(remainder: Bytes, m: Bytes)
    requires |remainder| < |m|
    ensures NoneFurther(remainder, m)
  {
  }

  /** No match at p, whatever output may still follow. */
  predicate RuledOut(out: Bytes, m: Bytes, p: nat)
  {
    LineStart(out, p) ==> p + |m| <= |out| && !OccursAt(out, m, p)
  }

  /** remainder is a final part of the output that begins at a line start, and every line start
      before it has been ruled out. */
  ghost predicate Searching(out: Bytes, m: Bytes, remainder: Bytes)
  {
    && |remainder| <= |out|
    && remainder == out[|out| - |remainder|..] && LineStart(out, |out| - |remainder|)
    && forall p: nat | p < |out| - |remainder| :: RuledOut(out, m, p)
  }

  predicate NoneFurther(remainder: Bytes, m: Bytes)
  {
    |remainder| < |m| || (!StartsWith(remainder, m) && NL !in remainder)
  }

  lemma LaterOutputKeepsMatch(seen: Bytes, output: Bytes, m: Bytes)
    requires HasExitLine(seen, m)
    ensures HasExitLine(seen + output, m)
  {
    var p: nat :| p <= |seen| && MatchAt(seen, m, p);
    assert (seen + output)[p..p + |m|] == seen[p..p + |m|];
    assert MatchAt(seen + output, m, p);
  }

  lemma MoreToSearch(seen: Bytes, output: Bytes, m: Bytes, remainder: Bytes)
    requires Searching(seen, m, remainder)
    ensures Searching(seen + output, m, remainder + output)
  {
    var all, q := seen + output, |seen| - |remainder|;
    assert remainder + output == all[q..];
    forall p: nat | p < q ensures RuledOut(all, m, p)
    {
      assert RuledOut(seen, m, p);
      if LineStart(seen, p) {
        assert all[p..p + |m|] == seen[p..p + |m|];
      }
    }
  }

  lemma FoundHere(out: Bytes, m: Bytes, remainder: Bytes)
    requires Searching(out, m, remainder) && StartsWith(remainder, m)
    ensures HasExitLine(out, m)
  {
    var q := |out| - |remainder|;
    assert out[q..q + |m|] == remainder[0..|m|];
    assert MatchAt(out, m, q);
  }

  /** Going on to the next line rules out the line start that was just tested. */
  lemma NextLine(out: Bytes, m: Bytes, remainder: Bytes)
    requires Searching(out, m, remainder)
    requires |remainder| >= |m| && !StartsWith(remainder, m) && NL in remainder
    ensures Searching(out, m, remainder[IndexOf(remainder, NL) + 1..])
  {
    hide IndexOf, RuledOut, StartsWith, LineStart, Searching;
    SearchesEnd(out, m, remainder);
    var q, off := |out| - |remainder|, IndexOf(remainder, NL);
    NextLineStart(out, remainder, q, off);
    forall p: nat | p < q + off + 1 ensures RuledOut(out, m, p)
    {
      StillRuledOut(out, m, remainder, p);
    }
    SearchingFrom(out, m, q + off + 1);
  }

  lemma SearchesEnd(out: Bytes, m: Bytes, remainder: Bytes)
    requires Searching(out, m, remainder)
    ensures |remainder| <= |out| && remainder == out[|out| - |remainder|..]
  {
    hide RuledOut, LineStart;
  }

  lemma SearchingFrom(out: Bytes, m: Bytes, q: nat)
    requires q <= |out| && LineStart(out, q) && forall p: nat | p < q :: RuledOut(out, m, p)
    ensures Searching(out, m, out[q..])
  {
    hide RuledOut, LineStart;
  }

  lemma StillRuledOut(out: Bytes, m: Bytes, remainder: Bytes, p: nat)
    requires Searching(out, m, remainder)
    requires |remainder| >= |m| && !StartsWith(remainder, m) && NL in remainder
    requires p <= |out| - |remainder| + IndexOf(remainder, NL)
    ensures RuledOut(out, m, p)
  {
    hide IndexOf, OccursAt, RuledOut, StartsWith, LineStart;
    var q := |out| - |remainder|;
    if p == q {
      FailsHere(out, m, q);
    } else if p > q {
      NoLineStart(out, m, remainder, q, IndexOf(remainder, NL), p);
    }
  }

  lemma NextLineStart(out: Bytes, remainder: Bytes, q: nat, off: nat)
    requires q <= |out| && remainder == out[q..] && off < |remainder| && remainder[off] == NL
    ensures remainder[off + 1..] == out[q + off + 1..] && LineStart(out, q + off + 1)
  {
    assert out[q + off] == remainder[off];
  }

  /** The line start that was just tested. */
  lemma FailsHere(out: Bytes, m: Bytes, q: nat)
    requires q <= |out| && |out[q..]| >= |m| && !StartsWith(out[q..], m)
    ensures RuledOut(out, m, q)
  {
    SuffixMatch(out, m, q);
  }

  /** A position inside the line. */
  lemma NoLineStart(out: Bytes, m: Bytes, remainder: Bytes, q: nat, off: nat, p: nat)
    requires q <= |out| && remainder == out[q..] && off < |remainder| && NL !in remainder[..off]
    requires q < p <= q + off
    ensures RuledOut(out, m, p)
  {
    assert out[p - 1] == remainder[p - 1 - q] == remainder[..off][p - 1 - q];
  }

  lemma NothingFound(out: Bytes, m: Bytes, remainder: Bytes)
    requires Searching(out, m, remainder) && NoneFurther(remainder, m)
    ensures !HasExitLine(out, m)
  {
    var q := |out| - |remainder|;
    SuffixMatch(out, m, q);
    assert forall k | q <= k < |out| :: out[k] == remainder[k - q] && out[k] in remainder;
    forall p: nat | p <= |out| ensures !MatchAt(out, m, p)
    {
      if p < q { assert RuledOut(out, m, p); }
    }
  }

  lemma SuffixMatch(out: Bytes, m: Bytes, q: nat)
    requires q <= |out|
    ensures OccursAt(out, m, q) <==> StartsWith(out[q..], m)
  {
  }
}
