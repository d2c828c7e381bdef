/** Reassembly of lines from received chunks (src/kdesud/handler.cpp:58-102), as functions of
    the bytes: which lines reach doCommand and what stays in the buffer. */
module Framing {
  import opened ByteStrings
  import opened Client
  import opened Grammar

  const BUF_SIZE := 1024

  /** The newline-terminated segments of a stream, and what follows the last newline. */
  function Lines(s: Bytes): seq<Bytes>
    decreases |s|
  {
    var n := IndexOf(s, NL) + 1;
    if n == 0 then [] else [s[..n]] + Lines(s[n..])
  }

  function Tail(s: Bytes): (t: Bytes)
    ensures NL !in t
    ensures |t| <= |s|
    decreases |s|
  {
    var n := IndexOf(s, NL) + 1;
    if n == 0 then s else Tail(s[n..])
  }

  predicate Framed(line: Bytes)
  {
    line != [] && line[|line| - 1] == NL && NL !in line[..|line| - 1]
  }

  lemma {:induction false} LinesAreFramed(s: Bytes)
    ensures forall i | 0 <= i < |Lines(s)| :: Framed(Lines(s)[i])
    decreases |s|
  {
    if NL in s {
      LinesAreFramed(s[IndexOf(s, NL) + 1..]);
      FirstLineIsFramed(s);
    }
  }

  lemma FirstLineIsFramed(s: Bytes)
    requires NL in s
    ensures Framed(s[..IndexOf(s, NL) + 1])
  {
  }

  /** The step that the loop of handle() makes. */
  lemma FirstLine(s: Bytes)
    requires NL in s
    ensures
      var n := IndexOf(s, NL) + 1;
      Lines(s) != [] && Lines(s)[0] == s[..n] && Lines(s)[1..] == Lines(s[n..]) && Tail(s) == Tail(s[n..])
  {
  }

  lemma LinesOfFramed(line: Bytes, rest: Bytes)
    requires Framed(line)
    ensures Lines(line + rest) == [line] + Lines(rest)
    ensures Tail(line + rest) == Tail(rest)
  {
    var body := line[..|line| - 1];
    assert line + rest == body + [NL] + rest;
    IndexOfAppend(body, rest, NL);
    assert (line + rest)[..|line|] == line;
    assert (line + rest)[|line|..] == rest;
  }

  lemma Unterminated(s: Bytes)
    requires NL !in s
    ensures Lines(s) == [] && Tail(s) == s
  {
  }

  /** The independent reading of Lines and Tail: they cut the stream without loss, and every
      line has its only newline at its end (the remainder has none, see Tail). */
  lemma {:induction false} LinesLoseNothing(s: Bytes)
    ensures Concat(Lines(s)) + Tail(s) == s
    decreases |s|
  {
    hide IndexOf, Lines, Tail, Concat;
    if NL in s {
      var n := IndexOf(s, NL) + 1;
      FirstLine(s);
      ConcatFirst(Lines(s));
      LinesLoseNothing(s[n..]);
      Associate(s[..n], Concat(Lines(s[n..])), Tail(s[n..]));
      assert s[..n] + s[n..] == s;
    } else {
      Unterminated(s);
      ConcatNothing();
      assert [] + s == s;
    }
  }

  lemma {:induction false} LinesOfConcat(ls: seq<Bytes>, rest: Bytes)
    requires forall i | 0 <= i < |ls| :: Framed(ls[i])
    requires NL !in rest
    ensures Lines(Concat(ls) + rest) == ls && Tail(Concat(ls) + rest) == rest
  {
    if ls == [] {
      assert Concat(ls) + rest == rest;
    } else {
      assert Concat(ls) + rest == ls[0] + (Concat(ls[1..]) + rest);
      LinesOfFramed(ls[0], Concat(ls[1..]) + rest);
      LinesOfConcat(ls[1..], rest);
      assert [ls[0]] + ls[1..] == ls;
    }
  }

  /** Framing what is already there and then the rest is framing it all. */
  lemma {:induction false} LinesResume(a: Bytes, b: Bytes)
    ensures Lines(a + b) == Lines(a) + Lines(Tail(a) + b)
    ensures Tail(a + b) == Tail(Tail(a) + b)
    decreases |a|
  {
    hide IndexOf, Lines, Tail;
    if NL !in a {
      Unterminated(a);
      assert [] + Lines(a + b) == Lines(a + b);
    } else {
      var n := IndexOf(a, NL) + 1;
      FirstLine(a);
      FirstLineIsFramed(a);
      LinesOfFramed(a[..n], a[n..] + b);
      assert a == a[..n] + a[n..];
      Associate(a[..n], a[n..], b);
      LinesResume(a[n..], b);
      assert Lines(a) == [a[..n]] + Lines(a[n..]);
      var more := Lines(Tail(a) + b);
      assert [a[..n]] + (Lines(a[n..]) + more) == [a[..n]] + Lines(a[n..]) + more;
    }
  }

  // ---------------------------------------------------------------- runs of recv

  /** What recv() returned. */
  datatype Recv = Data(chunk: Bytes) | Eof | Interrupted | ReadError

  /** A connection's buffering: what was handed on so far and what is buffered, or given up
      because the buffer filled to 1023 bytes. */
  datatype Frames = Frames(lines: seq<Bytes>, buf: Bytes) | TooLong(linesBefore: seq<Bytes>)

  /** What recv may return: at least one byte, at most the room left in the buffer. */
  predicate Fits(buf: Bytes, chunk: Bytes)
  {
    0 < |chunk| && |buf| + |chunk| <= BUF_SIZE - 1
  }

  function Receive(buf: Bytes, chunks: seq<Bytes>): Frames
    decreases chunks
  {
    if chunks == [] then Frames([], buf)
    else
      var all := buf + chunks[0];
      if |all| >= BUF_SIZE - 1 then TooLong([])
      else
        match Receive(Tail(all), chunks[1..])
        case Frames(ls, b) => Frames(Lines(all) + ls, b)
        case TooLong(ls) => TooLong(Lines(all) + ls)
  }

  /** Chunk borders do not matter: unless the buffer fills up, the lines handed on over the
      whole run are exactly the newline-terminated segments of the stream, in order, and the
      buffer is the newline-free rest. */
  lemma {:induction false} FramingIgnoresChunkBorders(buf: Bytes, chunks: seq<Bytes>)
    requires NL !in buf
    requires Receive(buf, chunks).Frames?
    ensures Receive(buf, chunks) == Frames(Lines(buf + Concat(chunks)), Tail(buf + Concat(chunks)))
    decreases chunks
  {
    hide Lines, Tail;
    if chunks == [] {
      assert buf + Concat(chunks) == buf;
      Unterminated(buf);
    } else {
      var all := buf + chunks[0];
      FramingIgnoresChunkBorders(Tail(all), chunks[1..]);
      LinesResume(all, Concat(chunks[1..]));
      assert buf + Concat(chunks) == all + Concat(chunks[1..]);
    }
  }

  /** Also when the connection is given up, what was handed on is an initial part of the
      segments of the stream. */
  lemma {:induction false} FramingNeverInvents(buf: Bytes, chunks: seq<Bytes>)
    requires NL !in buf
    requires Receive(buf, chunks).TooLong?
    ensures Receive(buf, chunks).linesBefore <= Lines(buf + Concat(chunks))
    decreases chunks
  {
    var all := buf + chunks[0];
    assert buf + Concat(chunks) == all + Concat(chunks[1..]);
    LinesResume(all, Concat(chunks[1..]));
    if |all| < BUF_SIZE - 1 {
      FramingNeverInvents(Tail(all), chunks[1..]);
    }
  }

  /** After every recv that is not refused there is room for at least one more byte. */
  lemma {:induction false} RoomForTheNextByte(buf: Bytes, chunks: seq<Bytes>)
    requires |buf| < BUF_SIZE - 1
    requires Receive(buf, chunks).Frames?
    ensures Fits(Receive(buf, chunks).buf, [NUL])
    decreases chunks
  {
    if chunks != [] {
      RoomForTheNextByte(Tail(buf + chunks[0]), chunks[1..]);
    }
  }

  /** A stream that is short enough is never refused, however it is cut. */
  lemma {:induction false} ShortStreamsFit(buf: Bytes, chunks: seq<Bytes>)
    requires |buf| + |Concat(chunks)| < BUF_SIZE - 1
    ensures Receive(buf, chunks).Frames?
    decreases chunks
  {
    if chunks != [] {
      ShortStreamsFit(Tail(buf + chunks[0]), chunks[1..]);
    }
  }

  /** The chunks are what successive calls of recv may return, up to the first refusal. */
  predicate Legal(buf: Bytes, chunks: seq<Bytes>)
    decreases chunks
  {
    chunks == [] ||
    var all := buf + chunks[0];
    Fits(buf, chunks[0]) && (|all| < BUF_SIZE - 1 ==> Legal(Tail(all), chunks[1..]))
  }

  /** The stream, cut into these chunks by recv. */
  predicate CutOf(s: Bytes, chunks: seq<Bytes>)
  {
    Concat(chunks) == s && Legal([], chunks)
  }

  /** Refusal and chunk borders, exactly: a stream is accepted however it is cut if and only if it
      is shorter than 1023 bytes. */
  lemma AcceptedForEveryCut(s: Bytes)
    ensures (forall chunks | CutOf(s, chunks) :: Receive([], chunks).Frames?) <==> |s| < BUF_SIZE - 1
  {
    if |s| < BUF_SIZE - 1 {
      forall chunks | CutOf(s, chunks) ensures Receive([], chunks).Frames?
      {
        ShortStreamsFit([], chunks);
      }
    } else {
      var head, rest := s[..BUF_SIZE - 1], s[BUF_SIZE - 1..];
      ConcatOne(rest);
      assert [head, rest][1..] == [rest] && [] + head == head;
      assert Concat([rest]) == rest && Concat([head, rest]) == head + rest == s;
      assert CutOf(s, [head, rest]);
    }
  }

  /** No line of the stream, and not its rest, fills the buffer. */
  predicate LinesFit(s: Bytes)
  {
    (forall l | l in Lines(s) :: |l| < BUF_SIZE - 1) && |Tail(s)| < BUF_SIZE - 1
  }

  /** And it is refused however it is cut exactly if it has a line of 1023 bytes or more, newline
      included, or ends in 1023 bytes without one. */
  lemma AcceptedForSomeCut(s: Bytes)
    ensures (exists chunks :: CutOf(s, chunks) && Receive([], chunks).Frames?) <==> LinesFit(s)
  {
    hide Receive, Legal, Concat, Lines, Tail, Framed;
    if chunks :| CutOf(s, chunks) && Receive([], chunks).Frames? {
      AcceptedLinesFit([], chunks);
      assert [] + s == s;
    }
    if LinesFit(s) {
      var cut := Lines(s) + if Tail(s) == [] then [] else [Tail(s)];
      LinesAreFramed(s);
      LineByLine(Lines(s), Tail(s));
      LinesLoseNothing(s);
      assert CutOf(s, cut) && Receive([], cut).Frames?;
    }
  }

  lemma {:induction false} AcceptedLinesFit(buf: Bytes, chunks: seq<Bytes>)
    requires |buf| < BUF_SIZE - 1 && NL !in buf
    requires Receive(buf, chunks).Frames?
    ensures LinesFit(buf + Concat(chunks))
    decreases chunks
  {
    hide Lines, Tail;
    if chunks == [] {
      Unterminated(buf);
      assert buf + Concat(chunks) == buf;
    } else {
      var all := buf + chunks[0];
      AcceptedLinesFit(Tail(all), chunks[1..]);
      LinesResume(all, Concat(chunks[1..]));
      assert buf + Concat(chunks) == all + Concat(chunks[1..]);
      LinesAreParts(all);
    }
  }

  lemma {:induction false} LinesAreParts(s: Bytes)
    ensures forall l | l in Lines(s) :: |l| <= |s|
    decreases |s|
  {
    if NL in s {
      LinesAreParts(s[IndexOf(s, NL) + 1..]);
      FirstLine(s);
    }
  }

  lemma {:induction false} LineByLine(ls: seq<Bytes>, rest: Bytes)
    requires forall l | l in ls :: Framed(l) && |l| < BUF_SIZE - 1
    requires NL !in rest && |rest| < BUF_SIZE - 1
    ensures
      var cut := ls + if rest == [] then [] else [rest];
      Concat(cut) == Concat(ls) + rest && Legal([], cut) && Receive([], cut).Frames?
  {
    hide Lines, Tail;
    var last := if rest == [] then [] else [rest];
    var cut := ls + last;
    if ls == [] {
      assert cut == last && [] + rest == rest;
      ConcatOne(rest);
      Unterminated(rest);
    } else {
      assert cut[0] == ls[0] && cut[1..] == ls[1..] + last && [] + ls[0] == ls[0];
      FramedAlone(ls[0]);
      LineByLine(ls[1..], rest);
      Associate(ls[0], Concat(ls[1..]), rest);
    }
  }

  lemma FramedAlone(a: Bytes)
    requires Framed(a)
    ensures Lines(a) == [a] && Tail(a) == []
  {
    hide Lines, Tail;
    LinesOfFramed(a, []);
    Unterminated([]);
    assert a + [] == a && [a] + [] == [a];
  }

  // ---------------------------------------------------------------- end to end

  function Wires(rs: seq<Request>): (ls: seq<Bytes>)
    ensures |ls| == |rs|
    ensures forall i | 0 <= i < |rs| :: ls[i] == Wire(rs[i])
  {
    if rs == [] then [] else [Wire(rs[0])] + Wires(rs[1..])
  }

  /** Requests in chunks are framed as the lines that the client wrote; when the buffer fills up,
      as the first few of them. */
  lemma WiresAreFramed(rs: seq<Request>, chunks: seq<Bytes>) returns (m: nat)
    requires Concat(chunks) == Concat(Wires(rs))
    ensures Receive([], chunks).Frames? ==> Receive([], chunks) == Frames(Wires(rs), [])
    ensures m <= |rs|
    ensures Receive([], chunks).TooLong? ==> Receive([], chunks).linesBefore == Wires(rs[..m])
  {
    hide Receive, Wire, Framed, Lines, Tail, Concat;
    forall i | 0 <= i < |rs| ensures Framed(Wires(rs)[i])
    {
      WireIsFramed(rs[i]);
    }
    LinesOfConcat(Wires(rs), []);
    assert [] + Concat(chunks) == Concat(Wires(rs)) + [];
    m := 0;
    if Receive([], chunks).Frames? {
      FramingIgnoresChunkBorders([], chunks);
    } else {
      FramingNeverInvents([], chunks);
      m := |Receive([], chunks).linesBefore|;
      FirstWires(rs, m);
    }
  }

  lemma FirstWires(rs: seq<Request>, m: nat)
    requires m <= |rs|
    ensures Wires(rs)[..m] == Wires(rs[..m])
  {
    hide Wire;
  }

  lemma WireIsFramed(r: Request)
    ensures Framed(Wire(r))
  {
    hide Body;
    RequestIsOneLine(r);
    assert Wire(r)[..|Wire(r)| - 1] == Body(r);
  }
}
