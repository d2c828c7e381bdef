/** kdesu_stub's side of the conversation (src/kdesu_stub.c:190-240). */
module Stub {
  import opened ByteStrings
  import opened Quoting
  import opened StubWords

  const BUFSIZE := 8192
  const P_LAST := 10

  /** The parameter table, in the order in which the stub asks. */
  function ParamName(i: nat): Word
    requires i < P_LAST
  {
    [Header, Display, DisplayAuth, Command, Path, XWindowsOnly, User, Priority, Scheduler, AppStartupId][i]
  }

  /** fgets(buf, BUFSIZE): up to and with the next newline, at most BUFSIZE - 1 bytes; None while
      neither is there. */
  function Fgets(stream: Bytes): Option<nat>
  {
    var n := IndexOf(stream, NL) + 1;
    if 0 < n < BUFSIZE then Some(n)
    else if |stream| >= BUFSIZE - 1 then Some(BUFSIZE - 1)
    else None
  }

  /** Waiting for parameter number i, for an environment entry, or ended: with the parameters and
      the environment complete, stopped by the installation check, or at end of file. */
  datatype StubState =
    | Param(i: nat, values: seq<Bytes>)
    | EnvLoop(params: seq<Bytes>, env: seq<Bytes>)
    | Complete(allParams: seq<Bytes>, allEnv: seq<Bytes>)
    | Stopped
    | Failed

  predicate Waiting(st: StubState) { (st.Param? && st.i < P_LAST) || st.EnvLoop? }

  /** One line read by the stub: the next state and the lines printed. */
  function StubStep(st: StubState, line: Bytes): (StubState, seq<Bytes>)
    requires Waiting(st)
  {
    match st
    case Param(i, values) =>
      var v := ParamValue(line);
      if i == 0 && v == STOP_WORD then (Stopped, [NameOf(End)])
      else if i + 1 < P_LAST then (Param(i + 1, values + [v]), [NameOf(ParamName(i + 1))])
      else (EnvLoop(values + [v], []), [NameOf(Environment)])
    case EnvLoop(params, env) =>
      var e := EnvEntry(line);
      if e == [] then (Complete(params, env), [NameOf(End)])
      else (EnvLoop(params, env + [e]), [])
  }

  /** The stub on a whole input, of which fgets() takes the last piece even if it has no newline. */
  function StubRun(st: StubState, input: Bytes): (StubState, seq<Bytes>)
    decreases |input|
  {
    if !Waiting(st) then (st, [])
    else if input == [] then (Failed, [NameOf(End)])
    else
      var n := TakeLine(input);
      var (st1, out) := StubStep(st, input[..n]);
      var (st2, more) := StubRun(st1, input[n..]);
      (st2, out + more)
  }

  function TakeLine(input: Bytes): (n: nat)
    requires input != []
    ensures 0 < n <= |input| && n < BUFSIZE
  {
    match Fgets(input)
    case Some(n) => n
    case None => |input|
  }

  /** main() up to the point where the conversation is over, with the buffer that dequote()
      works on. */
  method ReadParameters(input: Bytes) returns (st: StubState, printed: seq<Bytes>)
    ensures st == StubRun(Param(0, []), input).0
    ensures printed == [NameOf(Header)] + StubRun(Param(0, []), input).1
  {
    hide NameOf, Fgets, TakeLine, ParamValue, EnvEntry, StubRun, ParamName;
    ghost var all := StubRun(Param(0, []), input);
    var rest := input;
    var values: seq<Bytes> := [];
    printed := [NameOf(Header)];
    ghost var before: seq<Bytes> := [];
    assert before + all.1 == all.1;
    var i := 0;
    while i < P_LAST
      invariant i <= P_LAST
      invariant i < P_LAST ==> JoinRun(before, StubRun(Param(i, values), rest)) == all
      invariant i == P_LAST ==> JoinRun(before, StubRun(EnvLoop(values, []), rest)) == all
      invariant printed == [NameOf(Header)] + before
    {
      if rest == [] {
        RunEnds(before, Param(i, values));
        st, printed := Failed, printed + [NameOf(End)];
        return;
      }
      var n := TakeLine(rest);
      var v := ParamValue(rest[..n]);
      ghost var step := StubStep(Param(i, values), rest[..n]);
      JoinStep(before, Param(i, values), rest);
      rest := rest[n..];
      if i == 0 && v == STOP_WORD {
        RunIsOver(before + step.1, Stopped, rest);
        st, printed := Stopped, printed + [NameOf(End)];
        return;
      }
      values := values + [v];
      i := i + 1;
      before := before + step.1;
      printed := printed + [NameOf(if i < P_LAST then ParamName(i) else Environment)];
    }
    var env: seq<Bytes> := [];
    while true
      invariant JoinRun(before, StubRun(EnvLoop(values, env), rest)) == all
      invariant printed == [NameOf(Header)] + before
      decreases |rest|
    {
      if rest == [] {
        RunEnds(before, EnvLoop(values, env));
        st, printed := Failed, printed + [NameOf(End)];
        return;
      }
      var n := TakeLine(rest);
      JoinStep(before, EnvLoop(values, env), rest);
      var tmp := ReadEnvEntry(rest[..n]);
      rest := rest[n..];
      if tmp == [] {
        RunIsOver(before + [NameOf(End)], Complete(values, env), rest);
        st, printed := Complete(values, env), printed + [NameOf(End)];
        return;
      }
      assert before + [] == before;
      env := env + [tmp];
    }
  }

  function JoinRun(before: seq<Bytes>, run: (StubState, seq<Bytes>)): (StubState, seq<Bytes>)
  {
    (run.0, before + run.1)
  }

  lemma RunEnds(before: seq<Bytes>, st: StubState)
    requires Waiting(st)
    ensures JoinRun(before, StubRun(st, [])) == (Failed, before + [NameOf(End)])
  {
  }

  lemma RunIsOver(before: seq<Bytes>, st: StubState, input: Bytes)
    requires !Waiting(st)
    ensures JoinRun(before, StubRun(st, input)) == (st, before)
  {
    assert before + [] == before;
  }

  lemma JoinStep(before: seq<Bytes>, st: StubState, input: Bytes)
    requires Waiting(st) && input != []
    ensures
      var n := TakeLine(input);
      var (st1, out) := StubStep(st, input[..n]);
      JoinRun(before, StubRun(st, input)) == JoinRun(before + out, StubRun(st1, input[n..]))
  {
    hide StubStep, TakeLine;
    var n := TakeLine(input);
    var (st1, out) := StubStep(st, input[..n]);
    assert before + (out + StubRun(st1, input[n..]).1) == before + out + StubRun(st1, input[n..]).1;
  }

  /** fgets() into the buffer, dequote() in place, xstrdup(). */
  method ReadEnvEntry(line: Bytes) returns (tmp: Bytes)
    requires |line| < BUFSIZE
    ensures tmp == EnvEntry(line)
  {
    var buf := new Byte[BUFSIZE + 1];
    forall k | 0 <= k < |line| { buf[k] := line[k]; }
    buf[|line|] := NUL;
    assert buf[..|line|] == line;
    assert buf[..] == line + [NUL] + buf[|line| + 1..];
    StringInBuffer(line, buf[|line| + 1..]);
    ghost var d := Decode(CString(line));
    Dequote(buf);
    ghost var tail := buf[|d| + 1..];
    assert buf[..] == d + [NUL] + tail;
    StringInBuffer(d, tail);
    tmp := StripNewline(CString(buf[..]));
  }

  lemma {:induction false} StringInBuffer(s: Bytes, rest: Bytes)
    ensures CString(s + [NUL] + rest) == CString(s)
  {
    if NUL in s {
      var k := IndexOf(s, NUL);
      assert s == s[..k] + [NUL] + s[k + 1..];
      assert s + [NUL] + rest == s[..k] + [NUL] + (s[k + 1..] + [NUL] + rest);
      CStringCut(s[..k], s[k + 1..] + [NUL] + rest);
    } else {
      CStringCut(s, rest);
    }
  }

  /** On any input, complete or not, the stub comes to an end, and its last line, and no other, is
      the word end. */
  lemma {:induction false} AlwaysSaysEnd(st: StubState, input: Bytes)
    requires Waiting(st)
    ensures
      var (st1, printed) := StubRun(st, input);
      && !Waiting(st1) && !st1.Param?
      && printed != [] && printed[|printed| - 1] == NameOf(End)
      && forall i | 0 <= i < |printed| - 1 :: printed[i] != NameOf(End)
    decreases |input|
  {
    hide ParamValue, EnvEntry, NameOf;
    if input != [] {
      var n := TakeLine(input);
      var (st1, out) := StubStep(st, input[..n]);
      OtherNames();
      if Waiting(st1) {
        AlwaysSaysEnd(st1, input[n..]);
      } else {
        assert out + [] == out;
      }
    }
  }

  lemma OtherNames()
    ensures forall i: nat | i < P_LAST :: NameOf(ParamName(i)) != NameOf(End)
    ensures NameOf(Environment) != NameOf(End)
  {
    hide NameOf;
    forall i: nat | i < P_LAST ensures NameOf(ParamName(i)) != NameOf(End)
    {
      NamesDiffer(ParamName(i), End);
    }
    NamesDiffer(Environment, End);
  }
}
