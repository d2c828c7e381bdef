/** The conversation with ssh (src/sshprocess.cpp:163-231). */
module SshProcess {
  import opened ByteStrings
  import opened StubWords
  import opened Prompt
  import opened PtyProcess
  import opened SuProcess
  import StubProcess

  const SSH_NEEDS_PASSWORD := 2
  const PROMPT_ONLY := 2

  /** The result, the numbers of the lines upon which the password is written, the text added to
      error, and the prompt that is saved. */
  datatype SshResult = SshResult(ret: int, writes: seq<nat>, error: Bytes, prompt: Option<Bytes>)

  /** converseSsh from line number k on, in state 0 or, after the password, in state 1. */
  function SshRun(check: int, lines: seq<Bytes>, noEcho: nat -> bool, state: nat, k: nat): SshResult
    requires k <= |lines| && state < 2
    decreases |lines| - k
  {
    if k == |lines| then SshResult(-1, [], [], None)
    else if state == 1 then SshResult(if lines[k] == [] then 0 else -1, [], [], None)
    else if lines[k] == HEADER then SshResult(0, [], [], None)
    else if IsPrompt(lines[k]) then
      if check == PROMPT_ONLY then SshResult(SSH_NEEDS_PASSWORD, [], [], Some(lines[k]))
      else if !noEcho(k) then SshResult(-1, [], [], None)
      else
        var r := SshRun(check, lines, noEcho, 1, k + 1);
        r.(writes := [k] + r.writes)
    else
      var r := SshRun(check, lines, noEcho, 0, k + 1);
      r.(error := lines[k] + [NL] + r.error)
  }

  lemma SshRunUnfolds(check: int, lines: seq<Bytes>, noEcho: nat -> bool, state: nat, k: nat)
    requires k <= |lines| && state < 2
    ensures SshRun(check, lines, noEcho, state, k) ==
      if k == |lines| then SshResult(-1, [], [], None)
      else if state == 1 then SshResult(if lines[k] == [] then 0 else -1, [], [], None)
      else if lines[k] == HEADER then SshResult(0, [], [], None)
      else if IsPrompt(lines[k]) then
        if check == PROMPT_ONLY then SshResult(SSH_NEEDS_PASSWORD, [], [], Some(lines[k]))
        else if !noEcho(k) then SshResult(-1, [], [], None)
        else
          var r := SshRun(check, lines, noEcho, 1, k + 1);
          r.(writes := [k] + r.writes)
      else
        var r := SshRun(check, lines, noEcho, 0, k + 1);
        r.(error := lines[k] + [NL] + r.error)
  {
    hide IsPrompt, NameOf;
  }

  class SshConversation {
    var prompt: Bytes
    var error: Bytes

    constructor ()
      ensures prompt == [] && error == []
    {
      prompt, error := [], [];
    }

    /** converseSsh on a terminal.  Line number n is the last one read; if that was the header, it has
        been put back with all that was in hand, so that converseStub reads it next. */
    method Converse(pty: LineBuffer, password: Bytes, check: int, noEcho: nat -> bool)
        returns (ret: int, written: Bytes, ghost writes: seq<nat>, ghost n: nat)
      modifies this, pty
      ensures
        var r := SshRun(check, LineStream(old(pty.inputBuffer), old(pty.incoming)), noEcho, 0, 0);
        && ret == r.ret && writes == r.writes
        && error == old(error) + r.error
        && prompt == (if r.prompt.Some? then r.prompt.value else old(prompt))
      ensures written == if writes == [] then [] else password + [NL]
      ensures
        if ret == 0 && writes == []
        then HeaderPutBack(old(pty.inputBuffer), old(pty.incoming), n, pty.inputBuffer, pty.incoming)
        else (pty.inputBuffer, pty.incoming) == AfterLines(old(pty.inputBuffer), old(pty.incoming), n + 1)
    {
      hide IsPrompt, TakeLine, NameOf, Prefixed, LineStream, AfterLines, WithNewline, BufferAfter, SshRun, AtLine, InHand,
        HeaderPutBack;
      ghost var buf, incoming := pty.inputBuffer, pty.incoming;
      ghost var lines := LineStream(buf, incoming);
      ghost var r := SshRun(check, lines, noEcho, 0, 0);
      ghost var text: Bytes := [];
      var state, k := 0, 0;
      written, writes := [], [];
      assert error + text == error;
      PrefixNothing(r);
      n := 0;
      AtFirstLine(buf, incoming);
      while state < 2
        invariant 0 <= state <= 2 && k <= |lines|
        invariant AtLine(buf, incoming, k, pty.inputBuffer, pty.incoming)
        invariant state == 2 ==> k == n + 1 && (pty.inputBuffer, pty.incoming) == AfterLines(buf, incoming, n + 1)
        invariant error == old(error) + text && prompt == old(prompt)
        invariant state < 2 ==> r == Prefixed(SshRun(check, lines, noEcho, state, k), writes, text)
        invariant state == 2 ==> r == SshResult(0, writes, text, None) && writes != []
        invariant state == 0 <==> writes == []
        invariant written == if writes == [] then [] else password + [NL]
        decreases |lines| - k
      {
        n := k;
        PrefixEnd(writes, text);
        SshRunUnfolds(check, lines, noEcho, state, k);
        var line := TakeNext(pty, buf, incoming, k);
        if line.None? { return -1, written, writes, n; }
        if state == 0 {
          if line.value == HEADER {
            GiveHeaderBack(pty, buf, incoming, k);
            return 0, written, writes, n;
          }
          var isPrompt := MatchPrompt(line.value);
          if isPrompt {
            if check == PROMPT_ONLY {
              prompt := line.value;
              return SSH_NEEDS_PASSWORD, written, writes, n;
            }
            if !noEcho(k) { return -1, written, writes, n; }
            written := written + password;
            written := written + [NL];
            PrefixWrite(SshRun(check, lines, noEcho, 1, k + 1), writes, text, k);
            writes := writes + [k];
            state := state + 1;
          } else {
            PrefixText(SshRun(check, lines, noEcho, 0, k + 1), writes, text, line.value);
            Associate(old(error), text, line.value + [NL]);
            Associate(old(error) + text, line.value, [NL]);
            error := error + line.value;
            error := error + [NL];
            text := text + (line.value + [NL]);
          }
        } else {
          if line.value != [] { return -1, written, writes, n; }
          state := state + 1;
        }
        k := k + 1;
      }
      ret := 0;
    }
  }

  /** A result as it stands after these writes and this error text. */
  function Prefixed(r: SshResult, writes: seq<nat>, text: Bytes): SshResult
  {
    SshResult(r.ret, writes + r.writes, text + r.error, r.prompt)
  }

  lemma PrefixNothing(r: SshResult)
    ensures Prefixed(r, [], []) == r
  {
  }

  lemma PrefixEnd(writes: seq<nat>, text: Bytes)
    ensures forall ret, p :: Prefixed(SshResult(ret, [], [], p), writes, text) == SshResult(ret, writes, text, p)
  {
  }

  lemma PrefixWrite(r: SshResult, writes: seq<nat>, text: Bytes, k: nat)
    ensures Prefixed(r.(writes := [k] + r.writes), writes, text) == Prefixed(r, writes + [k], text)
  {
  }

  lemma PrefixText(r: SshResult, writes: seq<nat>, text: Bytes, line: Bytes)
    ensures Prefixed(r.(error := line + [NL] + r.error), writes, text) == Prefixed(r, writes, text + (line + [NL]))
  {
  }

  // ---------------------------------------------------------------- what can happen

  /** The first line that is the header or a prompt; |lines| if there is none. */
  function Decisive(lines: seq<Bytes>, k: nat): (n: nat)
    requires k <= |lines|
    ensures k <= n <= |lines|
    ensures forall i | k <= i < n :: lines[i] != HEADER && !IsPrompt(lines[i])
    ensures n < |lines| ==> lines[n] == HEADER || IsPrompt(lines[n])
    decreases |lines| - k
  {
    if k == |lines| || lines[k] == HEADER || IsPrompt(lines[k]) then k else Decisive(lines, k + 1)
  }

  /** Lines as error text, each with its newline. */
  function ErrorText(lines: seq<Bytes>): Bytes
  {
    if lines == [] then [] else lines[0] + [NL] + ErrorText(lines[1..])
  }

  lemma {:induction false} UpToDecisive(check: int, lines: seq<Bytes>, noEcho: nat -> bool, k: nat)
    requires k <= |lines|
    ensures
      var d := Decisive(lines, k);
      var r := SshRun(check, lines, noEcho, 0, d);
      SshRun(check, lines, noEcho, 0, k) == r.(error := ErrorText(lines[k..d]) + r.error)
    decreases |lines| - k
  {
    hide IsPrompt, NameOf;
    var d := Decisive(lines, k);
    if d == k {
      assert lines[k..d] == [];
      assert [] + SshRun(check, lines, noEcho, 0, d).error == SshRun(check, lines, noEcho, 0, d).error;
    } else {
      UpToDecisive(check, lines, noEcho, k + 1);
      assert lines[k..d] == [lines[k]] + lines[k + 1..d];
      Associate(lines[k] + [NL], ErrorText(lines[k + 1..d]), SshRun(check, lines, noEcho, 0, d).error);
    }
  }

  /** The conversation with ssh, exactly, for any lines.  Everything before the first line that is
      the header or a prompt is error text, each line with a newline, and nothing else is.  The
      password is written upon that line and never again, never for check 2, only if the terminal
      went silent.  The result is 0 for the header, or when an empty line follows the password. */
  lemma SshConversationIsExact(check: int, lines: seq<Bytes>, noEcho: nat -> bool)
    ensures
      var r := SshRun(check, lines, noEcho, 0, 0);
      var d := Decisive(lines, 0);
      var prompted := d < |lines| && lines[d] != HEADER;
      var answered := prompted && check != PROMPT_ONLY && noEcho(d);
      && r.error == ErrorText(lines[..d])
      && r.writes == (if answered then [d] else [])
      && (r.ret == 0 <==> d < |lines| && (lines[d] == HEADER || (answered && d + 1 < |lines| && lines[d + 1] == [])))
      && (r.ret == SSH_NEEDS_PASSWORD <==> prompted && check == PROMPT_ONLY)
      && r.prompt == (if prompted && check == PROMPT_ONLY then Some(lines[d]) else None)
  {
    hide IsPrompt, NameOf, ErrorText;
    UpToDecisive(check, lines, noEcho, 0);
    var d := Decisive(lines, 0);
    assert lines[0..d] == lines[..d];
    assert ErrorText(lines[..d]) + [] == ErrorText(lines[..d]);
  }

  // ---------------------------------------------------------------- exec

  const SSH_NOT_FOUND := 1
  const CHECK_PASSWORD := 1

  /** The return code of SshProcess::exec from what its parts report.  A refusal by converseStub has
      the child killed, but does not change the code: it is overwritten. */
  function ExecCode(check: int, started: bool, ssh: int, stub: int, child: int): int
  {
    if !started then (if check != 0 then SSH_NOT_FOUND else -1)
    else if ssh < 0 || check == PROMPT_ONLY then ssh
    else if stub < 0 then stub
    else if check == CHECK_PASSWORD then 0
    else child
  }

  /** SshProcess::exec in its order of steps; converseStub is given the lines of the same terminal. */
  method Exec(check: int, started: bool, pty: LineBuffer, password: Bytes, noEcho: nat -> bool,
              s: StubProcess.Settings, child: int)
      returns (code: int, killed: bool, ghost ssh: int, ghost stub: int, ghost lines: seq<Bytes>)
    modifies pty
    ensures ssh == SshRun(check, LineStream(old(pty.inputBuffer), old(pty.incoming)), noEcho, 0, 0).ret
    ensures started && ssh >= 0 && check != PROMPT_ONLY ==>
      stub == StubProcess.ParentRun(s, check, StubProcess.WaitHeader, lines).0
    ensures code == ExecCode(check, started, ssh, stub, child)
    ensures killed <==> started && ssh >= 0 && check != PROMPT_ONLY && stub == 1
  {
    hide SshRun, LineStream, TakeLine, AfterLines, StubProcess.ParentRun;
    ssh := SshRun(check, LineStream(pty.inputBuffer, pty.incoming), noEcho, 0, 0).ret;
    stub, lines, killed := 0, [], false;
    SshResults(check, LineStream(pty.inputBuffer, pty.incoming), noEcho);
    if !started { return if check != 0 then SSH_NOT_FOUND else -1, killed, ssh, stub, lines; }
    var conversation := new SshConversation();
    var ret, written;
    ghost var writes, n;
    ret, written, writes, n := conversation.Converse(pty, password, check, noEcho);
    if ret < 0 { return ret, killed, ssh, stub, lines; }
    if check == PROMPT_ONLY {
      if ret == 1 { killed := true; }
      return ret, killed, ssh, stub, lines;
    }
    var text := LineStream(pty.inputBuffer, pty.incoming);
    lines := text;
    var answers;
    ret, answers := StubProcess.ConverseStub(s, check, text);
    stub := ret;
    if ret < 0 { return ret, killed, ssh, stub, lines; }
    if ret == 1 {
      killed := true;
      ret := 3;
    }
    if check == CHECK_PASSWORD { return 0, killed, ssh, stub, lines; }
    ret := child;
    return ret, killed, ssh, stub, lines;
  }

  lemma SshResults(check: int, lines: seq<Bytes>, noEcho: nat -> bool)
    ensures SshRun(check, lines, noEcho, 0, 0).ret in {-1, 0, SSH_NEEDS_PASSWORD}
  {
    hide IsPrompt, NameOf;
    UpToDecisive(check, lines, noEcho, 0);
    var d := Decisive(lines, 0);
    SshRunUnfolds(check, lines, noEcho, 0, d);
    if d < |lines| { SshRunUnfolds(check, lines, noEcho, 1, d + 1); }
  }

  /** The return codes of exec by their causes, for any lines of ssh.  Up to the first line that is
      the header or a prompt, lines do not matter; reached says that the header came, or the password
      was written and an empty line followed. */
  lemma ExecCodesByCause(check: int, lines: seq<Bytes>, noEcho: nat -> bool, started: bool, stub: int, child: int)
    requires stub in {-1, 0, 1} && check in {0, 1, 2}
    ensures
      var code := ExecCode(check, started, SshRun(check, lines, noEcho, 0, 0).ret, stub, child);
      var d := Decisive(lines, 0);
      var header, prompted := d < |lines| && lines[d] == HEADER, d < |lines| && lines[d] != HEADER;
      var reached := header || (prompted && noEcho(d) && d + 1 < |lines| && lines[d + 1] == []);
      && (check == 0 ==> code == if started && reached && stub >= 0 then child else -1)
      && (check == 1 ==> code == if !started then 1 else if reached && stub >= 0 then 0 else -1)
      && (check == 2 ==> code == if !started then 1 else if prompted then 2 else if header then 0 else -1)
  {
    hide IsPrompt, NameOf, SshRun, Decisive;
    SshConversationIsExact(check, lines, noEcho);
    SshResults(check, lines, noEcho);
  }
}
