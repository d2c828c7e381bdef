/** The password prompt recogniser shared by su and ssh (src/suprocess.cpp:256-268,
    src/sshprocess.cpp:189-200). */
module Prompt {
  import opened ByteStrings

  /** A prompt: exactly one ':' and nothing but blanks behind it. */
  predicate PromptAt(line: Bytes, p: nat)
  {
    && p < |line| && line[p] == COLON && COLON !in line[..p]
    && forall k | p < k < |line| :: IsSpace(line[k])
  }

  predicate IsPrompt(line: Bytes)
  {
    exists p | 0 <= p < |line| :: PromptAt(line, p)
  }

  /** The loop with its two counters: j is only looked up when the line has exactly one ':', and
      then it is a valid index. */
  method MatchPrompt(line: Bytes) returns (prompt: bool)
    ensures prompt == IsPrompt(line)
  {
    var j, colon := 0, 0;
    ghost var last := -1;
    for i := 0 to |line|
      invariant -1 <= last < i
      invariant colon == 0 <==> last == -1
      invariant forall k | last < k < i :: line[k] != COLON
      invariant last >= 0 ==> line[last] == COLON && last <= j < i
      invariant last >= 0 ==> (j == last <==> forall k | last < k < i :: IsSpace(line[k]))
      invariant colon == 1 ==> COLON !in line[..last]
      invariant colon > 1 ==> COLON in line[..last]
      invariant colon >= 0 && (last == -1 ==> 0 <= j <= i)
    {
      if line[i] == COLON {
        assert last >= 0 ==> line[..i][last] == COLON;
        assert last == -1 ==> COLON !in line[..i];
        last := i;
        j := i;
        colon := colon + 1;
        continue;
      }
      if !IsSpace(line[i]) {
        j := j + 1;
      }
    }
    prompt := colon == 1 && line[j] == COLON;
    if prompt {
      assert PromptAt(line, last);
    } else {
      forall p: nat | p < |line| ensures !PromptAt(line, p)
      {
        OnlyColon(line, p, last);
      }
    }
  }

  /** Where a prompt's colon must be, seen from the last colon of the line. */
  lemma OnlyColon(line: Bytes, p: nat, last: int)
    requires p < |line| && -1 <= last < |line|
    requires forall k | last < k < |line| :: line[k] != COLON
    requires last >= 0 ==> line[last] == COLON
    ensures PromptAt(line, p) ==> p == last
  {
  }

  /** A prompt is a line with one ':' and only blanks behind it, whatever is before it. */
  lemma PromptExactly(line: Bytes)
    ensures IsPrompt(line) <==>
      exists before: Bytes, behind: Bytes ::
        before + [COLON] + behind == line && COLON !in before && forall c | c in behind :: IsSpace(c)
  {
    if IsPrompt(line) {
      var p :| 0 <= p < |line| && PromptAt(line, p);
      assert line[..p] + [COLON] + line[p + 1..] == line;
    }
    if before: Bytes, behind: Bytes :|
      before + [COLON] + behind == line && COLON !in before && forall c | c in behind :: IsSpace(c)
    {
      var p := |before|;
      assert line[..p] == before && line[p] == COLON;
      forall k | p < k < |line| ensures IsSpace(line[k])
      {
        assert line[k] == behind[k - p - 1];
      }
      assert PromptAt(line, p);
    }
  }

  /** The comment above the loop asks for something before the ':'; the code does not. */
  lemma LoneColonIsPrompt()
    ensures IsPrompt([COLON])
  {
    assert PromptAt([COLON], 0);
  }
}
