/**
 * Plan-text normalisation inside `write_chained_plans`
 * (bin/chain_itelescope.py): the file is read in text mode, split with
 * `str.splitlines`, an empty line is appended and the lines are joined with
 * "\n". The effect is that every line ends in exactly one "\n".
 */
module PlanText {

  /** The line boundaries `str.splitlines` recognises ("\r\n" counts as one). */
  const LineBreaks: set<char> :=
    {'\n', '\r', '\U{0B}', '\U{0C}', '\U{1C}', '\U{1D}', '\U{1E}', '\U{85}', '\U{2028}', '\U{2029}'}

  predicate IsLineBreak(c: char) {
    c in LineBreaks
  }

  predicate NoLineBreak(s: string) {
    forall i | 0 <= i < |s| :: !IsLineBreak(s[i])
  }

  /** Index of the first line boundary of `s`, or `|s|`. */
  function LineEnd(s: string): (k: nat)
    ensures k <= |s|
    ensures k < |s| ==> IsLineBreak(s[k])
  {
    if s == [] || IsLineBreak(s[0]) then 0 else 1 + LineEnd(s[1..])
  }

  /** No character before `LineEnd(s)` is a line boundary. */
  lemma {:induction false} LineEndBreakFree(s: string)
    ensures forall i | 0 <= i < LineEnd(s) :: !IsLineBreak(s[i])
  {
    if s != [] && !IsLineBreak(s[0]) {
      LineEndBreakFree(s[1..]);
      forall i | 0 < i < LineEnd(s) ensures !IsLineBreak(s[i]) {
        assert s[i] == s[1..][i - 1];
      }
    }
  }

  /** Length of the boundary at `k`: two for "\r\n", one otherwise. */
  function BreakLength(s: string, k: nat): (n: nat)
    requires k < |s|
    ensures 1 <= n <= |s| - k
  {
    if s[k] == '\r' && k + 1 < |s| && s[k + 1] == '\n' then 2 else 1
  }

  /** Python's `str.splitlines()` (without `keepends`). */
  function SplitLines(s: string): (lines: seq<string>)
    ensures lines == [] <==> s == []
    decreases |s|
  {
    if s == [] then []
    else
      var k := LineEnd(s);
      if k == |s| then [s]
      else [s[..k]] + SplitLines(s[k + BreakLength(s, k)..])
  }

  /** Python's `"\n".join(lines)`. */
  function Join(lines: seq<string>): string {
    if |lines| == 0 then ""
    else if |lines| == 1 then lines[0]
    else lines[0] + "\n" + Join(lines[1..])
  }

  /** Every line followed by "\n". */
  function Terminated(lines: seq<string>): string {
    if lines == [] then "" else lines[0] + "\n" + Terminated(lines[1..])
  }

  /**
   * Universal-newline translation of a file read in text mode: "\r\n" and a
   * lone "\r" both become "\n".
   */
  function TranslateNewlines(raw: string): string {
    if raw == [] then []
    else if raw[0] == '\r' then
      "\n" + TranslateNewlines(if |raw| > 1 && raw[1] == '\n' then raw[2..] else raw[1..])
    else [raw[0]] + TranslateNewlines(raw[1..])
  }

  /** `'\n'.join(text.splitlines() + [''])`. */
  function Normalize(text: string): string {
    Join(SplitLines(text) + [""])
  }

  /** The plan text obtained from a file whose contents are `raw`. */
  function ReadPlanText(raw: string): string {
    Normalize(TranslateNewlines(raw))
  }

  /** Text whose only line boundary is "\n" and that is empty or ends in one. */
  predicate NewlineTerminated(text: string) {
    && (text == [] || text[|text| - 1] == '\n')
    && forall i | 0 <= i < |text| :: IsLineBreak(text[i]) ==> text[i] == '\n'
  }

  // ---------------------------------------------------------------------

  /** No line `SplitLines` returns contains a line boundary. */
  lemma {:induction false} SplitLinesBreakFree(s: string)
    ensures forall i | 0 <= i < |SplitLines(s)| :: NoLineBreak(SplitLines(s)[i])
    decreases |s|
  {
    if s != [] {
      var k := LineEnd(s);
      LineEndBreakFree(s);
      assert NoLineBreak(s[..k]) by {
        forall j | 0 <= j < k ensures !IsLineBreak(s[..k][j]) {
          assert s[..k][j] == s[j];
        }
      }
      if k < |s| {
        var rest := s[k + BreakLength(s, k)..];
        SplitLinesBreakFree(rest);
        var lines := SplitLines(s);
        assert lines == [s[..k]] + SplitLines(rest);
        forall i | 0 <= i < |lines| ensures NoLineBreak(lines[i]) {
          if i > 0 {
            assert lines[i] == SplitLines(rest)[i - 1];
          }
        }
      } else {
        assert s[..k] == s;
      }
    }
  }

  lemma {:induction false} JoinWithEmptyLast(lines: seq<string>)
    ensures Join(lines + [""]) == Terminated(lines)
  {
    if lines != [] {
      JoinWithEmptyLast(lines[1..]);
      assert (lines + [""])[1..] == lines[1..] + [""];
    }
  }

  lemma {:induction false} TerminatedShape(lines: seq<string>)
    requires forall i | 0 <= i < |lines| :: NoLineBreak(lines[i])
    ensures NewlineTerminated(Terminated(lines))
    ensures Terminated(lines) == [] <==> lines == []
  {
    if lines != [] {
      TerminatedShape(lines[1..]);
      var t := Terminated(lines);
      var head, rest := lines[0] + "\n", Terminated(lines[1..]);
      assert t == head + rest;
      forall i | 0 <= i < |t| && IsLineBreak(t[i]) ensures t[i] == '\n' {
        if i > |lines[0]| {
          assert t[i] == rest[i - |head|];
        }
      }
    }
  }

  /**
   * The normalised text is each line of the input followed by "\n"; it is
   * empty exactly for an empty file and otherwise ends in "\n".
   */
  lemma NormalizeTerminatesLines(text: string)
    ensures Normalize(text) == Terminated(SplitLines(text))
    ensures NewlineTerminated(Normalize(text))
    ensures Normalize(text) == [] <==> text == []
    ensures text != [] ==> Normalize(text)[|Normalize(text)| - 1] == '\n'
  {
    SplitLinesBreakFree(text);
    JoinWithEmptyLast(SplitLines(text));
    TerminatedShape(SplitLines(text));
  }

  /** Splitting "\n"-terminated, boundary-free lines gives the lines back. */
  lemma {:induction false} SplitTerminated(lines: seq<string>)
    requires forall i | 0 <= i < |lines| :: NoLineBreak(lines[i])
    ensures SplitLines(Terminated(lines)) == lines
  {
    if lines != [] {
      var l := lines[0];
      var rest := Terminated(lines[1..]);
      assert lines == [l] + lines[1..];
      var tail := "\n" + rest;
      TerminatedCons(l, lines[1..]);
      SplitLinesAtBreak(l, tail);
      assert BreakLength(tail, 0) == 1 && tail[1..] == rest;
      SplitTerminated(lines[1..]);
    }
  }

  /** The first boundary of `s` is at `k` when `s[k]` is one and nothing before it is. */
  lemma {:induction false} LineEndAt(s: string, k: nat)
    requires k < |s| && IsLineBreak(s[k]) && forall i | 0 <= i < k :: !IsLineBreak(s[i])
    ensures LineEnd(s) == k
  {
    if k > 0 {
      assert !IsLineBreak(s[0]);
      assert forall i | 0 <= i < k - 1 :: s[1..][i] == s[i + 1];
      LineEndAt(s[1..], k - 1);
    }
  }

  /** Normalising twice is normalising once. */
  lemma NormalizeIdempotent(text: string)
    ensures Normalize(Normalize(text)) == Normalize(text)
  {
    var lines := SplitLines(text);
    SplitLinesBreakFree(text);
    NormalizeTerminatesLines(text);
    SplitTerminated(lines);
    NormalizeTerminatesLines(Normalize(text));
  }

  /**
   * A text is left unchanged by normalisation exactly when its only line
   * boundary is "\n" and it is empty or ends in "\n".
   */
  lemma NormalizeFixedPoints(text: string)
    ensures Normalize(text) == text <==> NewlineTerminated(text)
  {
    NormalizeTerminatesLines(text);
    if NewlineTerminated(text) {
      TerminatedSplitOfTerminated(text);
    }
  }

  /** A single line normalises to itself plus "\n", with or without its final newline. */
  lemma NormalizeOneLine(line: string)
    requires line != [] && NoLineBreak(line)
    ensures Normalize(line) == line + "\n"
    ensures Normalize(line + "\n") == line + "\n"
  {
    assert SplitLines(line) == [line];
    NormalizeTerminatesLines(line);
    TerminatedShape([line]);
    NormalizeFixedPoints(line + "\n");
  }

  lemma {:induction false} TerminatedSplitOfTerminated(text: string)
    requires NewlineTerminated(text)
    ensures Terminated(SplitLines(text)) == text
    decreases |text|
  {
    if text != [] {
      var k := LineEnd(text);
      LineEndBreakFree(text);
      assert k < |text| by { assert IsLineBreak(text[|text| - 1]); }
      var line, rest := text[..k], text[k + 1..];
      assert NoLineBreak(line) by {
        forall j | 0 <= j < k ensures !IsLineBreak(line[j]) {
          assert line[j] == text[j];
        }
      }
      var tail := "\n" + rest;
      assert text == line + tail;
      SplitLinesAtBreak(line, tail);
      assert BreakLength(tail, 0) == 1 && tail[1..] == rest;
      assert SplitLines(text) == [line] + SplitLines(rest);
      NewlineTerminatedSuffix(text, k + 1);
      TerminatedSplitOfTerminated(rest);
      TerminatedCons(line, SplitLines(rest));
    }
  }

  lemma NewlineTerminatedSuffix(text: string, k: nat)
    requires NewlineTerminated(text) && k <= |text|
    ensures NewlineTerminated(text[k..])
  {
    var rest := text[k..];
    assert rest == [] || rest[|rest| - 1] == text[|text| - 1];
    forall i | 0 <= i < |rest| ensures IsLineBreak(rest[i]) ==> rest[i] == '\n' {
      assert rest[i] == text[k + i];
    }
  }

  lemma TerminatedCons(line: string, lines: seq<string>)
    ensures Terminated([line] + lines) == line + ("\n" + Terminated(lines))
  {
    assert ([line] + lines)[1..] == lines;
  }

  lemma {:induction false} TranslateLine(line: string, rest: string)
    requires NoLineBreak(line)
    ensures TranslateNewlines(line + rest) == line + TranslateNewlines(rest)
    decreases |line|
  {
    if line != [] {
      assert !IsLineBreak(line[0]);
      assert (line + rest)[1..] == line[1..] + rest;
      TranslateLine(line[1..], rest);
    } else {
      assert line + rest == rest;
    }
  }

  /** The boundary at the head of `s` is translated to one non-"\r" boundary. */
  lemma TranslateBreak(s: string)
    requires s != [] && IsLineBreak(s[0])
    ensures var c := if s[0] == '\r' then '\n' else s[0];
            TranslateNewlines(s) == [c] + TranslateNewlines(s[BreakLength(s, 0)..])
  {
  }

  /** Splitting a line free of boundaries followed by a boundary. */
  lemma SplitLinesAtBreak(line: string, tail: string)
    requires NoLineBreak(line) && tail != [] && IsLineBreak(tail[0])
    ensures SplitLines(line + tail) == [line] + SplitLines(tail[BreakLength(tail, 0)..])
  {
    var s := line + tail;
    var k := |line|;
    assert forall i | 0 <= i < k :: s[i] == line[i];
    assert s[k] == tail[0];
    LineEndAt(s, k);
    assert s[..k] == line;
    assert BreakLength(s, k) == BreakLength(tail, 0);
    assert s[k + BreakLength(s, k)..] == tail[BreakLength(tail, 0)..];
  }

  /**
   * Reading in text mode does not change the plan text: `splitlines`
   * already treats "\r\n" and "\r" as line boundaries.
   */
  lemma {:induction false} SplitLinesIgnoresTranslation(raw: string)
    ensures SplitLines(TranslateNewlines(raw)) == SplitLines(raw)
    decreases |raw|
  {
    var k := LineEnd(raw);
    var line, tail := raw[..k], raw[k..];
    LineEndBreakFree(raw);
    assert NoLineBreak(line) by {
      forall j | 0 <= j < k ensures !IsLineBreak(line[j]) {
        assert line[j] == raw[j];
      }
    }
    assert raw == line + tail;
    TranslateLine(line, tail);
    if k == |raw| {
      assert tail == [];
      assert TranslateNewlines(raw) == raw;
    } else {
      var rest := tail[BreakLength(tail, 0)..];
      SplitLinesAtBreak(line, tail);
      SplitLinesIgnoresTranslation(rest);
      TranslatedLineBreak(line, tail);
    }
  }

  /** A boundary after a line survives translation as a one-character boundary. */
  lemma TranslatedLineBreak(line: string, tail: string)
    requires NoLineBreak(line) && tail != [] && IsLineBreak(tail[0])
    requires TranslateNewlines(line + tail) == line + TranslateNewlines(tail)
    ensures SplitLines(TranslateNewlines(line + tail))
         == [line] + SplitLines(TranslateNewlines(tail[BreakLength(tail, 0)..]))
  {
    var u := TranslateNewlines(tail[BreakLength(tail, 0)..]);
    var c := if tail[0] == '\r' then '\n' else tail[0];
    TranslateBreak(tail);
    assert TranslateNewlines(line + tail) == line + ([c] + u);
    SplitLinesAtBreak(line, [c] + u);
    assert ([c] + u)[1..] == u;
  }

  /** The plan text of a file is the normalisation of its raw contents. */
  lemma ReadPlanTextIsNormalize(raw: string)
    ensures ReadPlanText(raw) == Normalize(raw)
  {
    SplitLinesIgnoresTranslation(raw);
  }
}
