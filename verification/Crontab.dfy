/**
 The crontab store of the GUI: a list of lines printed into the user's crontab and read back from it
 through clean_output, with lines added at the end and removed by number.
 */
module Crontab {
  import opened AnsiRemover

  // ---------- Python's strings ----------

  /** The characters str.splitlines breaks at; a CR and the LF after it break once. */
  predicate IsBreak(c: char) {
    || c == '\n' || c == '\r' || c == '\U{0B}' || c == '\U{0C}' || c == '\U{1C}' || c == '\U{1D}' || c == '\U{1E}'
    || c == '\U{85}' || c == '\U{2028}' || c == '\U{2029}'
  }

  /** str.isspace for one character. */
  predicate IsSpace(c: char) {
    || c == ' ' || '\t' <= c <= '\r' || '\U{1C}' <= c <= '\U{1F}' || c == '\U{85}' || c == '\U{A0}' || c == '\U{1680}'
    || '\U{2000}' <= c <= '\U{200A}' || c == '\U{2028}' || c == '\U{2029}' || c == '\U{202F}' || c == '\U{205F}'
    || c == '\U{3000}'
  }

  /**
   By their code points: the boundaries of str.splitlines are LF, VT, FF, CR, FS, GS, RS, NEL and the line and
   paragraph separators; str.isspace adds TAB, US, the space and the other separators. So a line break is
   always white space, and no printing ASCII character is either.
   */
  lemma BreaksAreSpaces(c: char)
    ensures IsBreak(c) <==> c as int in {0x0A, 0x0B, 0x0C, 0x0D, 0x1C, 0x1D, 0x1E, 0x85, 0x2028, 0x2029}
    ensures IsSpace(c) <==> IsBreak(c) || c as int in {0x09, 0x1F, 0x20, 0xA0, 0x1680, 0x202F, 0x205F, 0x3000}
                            || 0x2000 <= c as int <= 0x200A
    ensures 0x21 <= c as int <= 0x7E ==> !IsSpace(c)
  {
  }

  /** line.strip() is not empty. */
  predicate NonBlank(line: string) { exists k | 0 <= k < |line| :: !IsSpace(line[k]) }

  predicate BreakFree(line: string) { forall k | 0 <= k < |line| :: !IsBreak(line[k]) }

  /** The index of the first line break at or after i, or the length. */
  function NextBreak(s: string, i: nat): (j: nat)
    requires i <= |s|
    ensures i <= j <= |s| && (forall k | i <= k < j :: !IsBreak(s[k])) && (j < |s| ==> IsBreak(s[j]))
    decreases |s| - i
  {
    if i < |s| && !IsBreak(s[i]) then NextBreak(s, i + 1) else i
  }

  /** str.splitlines. */
  function SplitLines(s: string): seq<string>
    decreases |s|
  {
    if s == "" then []
    else
      var j := NextBreak(s, 0);
      if j == |s| then [s]
      else if s[j] == '\r' && j + 1 < |s| && s[j + 1] == '\n' then [s[..j]] + SplitLines(s[j + 2..])
      else [s[..j]] + SplitLines(s[j + 1..])
  }

  /** [line for line in lines if line.strip()] */
  function DropBlank(lines: seq<string>): seq<string> {
    if lines == [] then []
    else (if NonBlank(lines[0]) then [lines[0]] else []) + DropBlank(lines[1..])
  }

  function Join(lines: seq<string>): string {
    if lines == [] then "" else if |lines| == 1 then lines[0] else lines[0] + "\n" + Join(lines[1..])
  }

  // ---------- reading and writing ----------

  /** read_crontab_lines on an installed crontab. */
  function ReadText(text: string): seq<string> { DropBlank(SplitLines(CleanOutput(text))) }

  /** What write_crontab_lines installs. */
  function WriteText(lines: seq<string>): string {
    var content := Join(lines);
    if content != "" then content + "\n" else content
  }

  // ---------- when reading gives back what was written ----------

  /** A line the store can hold: something on it, no line break in it, no control sequence in it. */
  ghost predicate Storable(line: string) { NonBlank(line) && BreakFree(line) && SequenceFree(line) }

  /** Every line followed by a newline. */
  function Lines(lines: seq<string>): string {
    if lines == [] then "" else lines[0] + "\n" + Lines(lines[1..])
  }

  function CleanAll(lines: seq<string>): seq<string> {
    if lines == [] then [] else [CleanOutput(lines[0])] + CleanAll(lines[1..])
  }

  lemma {:induction false} WriteIsLines(lines: seq<string>)
    ensures lines != [] ==> Join(lines) + "\n" == Lines(lines)
    decreases |lines|
  {
    if lines == [] {
    } else if |lines| == 1 {
      assert Lines(lines[1..]) == "";
    } else {
      WriteIsLines(lines[1..]);
      assert lines[0] + "\n" + Join(lines[1..]) + "\n" == lines[0] + "\n" + (Join(lines[1..]) + "\n");
    }
  }

  lemma MatchIsPrintable(s: string, k: nat)
    requires MatchHere(s).Length? && k < MatchHere(s).n
    ensures s[k] == ESC || ' ' <= s[k] <= '~'
  {
    var n := MatchHere(s).n;
    MatchIsExact(s, n);
    var i :| IsSequenceAt(s[..n], i);
    assert s[..n][k] == s[k];
  }

  /** What matches in front of a newline matches without what follows. */
  lemma MatchAtNewline(a: string, b: string)
    ensures MatchHere(a + "\n" + b) == MatchHere(a)
  {
    var s := a + "\n" + b;
    assert s[..|a|] == a && s[|a|] == '\n';
    if MatchHere(s).Length? && MatchHere(s).n > |a| {
      MatchIsPrintable(s, |a|);
    }
    MatchInPrefix(s, |a|);
  }

  lemma DropBeforeNewline(a: string, b: string, cut: nat)
    requires cut <= |a|
    ensures (a + "\n" + b)[cut..] == a[cut..] + "\n" + b
  {
  }

  /** No control sequence runs across a newline. */
  lemma {:induction false} CleanAtNewline(a: string, b: string)
    ensures CleanOutput(a + "\n" + b) == CleanOutput(a) + "\n" + CleanOutput(b)
    decreases |a|
  {
    MatchAtNewline(a, b);
    if a == "" {
      assert ("" + "\n" + b)[1..] == b;
    } else {
      var cut := if MatchHere(a).Length? then MatchHere(a).n else 1;
      DropBeforeNewline(a, b, cut);
      CleanAtNewline(a[cut..], b);
      assert (a + "\n" + b)[0] == a[0];
    }
  }

  lemma {:induction false} CleanLines(lines: seq<string>)
    ensures CleanOutput(Lines(lines)) == Lines(CleanAll(lines)) && |CleanAll(lines)| == |lines|
    ensures forall k | 0 <= k < |lines| :: CleanAll(lines)[k] == CleanOutput(lines[k])
    decreases |lines|
  {
    if lines == [] {
    } else {
      CleanLines(lines[1..]);
      CleanAtNewline(lines[0], Lines(lines[1..]));
      assert CleanAll(lines)[1..] == CleanAll(lines[1..]);
    }
  }

  lemma {:induction false} SplitOfLines(lines: seq<string>)
    requires forall k | 0 <= k < |lines| :: BreakFree(lines[k])
    ensures SplitLines(Lines(lines)) == lines
    decreases |lines|
  {
    if lines == [] {
    } else {
      var s := Lines(lines);
      var line, rest := lines[0], Lines(lines[1..]);
      assert forall k | 0 <= k < |line| :: s[k] == line[k];
      assert s[|line|] == '\n' && s[|line| + 1..] == rest && s[..|line|] == line;
      assert NextBreak(s, 0) == |line|;
      SplitOfLines(lines[1..]);
    }
  }

  predicate IsTerminator(end: string) { end == "\r\n" || (|end| == 1 && IsBreak(end[0])) }

  /** Each line followed by its own terminator, and then the last piece. */
  function Terminated(lines: seq<string>, ends: seq<string>, last: string): string
    requires |lines| == |ends|
  {
    if lines == [] then last else lines[0] + ends[0] + Terminated(lines[1..], ends[1..], last)
  }

  /** Terminator k is a CR that happens to stand right before an LF. */
  predicate MeetsLineFeed(lines: seq<string>, ends: seq<string>, k: nat)
    requires k < |lines| == |ends|
  {
    ends[k] == "\r" && k + 1 < |lines| && lines[k + 1] == "" && ends[k + 1] == "\n"
  }

  ghost predicate Terminates(lines: seq<string>, ends: seq<string>) {
    && |lines| == |ends|
    && forall k | 0 <= k < |lines| :: BreakFree(lines[k]) && IsTerminator(ends[k]) && !MeetsLineFeed(lines, ends, k)
  }

  lemma TailTerminates(lines: seq<string>, ends: seq<string>)
    requires Terminates(lines, ends) && lines != []
    ensures Terminates(lines[1..], ends[1..])
    ensures BreakFree(lines[0]) && IsTerminator(ends[0]) && !MeetsLineFeed(lines, ends, 0)
  {
    forall k | 0 <= k < |lines| - 1
      ensures MeetsLineFeed(lines[1..], ends[1..], k) == MeetsLineFeed(lines, ends, k + 1)
    {
    }
  }

  /** splitlines takes the lines out of any mixture of terminators, as long as no CR stands before an LF
      by accident; what follows the last terminator is a line if it is not empty. */
  lemma {:induction false} SplitAnyBreaks(lines: seq<string>, ends: seq<string>, last: string)
    requires Terminates(lines, ends) && BreakFree(last)
    ensures SplitLines(Terminated(lines, ends, last)) == lines + if last == "" then [] else [last]
    decreases |lines|
  {
    if lines == [] {
      SplitNone(last);
    } else {
      TailTerminates(lines, ends);
      SplitAnyBreaks(lines[1..], ends[1..], last);
      SplitFirst(lines, ends, last);
      FrontAndRest(lines, if last == "" then [] else [last]);
    }
  }

  lemma FrontAndRest(lines: seq<string>, more: seq<string>)
    requires lines != []
    ensures [lines[0]] + (lines[1..] + more) == lines + more
  {
  }

  lemma SplitFirst(lines: seq<string>, ends: seq<string>, last: string)
    requires Terminates(lines, ends) && BreakFree(last) && lines != []
    ensures SplitLines(Terminated(lines, ends, last)) == [lines[0]] + SplitLines(Terminated(lines[1..], ends[1..], last))
  {
    TailTerminates(lines, ends);
    NoLineFeedFirst(lines[1..], ends[1..], last, ends[0] == "\r");
    SplitOne(lines[0], ends[0], Terminated(lines[1..], ends[1..], last));
  }

  lemma SplitNone(last: string)
    requires BreakFree(last)
    ensures SplitLines(last) == if last == "" then [] else [last]
  {
    assert NextBreak(last, 0) == |last|;
  }

  lemma SplitOne(line: string, end: string, rest: string)
    requires BreakFree(line) && IsTerminator(end) && (end == "\r" && rest != "" ==> rest[0] != '\n')
    ensures SplitLines(line + end + rest) == [line] + SplitLines(rest)
  {
    var s := line + end + rest;
    assert forall k | 0 <= k < |line| :: s[k] == line[k];
    assert forall k | 0 <= k < |end| :: s[|line| + k] == end[k];
    assert end[0] == '\r' || |end| == 1;
    assert NextBreak(s, 0) == |line|;
    assert s[..|line|] == line && s[|line| + |end|..] == rest;
    if |end| == 1 && rest != "" {
      assert s[|line| + 1] == rest[0] && end == [end[0]];
    }
  }

  lemma NoLineFeedFirst(lines: seq<string>, ends: seq<string>, last: string, afterCr: bool)
    requires Terminates(lines, ends) && BreakFree(last) && (afterCr && lines != [] && lines[0] == "" ==> ends[0] != "\n")
    ensures var s := Terminated(lines, ends, last); afterCr && s != "" ==> s[0] != '\n'
  {
    var s := Terminated(lines, ends, last);
    if lines != [] {
      assert BreakFree(lines[0]) && IsTerminator(ends[0]);
      assert s[0] == if lines[0] == "" then ends[0][0] else lines[0][0];
      assert |ends[0]| == 1 ==> ends[0] == [ends[0][0]];
    }
  }

  lemma {:induction false} DropBlankKeeps(lines: seq<string>)
    ensures |DropBlank(lines)| <= |lines|
    ensures |DropBlank(lines)| == |lines| ==> DropBlank(lines) == lines
    ensures (forall k | 0 <= k < |lines| :: NonBlank(lines[k])) ==> DropBlank(lines) == lines
    ensures forall line | line in DropBlank(lines) :: NonBlank(line) && line in lines
    decreases |lines|
  {
    if lines == [] {
    } else {
      DropBlankKeeps(lines[1..]);
    }
  }

  lemma {:induction false} SplitIsBreakFree(s: string)
    ensures forall line | line in SplitLines(s) :: BreakFree(line)
    decreases |s|
  {
    if s == "" {
    } else {
      var j := NextBreak(s, 0);
      if j < |s| {
        SplitIsBreakFree(s[j + 1..]);
        if j + 1 < |s| {
          SplitIsBreakFree(s[j + 2..]);
        }
      } else {
        assert s[..j] == s;
      }
    }
  }

  lemma {:induction false} CleanKeepsBreakFree(s: string)
    requires BreakFree(s)
    ensures BreakFree(CleanOutput(s))
    decreases |s|
  {
    if s == "" {
    } else {
      var cut := if MatchHere(s).Length? then MatchHere(s).n else 1;
      CleanKeepsBreakFree(s[cut..]);
    }
  }

  /** What is read back from lines without breaks: each line cleaned, blank results dropped. */
  lemma {:induction false} ReadOfWrite(lines: seq<string>)
    requires forall k | 0 <= k < |lines| :: BreakFree(lines[k])
    ensures ReadText(WriteText(lines)) == DropBlank(CleanAll(lines))
  {
    WriteIsLines(lines);
    CleanLines(lines);
    forall k | 0 <= k < |lines| ensures BreakFree(CleanAll(lines)[k]) { CleanKeepsBreakFree(lines[k]); }
    SplitOfLines(CleanAll(lines));
    if WriteText(lines) == "" && lines != [] {
      OnlyOneEmptyLine(lines);
    }
  }

  lemma OnlyOneEmptyLine(lines: seq<string>)
    requires lines != [] && Join(lines) == ""
    ensures lines == [""]
  {
  }

  lemma CleanAllUnchangedIff(lines: seq<string>)
    ensures CleanAll(lines) == lines <==> forall k | 0 <= k < |lines| :: SequenceFree(lines[k])
  {
    CleanLines(lines);
    forall k | 0 <= k < |lines|
      ensures CleanAll(lines)[k] == lines[k] <==> SequenceFree(lines[k])
    {
      UnchangedIff(lines[k]);
    }
  }

  /** Reading what was written gives the same list exactly when every line is storable. */
  lemma RoundTripIff(lines: seq<string>)
    ensures ReadText(WriteText(lines)) == lines <==> forall k | 0 <= k < |lines| :: Storable(lines[k])
  {
    if ReadText(WriteText(lines)) == lines {
      ReadIsProper(WriteText(lines));
      forall k | 0 <= k < |lines|
        ensures NonBlank(lines[k]) && BreakFree(lines[k])
      {
        assert lines[k] in lines;
      }
    }
    if forall k | 0 <= k < |lines| :: NonBlank(lines[k]) && BreakFree(lines[k]) {
      ReadOfWrite(lines);
      CleanLines(lines);
      CleanAllUnchangedIff(lines);
      DropBlankKeeps(CleanAll(lines));
    }
  }

  /** Everything the store reads is a non-blank line without line breaks. */
  lemma ReadIsProper(text: string)
    ensures forall line | line in ReadText(text) :: NonBlank(line) && BreakFree(line)
  {
    SplitIsBreakFree(CleanOutput(text));
    DropBlankKeeps(SplitLines(CleanOutput(text)));
  }

  // ---------- when writing gives back what was read ----------

  /** A crontab of newline-terminated lines that the store can hold, and nothing else. */
  ghost predicate Proper(text: string) {
    text == Lines(SplitLines(text)) && forall k | 0 <= k < |SplitLines(text)| :: Storable(SplitLines(text)[k])
  }

  lemma ProperReads(text: string)
    requires Proper(text)
    ensures ReadText(text) == SplitLines(text)
  {
    var lines := SplitLines(text);
    CleanAllUnchangedIff(lines);
    CleanLines(lines);
    DropBlankKeeps(lines);
  }

  /**
   Every edit rewrites the user's whole crontab: it leaves what is installed as it was, to the
   character, exactly if that is made of newline-terminated lines that the store can hold.
   */
  lemma TextRoundTripIff(text: string)
    ensures WriteText(ReadText(text)) == text <==> Proper(text)
  {
    var lines := ReadText(text);
    if Proper(text) {
      ProperReads(text);
      WriteIsLines(lines);
    } else if WriteText(lines) == text {
      ReadIsProper(text);
      RoundTripIff(lines);
      WriteIsLines(lines);
      assert forall k | 0 <= k < |lines| :: lines[k] in lines;
      SplitOfLines(lines);
    }
  }
}
