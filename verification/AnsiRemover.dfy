/**
 clean_output, which deletes terminal control sequences, against the language of control sequences in
 section 5.4 of ECMA-48: ESC [ , parameter bytes 03/00 to 03/15, intermediate bytes 02/00 to 02/15, and
 one final byte 04/00 to 07/14.
 */
module AnsiRemover {

  const ESC: char := '\U{1B}'

  // ---------- the language, by the columns and rows of the code table ----------

  /** The code of the character in column x and row y of the table, written x/y. */
  function Code(column: nat, row: nat): int { 16 * column + row }

  ghost predicate InColumn(c: char, column: nat) { c as int / 16 == column }

  /** `s` is one control sequence whose parameter bytes end at index i: 01/11, 05/11, then bytes from 03/00
      to 03/15, then from 02/00 to 02/15, and one from 04/00 to 07/14. */
  ghost predicate IsSequenceAt(s: string, i: nat) {
    && 2 <= i < |s| && s[0] as int == Code(1, 11) && s[1] as int == Code(5, 11)
    && (forall k | 2 <= k < i :: InColumn(s[k], 3))
    && (forall k | i <= k < |s| - 1 :: InColumn(s[k], 2))
    && Code(4, 0) <= s[|s| - 1] as int <= Code(7, 14)
  }

  ghost predicate IsSequence(s: string) { exists i :: IsSequenceAt(s, i) }

  // ---------- the regular expression and the substitution ----------

  predicate IsParameter(c: char) { '0' <= c <= '?' }
  predicate IsIntermediate(c: char) { ' ' <= c <= '/' }
  predicate IsFinal(c: char) { '@' <= c <= '~' }

  /** The ranges of the pattern are the columns of the table. */
  lemma RangesAreColumns(c: char)
    ensures IsParameter(c) <==> InColumn(c, 3)
    ensures IsIntermediate(c) <==> InColumn(c, 2)
    ensures IsFinal(c) <==> Code(4, 0) <= c as int <= Code(7, 14)
    ensures c == ESC <==> c as int == Code(1, 11)
    ensures c == '[' <==> c as int == Code(5, 11)
  {
  }

  datatype Match = NoMatch | Length(n: nat)

  /** The end of the run of characters satisfying p that starts at index i: a greedy star. */
  function Span(p: char -> bool, s: string, i: nat): (j: nat)
    requires i <= |s|
    ensures i <= j <= |s| && (forall k | i <= k < j :: p(s[k])) && (j < |s| ==> !p(s[j]))
    decreases |s| - i
  {
    if i < |s| && p(s[i]) then Span(p, s, i + 1) else i
  }

  lemma SpanIs(p: char -> bool, s: string, i: nat, j: nat)
    requires i <= j <= |s| && (forall k | i <= k < j :: p(s[k])) && (j < |s| ==> !p(s[j]))
    ensures Span(p, s, i) == j
  {
    var e := Span(p, s, i);
  }

  /** ANSI_ESCAPE matched at the start of `s`. */
  function MatchHere(s: string): (m: Match)
    ensures m.Length? ==> 0 < m.n <= |s|
  {
    if |s| < 2 || s[0] != ESC || s[1] != '[' then NoMatch
    else
      var i := Span(IsParameter, s, 2);
      var j := Span(IsIntermediate, s, i);
      if j < |s| && IsFinal(s[j]) then Length(j + 1) else NoMatch
  }

  /** re.sub with the empty replacement: the leftmost match goes, and the search resumes after it. */
  function CleanOutput(s: string): string
    decreases |s|
  {
    if s == "" then ""
    else
      match MatchHere(s)
      case Length(n) => CleanOutput(s[n..])
      case NoMatch => [s[0]] + CleanOutput(s[1..])
  }

  /**
   The pattern matches exactly the control sequences that start here: the greedy runs lose nothing,
   because the three byte classes are disjoint, and so each match has only one possible length.
   */
  lemma MatchIsExact(s: string, n: nat)
    requires n <= |s|
    ensures MatchHere(s) == Length(n) <==> IsSequence(s[..n])
  {
    forall k | 0 <= k < n
      ensures s[..n][k] == s[k] && (IsParameter(s[k]) <==> InColumn(s[k], 3)) && (IsIntermediate(s[k]) <==> InColumn(s[k], 2))
    {
      RangesAreColumns(s[k]);
    }
    if MatchHere(s) == Length(n) {
      assert IsSequenceAt(s[..n], Span(IsParameter, s, 2));
    }
    if i :| IsSequenceAt(s[..n], i) {
      SpanIs(IsParameter, s, 2, i);
      SpanIs(IsIntermediate, s, i, n - 1);
    }
  }

  lemma NoMatchMeansNone(s: string)
    ensures MatchHere(s).NoMatch? <==> forall n: nat | n <= |s| :: !IsSequence(s[..n])
  {
    forall n: nat | n <= |s|
      ensures MatchHere(s) == Length(n) <==> IsSequence(s[..n])
    {
      MatchIsExact(s, n);
    }
  }

  // ---------- the one-pass scanner ----------

  /** `from` is where the intermediate bytes of the characters held back start. */
  datatype Mode = InText | AfterEsc | InParameters | InIntermediates(from: nat)

  /** What the mode remembers about the characters held back. */
  ghost predicate Partial(mode: Mode, held: string) {
    match mode
    case InText => held == ""
    case AfterEsc => held == [ESC]
    case InParameters => |held| >= 2 && held[0] == ESC && held[1] == '[' && forall k | 2 <= k < |held| :: IsParameter(held[k])
    case InIntermediates(i) =>
      && 2 <= i < |held| && held[0] == ESC && held[1] == '['
      && (forall k | 2 <= k < i :: IsParameter(held[k])) && (forall k | i <= k < |held| :: IsIntermediate(held[k]))
  }

  predicate Continues(mode: Mode, c: char) {
    match mode
    case InText => c == ESC
    case AfterEsc => c == '['
    case InParameters => IsParameter(c) || IsIntermediate(c) || IsFinal(c)
    case InIntermediates(_) => IsIntermediate(c) || IsFinal(c)
  }

  /** The mode after a character that continues a sequence; InText means the sequence is complete. */
  function Next(mode: Mode, held: string, c: char): Mode
    requires Continues(mode, c)
  {
    match mode
    case InText => AfterEsc
    case AfterEsc => InParameters
    case InParameters =>
      if IsParameter(c) then InParameters else if IsIntermediate(c) then InIntermediates(|held|) else InText
    case InIntermediates(_) => if IsIntermediate(c) then mode else InText
  }

  /** Reads each character once, holding back what may still turn out to be a control sequence. */
  function Scan(mode: Mode, held: string, s: string): string
    decreases |s|, |held|
  {
    if s == "" then held
    else if Continues(mode, s[0]) then
      var next := Next(mode, held, s[0]);
      Scan(next, if next.InText? then "" else held + [s[0]], s[1..])
    else if mode.InText? || held == "" then held + [s[0]] + Scan(InText, "", s[1..])
    else held + Scan(InText, "", s)
  }

  /** Text without ESC passes unchanged. */
  lemma {:induction false} TextPasses(x: string, t: string)
    requires forall k | 0 <= k < |x| :: x[k] != ESC
    ensures CleanOutput(x + t) == x + CleanOutput(t)
    decreases |x|
  {
    if x == "" {
      assert x + t == t;
    } else {
      assert (x + t)[0] == x[0] && (x + t)[1..] == x[1..] + t;
      TextPasses(x[1..], t);
    }
  }

  lemma PartialIsNoMatch(mode: Mode, held: string, t: string)
    requires Partial(mode, held) && !mode.InText? && (t == "" || !Continues(mode, t[0]))
    ensures MatchHere(held + t).NoMatch?
  {
    var s := held + t;
    if !mode.AfterEsc? {
      var i := if mode.InParameters? then |held| else mode.from;
      SpanIs(IsParameter, s, 2, i);
      SpanIs(IsIntermediate, s, i, |held|);
    }
  }

  /** A partial sequence that does not go on is no match, and everything held back is text. */
  lemma PartialFails(mode: Mode, held: string, t: string)
    requires Partial(mode, held) && !mode.InText? && (t == "" || !Continues(mode, t[0]))
    ensures CleanOutput(held + t) == held + CleanOutput(t)
  {
    PartialIsNoMatch(mode, held, t);
    EscPasses(held, t);
  }

  lemma EscPasses(held: string, t: string)
    requires held != "" && MatchHere(held + t).NoMatch? && forall k | 0 < k < |held| :: held[k] != ESC
    ensures CleanOutput(held + t) == held + CleanOutput(t)
  {
    assert [held[0]] + (held[1..] + t) == held + t;
    NoMatchStep(held[0], held[1..] + t);
    TextPasses(held[1..], t);
    assert [held[0]] + (held[1..] + CleanOutput(t)) == held + CleanOutput(t);
  }

  lemma NoMatchStep(c: char, t: string)
    requires MatchHere([c] + t).NoMatch?
    ensures CleanOutput([c] + t) == [c] + CleanOutput(t)
  {
    assert ([c] + t)[1..] == t;
  }

  lemma {:induction false} ScanIsClean(mode: Mode, held: string, s: string)
    requires Partial(mode, held)
    ensures Scan(mode, held, s) == CleanOutput(held + s)
    decreases |s|, |held|
  {
    if s == "" {
      assert held + s == held;
      if !mode.InText? {
        PartialFails(mode, held, "");
      }
    } else if Continues(mode, s[0]) {
      var next := Next(mode, held, s[0]);
      if next.InText? {
        ScanIsClean(InText, "", s[1..]);
      } else {
        Extends(mode, held, s[0]);
        ScanIsClean(next, held + [s[0]], s[1..]);
      }
      ScanContinues(mode, held, s);
    } else {
      ScanIsClean(InText, "", if mode.InText? then s[1..] else s);
      ScanFails(mode, held, s);
    }
  }

  lemma ScanContinues(mode: Mode, held: string, s: string)
    requires Partial(mode, held) && s != "" && Continues(mode, s[0])
    requires var next := Next(mode, held, s[0]);
             var more := if next.InText? then "" else held + [s[0]];
             Scan(next, more, s[1..]) == CleanOutput(more + s[1..])
    ensures Scan(mode, held, s) == CleanOutput(held + s)
  {
    if Next(mode, held, s[0]).InText? {
      Completes(mode, held, s);
      assert "" + s[1..] == s[1..];
    } else {
      assert held + s == held + [s[0]] + s[1..];
    }
  }

  lemma ScanFails(mode: Mode, held: string, s: string)
    requires Partial(mode, held) && s != "" && !Continues(mode, s[0])
    requires var rest := if mode.InText? then s[1..] else s;
             Scan(InText, "", rest) == CleanOutput("" + rest)
    ensures Scan(mode, held, s) == CleanOutput(held + s)
  {
    if mode.InText? {
      assert held + s == [s[0]] + s[1..] && held + [s[0]] == [s[0]];
      NoMatchStep(s[0], s[1..]);
      assert "" + s[1..] == s[1..];
    } else {
      PartialFails(mode, held, s);
      assert "" + s == s;
    }
  }

  lemma Extends(mode: Mode, held: string, c: char)
    requires Partial(mode, held) && Continues(mode, c) && !Next(mode, held, c).InText?
    ensures Partial(Next(mode, held, c), held + [c])
  {
    var more := held + [c];
    assert forall k | 0 <= k < |held| :: more[k] == held[k];
    assert more[|held|] == c;
  }

  /** The character that completes a partial sequence. */
  lemma CompletesMatch(mode: Mode, held: string, s: string)
    requires Partial(mode, held) && s != "" && Continues(mode, s[0]) && Next(mode, held, s[0]).InText?
    ensures MatchHere(held + s) == Length(|held| + 1)
  {
    var all := held + s;
    var i := if mode.InParameters? then |held| else mode.from;
    SpanIs(IsParameter, all, 2, i);
    SpanIs(IsIntermediate, all, i, |held|);
  }

  lemma {:induction false} Completes(mode: Mode, held: string, s: string)
    requires Partial(mode, held) && s != "" && Continues(mode, s[0]) && Next(mode, held, s[0]).InText?
    ensures CleanOutput(held + s) == CleanOutput(s[1..])
  {
    CompletesMatch(mode, held, s);
    assert (held + s)[|held| + 1..] == s[1..];
  }

  /** Holding each character at most once gives what repeated leftmost matching gives, on every string. */
  lemma OnePassIsEnough(s: string)
    ensures Scan(InText, "", s) == CleanOutput(s)
  {
    ScanIsClean(InText, "", s);
    assert "" + s == s;
  }

  // ---------- what the result looks like ----------

  /** A match that fits into a prefix is found in the prefix, and the other way round. */
  lemma MatchInPrefix(s: string, k: nat)
    requires k <= |s|
    ensures MatchHere(s[..k]).Length? ==> MatchHere(s) == MatchHere(s[..k])
    ensures MatchHere(s).Length? && MatchHere(s).n <= k ==> MatchHere(s[..k]) == MatchHere(s)
  {
    forall n: nat | n <= k
      ensures MatchHere(s) == Length(n) <==> MatchHere(s[..k]) == Length(n)
    {
      MatchIsExact(s, n);
      MatchIsExact(s[..k], n);
      assert s[..k][..n] == s[..n];
    }
  }

  /** A control sequence contains no second ESC. */
  lemma NoEscInside(s: string, k: nat)
    requires MatchHere(s).Length? && 0 < k < MatchHere(s).n
    ensures s[k] != ESC
  {
    var n := MatchHere(s).n;
    MatchIsExact(s, n);
    var i :| IsSequenceAt(s[..n], i);
    assert s[..n][k] == s[k];
  }

  /** Cleaning s is cleaning the part in front of k and the part from k on. */
  ghost predicate SplitsAt(s: string, k: nat)
    requires k <= |s|
  {
    CleanOutput(s) == CleanOutput(s[..k]) + CleanOutput(s[k..])
  }

  lemma SplitsBehindMatch(s: string, k: nat, n: nat)
    requires n <= k <= |s| && MatchHere(s) == MatchHere(s[..k]) == Length(n) && SplitsAt(s[n..], k - n)
    ensures SplitsAt(s, k)
  {
    assert s[n..][..k - n] == s[..k][n..] && s[n..][k - n..] == s[k..];
  }

  lemma SplitsBehindText(s: string, k: nat)
    requires 0 < k <= |s| && MatchHere(s).NoMatch? && MatchHere(s[..k]).NoMatch? && SplitsAt(s[1..], k - 1)
    ensures SplitsAt(s, k)
  {
    assert s[1..][..k - 1] == s[..k][1..] && s[1..][k - 1..] == s[k..];
  }

  /** Output arriving in two pieces cut at any ESC is cleaned piece by piece. */
  lemma {:induction false} SplitsAtEsc(s: string, k: nat)
    requires k < |s| && s[k] == ESC
    ensures CleanOutput(s) == CleanOutput(s[..k]) + CleanOutput(s[k..])
    decreases |s|
  {
    if k == 0 {
      assert s[..0] == "" && s[0..] == s;
    } else {
      MatchInPrefix(s, k);
      if MatchHere(s).Length? {
        var n := MatchHere(s).n;
        if k < n {
          NoEscInside(s, k);
        }
        SplitsAtEsc(s[n..], k - n);
        SplitsBehindMatch(s, k, n);
      } else {
        SplitsAtEsc(s[1..], k - 1);
        SplitsBehindText(s, k);
      }
    }
  }

  ghost predicate HasEsc(s: string) { exists k :: 0 <= k < |s| && s[k] == ESC }

  /** Every ESC of `s` starts a complete control sequence. */
  ghost predicate AllEscsMatch(s: string) {
    forall k | 0 <= k < |s| && s[k] == ESC :: MatchHere(s[k..]).Length?
  }

  /** The cleaned output is free of ESC exactly when every ESC of the input starts a complete sequence. */
  lemma {:induction false} EscFreeIff(s: string)
    ensures !HasEsc(CleanOutput(s)) <==> AllEscsMatch(s)
    decreases |s|
  {
    if s == "" {
    } else {
      assert s[0..] == s;
      if MatchHere(s).Length? {
        var n := MatchHere(s).n;
        forall k | 0 < k < n ensures s[k] != ESC { NoEscInside(s, k); }
        EscFreeIff(s[n..]);
        AllEscsMatchFrom(s, n);
      } else {
        EscFreeIff(s[1..]);
        AllEscsMatchFrom(s, 1);
        HasEscCons(s[0], CleanOutput(s[1..]));
      }
    }
  }

  lemma HasEscCons(c: char, t: string)
    ensures HasEsc([c] + t) <==> c == ESC || HasEsc(t)
  {
    var out := [c] + t;
    assert out[0] == c;
    if k :| 0 <= k < |out| && out[k] == ESC {
      assert k > 0 ==> t[k - 1] == ESC;
    }
    if k :| 0 <= k < |t| && t[k] == ESC {
      assert out[k + 1] == ESC;
    }
  }

  lemma AllEscsMatchFrom(s: string, cut: nat)
    requires 0 < cut <= |s| && forall k | 0 < k < cut :: s[k] != ESC
    ensures AllEscsMatch(s) <==> (s[0] == ESC ==> MatchHere(s).Length?) && AllEscsMatch(s[cut..])
  {
    var rest := s[cut..];
    assert s[0..] == s;
    forall k | 0 <= k < |rest|
      ensures rest[k] == s[k + cut] && rest[k..] == s[k + cut..]
    {
    }
    if AllEscsMatch(rest) {
      forall k | cut <= k < |s| && s[k] == ESC
        ensures MatchHere(s[k..]).Length?
      {
        assert rest[k - cut] == ESC && rest[k - cut..] == s[k..];
      }
    }
  }

  // ---------- the substitution as a decomposition ----------

  /** A part of the text that stays, or a control sequence that goes. */
  datatype Piece = Kept(c: char) | Deleted(sequence: string)

  function Whole(ps: seq<Piece>): string {
    if ps == [] then "" else (if ps[0].Kept? then [ps[0].c] else ps[0].sequence) + Whole(ps[1..])
  }

  function Remains(ps: seq<Piece>): string {
    if ps == [] then "" else (if ps[0].Kept? then [ps[0].c] else "") + Remains(ps[1..])
  }

  /** Exactly control sequences go, and a character stays only if none starts with it. */
  ghost predicate Leftmost(ps: seq<Piece>)
    decreases |ps|
  {
    ps == [] ||
    (&& (ps[0].Deleted? ==> IsSequence(ps[0].sequence))
     && (ps[0].Kept? ==> forall n: nat | n <= |Whole(ps)| :: !IsSequence(Whole(ps)[..n]))
     && Leftmost(ps[1..]))
  }

  /** Cleaning deletes the sequences of any such reading and keeps its characters, in order. */
  lemma {:induction false} AnyReadingIsTheSame(ps: seq<Piece>)
    requires Leftmost(ps)
    ensures CleanOutput(Whole(ps)) == Remains(ps)
    decreases |ps|
  {
    if ps == [] {
    } else {
      AnyReadingIsTheSame(ps[1..]);
      var s := Whole(ps);
      if ps[0].Deleted? {
        var q := ps[0].sequence;
        assert s[..|q|] == q && s[|q|..] == Whole(ps[1..]);
        MatchIsExact(s, |q|);
      } else {
        NoMatchMeansNone(s);
        assert s[1..] == Whole(ps[1..]);
      }
    }
  }

  lemma FrontSequence(q: string, ps: seq<Piece>)
    requires IsSequence(q) && Leftmost(ps)
    ensures Leftmost([Deleted(q)] + ps) && Whole([Deleted(q)] + ps) == q + Whole(ps)
  {
    assert ([Deleted(q)] + ps)[1..] == ps;
  }

  lemma FrontCharacter(c: char, ps: seq<Piece>)
    requires MatchHere([c] + Whole(ps)).NoMatch? && Leftmost(ps)
    ensures Leftmost([Kept(c)] + ps) && Whole([Kept(c)] + ps) == [c] + Whole(ps)
  {
    assert ([Kept(c)] + ps)[1..] == ps;
    NoMatchMeansNone([c] + Whole(ps));
  }

  /**
   Every text falls into pieces, read from the left: a control sequence where one starts, a single
   character where none does. Cleaning leaves exactly the characters of that reading.
   */
  lemma {:induction false} DeletesSequences(s: string) returns (ps: seq<Piece>)
    ensures Leftmost(ps) && Whole(ps) == s && CleanOutput(s) == Remains(ps)
  {
    ps := ReadPieces(s);
    AnyReadingIsTheSame(ps);
  }

  lemma {:induction false} ReadPieces(s: string) returns (ps: seq<Piece>)
    ensures Leftmost(ps) && Whole(ps) == s
    decreases |s|
  {
    ps := [];
    if s == "" {
    } else if MatchHere(s).Length? {
      var n := MatchHere(s).n;
      ps := ReadPieces(s[n..]);
      MatchIsExact(s, n);
      FrontSequence(s[..n], ps);
      ps := [Deleted(s[..n])] + ps;
    } else {
      ps := ReadPieces(s[1..]);
      assert [s[0]] + s[1..] == s;
      FrontCharacter(s[0], ps);
      ps := [Kept(s[0])] + ps;
    }
  }

  // ---------- what is left alone ----------

  /** No part of `s` is a control sequence. */
  ghost predicate SequenceFree(s: string) { forall k, n | 0 <= k <= n <= |s| :: !IsSequence(s[k..n]) }

  lemma {:induction false} CleanShrinks(s: string)
    ensures |CleanOutput(s)| <= |s|
    ensures |CleanOutput(s)| == |s| ==> CleanOutput(s) == s
    decreases |s|
  {
    if s == "" {
    } else {
      CleanShrinks(if MatchHere(s).Length? then s[MatchHere(s).n..] else s[1..]);
    }
  }

  lemma SequenceFreeTail(s: string)
    requires s != ""
    ensures SequenceFree(s) <==> MatchHere(s).NoMatch? && SequenceFree(s[1..])
  {
    NoMatchMeansNone(s);
    var t := s[1..];
    assert forall k, n | 0 <= k <= n <= |t| :: t[k..n] == s[k + 1..n + 1];
    assert forall n | 0 <= n <= |s| :: s[..n] == s[0..n];
    if MatchHere(s).NoMatch? && SequenceFree(t) {
      forall k, n | 0 <= k <= n <= |s|
        ensures !IsSequence(s[k..n])
      {
        if k > 0 {
          assert s[k..n] == t[k - 1..n - 1];
        } else {
          assert s[k..n] == s[..n];
        }
      }
    }
  }

  /** Cleaning changes nothing exactly when there is no control sequence to delete. */
  lemma {:induction false} UnchangedIff(s: string)
    ensures CleanOutput(s) == s <==> SequenceFree(s)
    decreases |s|
  {
    if s == "" {
      assert forall k, n | 0 <= k <= n <= |s| :: s[k..n] == "";
    } else {
      SequenceFreeTail(s);
      if MatchHere(s).Length? {
        CleanShrinks(s[MatchHere(s).n..]);
      } else {
        UnchangedIff(s[1..]);
        assert s == [s[0]] + s[1..];
      }
    }
  }
}
