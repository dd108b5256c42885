/**
 sh_quote against a shell lexer: token recognition of section 2.3 of the POSIX.1-2017 Shell Command
 Language with the quoting rules of its sections 2.2.1 to 2.2.3, quote removal included.
 Expansions and comments are not lexed: an unquoted `$`, backquote or leading `#` makes the lexer give up.
 */
module ShellQuote {
  import opened Basics

  /** str(value).replace("'", ...) with the five-character replacement: close, quoted quote, reopen. */
  function Replaced(s: string): string {
    if s == "" then "" else (if s[0] == '\'' then "'\"'\"'" else [s[0]]) + Replaced(s[1..])
  }

  function ShQuote(s: string): string { "'" + Replaced(s) + "'" }

  // ---------- the lexer ----------

  datatype Token = Word(text: string) | Op(text: string)

  datatype Mode = Plain | PlainEscape | SingleQuoted | DoubleQuoted | DoubleEscape | Operator

  /** `word` is the word being built, if `inWord`; `op` the operator being built in mode Operator. */
  datatype Lexer = Lexer(mode: Mode, inWord: bool, word: string, op: string, tokens: seq<Token>, gaveUp: bool)

  datatype Result = Tokens(tokens: seq<Token>) | Unterminated | Unsupported

  const FRESH := Lexer(Plain, false, "", "", [], false)

  predicate StartsOperator(c: char) {
    c == '|' || c == '&' || c == ';' || c == '<' || c == '>' || c == '(' || c == ')' || c == '\n'
  }

  predicate IsOperator(s: string) {
    || s == "|" || s == "||" || s == "&" || s == "&&" || s == ";" || s == ";;" || s == "(" || s == ")" || s == "\n"
    || s == "<" || s == ">" || s == "<<" || s == ">>" || s == "<&" || s == ">&" || s == "<>" || s == "<<-" || s == ">|"
  }

  /** Ends the token being built. */
  function Delimit(l: Lexer): Lexer {
    if l.mode.Operator? then l.(mode := Plain, op := "", tokens := l.tokens + [Op(l.op)])
    else if l.inWord then l.(inWord := false, word := "", tokens := l.tokens + [Word(l.word)])
    else l
  }

  function Append(l: Lexer, c: char): Lexer { l.(inWord := true, word := l.word + [c]) }

  /** An unquoted character after the operator rules have been applied. */
  function FeedPlain(l: Lexer, c: char): Lexer {
    if c == '\\' then l.(mode := PlainEscape)
    else if c == '\'' then l.(mode := SingleQuoted, inWord := true)
    else if c == '"' then l.(mode := DoubleQuoted, inWord := true)
    else if c == '$' || c == '`' || (c == '#' && !l.inWord) then l.(gaveUp := true)
    else if StartsOperator(c) then Delimit(l).(mode := Operator, op := [c])
    else if IsBlank(c) then Delimit(l)
    else Append(l, c)
  }

  function Feed(l: Lexer, c: char): Lexer {
    match l.mode
    case Plain => FeedPlain(l, c)
    case PlainEscape => if c == '\n' then l.(mode := Plain) else Append(l, c).(mode := Plain)
    case SingleQuoted => if c == '\'' then l.(mode := Plain) else Append(l, c)
    case DoubleQuoted =>
      if c == '"' then l.(mode := Plain)
      else if c == '\\' then l.(mode := DoubleEscape)
      else if c == '$' || c == '`' then l.(gaveUp := true)
      else Append(l, c)
    case DoubleEscape =>
      var back := l.(mode := DoubleQuoted);
      if c == '\n' then back
      else if c in "$`\"\\" then Append(back, c)
      else Append(Append(back, '\\'), c)
    case Operator => if IsOperator(l.op + [c]) then l.(op := l.op + [c]) else FeedPlain(Delimit(l), c)
  }

  function FeedAll(l: Lexer, s: string): Lexer
    decreases |s|
  {
    if s == "" then l else FeedAll(Feed(l, s[0]), s[1..])
  }

  function Finish(l: Lexer): Result {
    if l.gaveUp then Unsupported
    else if l.mode.Plain? || l.mode.Operator? then Tokens(Delimit(l).tokens)
    else Unterminated
  }

  function Lex(s: string): Result { Finish(FeedAll(FRESH, s)) }

  // ---------- lemmas about the lexer ----------

  lemma {:induction false} FeedConcat(l: Lexer, a: string, b: string)
    ensures FeedAll(l, a + b) == FeedAll(FeedAll(l, a), b)
    decreases |a|
  {
    if a == "" {
      assert a + b == b;
    } else {
      assert (a + b)[0] == a[0] && (a + b)[1..] == a[1..] + b;
      FeedConcat(Feed(l, a[0]), a[1..], b);
    }
  }

  /** A quote met inside single quotes: the five characters leave the lexer where it was, one quote later. */
  lemma QuotedQuote(l: Lexer)
    requires l.mode.SingleQuoted? && l.inWord
    ensures FeedAll(l, "'\"'\"'") == Append(l, '\'')
  {
    var s := "'\"'\"'";
    var l1 := Feed(l, s[0]);
    var l2 := Feed(l1, s[1]);
    var l3 := Feed(l2, s[2]);
    var l4 := Feed(l3, s[3]);
    var l5 := Feed(l4, s[4]);
    assert s[1..][1..] == s[2..] && s[2..][1..] == s[3..] && s[3..][1..] == s[4..] && s[4..][1..] == "";
    assert FeedAll(l4, s[4..]) == l5;
    assert FeedAll(l3, s[3..]) == l5;
    assert FeedAll(l2, s[2..]) == l5;
  }

  lemma {:induction false} FeedReplaced(l: Lexer, s: string)
    requires l.mode.SingleQuoted? && l.inWord
    ensures FeedAll(l, Replaced(s)) == l.(word := l.word + s)
    decreases |s|
  {
    if s == "" {
      assert l.word + s == l.word;
    } else {
      var head := if s[0] == '\'' then "'\"'\"'" else [s[0]];
      FeedConcat(l, head, Replaced(s[1..]));
      if s[0] == '\'' {
        QuotedQuote(l);
      } else {
        assert head[1..] == "";
      }
      FeedReplaced(Append(l, s[0]), s[1..]);
      assert l.word + [s[0]] + s[1..] == l.word + s;
    }
  }

  /**
   In any context where a word may start or continue, for every string s: the quoted form adds exactly s
   to the current word, emits no token, and leaves the lexer outside all quotes.
   */
  lemma QuoteIsLiteral(l: Lexer, s: string)
    requires l.mode.Plain?
    ensures FeedAll(l, ShQuote(s)) == l.(inWord := true, word := l.word + s)
  {
    var inside := l.(mode := SingleQuoted, inWord := true);
    FeedConcat(l, "'" + Replaced(s), "'");
    FeedConcat(l, "'", Replaced(s));
    assert "'"[1..] == "";
    FeedReplaced(inside, s);
  }

  /** Every string, quoted, lexes back to one word equal to it. */
  lemma QuoteRoundTrip(s: string)
    ensures Lex(ShQuote(s)) == Tokens([Word(s)])
  {
    QuoteIsLiteral(FRESH, s);
    assert FRESH.word + s == s;
  }

  // ---------- whole command lines ----------

  predicate Blanks(gap: string) { gap != "" && forall k | 0 <= k < |gap| :: IsBlank(gap[k]) }

  predicate IsOrdinary(c: char) {
    && c != '\\' && c != '\'' && c != '"' && c != '$' && c != '`' && c != '#'
    && !StartsOperator(c) && !IsBlank(c)
  }

  /** A piece of a command line and the blanks after it: an unquoted word, an operator, or a quoted value. */
  datatype Piece = Bare(text: string, gap: string) | Control(text: string, gap: string) | Quoted(value: string, gap: string)

  predicate ValidPiece(p: Piece) {
    && Blanks(p.gap)
    && (p.Bare? ==> p.text != "" && forall k | 0 <= k < |p.text| :: IsOrdinary(p.text[k]))
    && (p.Control? ==> p.text != "" && StartsOperator(p.text[0])
                       && forall k | 2 <= k <= |p.text| :: IsOperator(p.text[..k]))
  }

  function Text(p: Piece): string { if p.Quoted? then ShQuote(p.value) else p.text }

  function Meaning(p: Piece): Token {
    match p
    case Bare(text, _) => Word(text)
    case Control(text, _) => Op(text)
    case Quoted(value, _) => Word(value)
  }

  function Render(ps: seq<Piece>): string {
    if ps == [] then "" else Text(ps[0]) + if |ps| == 1 then "" else ps[0].gap + Render(ps[1..])
  }

  function Meanings(ps: seq<Piece>): seq<Token> {
    if ps == [] then [] else [Meaning(ps[0])] + Meanings(ps[1..])
  }

  lemma {:induction false} FeedWord(l: Lexer, w: string)
    requires l.mode.Plain? && forall k | 0 <= k < |w| :: IsOrdinary(w[k])
    ensures FeedAll(l, w) == if w == "" then l else l.(inWord := true, word := l.word + w)
    decreases |w|
  {
    if w == "" {
    } else {
      FeedWord(Append(l, w[0]), w[1..]);
      assert l.word + [w[0]] + w[1..] == l.word + w;
    }
  }

  lemma NoBlankInOperators(op: string, c: char)
    requires IsBlank(c)
    ensures !IsOperator(op + [c])
  {
    assert (op + [c])[|op|] == c;
  }

  /** The rest of an operator whose first k characters have been read. */
  lemma {:induction false} FeedOperator(l: Lexer, op: string, k: nat)
    requires l.mode.Operator? && 0 < k <= |op| && l.op == op[..k]
    requires forall j | 2 <= j <= |op| :: IsOperator(op[..j])
    ensures FeedAll(l, op[k..]) == l.(op := op)
    decreases |op| - k
  {
    if k == |op| {
    } else {
      assert op[..k] + [op[k]] == op[..k + 1];
      FeedOperator(l.(op := op[..k + 1]), op, k + 1);
      assert op[k..][1..] == op[k + 1..];
    }
  }

  lemma {:induction false} FeedBlanks(l: Lexer, gap: string)
    requires (l.mode.Plain? || l.mode.Operator?) && (l.mode.Operator? ==> !l.inWord) && Blanks(gap)
    ensures FeedAll(l, gap) == Delimit(l)
    decreases |gap|
  {
    NoBlankInOperators(l.op, gap[0]);
    assert Feed(l, gap[0]) == Delimit(l);
    if gap[1..] == "" {
    } else {
      FeedBlanks(Delimit(l), gap[1..]);
    }
  }

  /** Between pieces: outside quotes and with nothing begun. */
  predicate Between(l: Lexer) { l.mode.Plain? && !l.inWord && l.word == "" && l.op == "" && !l.gaveUp }

  /** After one piece the lexer is about to emit exactly its meaning. */
  ghost predicate AboutToEmit(t: Lexer, l: Lexer, token: Token) {
    && Delimit(t) == l.(tokens := l.tokens + [token])
    && !t.gaveUp && (t.mode.Plain? || (t.mode.Operator? && !t.inWord))
  }

  lemma FeedPiece(l: Lexer, p: Piece)
    requires Between(l) && ValidPiece(p)
    ensures AboutToEmit(FeedAll(l, Text(p)), l, Meaning(p))
  {
    match p
    case Bare(text, _) =>
      FeedWord(l, text);
      assert l.word + text == text;
    case Control(text, _) => FeedControl(l, text);
    case Quoted(value, _) =>
      QuoteIsLiteral(l, value);
      assert l.word + value == value;
  }

  lemma {:induction false} FeedControl(l: Lexer, text: string)
    requires Between(l) && text != "" && StartsOperator(text[0]) && forall k | 2 <= k <= |text| :: IsOperator(text[..k])
    ensures FeedAll(l, text) == l.(mode := Operator, op := text)
  {
    assert text[..1] == [text[0]];
    assert Feed(l, text[0]) == l.(mode := Operator, op := [text[0]]);
    FeedOperator(l.(mode := Operator, op := [text[0]]), text, 1);
  }

  /** A piece and the blanks after it. */
  lemma FeedPieceAndGap(l: Lexer, p: Piece, rest: string)
    requires Between(l) && ValidPiece(p)
    ensures FeedAll(l, Text(p) + (p.gap + rest)) == FeedAll(l.(tokens := l.tokens + [Meaning(p)]), rest)
  {
    FeedPiece(l, p);
    FeedConcat(l, Text(p), p.gap + rest);
    FeedConcat(FeedAll(l, Text(p)), p.gap, rest);
    FeedBlanks(FeedAll(l, Text(p)), p.gap);
  }

  lemma FeedLast(l: Lexer, p: Piece)
    requires Between(l) && ValidPiece(p)
    ensures Finish(FeedAll(l, Text(p))) == Tokens(l.tokens + [Meaning(p)])
  {
    FeedPiece(l, p);
  }

  lemma {:induction false} FeedRender(l: Lexer, ps: seq<Piece>)
    requires Between(l) && forall k | 0 <= k < |ps| :: ValidPiece(ps[k])
    ensures Finish(FeedAll(l, Render(ps))) == Tokens(l.tokens + Meanings(ps))
    decreases |ps|
  {
    if |ps| == 0 {
      assert l.tokens + Meanings(ps) == l.tokens;
    } else {
      assert l.tokens + [Meaning(ps[0])] + Meanings(ps[1..]) == l.tokens + Meanings(ps);
      if |ps| == 1 {
        assert Render(ps) == Text(ps[0]) && l.tokens + [Meaning(ps[0])] == l.tokens + Meanings(ps);
        FeedLast(l, ps[0]);
      } else {
        FeedPieceAndGap(l, ps[0], Render(ps[1..]));
        FeedRender(l.(tokens := l.tokens + [Meaning(ps[0])]), ps[1..]);
      }
    }
  }

  /**
   A command line made of unquoted words, operators and quoted values of any content, separated by any
   runs of blanks, lexes to exactly these words, operators and values.
   */
  lemma {:induction false} CommandRoundTrip(ps: seq<Piece>)
    requires forall k | 0 <= k < |ps| :: ValidPiece(ps[k])
    ensures Lex(Render(ps)) == Tokens(Meanings(ps))
  {
    FeedRender(FRESH, ps);
    assert FRESH.tokens + Meanings(ps) == Meanings(ps);
  }

  /** The command line of the package list action: `dpkg -l | grep -i -- <quoted pattern> || true`. */
  function PackageList(pattern: string): seq<Piece> {
    [Bare("dpkg", " "), Bare("-l", " "), Control("|", " "), Bare("grep", " "), Bare("-i", " "), Bare("--", " "),
     Quoted(pattern, " "), Control("||", " "), Bare("true", " ")]
  }

  /** Whatever the pattern contains, the shell sees the intended pipeline with the pattern as one argument. */
  lemma PackageListCommand(pattern: string)
    ensures Lex(Render(PackageList(pattern)))
            == Tokens([Word("dpkg"), Word("-l"), Op("|"), Word("grep"), Word("-i"), Word("--"), Word(pattern),
                       Op("||"), Word("true")])
  {
    var ps := PackageList(pattern);
    PiecesAreValid(pattern);
    CommandRoundTrip(ps);
    MeaningsOf(ps);
    assert Meanings(ps) == [Word("dpkg"), Word("-l"), Op("|"), Word("grep"), Word("-i"), Word("--"), Word(pattern),
                            Op("||"), Word("true")];
  }

  lemma PiecesAreValid(pattern: string)
    ensures forall k | 0 <= k < 9 :: ValidPiece(PackageList(pattern)[k])
  {
    assert "||"[..2] == "||";
    assert Blanks(" ");
  }

  lemma {:induction false} MeaningsOf(ps: seq<Piece>)
    ensures |Meanings(ps)| == |ps| && forall k | 0 <= k < |ps| :: Meanings(ps)[k] == Meaning(ps[k])
    decreases |ps|
  {
    if ps == [] {
    } else {
      MeaningsOf(ps[1..]);
    }
  }
}
