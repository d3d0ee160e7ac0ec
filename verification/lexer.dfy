/**
 The tokenizer of lib/Adoy/ICU/ResourceBundle/Lexer.php.

 The PHP class compiles nine regular expressions into one anchored
 alternation and, at each offset, takes the first alternative that
 matches. Here each alternative is a small scanner over the input
 string and `FirstMatch` tries them in the same priority order. The
 lexer's mutable state (offset, line, current token, lookahead token)
 becomes the immutable `LexerState`, threaded through `Reset` and
 `YyLex`.
 */
module Lexer {
  import opened Base

  /** A lexeme: its class, its raw text and the line counter after it was consumed. */
  datatype Token = Token(kind: TokenType, value: string, line: nat)

  /** The nine patterns of `tokenPatterns`, in declaration (= priority) order. */
  datatype Pattern =
    | BlankRun      // [ \t\n\r]+          skipped
    | LineComment   // //.*                skipped
    | ColonChar     // :
    | OpenChar      // {
    | CloseChar     // }
    | CommaChar     // ,
    | DigitRun      // [0-9]+
    | QuotedRun     // "(?:[^"\\]|\\.)*"
    | TermRun       // [^ \t\n\r:,{}]+

  const Patterns: seq<Pattern> :=
    [BlankRun, LineComment, ColonChar, OpenChar, CloseChar, CommaChar, DigitRun, QuotedRun, TermRun]

  /** The token class a pattern yields; the two skipped patterns yield none. */
  function Produces(p: Pattern): Option<TokenType> {
    match p
    case BlankRun => None
    case LineComment => None
    case ColonChar => Some(Colon)
    case OpenChar => Some(LRangeEx)
    case CloseChar => Some(RRangeEx)
    case CommaChar => Some(Comma)
    case DigitRun => Some(Int)
    case QuotedRun => Some(Quoted)
    case TermRun => Some(Term)
  }

  predicate IsBlank(c: char) {
    c == ' ' || c == '\t' || c == '\n' || c == '\r'
  }

  /** Characters the TERM class accepts: everything but blanks and `:,{}`. */
  predicate IsTermChar(c: char) {
    !IsBlank(c) && c != ':' && c != ',' && c != '{' && c != '}'
  }

  /** The character classes that the patterns repeat. `AnyButNewline` is PCRE's `.`. */
  datatype CharClass = BlankClass | DigitClass | TermClass | AnyButNewline

  predicate InClass(c: char, cls: CharClass) {
    match cls
    case BlankClass => IsBlank(c)
    case DigitClass => IsDigit(c)
    case TermClass => IsTermChar(c)
    case AnyButNewline => c != '\n'
  }

  /** End of the longest run of `cls` characters starting at `i`. */
  function Span(data: string, i: nat, cls: CharClass): (j: nat)
    requires i <= |data|
    ensures i <= j <= |data|
    ensures j == |data| || !InClass(data[j], cls)
    decreases |data| - i
  {
    if i < |data| && InClass(data[i], cls) then Span(data, i + 1, cls) else i
  }

  /** Every character of the run is in the class. */
  lemma {:induction false} SpanInClass(data: string, i: nat, cls: CharClass)
    requires i <= |data|
    ensures forall k :: i <= k < Span(data, i, cls) ==> InClass(data[k], cls)
    decreases |data| - i
  {
    if i < |data| && InClass(data[i], cls) {
      SpanInClass(data, i + 1, cls);
    }
  }

  /**
   Offset just after the closing quote of a quoted run whose body starts
   at `i`, or None when the run is not terminated. A backslash escapes
   any character except a line feed.
   */
  function QuotedEnd(data: string, i: nat): (r: Option<nat>)
    requires i <= |data|
    ensures r.Some? ==> i < r.value <= |data| && data[r.value - 1] == '"'
    decreases |data| - i
  {
    if i >= |data| then None
    else if data[i] == '"' then Some(i + 1)
    else if data[i] == '\\' then
      if i + 1 < |data| && data[i + 1] != '\n' then QuotedEnd(data, i + 2) else None
    else QuotedEnd(data, i + 1)
  }

  /** Length of the match of `p` at `pos`, or None; every match is non-empty. */
  function MatchPattern(p: Pattern, data: string, pos: nat): (r: Option<nat>)
    requires pos < |data|
    ensures r.Some? ==> 1 <= r.value && pos + r.value <= |data|
  {
    match p
    case BlankRun => RunLength(data, pos, BlankClass)
    case LineComment =>
      if pos + 1 < |data| && data[pos] == '/' && data[pos + 1] == '/'
      then Some(Span(data, pos + 2, AnyButNewline) - pos)
      else None
    case ColonChar => if data[pos] == ':' then Some(1) else None
    case OpenChar => if data[pos] == '{' then Some(1) else None
    case CloseChar => if data[pos] == '}' then Some(1) else None
    case CommaChar => if data[pos] == ',' then Some(1) else None
    case DigitRun => RunLength(data, pos, DigitClass)
    case QuotedRun =>
      if data[pos] == '"' then
        match QuotedEnd(data, pos + 1)
        case Some(e) => Some(e - pos)
        case None => None
      else None
    case TermRun => RunLength(data, pos, TermClass)
  }

  /** `cls+` at `pos`: the length of the maximal run, None when it is empty. */
  function RunLength(data: string, pos: nat, cls: CharClass): (r: Option<nat>)
    requires pos < |data|
    ensures r.Some? <==> InClass(data[pos], cls)
    ensures r.Some? ==> 1 <= r.value && pos + r.value == Span(data, pos, cls)
  {
    var j := Span(data, pos, cls);
    if j > pos then Some(j - pos) else None
  }

  /**
   The alternation of the nine patterns from index `i` on: the index of the
   first pattern that matches at `pos`, with its match length.
   */
  function FirstMatch(data: string, pos: nat, i: nat): (r: Option<(nat, nat)>)
    requires pos < |data| && i <= |Patterns|
    ensures r.Some? ==>
      && i <= r.value.0 < |Patterns|
      && MatchPattern(Patterns[r.value.0], data, pos) == Some(r.value.1)
    decreases |Patterns| - i
  {
    if i == |Patterns| then None
    else match MatchPattern(Patterns[i], data, pos)
      case Some(n) => Some((i, n))
      case None => FirstMatch(data, pos, i + 1)
  }

  /** The alternation picks the first pattern that matches, and fails only when none does. */
  lemma {:induction false} FirstMatchIsFirst(data: string, pos: nat, i: nat)
    requires pos < |data| && i <= |Patterns|
    ensures FirstMatch(data, pos, i).Some? ==>
      forall j :: i <= j < FirstMatch(data, pos, i).value.0 ==> MatchPattern(Patterns[j], data, pos).None?
    ensures FirstMatch(data, pos, i).None? <==>
      forall j :: i <= j < |Patterns| ==> MatchPattern(Patterns[j], data, pos).None?
    decreases |Patterns| - i
  {
    if i < |Patterns| && MatchPattern(Patterns[i], data, pos).None? {
      FirstMatchIsFirst(data, pos, i + 1);
    }
  }

  /** Result of one `getNextToken` call: the token (None at end of input) and the new offset and line. */
  datatype Scan = Scan(token: Option<Token>, count: nat, line: nat)

  /** Shape of a token's text, per class. */
  predicate WellFormed(t: Token) {
    && |t.value| >= 1
    && match t.kind
       case Colon => t.value == ":"
       case LRangeEx => t.value == "{"
       case RRangeEx => t.value == "}"
       case Comma => t.value == ","
       case Int => AllDigits(t.value)
       case Quoted => |t.value| >= 2 && t.value[0] == '"' && t.value[|t.value| - 1] == '"'
       case Term => forall k :: 0 <= k < |t.value| ==> IsTermChar(t.value[k])
  }

  /**
   getNextToken: skip blanks and comments, then return the next token.
   The token's text is the slice of the input just consumed, and its
   line is the line counter after that slice.
   */
  function NextToken(file: string, data: string, count: nat, line: nat): (r: Result<Scan, Error>)
    ensures r.Success? ==> count <= r.value.count
    ensures r.Success? && count <= |data| ==> r.value.count <= |data|
    ensures r.Success? && r.value.token.None? ==> r.value.count >= |data|
    decreases |data| - count
  {
    if count >= |data| then Success(Scan(None, count, line))
    else match FirstMatch(data, count, 0)
      case None => Failure(NoTokenFound(file, count, line))
      case Some(m) =>
        var end := count + m.1;
        var line' := line + LineFeeds(data, count, end);
        match Produces(Patterns[m.0])
        case Some(kind) =>
          Success(Scan(Some(Token(kind, data[count..end], line')), end, line'))
        case None => NextToken(file, data, end, line')
  }

  /** The line counter after a scan has counted every line feed the scan consumed. */
  lemma {:induction false} NextTokenLine(file: string, data: string, count: nat, line: nat)
    requires count <= |data|
    ensures NextToken(file, data, count, line).Success? ==>
      NextToken(file, data, count, line).value.line
        == line + LineFeeds(data, count, NextToken(file, data, count, line).value.count)
    decreases |data| - count
  {
    if count < |data| && FirstMatch(data, count, 0).Some? {
      var m := FirstMatch(data, count, 0).value;
      if Produces(Patterns[m.0]).None? {
        var next := count + m.1;
        SkipStep(file, data, count, line);
        NextTokenLine(file, data, next, line + LineFeeds(data, count, next));
        var r := NextToken(file, data, next, line + LineFeeds(data, count, next));
        if r.Success? {
          LineFeedsSplit(data, count, next, r.value.count);
        }
      }
    }
  }

  /**
   What getNextToken promises about a token it returns: the token is the
   slice of input just consumed, shaped as its class demands, and it
   carries the line counter after that slice.
   */
  predicate ConsumedSlice(data: string, count: nat, r: Result<Scan, Error>) {
    r.Success? && r.value.token.Some? ==>
      var t := r.value.token.value;
      && count < r.value.count <= |data|
      && count <= r.value.count - |t.value|
      && (forall i :: 0 <= i < |t.value| ==> t.value[i] == data[r.value.count - |t.value| + i])
      && t.line == r.value.line
      && WellFormed(t)
  }

  lemma {:induction false} TokenIsConsumedSlice(file: string, data: string, count: nat, line: nat)
    ensures ConsumedSlice(data, count, NextToken(file, data, count, line))
    decreases |data| - count
  {
    if count < |data| && FirstMatch(data, count, 0).Some? {
      var m := FirstMatch(data, count, 0).value;
      if Produces(Patterns[m.0]).Some? {
        TokenStep(file, data, count, line);
      } else {
        var next := count + m.1;
        var r := NextToken(file, data, next, line + LineFeeds(data, count, next));
        SkipStep(file, data, count, line);
        TokenIsConsumedSlice(file, data, next, line + LineFeeds(data, count, next));
        ConsumedSliceFrom(data, count, next, r);
      }
    }
  }

  lemma ConsumedSliceFrom(data: string, c1: nat, c2: nat, r: Result<Scan, Error>)
    requires c1 <= c2 && ConsumedSlice(data, c2, r)
    ensures ConsumedSlice(data, c1, r)
  {
  }

  /** A token-producing match is returned at once, as the slice it matched. */
  lemma TokenStep(file: string, data: string, count: nat, line: nat)
    requires count < |data|
    requires FirstMatch(data, count, 0).Some?
    requires Produces(Patterns[FirstMatch(data, count, 0).value.0]).Some?
    ensures ConsumedSlice(data, count, NextToken(file, data, count, line))
  {
    var m := FirstMatch(data, count, 0).value;
    var line' := line + LineFeeds(data, count, count + m.1);
    var t := Token(Produces(Patterns[m.0]).value, data[count..count + m.1], line');
    assert NextToken(file, data, count, line) == Success(Scan(Some(t), count + m.1, line'));
    ScanIsSlice(data, count, m.0, m.1, line');
  }

  /** The scan result built from a token-producing match is the consumed slice, well formed. */
  lemma ScanIsSlice(data: string, count: nat, k: nat, n: nat, line: nat)
    requires count < |data| && k < |Patterns|
    requires MatchPattern(Patterns[k], data, count) == Some(n)
    requires Produces(Patterns[k]).Some?
    ensures ConsumedSlice(data, count,
      Success(Scan(Some(Token(Produces(Patterns[k]).value, data[count..count + n], line)), count + n, line)))
  {
    ShapeOfMatch(data, count, k, n, line);
    var text := data[count..count + n];
    assert forall i :: 0 <= i < |text| ==> text[i] == data[count + n - |text| + i];
  }

  /** A skipped match hands over to a fresh scan after it, with the line counter advanced. */
  lemma SkipStep(file: string, data: string, count: nat, line: nat)
    requires count < |data|
    requires FirstMatch(data, count, 0).Some?
    requires Produces(Patterns[FirstMatch(data, count, 0).value.0]).None?
    ensures NextToken(file, data, count, line)
         == NextToken(file, data, count + FirstMatch(data, count, 0).value.1,
                      line + LineFeeds(data, count, count + FirstMatch(data, count, 0).value.1))
  {
  }

  /** The text a token-producing pattern matched is well formed for its class. */
  lemma ShapeOfMatch(data: string, pos: nat, k: nat, n: nat, line: nat)
    requires pos < |data| && k < |Patterns|
    requires MatchPattern(Patterns[k], data, pos) == Some(n)
    requires Produces(Patterns[k]).Some?
    ensures WellFormed(Token(Produces(Patterns[k]).value, data[pos..pos + n], line))
  {
    var text := data[pos..pos + n];
    match Patterns[k]
    case DigitRun =>
      SpanInClass(data, pos, DigitClass);
      assert forall i :: 0 <= i < |text| ==> text[i] == data[pos + i];
    case TermRun =>
      SpanInClass(data, pos, TermClass);
      assert forall i :: 0 <= i < |text| ==> text[i] == data[pos + i];
    case QuotedRun =>
    case ColonChar =>
    case OpenChar =>
    case CloseChar =>
    case CommaChar =>
  }

  /** All the tokens from `count` on, as repeated `getNextToken` calls deliver them. */
  function Tokenize(file: string, data: string, count: nat, line: nat): (r: Result<seq<Token>, Error>)
    ensures r.Success? ==> forall i :: 0 <= i < |r.value| ==> WellFormed(r.value[i])
    decreases |data| - count
  {
    var s :- NextToken(file, data, count, line);
    match s.token
    case None => Success([])
    case Some(t) =>
      TokenIsConsumedSlice(file, data, count, line);
      var rest :- Tokenize(file, data, s.count, s.line);
      Success([t] + rest)
  }

  /** Every non-empty remainder matches some pattern: TERM accepts whatever the earlier ones refuse. */
  lemma EveryOffsetMatches(data: string, pos: nat)
    requires pos < |data|
    ensures FirstMatch(data, pos, 0).Some?
  {
    var c := data[pos];
    if IsBlank(c) {
      assert MatchPattern(Patterns[0], data, pos).Some?;
    } else if c == ':' {
      assert MatchPattern(Patterns[2], data, pos).Some?;
    } else if c == '{' {
      assert MatchPattern(Patterns[3], data, pos).Some?;
    } else if c == '}' {
      assert MatchPattern(Patterns[4], data, pos).Some?;
    } else if c == ',' {
      assert MatchPattern(Patterns[5], data, pos).Some?;
    } else {
      assert MatchPattern(Patterns[8], data, pos).Some?;
    }
  }

  /** The "Unexpected character" branch of getNextToken is unreachable. */
  lemma {:induction false} NextTokenNeverFails(file: string, data: string, count: nat, line: nat)
    ensures NextToken(file, data, count, line).Success?
    decreases |data| - count
  {
    if count < |data| {
      EveryOffsetMatches(data, count);
      var m := FirstMatch(data, count, 0).value;
      var next := count + m.1;
      if Produces(Patterns[m.0]).None? {
        SkipStep(file, data, count, line);
        NextTokenNeverFails(file, data, next, line + LineFeeds(data, count, next));
      } else {
        TokenBranchSucceeds(file, data, count, line);
      }
    } else {
      assert NextToken(file, data, count, line) == Success(Scan(None, count, line));
    }
  }

  /** A token-producing match ends the scan successfully at once. */
  lemma TokenBranchSucceeds(file: string, data: string, count: nat, line: nat)
    requires count < |data|
    requires FirstMatch(data, count, 0).Some?
    requires Produces(Patterns[FirstMatch(data, count, 0).value.0]).Some?
    ensures NextToken(file, data, count, line).Success?
    ensures NextToken(file, data, count, line).value.token.Some?
  {
    var m := FirstMatch(data, count, 0).value;
    var next := count + m.1;
    var line' := line + LineFeeds(data, count, next);
    var t := Token(Produces(Patterns[m.0]).value, data[count..next], line');
    assert NextToken(file, data, count, line) == Success(Scan(Some(t), next, line'));
  }

  /** Tokenizing never fails, whatever the input. */
  lemma {:induction false} TokenizeNeverFails(file: string, data: string, count: nat, line: nat)
    ensures Tokenize(file, data, count, line).Success?
    decreases |data| - count
  {
    NextTokenNeverFails(file, data, count, line);
    var s := NextToken(file, data, count, line).value;
    if s.token.Some? {
      TokenizeNeverFails(file, data, s.count, s.line);
    }
  }

  /** Priority order: at a digit the INT pattern wins with the whole digit run, never TERM. */
  lemma DigitsLexAsInt(data: string, pos: nat)
    requires pos < |data| && IsDigit(data[pos])
    ensures FirstMatch(data, pos, 0) == Some((6, Span(data, pos, DigitClass) - pos))
    ensures Produces(Patterns[6]) == Some(Int)
  {
    assert MatchPattern(Patterns[0], data, pos).None?;
    assert MatchPattern(Patterns[1], data, pos).None?;
  }

  /** Blanks and comments yield no token, but a following token's line still counts their line feeds. */
  lemma SkippedTextAdvancesLine(file: string, data: string, count: nat, line: nat)
    requires count < |data|
    requires IsBlank(data[count]) || (count + 1 < |data| && data[count] == '/' && data[count + 1] == '/')
    ensures FirstMatch(data, count, 0).Some?
    ensures Produces(Patterns[FirstMatch(data, count, 0).value.0]).None?
    ensures NextToken(file, data, count, line)
         == NextToken(file, data, count + FirstMatch(data, count, 0).value.1,
                      line + LineFeeds(data, count, count + FirstMatch(data, count, 0).value.1))
  {
    if !IsBlank(data[count]) {
      assert MatchPattern(Patterns[0], data, count).None?;
    }
    SkipStep(file, data, count, line);
  }

  /** The class-constant table `getLiteral` reflects over, in declaration order. */
  const Constants: seq<(string, int)> :=
    [("T_COLON", 256), ("T_RRANGEEX", 257), ("T_LRANGEEX", 258), ("T_COMMA", 259),
     ("T_INT", 260), ("T_QUOTED", 261), ("T_TERM", 262)]

  function Code(t: TokenType): int {
    match t
    case Colon => 256
    case RRangeEx => 257
    case LRangeEx => 258
    case Comma => 259
    case Int => 260
    case Quoted => 261
    case Term => 262
  }

  /** getLiteral returns either a constant's name or, when no constant has that value, the value itself. */
  datatype Literal = Name(name: string) | Unknown(code: int)

  function LookupConstant(table: seq<(string, int)>, code: int): (r: Literal)
    ensures r.Unknown? <==> forall i :: 0 <= i < |table| ==> table[i].1 != code
    ensures r.Unknown? ==> r.code == code
    ensures r.Name? ==> exists i :: 0 <= i < |table| && table[i] == (r.name, code)
  {
    if table == [] then Unknown(code)
    else if table[0].1 == code then Name(table[0].0)
    else
      var r := LookupConstant(table[1..], code);
      assert r.Name? ==> exists i :: 0 <= i < |table[1..]| && table[1..][i] == (r.name, code);
      assert r.Name? ==> exists i :: 1 <= i < |table| && table[i] == (r.name, code);
      r
  }

  function GetLiteral(code: int): (r: Literal)
    ensures r.Name? ==> exists t :: Code(t) == code
    ensures r.Unknown? <==> !(256 <= code <= 262)
    ensures r.Unknown? ==> r.code == code
  {
    var r := LookupConstant(Constants, code);
    assert r.Name? ==> exists i :: 0 <= i < |Constants| && Constants[i] == (r.name, code);
    assert r.Name? ==> 256 <= code <= 262;
    assert r.Name? ==> Code(CodeToken(code)) == code;
    assert 256 <= code <= 262 ==> Constants[code - 256].1 == code;
    r
  }

  function CodeToken(code: int): TokenType
    requires 256 <= code <= 262
  {
    [Colon, RRangeEx, LRangeEx, Comma, Int, Quoted, Term][code - 256]
  }

  /** The class constant's name, e.g. "T_LRANGEEX". */
  function TokenName(t: TokenType): string {
    Constants[Code(t) - 256].0
  }

  /** The symbolic name of each token class, as getLiteral reports it. */
  lemma LiteralNames(t: TokenType)
    ensures GetLiteral(Code(t)) == Name(TokenName(t))
    ensures |TokenName(t)| > 2 && TokenName(t)[..2] == "T_"
  {
    var i := Code(t) - 256;
    assert forall j :: 0 <= j < |Constants| ==> Constants[j].1 == 256 + j;
    LookupAt(Constants, Code(t), i);
  }

  /** The lookup stops at the first entry carrying the code. */
  lemma {:induction false} LookupAt(table: seq<(string, int)>, code: int, i: nat)
    requires i < |table| && table[i].1 == code
    requires forall j :: 0 <= j < i ==> table[j].1 != code
    ensures LookupConstant(table, code) == Name(table[i].0)
  {
    if i > 0 {
      assert table[0].1 != code;
      assert forall j :: 0 <= j < i - 1 ==> table[1..][j] == table[j + 1];
      LookupAt(table[1..], code, i - 1);
    }
  }

  /** Distinct classes have distinct codes and distinct literal names. */
  lemma LiteralsDistinct(a: TokenType, b: TokenType)
    requires a != b
    ensures Code(a) != Code(b)
    ensures GetLiteral(Code(a)) != GetLiteral(Code(b))
  {
    LiteralNames(a);
    LiteralNames(b);
    assert TokenName(a) != TokenName(b) by {
      var x, y := TokenName(a), TokenName(b);
      assert x[2] != y[2] || x[4] != y[4];
    }
  }

  /** The lexer object: input, offset, line counter and the two-token buffer. */
  datatype LexerState = LexerState(
    file: string, data: string, count: nat, line: nat,
    token: Option<Token>, lookAhead: Option<Token>)

  /** reset(): rewind to offset 0, line 1, empty buffer, then prime the lookahead. */
  function Reset(file: string, data: string): (r: Result<LexerState, Error>)
    ensures r.Success? ==> r.value.token.None? && r.value.file == file && r.value.data == data
  {
    var (st, _) :- YyLex(LexerState(file, data, 0, 1, None, None));
    Success(st)
  }

  /** yylex(): shift the lookahead into the current token, refill the lookahead, report whether a token is current. */
  function YyLex(st: LexerState): (r: Result<(LexerState, bool), Error>)
    ensures r.Success? ==>
      && r.value.0.token == st.lookAhead
      && r.value.1 == st.lookAhead.Some?
      && r.value.0.file == st.file && r.value.0.data == st.data
  {
    var s :- NextToken(st.file, st.data, st.count, st.line);
    Success((st.(token := st.lookAhead, lookAhead := s.token, count := s.count, line := s.line), st.lookAhead.Some?))
  }

  /** isNextToken(): false without a lookahead, otherwise a comparison of classes only. */
  function IsNextToken(st: LexerState, kind: TokenType): (r: bool)
    ensures st.lookAhead.None? ==> !r
    ensures st.lookAhead.Some? ==> (r <==> st.lookAhead.value.kind == kind)
  {
    match st.lookAhead
    case None => false
    case Some(t) => t.kind == kind
  }

  /** `n` successive yylex() calls. */
  function Advance(st: LexerState, n: nat): Result<LexerState, Error>
    decreases n
  {
    if n == 0 then Success(st)
    else match YyLex(st)
      case Failure(e) => Failure(e)
      case Success(shifted) => Advance(shifted.0, n - 1)
  }

  function At(toks: seq<Token>, i: int): Option<Token> {
    if 0 <= i < |toks| then Some(toks[i]) else None
  }

  /**
   The lexer has delivered `toks[..i]`: its lookahead is `toks[i]` and
   what it has not scanned yet tokenizes to the rest of `toks`.
   */
  predicate Delivers(st: LexerState, toks: seq<Token>, i: nat) {
    && st.lookAhead == At(toks, i)
    && (i < |toks| ==> Tokenize(st.file, st.data, st.count, st.line) == Success(toks[i + 1..]))
    && (i >= |toks| ==> st.count >= |st.data|)
  }

  lemma YyLexShifts(st: LexerState, toks: seq<Token>, i: nat)
    requires Delivers(st, toks, i)
    ensures YyLex(st).Success?
    ensures Delivers(YyLex(st).value.0, toks, i + 1)
    ensures YyLex(st).value.0.token == At(toks, i)
  {
    NextTokenNeverFails(st.file, st.data, st.count, st.line);
    var s := NextToken(st.file, st.data, st.count, st.line).value;
    if i < |toks| {
      if i + 1 < |toks| {
        assert toks[i + 1..][0] == toks[i + 1];
        assert toks[i + 1..][1..] == toks[i + 2..];
      }
    }
  }

  /**
   After reset() and n further yylex() calls, the current token is the
   n-th token of the stream and the lookahead is the (n+1)-th: the two-slot
   buffer is a window sliding over `Tokenize`.
   */
  lemma BufferIsWindow(file: string, data: string, n: nat)
    ensures Reset(file, data).Success?
    ensures Tokenize(file, data, 0, 1).Success?
    ensures Advance(Reset(file, data).value, n).Success?
    ensures Advance(Reset(file, data).value, n).value.token
         == (if n == 0 then None else At(Tokenize(file, data, 0, 1).value, n - 1))
    ensures Advance(Reset(file, data).value, n).value.lookAhead == At(Tokenize(file, data, 0, 1).value, n)
  {
    TokenizeNeverFails(file, data, 0, 1);
    var toks := Tokenize(file, data, 0, 1).value;
    NextTokenNeverFails(file, data, 0, 1);
    var st := Reset(file, data).value;
    if toks != [] {
      assert toks[0..] == toks;
    }
    assert Delivers(st, toks, 0);
    WindowSlides(st, toks, 0, n, n);
  }

  /** One yylex() call, then the remaining `n - 1`. */
  lemma AdvanceStep(st: LexerState, n: nat)
    requires n > 0 && YyLex(st).Success?
    ensures Advance(st, n) == Advance(YyLex(st).value.0, n - 1)
  {
  }

  /** From a state that has delivered `toks[..i]`, `n` more yylex() calls have delivered `toks[..j]`, `j = i + n`. */
  lemma {:induction false} WindowSlides(st: LexerState, toks: seq<Token>, i: nat, n: nat, j: nat)
    requires Delivers(st, toks, i) && j == i + n
    ensures Advance(st, n).Success?
    ensures Delivers(Advance(st, n).value, toks, j)
    ensures n > 0 ==> Advance(st, n).value.token == At(toks, j - 1)
    ensures n == 0 ==> Advance(st, n).value.token == st.token
    decreases n
  {
    if n > 0 {
      YyLexShifts(st, toks, i);
      AdvanceStep(st, n);
      WindowSlides(YyLex(st).value.0, toks, i + 1, n - 1, j);
    }
  }

  /** On empty input the first yylex() after reset() finds no token. */
  lemma EmptyInputHasNoToken(file: string)
    ensures Reset(file, "").Success?
    ensures YyLex(Reset(file, "").value).Success?
    ensures !YyLex(Reset(file, "").value).value.1
  {
  }

  /** The line invariant: the line counter is 1 plus the line feeds consumed so far. */
  lemma LineCounts(file: string, data: string, count: nat, line: nat)
    requires count <= |data| && line == 1 + LineFeeds(data, 0, count)
    ensures NextToken(file, data, count, line).Success?
    ensures NextToken(file, data, count, line).value.line
         == 1 + LineFeeds(data, 0, NextToken(file, data, count, line).value.count)
    ensures NextToken(file, data, count, line).value.token.Some? ==>
      NextToken(file, data, count, line).value.token.value.line
        == 1 + LineFeeds(data, 0, NextToken(file, data, count, line).value.count)
  {
    NextTokenNeverFails(file, data, count, line);
    TokenIsConsumedSlice(file, data, count, line);
    NextTokenLine(file, data, count, line);
    var s := NextToken(file, data, count, line).value;
    LineFeedsSplit(data, 0, count, s.count);
  }
}
