/**
 The recursive-descent parser for ICU resource text files.

 The PHP parser pulls tokens from the lexer's two-slot buffer; here it
 reads the token sequence `Tokenize` produces, the lookahead being the
 token at position `pos` (Lexer.BufferIsWindow shows the buffer is a
 window onto that sequence). `yylex()` is `pos + 1`.

 The PHP parser keeps a stack of formats but only ever reads its top,
 which is always the format its caller has just pushed; every push is
 popped again before the production returns. The stack is therefore
 modelled by passing that top as the `fmt` argument.
 */
module Parser {
  import opened Base
  import opened Lexer
  import opened ResourceAlias
  import opened Values

  datatype Format =
    | TableFormat | ArrayFormat | StringFormat | BinFormat
    | ImportFormat | IntFormat | IntVectorFormat | AliasFormat

  function FormatName(f: Format): string {
    match f
    case TableFormat => "table"
    case ArrayFormat => "array"
    case StringFormat => "string"
    case BinFormat => "bin"
    case ImportFormat => "import"
    case IntFormat => "int"
    case IntVectorFormat => "intvector"
    case AliasFormat => "alias"
  }

  function LowerChar(c: char): char {
    if 'A' <= c <= 'Z' then (c as int + 32) as char else c
  }

  /** strtolower, on ASCII letters. */
  function Lower(s: string): (r: string)
    ensures |r| == |s|
  {
    if s == [] then [] else [LowerChar(s[0])] + Lower(s[1..])
  }

  /** Lower-casing works character by character. */
  lemma {:induction false} LowerChars(s: string)
    ensures forall i :: 0 <= i < |s| ==> Lower(s)[i] == LowerChar(s[i])
  {
    if s != [] {
      LowerChars(s[1..]);
      assert Lower(s) == [LowerChar(s[0])] + Lower(s[1..]);
    }
  }

  /** The whitelist of formatStatement, in its order. */
  const Formats: seq<Format> :=
    [TableFormat, ArrayFormat, StringFormat, BinFormat, ImportFormat, IntFormat, IntVectorFormat, AliasFormat]

  /** The first format from index `i` of the whitelist whose name is `l`. */
  function FormatFrom(l: string, i: nat): (r: Option<Format>)
    requires i <= |Formats|
    ensures r.Some? ==> FormatName(r.value) == l
    decreases |Formats| - i
  {
    if i == |Formats| then None
    else if FormatName(Formats[i]) == l then Some(Formats[i])
    else FormatFrom(l, i + 1)
  }

  /** The lookup fails exactly when no name from index `i` on is `l`. */
  lemma {:induction false} FormatFromNone(l: string, i: nat)
    requires i <= |Formats|
    ensures FormatFrom(l, i).None? <==> forall j :: i <= j < |Formats| ==> FormatName(Formats[j]) != l
    decreases |Formats| - i
  {
    if i < |Formats| {
      FormatFromNone(l, i + 1);
    }
  }

  /** The whitelist check of formatStatement: lower-cased, then one of the eight names. */
  function ParseFormat(name: string): (r: Option<Format>)
    ensures r.Some? ==> FormatName(r.value) == Lower(name)
  {
    FormatFrom(Lower(name), 0)
  }

  /** Where a format sits in the whitelist. */
  function FormatIndex(f: Format): (i: nat)
    ensures i < |Formats| && Formats[i] == f
  {
    match f
    case TableFormat => 0
    case ArrayFormat => 1
    case StringFormat => 2
    case BinFormat => 3
    case ImportFormat => 4
    case IntFormat => 5
    case IntVectorFormat => 6
    case AliasFormat => 7
  }

  /** A name is rejected exactly when its lower-case form is none of the eight names. */
  lemma ParseFormatNone(name: string)
    ensures ParseFormat(name).None? <==> forall f: Format :: FormatName(f) != Lower(name)
  {
    FormatFromNone(Lower(name), 0);
    forall f: Format ensures FormatName(f) == FormatName(Formats[FormatIndex(f)]) {
    }
  }

  /** Format names are case-insensitive, and each name reads back as its own format. */
  lemma FormatNamesRoundTrip(f: Format, name: string)
    ensures ParseFormat(FormatName(f)) == Some(f)
    ensures Lower(name) == FormatName(f) ==> ParseFormat(name) == Some(f)
  {
    LowerChars(FormatName(f));
    assert Lower(FormatName(f)) == FormatName(f);
    FormatFromFinds(f, 0);
  }

  /** Distinct formats have distinct names. */
  lemma FormatNameInjective(f: Format, g: Format)
    ensures FormatName(f) == FormatName(g) ==> f == g
  {
    if FormatName(f) == FormatName(g) {
      var x, y := FormatName(f), FormatName(g);
      assert |x| == |y| && x[0] == y[0] && x[1] == y[1];
    }
  }

  /** Scanning the whitelist from any index up to a format's own finds that format by its name. */
  lemma {:induction false} FormatFromFinds(f: Format, i: nat)
    requires i <= FormatIndex(f)
    ensures FormatFrom(FormatName(f), i) == Some(f)
    decreases |Formats| - i
  {
    if i < FormatIndex(f) {
      assert FormatIndex(Formats[i]) == i;
      FormatNameInjective(Formats[i], f);
      FormatFromFinds(f, i + 1);
    }
  }

  /** `substr($v, 1, strlen($v) - 2)`: drop the first and the last character. */
  function Unquote(s: string): (r: string)
    ensures |s| >= 2 ==> |r| == |s| - 2
    ensures |s| < 2 ==> r == ""
  {
    if |s| >= 2 then s[1..|s| - 1] else ""
  }

  /** Unquoting undoes wrapping in double quotes. */
  lemma UnquoteQuoted(x: string)
    ensures Unquote("\"" + x + "\"") == x
  {
    assert ("\"" + x + "\"")[1..|x| + 1] == x;
  }

  /** What the parser reads: the file name, its directory, its tokens, and the files `:import` can read. */
  datatype Ctx = Ctx(
    file: string,
    cwd: string,
    toks: seq<Token>,
    files: map<string, string>,
    base64: string -> string)

  /** The token stream came from the lexer. */
  predicate Lexed(c: Ctx) {
    forall i :: 0 <= i < |c.toks| ==> WellFormed(c.toks[i])
  }

  /** A production's result and the position of the lookahead after it. */
  datatype Parsed<+T> = Parsed(value: T, next: nat)

  /** isNextToken(): there is a lookahead and it has this class. */
  predicate IsNext(c: Ctx, pos: nat, kind: TokenType) {
    pos < |c.toks| && c.toks[pos].kind == kind
  }

  /** The lookahead's line; at end of input there is none (PHP passes null, shown here as 0). */
  function LineAt(c: Ctx, pos: nat): nat {
    if pos < |c.toks| then c.toks[pos].line else 0
  }

  /** parseError(): reported against the lookahead. */
  function Fail(c: Ctx, pos: nat, what: Expectation): Error {
    ParseError(c.file, LineAt(c, pos), Expected(what))
  }

  /** match(T): the lookahead must have class T; it is then consumed. */
  function Match(c: Ctx, pos: nat, kind: TokenType): (r: Result<nat, Error>)
    ensures r.Success? <==> IsNext(c, pos, kind)
    ensures r.Success? ==> r.value == pos + 1 && r.value <= |c.toks|
    ensures r.Failure? ==> r.error == Fail(c, pos, Class(kind))
  {
    if IsNext(c, pos, kind) then Success(pos + 1) else Failure(Fail(c, pos, Class(kind)))
  }

  /** match(NULL, 'EOF'): succeeds only when no token is left. */
  function MatchEof(c: Ctx, pos: nat): (r: Result<nat, Error>)
    ensures r.Success? <==> pos >= |c.toks|
    ensures r.Failure? ==> r.error == Fail(c, pos, EndOfInput)
  {
    if pos >= |c.toks| then Success(pos + 1) else Failure(Fail(c, pos, EndOfInput))
  }

  /** nameStatement(): a TERM or INT token; when it is missing, an error only if mandatory. */
  function NameStatement(c: Ctx, pos: nat, mandatory: bool): (r: Result<Parsed<Option<string>>, Error>)
    ensures r.Failure? <==> mandatory && !IsNext(c, pos, Term) && !IsNext(c, pos, Int)
    ensures r.Failure? ==> r.error == Fail(c, pos, NameToken)
    ensures r.Success? ==> (r.value.value.Some? <==> IsNext(c, pos, Term) || IsNext(c, pos, Int))
    ensures r.Success? && r.value.value.Some? ==>
      r.value.next == pos + 1 && r.value.value.value == c.toks[pos].value
    ensures r.Success? && r.value.value.None? ==> r.value.next == pos
  {
    if IsNext(c, pos, Term) || IsNext(c, pos, Int) then Success(Parsed(Some(c.toks[pos].value), pos + 1))
    else if mandatory then Failure(Fail(c, pos, NameToken))
    else Success(Parsed(None, pos))
  }

  /** formatStatement(): an optional `:name`; a colon not followed by a known format name is an error. */
  function FormatStatement(c: Ctx, pos: nat): (r: Result<Parsed<Option<Format>>, Error>)
    ensures !IsNext(c, pos, Colon) ==> r == Success(Parsed(None, pos))
    ensures IsNext(c, pos, Colon) ==>
      (r.Success? <==> IsNext(c, pos + 1, Term) && ParseFormat(c.toks[pos + 1].value).Some?)
    ensures IsNext(c, pos, Colon) && r.Success? ==>
      && r.value.next == pos + 2 && r.value.next <= |c.toks|
      && r.value.value == ParseFormat(c.toks[pos + 1].value)
    ensures r.Failure? ==> r.error == Fail(c, pos + 1, FormatKeyword)
  {
    if !IsNext(c, pos, Colon) then Success(Parsed(None, pos))
    else if IsNext(c, pos + 1, Term) then
      match ParseFormat(c.toks[pos + 1].value)
      case Some(f) => Success(Parsed(Some(f), pos + 2))
      case None => Failure(Fail(c, pos + 1, FormatKeyword))
    else Failure(Fail(c, pos + 1, FormatKeyword))
  }

  /** The texts of a run of quoted tokens, each unquoted, concatenated. */
  function UnquoteAll(ts: seq<Token>): string {
    if ts == [] then "" else Unquote(ts[0].value) + UnquoteAll(ts[1..])
  }

  /**
   readSeparatedStringValue(): consume every consecutive QUOTED token and
   concatenate their contents ("a" "b" reads as "ab").
   */
  function ReadSeparated(c: Ctx, pos: nat): (r: Parsed<string>)
    requires pos <= |c.toks|
    ensures pos <= r.next <= |c.toks|
    ensures forall i :: pos <= i < r.next ==> c.toks[i].kind == Quoted
    ensures !IsNext(c, r.next, Quoted)
    ensures r.value == UnquoteAll(c.toks[pos..r.next])
    decreases |c.toks| - pos
  {
    if IsNext(c, pos, Quoted) then
      var rest := ReadSeparated(c, pos + 1);
      assert c.toks[pos..rest.next][1..] == c.toks[pos + 1..rest.next];
      Parsed(Unquote(c.toks[pos].value) + rest.value, rest.next)
    else Parsed("", pos)
  }

  /**
   Tokens `p..q` hold the scalar `v`: one INT token read with `(int)`, or
   a maximal run of QUOTED tokens whose contents concatenate to the string.
   */
  predicate ScalarSpan(c: Ctx, p: nat, q: nat, v: Value) {
    && p < q <= |c.toks|
    && match v
       case Num(n) => q == p + 1 && c.toks[p].kind == Int && n == IntCast(LeadingDigits(c.toks[p].value))
       case Str(s) =>
         && (forall i :: p <= i < q ==> c.toks[i].kind == Quoted)
         && !IsNext(c, q, Quoted)
         && s == UnquoteAll(c.toks[p..q])
       case _ => false
  }

  /** Tokens `p..q` are `, v0 , v1 ... , vn`: one comma in front of each item's scalar span. */
  ghost predicate CommaScalars(c: Ctx, p: nat, q: nat, items: seq<Value>)
    decreases |items|
  {
    if items == [] then p == q
    else IsNext(c, p, Comma) && exists m: nat :: ScalarSpan(c, p + 1, m, items[0]) && CommaScalars(c, m, q, items[1..])
  }

  /** Tokens `p..q` are `v0 , v1 ... , vn`: a comma-separated list of scalar spans, at least one. */
  ghost predicate ScalarSeq(c: Ctx, p: nat, q: nat, items: seq<Value>) {
    items != [] && exists m: nat :: ScalarSpan(c, p, m, items[0]) && CommaScalars(c, m, q, items[1..])
  }

  /** A comma and a scalar span in front of a comma list make a longer comma list. */
  lemma CommaScalarsCons(c: Ctx, p: nat, m: nat, q: nat, v: Value, rest: seq<Value>)
    requires IsNext(c, p, Comma) && ScalarSpan(c, p + 1, m, v) && CommaScalars(c, m, q, rest)
    ensures CommaScalars(c, p, q, [v] + rest)
  {
    assert ([v] + rest)[1..] == rest;
  }

  /** A scalar span in front of a comma list makes a scalar list. */
  lemma ScalarSeqCons(c: Ctx, p: nat, m: nat, q: nat, v: Value, rest: seq<Value>)
    requires ScalarSpan(c, p, m, v) && CommaScalars(c, m, q, rest)
    ensures ScalarSeq(c, p, q, [v] + rest)
  {
    assert ([v] + rest)[1..] == rest;
  }

  /** stringValueStatement(): one or more QUOTED tokens. */
  function StringValue(c: Ctx, pos: nat): (r: Result<Parsed<Value>, Error>)
    requires pos <= |c.toks|
    ensures r.Success? <==> IsNext(c, pos, Quoted)
    ensures r.Success? ==> pos < r.value.next <= |c.toks| && r.value.value.Str?
    ensures r.Success? ==> r.value.value == Str(UnquoteAll(c.toks[pos..r.value.next]))
    ensures r.Success? ==> ScalarSpan(c, pos, r.value.next, r.value.value)
    ensures r.Failure? ==> r.error == Fail(c, pos, Class(Quoted))
  {
    if IsNext(c, pos, Quoted) then
      var s := ReadSeparated(c, pos);
      Success(Parsed(Str(s.value), s.next))
    else Failure(Fail(c, pos, Class(Quoted)))
  }

  /** intValueStatement(): one INT token, read with PHP's `(int)` cast. */
  function IntValue(c: Ctx, pos: nat): (r: Result<Parsed<Value>, Error>)
    ensures r.Success? <==> IsNext(c, pos, Int)
    ensures r.Success? ==> r.value.next == pos + 1 <= |c.toks|
    ensures r.Success? ==> r.value.value == Num(IntCast(LeadingDigits(c.toks[pos].value)))
    ensures r.Success? ==> r.value.value.n <= PhpIntMax
    ensures r.Success? ==> ScalarSpan(c, pos, r.value.next, r.value.value)
    ensures r.Failure? ==> r.error == Fail(c, pos, Class(Int))
  {
    if IsNext(c, pos, Int) then
      Success(Parsed(Num(IntCast(LeadingDigits(c.toks[pos].value))), pos + 1))
    else Failure(Fail(c, pos, Class(Int)))
  }

  /** binValueStatement(): one TERM token, base64-decoded. */
  function BinValue(c: Ctx, pos: nat): (r: Result<Parsed<Value>, Error>)
    ensures r.Success? <==> IsNext(c, pos, Term)
    ensures r.Success? ==> r.value == Parsed(Str(c.base64(c.toks[pos].value)), pos + 1)
    ensures r.Failure? ==> r.error == Fail(c, pos, Class(Term))
  {
    if IsNext(c, pos, Term) then Success(Parsed(Str(c.base64(c.toks[pos].value)), pos + 1))
    else Failure(Fail(c, pos, Class(Term)))
  }

  /** The file an `:import` names: relative to the directory of the file being parsed. */
  function ImportPath(c: Ctx, quoted: string): string {
    c.cwd + "/" + Unquote(quoted)
  }

  /**
   importValueStatement(): one QUOTED token naming a file whose contents
   become the value; an unreadable file is an error on that token's line.
   */
  function ImportValue(c: Ctx, pos: nat): (r: Result<Parsed<Value>, Error>)
    ensures r.Success? <==> IsNext(c, pos, Quoted) && ImportPath(c, c.toks[pos].value) in c.files
    ensures r.Success? ==>
      r.value == Parsed(Str(c.files[ImportPath(c, c.toks[pos].value)]), pos + 1)
    ensures !IsNext(c, pos, Quoted) ==> r == Failure(Fail(c, pos, Class(Quoted)))
    ensures IsNext(c, pos, Quoted) && r.Failure? ==>
      r.error == ParseError(c.file, c.toks[pos].line, ImportUnreadable(ImportPath(c, c.toks[pos].value)))
  {
    if IsNext(c, pos, Quoted) then
      var path := ImportPath(c, c.toks[pos].value);
      if path in c.files then Success(Parsed(Str(c.files[path]), pos + 1))
      else Failure(ParseError(c.file, c.toks[pos].line, ImportUnreadable(path)))
    else Failure(Fail(c, pos, Class(Quoted)))
  }

  /** aliasValueStatement(): one QUOTED token, unquoted into a ResourceAlias. */
  function AliasValue(c: Ctx, pos: nat): (r: Result<Parsed<Value>, Error>)
    ensures r.Success? <==> IsNext(c, pos, Quoted)
    ensures r.Success? ==> r.value == Parsed(Ref(Alias(Unquote(c.toks[pos].value))), pos + 1)
    ensures r.Failure? ==> r.error == Fail(c, pos, Class(Quoted))
  {
    if IsNext(c, pos, Quoted) then Success(Parsed(Ref(Alias(Unquote(c.toks[pos].value))), pos + 1))
    else Failure(Fail(c, pos, Class(Quoted)))
  }

  /** scalarValueStatement(): a string (a run of QUOTED tokens) or an int. */
  function ScalarValue(c: Ctx, pos: nat): (r: Result<Parsed<Value>, Error>)
    requires pos <= |c.toks|
    ensures r.Success? <==> IsNext(c, pos, Quoted) || IsNext(c, pos, Int)
    ensures r.Success? ==> pos < r.value.next <= |c.toks|
    ensures r.Success? ==> (r.value.value.Str? <==> IsNext(c, pos, Quoted))
    ensures r.Success? ==> (r.value.value.Num? <==> IsNext(c, pos, Int))
    ensures r.Success? ==> ScalarSpan(c, pos, r.value.next, r.value.value)
    ensures r.Failure? ==> r.error == Fail(c, pos, ScalarToken)
  {
    if IsNext(c, pos, Quoted) then StringValue(c, pos)
    else if IsNext(c, pos, Int) then IntValue(c, pos)
    else Failure(Fail(c, pos, ScalarToken))
  }

  /** `while (isNextToken(T_COMMA)) { match(T_COMMA); $list[] = scalar; }` */
  function ScalarTail(c: Ctx, pos: nat, acc: seq<Value>): (r: Result<Parsed<seq<Value>>, Error>)
    requires pos <= |c.toks|
    ensures r.Success? ==> pos <= r.value.next <= |c.toks| && !IsNext(c, r.value.next, Comma)
    ensures r.Success? ==> |r.value.value| >= |acc| && r.value.value[..|acc|] == acc
    ensures r.Success? ==> forall i :: |acc| <= i < |r.value.value| ==> r.value.value[i].Str? || r.value.value[i].Num?
    ensures r.Success? ==> CommaScalars(c, pos, r.value.next, r.value.value[|acc|..])
    ensures !IsNext(c, pos, Comma) ==> r == Success(Parsed(acc, pos))
    ensures IsNext(c, pos, Comma) && !IsNext(c, pos + 1, Quoted) && !IsNext(c, pos + 1, Int) ==>
      r == Failure(Fail(c, pos + 1, ScalarToken))
    ensures r.Failure? ==> r.error.ParseError? && r.error.file == c.file
    decreases |c.toks| - pos
  {
    if IsNext(c, pos, Comma) then
      var v :- ScalarValue(c, pos + 1);
      var r := ScalarTail(c, v.next, acc + [v.value]);
      if r.Success? then
        TailStep(acc, v.value, r.value.value);
        CommaScalarsCons(c, pos, v.next, r.value.next, v.value, r.value.value[|acc| + 1..]);
        r
      else r
    else
      assert acc[|acc|..] == [];
      Success(Parsed(acc, pos))
  }

  /** What a loop that appended `v` to `acc` and then more items has appended, seen from `acc`. */
  lemma TailStep(acc: seq<Value>, v: Value, out: seq<Value>)
    requires |out| >= |acc| + 1 && out[..|acc| + 1] == acc + [v]
    ensures out[..|acc|] == acc
    ensures out[|acc|..] == [v] + out[|acc| + 1..]
  {
    assert out[..|acc|] == (acc + [v])[..|acc|];
    assert out[|acc|] == (acc + [v])[|acc|];
  }

  /** `while (isNextToken(T_COMMA)) { match(T_COMMA); $intVector[] = int; }` */
  function IntTail(c: Ctx, pos: nat, acc: seq<Value>): (r: Result<Parsed<seq<Value>>, Error>)
    requires pos <= |c.toks|
    ensures r.Success? ==> pos <= r.value.next <= |c.toks| && !IsNext(c, r.value.next, Comma)
    ensures r.Success? ==> |r.value.value| >= |acc| && r.value.value[..|acc|] == acc
    ensures r.Success? ==> forall i :: |acc| <= i < |r.value.value| ==> r.value.value[i].Num?
    ensures r.Success? ==> CommaScalars(c, pos, r.value.next, r.value.value[|acc|..])
    ensures !IsNext(c, pos, Comma) ==> r == Success(Parsed(acc, pos))
    ensures IsNext(c, pos, Comma) && !IsNext(c, pos + 1, Int) ==> r == Failure(Fail(c, pos + 1, Class(Int)))
    ensures r.Failure? ==> r.error.ParseError? && r.error.file == c.file
    decreases |c.toks| - pos
  {
    if IsNext(c, pos, Comma) then
      var v :- IntValue(c, pos + 1);
      var r := IntTail(c, v.next, acc + [v.value]);
      if r.Success? then
        TailStep(acc, v.value, r.value.value);
        CommaScalarsCons(c, pos, v.next, r.value.next, v.value, r.value.value[|acc| + 1..]);
        r
      else r
    else
      assert acc[|acc|..] == [];
      Success(Parsed(acc, pos))
  }

  /**
   intVectorValueStatement(): INT (, INT)*, and the list must be closed by
   `}`; anything else after it is an error.
   */
  function IntVectorValue(c: Ctx, pos: nat): (r: Result<Parsed<Value>, Error>)
    requires pos <= |c.toks|
    ensures r.Success? ==> pos < r.value.next <= |c.toks| && IsNext(c, r.value.next, RRangeEx)
    ensures r.Success? ==> r.value.value.Arr? && r.value.value.entries != [] && IsList(r.value.value.entries)
    ensures r.Success? ==> forall i :: 0 <= i < |r.value.value.entries| ==> r.value.value.entries[i].value.Num?
    ensures r.Success? ==> ScalarSeq(c, pos, r.value.next, ValuesOf(r.value.value.entries))
    ensures !IsNext(c, pos, Int) ==> r == Failure(Fail(c, pos, Class(Int)))
    ensures r.Failure? ==> r.error.ParseError? && r.error.file == c.file
  {
    var first :- IntValue(c, pos);
    var ints :- IntTail(c, first.next, [first.value]);
    if !IsNext(c, ints.next, RRangeEx) then Failure(Fail(c, ints.next, CommaOrClose))
    else
      ListItems(ints.value, 1);
      ScalarSeqCons(c, pos, first.next, ints.next, first.value, ints.value[1..]);
      Success(Parsed(Arr(ListOf(ints.value)), ints.next))
  }

  /** A list built from items gives them back, first item and the rest. */
  lemma ListItems(items: seq<Value>, k: nat)
    requires 1 <= k <= |items|
    ensures ValuesOf(ListOf(items)) == items
    ensures items == items[..k] + items[k..]
    ensures k == 1 ==> items == [items[0]] + items[1..]
  {
  }

  /**
   valueStatement(): dispatch on the format the enclosing entry declared;
   without one, the lookahead decides (InferredValue). An empty `{ }` is
   never a value.
   */
  function ValueStatement(c: Ctx, fmt: Option<Format>, pos: nat): (r: Result<Parsed<Value>, Error>)
    requires pos <= |c.toks|
    ensures r.Success? ==> pos < r.value.next <= |c.toks|
    ensures r.Success? ==> match fmt
      case Some(TableFormat) => r.value.value.Arr? && r.value.value.entries != [] && KeysDistinct(r.value.value.entries)
      case Some(ArrayFormat) => r.value.value.Arr? && r.value.value.entries != [] && IsList(r.value.value.entries)
      case Some(IntVectorFormat) => r.value.value.Arr? && r.value.value.entries != [] && IsList(r.value.value.entries)
      case Some(StringFormat) => r.value.value.Str?
      case Some(BinFormat) => r.value.value.Str?
      case Some(ImportFormat) => r.value.value.Str?
      case Some(IntFormat) => r.value.value.Num?
      case Some(AliasFormat) => r.value.value.Ref?
      case None => !r.value.value.Ref?
    ensures IsNext(c, pos, RRangeEx) ==> r.Failure? && r.error.ParseError? && r.error.line == c.toks[pos].line
    ensures r.Failure? ==> r.error.ParseError? && r.error.file == c.file
    decreases |c.toks| - pos, 4
  {
    match fmt
    case Some(TableFormat) =>
      var t :- TableValue(c, pos);
      Success(Parsed(Arr(t.value), t.next))
    case Some(ArrayFormat) =>
      var a :- ArrayValue(c, pos);
      Success(Parsed(Arr(a.value), a.next))
    case Some(IntVectorFormat) => IntVectorValue(c, pos)
    case Some(StringFormat) => StringValue(c, pos)
    case Some(BinFormat) => BinValue(c, pos)
    case Some(ImportFormat) => ImportValue(c, pos)
    case Some(IntFormat) => IntValue(c, pos)
    case Some(AliasFormat) => AliasValue(c, pos)
    case None => InferredValue(c, pos)
  }

  /**
   valueStatement() with no format declared: the lookahead decides
   (ValueInference states the rules). The value is never an alias.
   */
  function InferredValue(c: Ctx, pos: nat): (r: Result<Parsed<Value>, Error>)
    requires pos <= |c.toks|
    ensures r.Success? ==> pos < r.value.next <= |c.toks| && !r.value.value.Ref?
    ensures r.Failure? ==> r.error.ParseError? && r.error.file == c.file
    decreases |c.toks| - pos, 3
  {
    if IsNext(c, pos, Quoted) || IsNext(c, pos, Int) then
      var v := ScalarValue(c, pos).value;
      if IsNext(c, v.next, Comma) then
        var items :- ScalarTail(c, v.next, [v.value]);
        Success(Parsed(Arr(ListOf(items.value)), items.next))
      else Success(v)
    else if IsNext(c, pos, Term) then
      var t :- TableValue(c, pos);
      Success(Parsed(Arr(t.value), t.next))
    else if IsNext(c, pos, LRangeEx) then
      var a :- ArrayValue(c, pos);
      Success(Parsed(Arr(a.value), a.next))
    else Failure(Fail(c, pos, ValueStart))
  }

  /**
   The rules by which valueStatement() infers a value without a format: a
   QUOTED or INT token starts a scalar, which stands alone unless a comma
   follows it, and then the value is the comma list `:array` reads; a TERM
   starts a table and `{` an array; anything else is an error.
   */
  lemma ValueInference(c: Ctx, pos: nat)
    requires pos <= |c.toks|
    ensures (IsNext(c, pos, Quoted) || IsNext(c, pos, Int)) ==>
      && ScalarValue(c, pos).Success?
      && (!IsNext(c, ScalarValue(c, pos).value.next, Comma) ==> ValueStatement(c, None, pos) == ScalarValue(c, pos))
      && (IsNext(c, ScalarValue(c, pos).value.next, Comma) ==> ValueStatement(c, None, pos) == AsValue(ArrayValue(c, pos)))
    ensures IsNext(c, pos, Term) ==> ValueStatement(c, None, pos) == AsValue(TableValue(c, pos))
    ensures IsNext(c, pos, LRangeEx) ==> ValueStatement(c, None, pos) == AsValue(ArrayValue(c, pos))
    ensures !IsNext(c, pos, Quoted) && !IsNext(c, pos, Int) && !IsNext(c, pos, Term) && !IsNext(c, pos, LRangeEx) ==>
      ValueStatement(c, None, pos) == Failure(Fail(c, pos, ValueStart))
  {
  }

  /** An array production's entries, as the value valueStatement() returns. */
  function AsValue(r: Result<Parsed<seq<Entry>>, Error>): Result<Parsed<Value>, Error> {
    match r
    case Success(p) => Success(Parsed(Arr(p.value), p.next))
    case Failure(e) => Failure(e)
  }

  /** tableValueStatement(): one or more `name [:format] { value }` entries, up to the closing `}`. */
  function TableValue(c: Ctx, pos: nat): (r: Result<Parsed<seq<Entry>>, Error>)
    requires pos <= |c.toks|
    ensures r.Success? ==> pos < r.value.next <= |c.toks| && IsNext(c, r.value.next, RRangeEx)
    ensures r.Success? ==> r.value.value != [] && KeysDistinct(r.value.value)
    ensures IsNext(c, pos, RRangeEx) ==> r == Failure(Fail(c, pos, NameToken))
    ensures r.Failure? ==> r.error.ParseError? && r.error.file == c.file
    decreases |c.toks| - pos, 2
  {
    TableEntries(c, pos, [])
  }

  /**
   The do-while loop of tableValueStatement. A repeated name overwrites the
   earlier entry's value in place (`$table[$name] = ...`).
   */
  function TableEntries(c: Ctx, pos: nat, acc: seq<Entry>): (r: Result<Parsed<seq<Entry>>, Error>)
    requires pos <= |c.toks|
    requires KeysDistinct(acc)
    ensures r.Success? ==> pos < r.value.next <= |c.toks| && IsNext(c, r.value.next, RRangeEx)
    ensures r.Success? ==> r.value.value != [] && KeysDistinct(r.value.value)
    ensures r.Success? ==> forall k :: HasKey(acc, k) ==> HasKey(r.value.value, k)
    ensures r.Success? ==> |r.value.value| >= |acc| && forall i :: 0 <= i < |acc| ==> r.value.value[i].key == acc[i].key
    ensures IsNext(c, pos, RRangeEx) ==> r == Failure(Fail(c, pos, NameToken))
    ensures r.Failure? ==> r.error.ParseError? && r.error.file == c.file
    decreases |c.toks| - pos, 1
  {
    var name :- NameStatement(c, pos, true);
    var key := name.value.value;
    var m :- MemberStatement(c, name.next);
    var acc' := Insert(acc, key, m.value);
    assert forall k :: HasKey(acc, k) ==> HasKey(acc', k) by {
      forall k | HasKey(acc, k) ensures HasKey(acc', k) {
        assert Find(acc', k).Some?;
      }
    }
    assert acc' != [] by {
      assert Find(acc', key).Some?;
    }
    assert |acc'| >= |acc| by {
      if !HasKey(acc, key) {
        assert acc' == acc + [Entry(key, m.value)];
      }
    }
    if IsNext(c, m.next, RRangeEx) then Success(Parsed(acc', m.next))
    else TableEntries(c, m.next, acc')
  }

  /** One pass of the table loop: the name and member at `pos` are inserted into `acc`. */
  lemma TableEntriesStep(c: Ctx, pos: nat, acc: seq<Entry>)
    requires pos <= |c.toks| && KeysDistinct(acc)
    requires TableEntries(c, pos, acc).Success? ||
      ((IsNext(c, pos, Term) || IsNext(c, pos, Int)) && MemberStatement(c, pos + 1).Success?)
    ensures IsNext(c, pos, Term) || IsNext(c, pos, Int)
    ensures MemberStatement(c, pos + 1).Success?
    ensures var m := MemberStatement(c, pos + 1).value;
      var acc' := Insert(acc, c.toks[pos].value, m.value);
      && KeysDistinct(acc') && m.next <= |c.toks|
      && TableEntries(c, pos, acc) ==
           if IsNext(c, m.next, RRangeEx) then Success(Parsed(acc', m.next)) else TableEntries(c, m.next, acc')
  {
    assert NameStatement(c, pos, true) == Success(Parsed(Some(c.toks[pos].value), pos + 1));
  }

  /** Later keys override: the table for `acc` holds what a table read from nothing holds, and `acc` elsewhere. */
  ghost predicate Overrides(r: seq<Entry>, r0: seq<Entry>, acc: seq<Entry>) {
    forall k :: Find(r, k) == (if HasKey(r0, k) then Find(r0, k) else Find(acc, k))
  }

  /** Overriding composes with inserting one entry first. */
  lemma OverridesAfterInsert(acc: seq<Entry>, key: string, v: Value, later: seq<Entry>, r: seq<Entry>, r0: seq<Entry>)
    requires Overrides(r, later, Insert(acc, key, v))
    requires Overrides(r0, later, Insert([], key, v))
    ensures Overrides(r, r0, acc)
  {
    forall k ensures Find(r, k) == (if HasKey(r0, k) then Find(r0, k) else Find(acc, k)) {
      assert Find(r0, k) == (if HasKey(later, k) then Find(later, k) else Find(Insert([], key, v), k));
      assert Find(r, k) == (if HasKey(later, k) then Find(later, k) else Find(Insert(acc, key, v), k));
    }
  }

  /** Inserting one entry into `acc` overrides `acc` with the one-entry table. */
  lemma OverridesInsert(acc: seq<Entry>, key: string, v: Value)
    ensures Overrides(Insert(acc, key, v), Insert([], key, v), acc)
  {
    var r, r0 := Insert(acc, key, v), Insert([], key, v);
    forall k ensures Find(r, k) == (if HasKey(r0, k) then Find(r0, k) else Find(acc, k)) {
    }
  }

  /** The table loop reads the same tokens whatever it starts from. */
  lemma {:induction false} SameTokensRead(c: Ctx, pos: nat, a: seq<Entry>, b: seq<Entry>)
    requires pos <= |c.toks| && KeysDistinct(a) && KeysDistinct(b)
    requires TableEntries(c, pos, a).Success?
    ensures TableEntries(c, pos, b).Success?
    ensures TableEntries(c, pos, b).value.next == TableEntries(c, pos, a).value.next
    decreases |c.toks| - pos
  {
    TableEntriesStep(c, pos, a);
    TableEntriesStep(c, pos, b);
    var key := c.toks[pos].value;
    var m := MemberStatement(c, pos + 1).value;
    if !IsNext(c, m.next, RRangeEx) {
      SameTokensRead(c, m.next, Insert(a, key, m.value), Insert(b, key, m.value));
    }
  }

  /**
   Later members win. Started from `acc`, the table loop reads the same
   tokens as from nothing, and each key then holds what the members read
   give it, or what `acc` held when no member names it.
   */
  lemma {:induction false} LaterMembersWin(c: Ctx, pos: nat, acc: seq<Entry>)
    requires pos <= |c.toks| && KeysDistinct(acc)
    requires TableEntries(c, pos, acc).Success?
    ensures TableEntries(c, pos, []).Success?
    ensures TableEntries(c, pos, []).value.next == TableEntries(c, pos, acc).value.next
    ensures Overrides(TableEntries(c, pos, acc).value.value, TableEntries(c, pos, []).value.value, acc)
    decreases |c.toks| - pos
  {
    SameTokensRead(c, pos, acc, []);
    TableEntriesStep(c, pos, acc);
    TableEntriesStep(c, pos, []);
    var key := c.toks[pos].value;
    var m := MemberStatement(c, pos + 1).value;
    var acc', one := Insert(acc, key, m.value), Insert([], key, m.value);
    if !IsNext(c, m.next, RRangeEx) {
      SameTokensRead(c, m.next, acc', one);
      LaterMembersWin(c, m.next, acc');
      LaterMembersWin(c, m.next, one);
      OverridesAfterInsert(acc, key, m.value, TableEntries(c, m.next, []).value.value,
        TableEntries(c, pos, acc).value.value, TableEntries(c, pos, []).value.value);
    } else {
      OverridesInsert(acc, key, m.value);
    }
  }

  /**
   The first name read ends up with the value of the last member read
   under it: its own member's value, unless a later member names it again.
   */
  lemma LastMemberWins(c: Ctx, pos: nat, acc: seq<Entry>)
    requires pos <= |c.toks| && KeysDistinct(acc)
    requires TableEntries(c, pos, acc).Success?
    ensures (IsNext(c, pos, Term) || IsNext(c, pos, Int)) && MemberStatement(c, pos + 1).Success?
    ensures var m := MemberStatement(c, pos + 1).value;
      m.next <= |c.toks| && (!IsNext(c, m.next, RRangeEx) ==> TableEntries(c, m.next, []).Success?)
    ensures var key, m := c.toks[pos].value, MemberStatement(c, pos + 1).value;
      Find(TableEntries(c, pos, acc).value.value, key) ==
        if !IsNext(c, m.next, RRangeEx) && HasKey(TableEntries(c, m.next, []).value.value, key)
        then Find(TableEntries(c, m.next, []).value.value, key)
        else Some(m.value)
  {
    TableEntriesStep(c, pos, acc);
    var key, m := c.toks[pos].value, MemberStatement(c, pos + 1).value;
    var acc' := Insert(acc, key, m.value);
    if !IsNext(c, m.next, RRangeEx) {
      LaterMembersWin(c, m.next, acc');
      OverridesAt(TableEntries(c, m.next, acc').value.value, TableEntries(c, m.next, []).value.value, acc', key);
    }
  }

  /** Overriding, read at one key. */
  lemma OverridesAt(r: seq<Entry>, r0: seq<Entry>, acc: seq<Entry>, key: string)
    requires Overrides(r, r0, acc)
    ensures Find(r, key) == if HasKey(r0, key) then Find(r0, key) else Find(acc, key)
  {
  }

  /**
   arrayValueStatement(): either explicit members `[:format] { value }`
   up to the closing `}`, or a comma-separated list of scalars.
   */
  function ArrayValue(c: Ctx, pos: nat): (r: Result<Parsed<seq<Entry>>, Error>)
    requires pos <= |c.toks|
    ensures r.Success? ==> pos < r.value.next <= |c.toks|
    ensures r.Success? ==> r.value.value != [] && IsList(r.value.value)
    ensures r.Success? && (IsNext(c, pos, Colon) || IsNext(c, pos, LRangeEx)) ==> IsNext(c, r.value.next, RRangeEx)
    ensures r.Success? && !IsNext(c, pos, Colon) && !IsNext(c, pos, LRangeEx) ==>
      !IsNext(c, r.value.next, Comma) &&
      forall i :: 0 <= i < |r.value.value| ==> r.value.value[i].value.Str? || r.value.value[i].value.Num?
    ensures r.Success? && !IsNext(c, pos, Colon) && !IsNext(c, pos, LRangeEx) ==>
      ScalarSeq(c, pos, r.value.next, ValuesOf(r.value.value))
    ensures IsNext(c, pos, RRangeEx) ==> r == Failure(Fail(c, pos, ScalarToken))
    ensures r.Failure? ==> r.error.ParseError? && r.error.file == c.file
    decreases |c.toks| - pos, 2
  {
    if IsNext(c, pos, Colon) || IsNext(c, pos, LRangeEx) then
      var m :- ArrayMembers(c, pos, []);
      Success(Parsed(ListOf(m.value), m.next))
    else ScalarList(c, pos)
  }

  /** arrayValueStatement's other branch: a comma-separated list of scalars. */
  function ScalarList(c: Ctx, pos: nat): (r: Result<Parsed<seq<Entry>>, Error>)
    requires pos <= |c.toks|
    ensures r.Success? ==> pos < r.value.next <= |c.toks| && !IsNext(c, r.value.next, Comma)
    ensures r.Success? ==> r.value.value != [] && IsList(r.value.value)
    ensures r.Success? ==> forall i :: 0 <= i < |r.value.value| ==> r.value.value[i].value.Str? || r.value.value[i].value.Num?
    ensures r.Success? ==> ScalarSeq(c, pos, r.value.next, ValuesOf(r.value.value))
    ensures IsNext(c, pos, RRangeEx) ==> r == Failure(Fail(c, pos, ScalarToken))
    ensures r.Failure? ==> r.error.ParseError? && r.error.file == c.file
    decreases |c.toks| - pos, 0
  {
    var first :- ScalarValue(c, pos);
    var items :- ScalarTail(c, first.next, [first.value]);
    ListItems(items.value, 1);
    ScalarSeqCons(c, pos, first.next, items.next, first.value, items.value[1..]);
    Success(Parsed(ListOf(items.value), items.next))
  }

  /** The do-while loop of arrayValueStatement's explicit branch. */
  function ArrayMembers(c: Ctx, pos: nat, acc: seq<Value>): (r: Result<Parsed<seq<Value>>, Error>)
    requires pos <= |c.toks|
    ensures r.Success? ==> pos < r.value.next <= |c.toks| && IsNext(c, r.value.next, RRangeEx)
    ensures r.Success? ==> |r.value.value| > |acc| && r.value.value[..|acc|] == acc
    ensures r.Failure? ==> r.error.ParseError? && r.error.file == c.file
    decreases |c.toks| - pos, 1
  {
    var m :- MemberStatement(c, pos);
    if IsNext(c, m.next, RRangeEx) then Success(Parsed(acc + [m.value], m.next))
    else
      var r := ArrayMembers(c, m.next, acc + [m.value]);
      assert r.Success? ==> r.value.value[..|acc|] == (acc + [m.value])[..|acc|];
      r
  }

  /**
   `[:format] { value }`: the body both loops share. The value is read
   under the declared format and must be closed by `}`.
   */
  function MemberStatement(c: Ctx, pos: nat): (r: Result<Parsed<Value>, Error>)
    requires pos <= |c.toks|
    ensures r.Success? ==> pos < r.value.next <= |c.toks| && c.toks[r.value.next - 1].kind == RRangeEx
    ensures r.Failure? ==> r.error.ParseError? && r.error.file == c.file
    decreases |c.toks| - pos, 0
  {
    var fmt :- FormatStatement(c, pos);
    var p :- Match(c, fmt.next, LRangeEx);
    MemberBody(c, fmt.value, p)
  }

  /** The value of a member under its format, then the `}` that closes it. */
  function MemberBody(c: Ctx, fmt: Option<Format>, pos: nat): (r: Result<Parsed<Value>, Error>)
    requires pos <= |c.toks|
    ensures r.Success? ==> pos < r.value.next <= |c.toks| && c.toks[r.value.next - 1].kind == RRangeEx
    ensures r.Failure? ==> r.error.ParseError? && r.error.file == c.file
    decreases |c.toks| - pos, 5
  {
    var v :- ValueStatement(c, fmt, pos);
    var q :- Match(c, v.next, RRangeEx);
    Success(Parsed(v.value, q))
  }

  /**
   startStatement(): an optional root name (missing means the key ""), an
   optional format that must be `table`, the braced table, then end of
   input. The result is the one-entry array `[name => table]`.
   */
  function StartStatement(c: Ctx): (r: Result<seq<Entry>, Error>)
    ensures r.Success? ==> |r.value| == 1 && r.value[0].value.Arr?
    ensures r.Success? ==> r.value[0].value.entries != [] && KeysDistinct(r.value[0].value.entries)
    ensures r.Success? ==> r.value[0].key == if IsNext(c, 0, Term) || IsNext(c, 0, Int) then c.toks[0].value else ""
    ensures r.Success? ==> |c.toks| >= 3 && c.toks[|c.toks| - 1].kind == RRangeEx
    ensures var p := NameStatement(c, 0, false).value.next;
      FormatStatement(c, p).Success? && FormatStatement(c, p).value.value.Some? &&
      FormatStatement(c, p).value.value.value != TableFormat ==>
        r.Failure? && r.error.ParseError? && r.error.reason == RootNotTable
    ensures r.Success? ==> var p := NameStatement(c, 0, false).value.next;
      FormatStatement(c, p).Success? && RootTable(c, FormatStatement(c, p).value.next) == Success(r.value[0].value.entries)
    ensures r.Failure? ==> r.error.ParseError? && r.error.file == c.file
  {
    var name := NameStatement(c, 0, false).value;
    var fmt :- FormatStatement(c, name.next);
    if fmt.value.Some? && fmt.value.value != TableFormat then
      Failure(ParseError(c.file, c.toks[fmt.next - 1].line, RootNotTable))
    else
      var es :- RootTable(c, fmt.next);
      Success([Entry(name.value.GetOr(""), Arr(es))])
  }

  /** The rest of startStatement: `{`, the root table, `}`, then end of input. */
  function RootTable(c: Ctx, pos: nat): (r: Result<seq<Entry>, Error>)
    requires pos <= |c.toks|
    ensures r.Success? ==> r.value != [] && KeysDistinct(r.value)
    ensures r.Success? ==> |c.toks| >= pos + 3 && c.toks[|c.toks| - 1].kind == RRangeEx
    ensures r.Success? ==>
      && IsNext(c, pos, LRangeEx) && TableValue(c, pos + 1).Success?
      && TableValue(c, pos + 1).value == Parsed(r.value, |c.toks| - 1)
    ensures IsNext(c, pos, LRangeEx) && TableValue(c, pos + 1).Success? && TableValue(c, pos + 1).value.next + 1 < |c.toks| ==>
      r == Failure(Fail(c, TableValue(c, pos + 1).value.next + 1, EndOfInput))
    ensures r.Failure? ==> r.error.ParseError? && r.error.file == c.file
  {
    var p :- Match(c, pos, LRangeEx);
    var t :- TableValue(c, p);
    var q := Match(c, t.next, RRangeEx).value;
    var _ :- MatchEof(c, q);
    Success(t.value)
  }

  /** dirname(): everything before the last '/'; "." without one, "/" for a file directly under the root. */
  function Dirname(path: string): (d: string)
    ensures (forall j :: 0 <= j < |path| ==> path[j] != '/') ==> d == "."
    ensures forall i :: 0 <= i < |path| && path[i] == '/' && (forall j :: i < j < |path| ==> path[j] != '/') ==>
      d == if i == 0 then "/" else path[..i]
    ensures |d| <= |path| || d == "."
  {
    match LastIndex(path, '/')
    case None => "."
    case Some(0) => "/"
    case Some(i) => path[..i]
  }

  /**
   parse(): read the file (an unreadable one is FILE_NOT_FOUND), tokenize
   it, and parse it with `:import` paths relative to its directory.
   */
  function Parse(files: map<string, string>, base64: string -> string, file: string): (r: Result<seq<Entry>, Error>)
    ensures file !in files <==> r == Failure(FileNotFound(file))
    ensures r.Failure? ==> !r.error.NoTokenFound?
    ensures r.Success? ==> |r.value| == 1 && r.value[0].value.Arr? && r.value[0].value.entries != []
  {
    if file !in files then Failure(FileNotFound(file))
    else
      TokenizeNeverFails(file, files[file], 0, 1);
      var toks := Tokenize(file, files[file], 0, 1).value;
      StartStatement(Ctx(file, Dirname(file), toks, files, base64))
  }

  /**
   The parser's view agrees with the PHP lexer object's: after reset() and
   `pos` further yylex() calls, isNextToken(T) is IsNext(pos, T), the
   lookahead's line is LineAt(pos), and the current token (whose line the
   root-format and import errors report) is the token before `pos`.
   */
  lemma LookaheadAgrees(c: Ctx, data: string, pos: nat, kind: TokenType)
    requires Tokenize(c.file, data, 0, 1) == Success(c.toks)
    ensures Reset(c.file, data).Success? && Advance(Reset(c.file, data).value, pos).Success?
    ensures IsNextToken(Advance(Reset(c.file, data).value, pos).value, kind) == IsNext(c, pos, kind)
    ensures Advance(Reset(c.file, data).value, pos).value.lookAhead.Some? ==>
      Advance(Reset(c.file, data).value, pos).value.lookAhead.value.line == LineAt(c, pos)
    ensures 0 < pos <= |c.toks| ==> Advance(Reset(c.file, data).value, pos).value.token == Some(c.toks[pos - 1])
  {
    BufferIsWindow(c.file, data, pos);
  }
}
