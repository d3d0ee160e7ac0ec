/**
 Shared vocabulary of the resource-bundle model: the Option and Result
 wrappers used for the library's null returns and exceptions, the error
 taxonomy, and the few PHP string semantics the code relies on
 (truthiness, newline counting, decimal digit runs).
 */
module Base {

  datatype Option<+T> = None | Some(value: T) {
    function GetOr(default: T): T {
      match this
      case Some(v) => v
      case None => default
    }
  }

  datatype Result<+T, +E> = Success(value: T) | Failure(error: E) {
    predicate IsFailure() {
      Failure?
    }

    function PropagateFailure<U>(): Result<U, E>
      requires Failure?
    {
      Failure(error)
    }

    function Extract(): T
      requires Success?
    {
      value
    }
  }

  /** Lexeme classes, with the integer codes of the PHP class constants. */
  datatype TokenType = Colon | RRangeEx | LRangeEx | Comma | Int | Quoted | Term

  /** What a parse error says was expected (the `$expected` argument of parseError). */
  datatype Expectation =
    | Class(kind: TokenType)  // match(T): the class constant's name
    | NameToken               // "T_TERM or T_INT"
    | ScalarToken             // "T_QUOTED or T_INT"
    | CommaOrClose            // "T_COMMA or T_RRANGEEX"
    | ValueStart              // "T_QUOTED, T_INT, T_TERM or T_RRANGEEX"
    | FormatKeyword           // "table, array, string, bin, import, int, intvector or alias"
    | EndOfInput              // "EOF"

  /** Why a parse was rejected. */
  datatype Reason =
    | Expected(what: Expectation)     // parseError: expected <what>, got the lookahead
    | RootNotTable                    // root node declared with a format other than table
    | ImportUnreadable(path: string)  // :import target cannot be read

  /** Every exception the core can raise. */
  datatype Error =
    | FileNotFound(file: string)                          // LexingException::FILE_NOT_FOUND
    | NoTokenFound(file: string, offset: nat, line: nat)  // LexingException::NO_TOKEN_FOUND
    | ParseError(file: string, line: nat, reason: Reason) // ParsingException::FATAL_ERROR
    | InvalidResourceDir(dir: string)                     // InvalidArgumentException
    | ReadOnlyResource                                    // RuntimeException from offsetSet/offsetUnset

  /** PHP truthiness of a string: only "" and "0" are false. */
  predicate Truthy(s: string) {
    s != "" && s != "0"
  }

  /** Number of line feeds in `s[a..b]` (substr_count of that slice and "\n"). */
  function LineFeeds(s: string, a: nat, b: nat): nat
    requires a <= b <= |s|
    decreases b - a
  {
    if a == b then 0 else LineFeeds(s, a, b - 1) + (if s[b - 1] == '\n' then 1 else 0)
  }

  /** Counting line feeds is additive over adjacent ranges. */
  lemma {:induction false} LineFeedsSplit(s: string, a: nat, b: nat, c: nat)
    requires a <= b <= c <= |s|
    ensures LineFeeds(s, a, c) == LineFeeds(s, a, b) + LineFeeds(s, b, c)
    decreases c - b
  {
    if b < c {
      LineFeedsSplit(s, a, b, c - 1);
    }
  }

  /** strrpos: the position of the last `c` in `s`, if any. */
  function LastIndex(s: string, c: char): (r: Option<nat>)
    ensures r.Some? ==> r.value < |s| && s[r.value] == c
    ensures r.Some? ==> forall j :: r.value < j < |s| ==> s[j] != c
    ensures r.None? ==> forall j :: 0 <= j < |s| ==> s[j] != c
  {
    if s == [] then None
    else if s[|s| - 1] == c then Some(|s| - 1)
    else LastIndex(s[..|s| - 1], c)
  }

  predicate IsDigit(c: char) {
    '0' <= c <= '9'
  }

  function DigitValue(c: char): nat
    requires IsDigit(c)
  {
    (c - '0') as nat
  }

  function DigitChar(d: nat): (c: char)
    requires d < 10
    ensures IsDigit(c) && DigitValue(c) == d
  {
    ('0' as int + d) as char
  }

  predicate AllDigits(s: string) {
    forall i :: 0 <= i < |s| ==> IsDigit(s[i])
  }

  /** The value of a run of decimal digits, as PHP's `(int)` cast reads it (no overflow). */
  function DecimalValue(s: string): nat
    requires AllDigits(s)
  {
    if s == [] then 0 else DecimalValue(s[..|s| - 1]) * 10 + DigitValue(s[|s| - 1])
  }

  /** The run of digits `s` starts with: the part PHP's `(int)` cast reads. */
  function LeadingDigits(s: string): (r: string)
    ensures AllDigits(r) && |r| <= |s|
    ensures AllDigits(s) ==> r == s
  {
    if s == [] || !IsDigit(s[0]) then [] else [s[0]] + LeadingDigits(s[1..])
  }

  /** PHP_INT_MAX on a 64-bit build. */
  const PhpIntMax: nat := 0x7FFF_FFFF_FFFF_FFFF

  /**
   `(int)` applied to a run of digits: the decimal value, saturated at
   PHP_INT_MAX when it does not fit in a 64-bit integer.
   */
  function IntCast(s: string): (n: nat)
    requires AllDigits(s)
    ensures n <= PhpIntMax
    ensures n <= DecimalValue(s)
    ensures DecimalValue(s) <= PhpIntMax ==> n == DecimalValue(s)
    ensures DecimalValue(s) > PhpIntMax ==> n == PhpIntMax
  {
    if DecimalValue(s) <= PhpIntMax then DecimalValue(s) else PhpIntMax
  }

  /** The canonical decimal spelling of `n`: PHP's string form of an integer. */
  function Decimal(n: nat): (s: string)
    ensures |s| >= 1 && AllDigits(s)
    ensures DecimalValue(s) == n
    ensures |s| > 1 ==> s[0] != '0'
  {
    if n < 10 then [DigitChar(n)]
    else
      var p := Decimal(n / 10);
      var s := p + [DigitChar(n % 10)];
      assert s[..|s| - 1] == p;
      s
  }

  /** A string PHP converts to an integer array key: "0" or digits without a leading zero. */
  predicate CanonicalIndex(s: string) {
    |s| >= 1 && AllDigits(s) && (|s| > 1 ==> s[0] != '0')
  }

  lemma {:induction false} DecimalValueInjective(a: string, b: string)
    requires AllDigits(a) && AllDigits(b) && |a| == |b|
    requires DecimalValue(a) == DecimalValue(b)
    ensures a == b
    decreases |a|
  {
    if a != [] {
      var n := |a| - 1;
      assert DigitValue(a[n]) == DecimalValue(a) % 10 == DigitValue(b[n]);
      assert DecimalValue(a[..n]) == DecimalValue(a) / 10 == DecimalValue(b[..n]);
      assert AllDigits(a[..n]) && AllDigits(b[..n]);
      DecimalValueInjective(a[..n], b[..n]);
      assert a == a[..n] + [a[n]] && b == b[..n] + [b[n]];
    }
  }

  lemma {:induction false} DecimalValueBound(s: string)
    requires AllDigits(s) && |s| >= 1 && s[0] != '0'
    ensures DecimalValue(s) >= Pow10(|s| - 1)
    decreases |s|
  {
    if |s| > 1 {
      var p := s[..|s| - 1];
      assert AllDigits(p) && p[0] == s[0];
      DecimalValueBound(p);
    }
  }

  lemma {:induction false} DecimalValueUpper(s: string)
    requires AllDigits(s)
    ensures DecimalValue(s) < Pow10(|s|)
    decreases |s|
  {
    if s != [] {
      var p := s[..|s| - 1];
      assert AllDigits(p);
      DecimalValueUpper(p);
    }
  }

  function Pow10(k: nat): (r: nat)
    ensures r >= 1
  {
    if k == 0 then 1 else 10 * Pow10(k - 1)
  }

  /** Two canonical spellings of the same number are the same string. */
  lemma CanonicalUnique(a: string, b: string)
    requires CanonicalIndex(a) && CanonicalIndex(b)
    requires DecimalValue(a) == DecimalValue(b)
    ensures a == b
  {
    if |a| < |b| {
      PowMonotone(|a|, |b| - 1);
      DecimalValueUpper(a);
      DecimalValueBound(b);
    } else if |b| < |a| {
      PowMonotone(|b|, |a| - 1);
      DecimalValueUpper(b);
      DecimalValueBound(a);
    } else {
      DecimalValueInjective(a, b);
    }
  }

  lemma {:induction false} PowMonotone(i: nat, j: nat)
    requires i <= j
    ensures Pow10(i) <= Pow10(j)
    decreases j
  {
    if i < j {
      PowMonotone(i, j - 1);
    }
  }
}
