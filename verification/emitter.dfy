/**
 An inverse for the parser: writing a value back out as tokens, in the
 explicit `name:format { ... }` form, and proving that the parser reads
 back exactly the value that was written.
 */
module Emitter {
  import opened Base
  import opened Lexer
  import opened ResourceAlias
  import opened Values
  import opened Parser

  function Quote(s: string): string {
    "\"" + s + "\""
  }

  /** A key that can be written as one TERM token. */
  predicate ValidName(s: string) {
    |s| >= 1 && forall i :: 0 <= i < |s| ==> IsTermChar(s[i])
  }

  /** The format a value is written with. */
  function FormatOf(v: Value): Format {
    match v
    case Arr(es) => if IsList(es) then ArrayFormat else TableFormat
    case Str(_) => StringFormat
    case Num(_) => IntFormat
    case Ref(_) => AliasFormat
  }

  /**
   The values a resource file can express: arrays are non-empty with
   distinct keys that are valid names, and ints fit in a PHP int.
   */
  predicate Emittable(v: Value)
    decreases v
  {
    match v
    case Str(_) => true
    case Ref(_) => true
    case Num(n) => n <= PhpIntMax
    case Arr(es) =>
      && es != []
      && KeysDistinct(es)
      && (forall i :: 0 <= i < |es| ==> ValidName(es[i].key))
      && (forall i :: 0 <= i < |es| ==> Emittable(es[i].value))
  }

  const ColonToken := Token(Colon, ":", 1)
  const OpenToken := Token(LRangeEx, "{", 1)
  const CloseToken := Token(RRangeEx, "}", 1)

  /** `:format { body }` */
  function Member(v: Value): seq<Token>
    decreases v, 2, 0
  {
    [ColonToken, Token(Term, FormatName(FormatOf(v)), 1), OpenToken] + (Body(v) + [CloseToken])
  }

  /** What goes between the braces of a value. */
  function Body(v: Value): seq<Token>
    decreases v, 1, 0
  {
    match v
    case Str(s) => [Token(Quoted, Quote(s), 1)]
    case Num(n) => [Token(Int, Decimal(n), 1)]
    case Ref(a) => [Token(Quoted, Quote(a.ref), 1)]
    case Arr(es) => if IsList(es) then ListFrom(v, 0) else TableFrom(v, 0)
  }

  /** The members of a list, from index `k` on. */
  function ListFrom(v: Value, k: nat): seq<Token>
    requires v.Arr? && k <= |v.entries|
    decreases v, 0, |v.entries| - k
  {
    if k == |v.entries| then [] else Member(v.entries[k].value) + ListFrom(v, k + 1)
  }

  /** The named entries of a table, from index `k` on. */
  function TableFrom(v: Value, k: nat): seq<Token>
    requires v.Arr? && k <= |v.entries|
    decreases v, 0, |v.entries| - k
  {
    if k == |v.entries| then []
    else [Token(Term, v.entries[k].key, 1)] + (Member(v.entries[k].value) + TableFrom(v, k + 1))
  }

  /** A whole resource file: `name { entries }`. */
  function Emit(name: string, es: seq<Entry>): seq<Token> {
    [Token(Term, name, 1), OpenToken] + (TableFrom(Arr(es), 0) + [CloseToken])
  }

  /** `ts` sits in the token stream at `pos`. */
  predicate Occurs(c: Ctx, pos: nat, ts: seq<Token>) {
    && pos + |ts| <= |c.toks|
    && forall i :: 0 <= i < |ts| ==> c.toks[pos + i] == ts[i]
  }

  lemma OccursSplit(c: Ctx, pos: nat, a: seq<Token>, b: seq<Token>)
    requires Occurs(c, pos, a + b)
    ensures Occurs(c, pos, a) && Occurs(c, pos + |a|, b)
  {
    forall i | 0 <= i < |a| ensures c.toks[pos + i] == a[i] {
      assert (a + b)[i] == a[i];
    }
    forall i | 0 <= i < |b| ensures c.toks[pos + |a| + i] == b[i] {
      assert c.toks[pos + (|a| + i)] == (a + b)[|a| + i];
    }
  }

  /** The first token of `ts` is the one at `pos`. */
  lemma FirstToken(c: Ctx, pos: nat, ts: seq<Token>)
    requires Occurs(c, pos, ts) && ts != []
    ensures c.toks[pos] == ts[0]
  {
    assert c.toks[pos + 0] == ts[0];
  }

  /** The tokens of an emitted member, located in the stream. */
  lemma MemberAt(c: Ctx, u: Value, pos: nat)
    requires Occurs(c, pos, Member(u))
    ensures |Member(u)| == |Body(u)| + 4
    ensures IsNext(c, pos, Colon)
    ensures c.toks[pos + 1] == Token(Term, FormatName(FormatOf(u)), 1)
    ensures IsNext(c, pos + 2, LRangeEx)
    ensures Occurs(c, pos + 3, Body(u))
    ensures IsNext(c, pos + 3 + |Body(u)|, RRangeEx)
  {
    var head := [ColonToken, Token(Term, FormatName(FormatOf(u)), 1), OpenToken];
    OccursSplit(c, pos, head, Body(u) + [CloseToken]);
    OccursSplit(c, pos + 3, Body(u), [CloseToken]);
    FirstToken(c, pos + 3 + |Body(u)|, [CloseToken]);
    assert c.toks[pos + 0] == head[0];
    assert c.toks[pos + 1] == head[1];
    assert c.toks[pos + 2] == head[2];
  }

  /** The explicit format in front of a member reads back as that member's format. */
  lemma FormatAt(c: Ctx, u: Value, pos: nat)
    requires pos + 1 < |c.toks| && IsNext(c, pos, Colon)
    requires c.toks[pos + 1] == Token(Term, FormatName(FormatOf(u)), 1)
    ensures FormatStatement(c, pos) == Success(Parsed(Some(FormatOf(u)), pos + 2))
  {
    FormatNamesRoundTrip(FormatOf(u), "");
  }

  lemma ValuesOfPrefix(es: seq<Entry>, k: nat)
    requires k < |es|
    ensures ValuesOf(es[..k]) + [es[k].value] == ValuesOf(es[..k + 1])
  {
  }

  /** Prefixes of an array with distinct keys keep them distinct, and the next key is new. */
  lemma PrefixKeys(es: seq<Entry>, k: nat)
    requires KeysDistinct(es) && k < |es|
    ensures KeysDistinct(es[..k]) && KeysDistinct(es[..k + 1])
    ensures !HasKey(es[..k], es[k].key)
    ensures es[..k] + [Entry(es[k].key, es[k].value)] == es[..k + 1]
  {
    var p, p' := es[..k], es[..k + 1];
    forall i, j | 0 <= i < j < |p'| ensures KeyAt(p', i) != KeyAt(p', j) {
      assert KeyAt(es, i) != KeyAt(es, j);
    }
    forall i, j | 0 <= i < j < |p| ensures KeyAt(p, i) != KeyAt(p, j) {
      assert KeyAt(es, i) != KeyAt(es, j);
    }
    forall j | 0 <= j < k ensures es[..k][j].key != es[k].key {
      assert KeyAt(es, j) != KeyAt(es, k);
    }
  }

  /** The members of an emittable array are emittable. */
  lemma EntryEmittable(v: Value, k: nat)
    requires Emittable(v) && v.Arr? && k < |v.entries|
    ensures Emittable(v.entries[k].value)
  {
  }

  lemma ParseStr(c: Ctx, s: string, pos: nat)
    requires pos + 1 < |c.toks| && IsNext(c, pos + 1, RRangeEx)
    requires c.toks[pos] == Token(Quoted, Quote(s), 1)
    ensures ValueStatement(c, Some(StringFormat), pos) == Success(Parsed(Str(s), pos + 1))
  {
    UnquoteQuoted(s);
    assert ReadSeparated(c, pos + 1) == Parsed("", pos + 1);
    assert ReadSeparated(c, pos) == Parsed(s + "", pos + 1);
    assert s + "" == s;
  }

  lemma ParseNum(c: Ctx, n: nat, pos: nat)
    requires pos < |c.toks| && n <= PhpIntMax
    requires c.toks[pos] == Token(Int, Decimal(n), 1)
    ensures ValueStatement(c, Some(IntFormat), pos) == Success(Parsed(Num(n), pos + 1))
  {
  }

  lemma ParseRef(c: Ctx, a: Alias, pos: nat)
    requires pos < |c.toks|
    requires c.toks[pos] == Token(Quoted, Quote(a.ref), 1)
    ensures ValueStatement(c, Some(AliasFormat), pos) == Success(Parsed(Ref(a), pos + 1))
  {
    UnquoteQuoted(a.ref);
  }

  /** A string, int or alias body, followed by `}`, parses back to the value. */
  lemma ParseScalar(c: Ctx, v: Value, pos: nat)
    requires Emittable(v) && !v.Arr?
    requires Occurs(c, pos, Body(v)) && IsNext(c, pos + |Body(v)|, RRangeEx)
    ensures ValueStatement(c, Some(FormatOf(v)), pos) == Success(Parsed(v, pos + |Body(v)|))
  {
    FirstToken(c, pos, Body(v));
    match v
    case Str(s) => ParseStr(c, s, pos);
    case Num(n) => ParseNum(c, n, pos);
    case Ref(a) => ParseRef(c, a, pos);
  }

  /** `:table` dispatches to tableValueStatement, which reads the entries from the start. */
  lemma TableDispatch(c: Ctx, v: Value, pos: nat, e: nat)
    requires v.Arr? && pos <= |c.toks|
    requires TableEntries(c, pos, v.entries[..0]) == Success(Parsed(v.entries, e))
    ensures ValueStatement(c, Some(TableFormat), pos) == Success(Parsed(v, e))
  {
    assert v.entries[..0] == [];
  }

  /** `:array` dispatches to arrayValueStatement, whose explicit branch collects the members as a list. */
  lemma ListDispatch(c: Ctx, v: Value, pos: nat, e: nat)
    requires v.Arr? && IsList(v.entries) && pos <= |c.toks| && IsNext(c, pos, Colon)
    requires ArrayMembers(c, pos, ValuesOf(v.entries[..0])) == Success(Parsed(ValuesOf(v.entries), e))
    ensures ValueStatement(c, Some(ArrayFormat), pos) == Success(Parsed(v, e))
  {
    assert ValuesOf(v.entries[..0]) == [];
    ListOfValues(v.entries);
    assert ArrayValue(c, pos) == Success(Parsed(v.entries, e));
  }

  /** A value's body, followed by `}`, parses back to the value under its format. */
  lemma {:induction false} ParseBody(c: Ctx, v: Value, pos: nat)
    requires Emittable(v)
    requires Occurs(c, pos, Body(v)) && IsNext(c, pos + |Body(v)|, RRangeEx)
    ensures ValueStatement(c, Some(FormatOf(v)), pos) == Success(Parsed(v, pos + |Body(v)|))
    decreases v, 3, 0
  {
    if !v.Arr? {
      ParseScalar(c, v, pos);
    } else if IsList(v.entries) {
      assert FormatOf(v) == ArrayFormat && Body(v) == ListFrom(v, 0);
      ParseListBody(c, v, pos);
    } else {
      assert FormatOf(v) == TableFormat && Body(v) == TableFrom(v, 0);
      ParseTableBody(c, v, pos);
    }
  }

  lemma {:induction false} ParseListBody(c: Ctx, v: Value, pos: nat)
    requires Emittable(v) && v.Arr? && IsList(v.entries)
    requires Occurs(c, pos, ListFrom(v, 0)) && IsNext(c, pos + |ListFrom(v, 0)|, RRangeEx)
    ensures ValueStatement(c, Some(ArrayFormat), pos) == Success(Parsed(v, pos + |ListFrom(v, 0)|))
    decreases v, 2, 0
  {
    ParseList(c, v, 0, pos, pos + |ListFrom(v, 0)|);
    FirstToken(c, pos, ListFrom(v, 0));
    ListDispatch(c, v, pos, pos + |ListFrom(v, 0)|);
  }

  lemma {:induction false} ParseTableBody(c: Ctx, v: Value, pos: nat)
    requires Emittable(v) && v.Arr?
    requires Occurs(c, pos, TableFrom(v, 0)) && IsNext(c, pos + |TableFrom(v, 0)|, RRangeEx)
    ensures ValueStatement(c, Some(TableFormat), pos) == Success(Parsed(v, pos + |TableFrom(v, 0)|))
    decreases v, 2, 0
  {
    ParseTable(c, v, 0, pos, pos + |TableFrom(v, 0)|);
    TableDispatch(c, v, pos, pos + |TableFrom(v, 0)|);
  }

  /** An emitted member, read by memberStatement, gives back its value. */
  lemma {:induction false} MemberParts(c: Ctx, u: Value, pos: nat, q: nat)
    requires Emittable(u) && Occurs(c, pos, Member(u)) && q == pos + |Member(u)|
    ensures MemberStatement(c, pos) == Success(Parsed(u, q))
    decreases u, 4, 0
  {
    var b := MemberPieces(c, u, pos);
    MemberStep(c, FormatOf(u), u, pos, b, q);
  }

  /** The pieces of an emitted member each read back: its format, its braces and its body. */
  lemma {:induction false} MemberPieces(c: Ctx, u: Value, pos: nat) returns (b: nat)
    requires Emittable(u) && Occurs(c, pos, Member(u))
    ensures pos + |Member(u)| == b + 1 <= |c.toks|
    ensures FormatStatement(c, pos) == Success(Parsed(Some(FormatOf(u)), pos + 2))
    ensures IsNext(c, pos + 2, LRangeEx) && IsNext(c, b, RRangeEx)
    ensures ValueStatement(c, Some(FormatOf(u)), pos + 3) == Success(Parsed(u, b))
    decreases u, 3, 1
  {
    b := pos + 3 + |Body(u)|;
    MemberAt(c, u, pos);
    FormatAt(c, u, pos);
    ParseBody(c, u, pos + 3);
  }

  /** `:format { value }` when each part reads as expected. */
  lemma MemberStep(c: Ctx, f: Format, u: Value, pos: nat, b: nat, q: nat)
    requires pos <= |c.toks| && q == b + 1
    requires FormatStatement(c, pos) == Success(Parsed(Some(f), pos + 2))
    requires IsNext(c, pos + 2, LRangeEx)
    requires ValueStatement(c, Some(f), pos + 3) == Success(Parsed(u, b))
    requires IsNext(c, b, RRangeEx)
    ensures MemberStatement(c, pos) == Success(Parsed(u, q))
  {
    BodyStep(c, f, u, pos + 3, b, q);
  }

  /** A value read under its format and closed by `}` is a member body. */
  lemma BodyStep(c: Ctx, f: Format, u: Value, pos: nat, b: nat, q: nat)
    requires pos <= |c.toks| && q == b + 1
    requires ValueStatement(c, Some(f), pos) == Success(Parsed(u, b))
    requires IsNext(c, b, RRangeEx)
    ensures MemberBody(c, Some(f), pos) == Success(Parsed(u, q))
  {
  }


  /** One pass of arrayValueStatement's loop appends member `k`. */
  lemma ListStep(c: Ctx, es: seq<Entry>, k: nat, pos: nat, q: nat)
    requires k < |es| && pos <= |c.toks|
    requires MemberStatement(c, pos) == Success(Parsed(es[k].value, q))
    ensures IsNext(c, q, RRangeEx) && k + 1 == |es| ==>
      ArrayMembers(c, pos, ValuesOf(es[..k])) == Success(Parsed(ValuesOf(es), q))
    ensures !IsNext(c, q, RRangeEx) ==>
      ArrayMembers(c, pos, ValuesOf(es[..k])) == ArrayMembers(c, q, ValuesOf(es[..k + 1]))
  {
    ValuesOfPrefix(es, k);
    assert k + 1 == |es| ==> es[..k + 1] == es;
  }

  /** Where list member `k` and the members after it sit, and whether the loop stops after it. */
  lemma ListTokens(c: Ctx, v: Value, k: nat, pos: nat, q: nat)
    requires v.Arr? && k < |v.entries|
    requires Occurs(c, pos, ListFrom(v, k)) && q == pos + |Member(v.entries[k].value)|
    ensures Occurs(c, pos, Member(v.entries[k].value))
    ensures Occurs(c, q, ListFrom(v, k + 1))
    ensures pos + |ListFrom(v, k)| == q + |ListFrom(v, k + 1)|
    ensures k + 1 < |v.entries| ==> IsNext(c, q, Colon)
    ensures k + 1 == |v.entries| ==> ListFrom(v, k + 1) == []
  {
    OccursSplit(c, pos, Member(v.entries[k].value), ListFrom(v, k + 1));
    if k + 1 < |v.entries| {
      var u' := v.entries[k + 1].value;
      assert ListFrom(v, k + 1) == Member(u') + ListFrom(v, k + 2);
      assert ListFrom(v, k + 1)[0] == Member(u')[0] == ColonToken;
      FirstToken(c, q, ListFrom(v, k + 1));
    }
  }

  /** One pass of arrayValueStatement's loop over list member `k`, located in the emitted tokens. */
  lemma ListOne(c: Ctx, v: Value, k: nat, pos: nat, e: nat) returns (q: nat)
    requires v.Arr? && Emittable(v) && k < |v.entries|
    requires Occurs(c, pos, ListFrom(v, k)) && e == pos + |ListFrom(v, k)| && IsNext(c, e, RRangeEx)
    ensures Occurs(c, q, ListFrom(v, k + 1)) && e == q + |ListFrom(v, k + 1)|
    ensures k + 1 == |v.entries| ==>
      ArrayMembers(c, pos, ValuesOf(v.entries[..k])) == Success(Parsed(ValuesOf(v.entries), e))
    ensures k + 1 < |v.entries| ==>
      ArrayMembers(c, pos, ValuesOf(v.entries[..k])) == ArrayMembers(c, q, ValuesOf(v.entries[..k + 1]))
    decreases v, 0, 0
  {
    var u := v.entries[k].value;
    q := pos + |Member(u)|;
    ListTokens(c, v, k, pos, q);
    EntryEmittable(v, k);
    MemberParts(c, u, pos, q);
    ListStep(c, v.entries, k, pos, q);
    assert k + 1 == |v.entries| ==> q == e;
  }

  /** The members of a list from index `k` on, followed by `}` at `e`, are read by arrayValueStatement's loop. */
  lemma {:induction false} ParseList(c: Ctx, v: Value, k: nat, pos: nat, e: nat)
    requires v.Arr? && Emittable(v) && k < |v.entries|
    requires Occurs(c, pos, ListFrom(v, k)) && e == pos + |ListFrom(v, k)| && IsNext(c, e, RRangeEx)
    ensures ArrayMembers(c, pos, ValuesOf(v.entries[..k])) == Success(Parsed(ValuesOf(v.entries), e))
    decreases v, 1, |v.entries| - k
  {
    var q := ListOne(c, v, k, pos, e);
    if k + 1 < |v.entries| {
      ParseList(c, v, k + 1, q, e);
    }
  }

  /** One pass of tableValueStatement's loop adds entry `k` under a name the entries before it do not have. */
  lemma TableStep(c: Ctx, es: seq<Entry>, k: nat, pos: nat, q: nat)
    requires KeysDistinct(es) && k < |es|
    requires pos < |c.toks| && IsNext(c, pos, Term) && c.toks[pos].value == es[k].key
    requires MemberStatement(c, pos + 1) == Success(Parsed(es[k].value, q))
    ensures KeysDistinct(es[..k]) && KeysDistinct(es[..k + 1])
    ensures IsNext(c, q, RRangeEx) && k + 1 == |es| ==> TableEntries(c, pos, es[..k]) == Success(Parsed(es, q))
    ensures !IsNext(c, q, RRangeEx) ==> TableEntries(c, pos, es[..k]) == TableEntries(c, q, es[..k + 1])
  {
    PrefixKeys(es, k);
    assert NameStatement(c, pos, true) == Success(Parsed(Some(es[k].key), pos + 1));
    assert Insert(es[..k], es[k].key, es[k].value) == es[..k + 1];
    assert k + 1 == |es| ==> es[..k + 1] == es;
  }

  /** Where table entry `k` and the entries after it sit, and whether the loop stops after it. */
  lemma TableTokens(c: Ctx, v: Value, k: nat, pos: nat, q: nat)
    requires v.Arr? && k < |v.entries|
    requires Occurs(c, pos, TableFrom(v, k)) && q == pos + 1 + |Member(v.entries[k].value)|
    ensures IsNext(c, pos, Term) && c.toks[pos].value == v.entries[k].key
    ensures Occurs(c, pos + 1, Member(v.entries[k].value))
    ensures Occurs(c, q, TableFrom(v, k + 1))
    ensures pos + |TableFrom(v, k)| == q + |TableFrom(v, k + 1)|
    ensures k + 1 < |v.entries| ==> IsNext(c, q, Term)
    ensures k + 1 == |v.entries| ==> TableFrom(v, k + 1) == []
  {
    var e := v.entries[k];
    OccursSplit(c, pos, [Token(Term, e.key, 1)], Member(e.value) + TableFrom(v, k + 1));
    FirstToken(c, pos, [Token(Term, e.key, 1)]);
    OccursSplit(c, pos + 1, Member(e.value), TableFrom(v, k + 1));
    if k + 1 < |v.entries| {
      FirstToken(c, q, TableFrom(v, k + 1));
    }
  }

  /** One pass of tableValueStatement's loop over table entry `k`, located in the emitted tokens. */
  lemma TableOne(c: Ctx, v: Value, k: nat, pos: nat, e: nat) returns (q: nat)
    requires v.Arr? && Emittable(v) && k < |v.entries|
    requires Occurs(c, pos, TableFrom(v, k)) && e == pos + |TableFrom(v, k)| && IsNext(c, e, RRangeEx)
    ensures Occurs(c, q, TableFrom(v, k + 1)) && e == q + |TableFrom(v, k + 1)|
    ensures KeysDistinct(v.entries[..k]) && KeysDistinct(v.entries[..k + 1])
    ensures k + 1 == |v.entries| ==> TableEntries(c, pos, v.entries[..k]) == Success(Parsed(v.entries, e))
    ensures k + 1 < |v.entries| ==>
      TableEntries(c, pos, v.entries[..k]) == TableEntries(c, q, v.entries[..k + 1])
    decreases v, 0, 0
  {
    var en := v.entries[k];
    q := pos + 1 + |Member(en.value)|;
    TableTokens(c, v, k, pos, q);
    EntryEmittable(v, k);
    MemberParts(c, en.value, pos + 1, q);
    TableStep(c, v.entries, k, pos, q);
    assert k + 1 == |v.entries| ==> q == e;
  }

  /** The entries of a table from index `k` on, followed by `}` at `e`, are read by tableValueStatement's loop. */
  lemma {:induction false} ParseTable(c: Ctx, v: Value, k: nat, pos: nat, e: nat)
    requires v.Arr? && Emittable(v) && k < |v.entries|
    requires Occurs(c, pos, TableFrom(v, k)) && e == pos + |TableFrom(v, k)| && IsNext(c, e, RRangeEx)
    ensures KeysDistinct(v.entries[..k])
    ensures TableEntries(c, pos, v.entries[..k]) == Success(Parsed(v.entries, e))
    decreases v, 1, |v.entries| - k
  {
    var q := TableOne(c, v, k, pos, e);
    if k + 1 < |v.entries| {
      ParseTable(c, v, k + 1, q, e);
    }
  }

  /** startStatement around a table body that tableValueStatement has read. */
  lemma StartAround(c: Ctx, name: string, es: seq<Entry>, e: nat)
    requires 2 <= e && |c.toks| == e + 1
    requires IsNext(c, 0, Term) && c.toks[0].value == name && IsNext(c, 1, LRangeEx)
    requires TableEntries(c, 2, []) == Success(Parsed(es, e))
    requires IsNext(c, e, RRangeEx)
    ensures StartStatement(c) == Success([Entry(name, Arr(es))])
  {
    assert NameStatement(c, 0, false) == Success(Parsed(Some(name), 1));
    assert FormatStatement(c, 1) == Success(Parsed(None, 1));
    assert Match(c, 1, LRangeEx) == Success(2);
    assert TableValue(c, 2) == Success(Parsed(es, e));
    assert Match(c, e, RRangeEx) == Success(e + 1);
    assert MatchEof(c, e + 1) == Success(e + 2);
    assert RootTable(c, 1) == Success(es);
  }

  /** Where the parts of an emitted file sit. */
  lemma EmitTokens(c: Ctx, name: string, es: seq<Entry>, e: nat)
    requires c.toks == Emit(name, es) && e == 2 + |TableFrom(Arr(es), 0)|
    ensures |c.toks| == e + 1
    ensures IsNext(c, 0, Term) && c.toks[0].value == name && IsNext(c, 1, LRangeEx)
    ensures Occurs(c, 2, TableFrom(Arr(es), 0)) && IsNext(c, e, RRangeEx)
  {
    var v := Arr(es);
    var head := [Token(Term, name, 1), OpenToken];
    assert Occurs(c, 0, head + (TableFrom(v, 0) + [CloseToken]));
    OccursSplit(c, 0, head, TableFrom(v, 0) + [CloseToken]);
    OccursSplit(c, 2, TableFrom(v, 0), [CloseToken]);
    FirstToken(c, e, [CloseToken]);
    assert c.toks[0 + 0] == head[0];
    assert c.toks[0 + 1] == head[1];
  }

  /**
   Parsing what Emit writes gives back the one-entry array it was written
   from: startStatement is a left inverse of the emitter on every value a
   resource file can express.
   */
  lemma RoundTrip(c: Ctx, name: string, es: seq<Entry>)
    requires c.toks == Emit(name, es)
    requires ValidName(name) && Emittable(Arr(es))
    ensures StartStatement(c) == Success([Entry(name, Arr(es))])
  {
    var e := 2 + |TableFrom(Arr(es), 0)|;
    EmitTokens(c, name, es, e);
    assert es[..0] == [];
    ParseTable(c, Arr(es), 0, 2, e);
    StartAround(c, name, es, e);
  }

  // Comma lists: the format-free `{ "a", 10 }`, the scalar branch of
  // `:array`, and `:intvector`.

  const CommaToken := Token(Comma, ",", 1)

  /** A value a comma list can hold: a string, or an int that fits. */
  predicate ListScalar(v: Value) {
    v.Str? || (v.Num? && v.n <= PhpIntMax)
  }

  /** The single token a list item is written as (only a string or an int is ever written). */
  function ItemToken(v: Value): Token {
    match v
    case Num(n) => Token(Int, Decimal(n), 1)
    case Str(s) => Token(Quoted, Quote(s), 1)
    case _ => Token(Quoted, Quote(""), 1)
  }

  /** `, item` for each item from index `k` on. */
  function CommaTail(items: seq<Value>, k: nat): seq<Token>
    requires k <= |items|
    decreases |items| - k
  {
    if k == |items| then [] else [CommaToken, ItemToken(items[k])] + CommaTail(items, k + 1)
  }

  /** `item0, item1, ...`: a non-empty comma list. */
  function CommaList(items: seq<Value>): seq<Token>
    requires items != []
  {
    [ItemToken(items[0])] + CommaTail(items, 1)
  }

  /** An item's token, not followed by another QUOTED token, reads back as the item. */
  lemma ReadItem(c: Ctx, v: Value, pos: nat)
    requires ListScalar(v) && pos + 1 < |c.toks| && c.toks[pos] == ItemToken(v)
    requires !IsNext(c, pos + 1, Quoted)
    ensures ScalarValue(c, pos) == Success(Parsed(v, pos + 1))
  {
    if v.Str? {
      UnquoteQuoted(v.s);
      assert ReadSeparated(c, pos + 1) == Parsed("", pos + 1);
      assert ReadSeparated(c, pos) == Parsed(v.s + "", pos + 1);
      assert v.s + "" == v.s;
    }
  }
  /** An int item's token reads back as the item under intValueStatement too. */
  lemma ReadInt(c: Ctx, v: Value, pos: nat)
    requires v.Num? && v.n <= PhpIntMax && pos < |c.toks| && c.toks[pos] == ItemToken(v)
    ensures IntValue(c, pos) == Success(Parsed(v, pos + 1))
  {
  }


  /** Where the first comma and item of a tail sit, and what follows them. */
  lemma CommaTailTokens(c: Ctx, items: seq<Value>, k: nat, pos: nat, e: nat)
    requires k < |items|
    requires Occurs(c, pos, CommaTail(items, k)) && e == pos + |CommaTail(items, k)| && IsNext(c, e, RRangeEx)
    ensures IsNext(c, pos, Comma) && c.toks[pos + 1] == ItemToken(items[k])
    ensures Occurs(c, pos + 2, CommaTail(items, k + 1)) && e == pos + 2 + |CommaTail(items, k + 1)|
    ensures !IsNext(c, pos + 2, Quoted)
  {
    var head := [CommaToken, ItemToken(items[k])];
    OccursSplit(c, pos, head, CommaTail(items, k + 1));
    assert c.toks[pos + 0] == head[0];
    assert c.toks[pos + 1] == head[1];
    if k + 1 < |items| {
      FirstToken(c, pos + 2, CommaTail(items, k + 1));
    }
  }

  /**
   The tokens from `pos` on are `, item` for each of `rest`, the last ending
   at `e`; every item is a list scalar, and an int when `ints` is set.
   */
  predicate TailAt(c: Ctx, pos: nat, rest: seq<Value>, e: nat, ints: bool)
    decreases |rest|
  {
    if rest == [] then e == pos
    else
      && ListScalar(rest[0]) && (ints ==> rest[0].Num?)
      && pos + 2 < |c.toks| && IsNext(c, pos, Comma) && c.toks[pos + 1] == ItemToken(rest[0])
      && !IsNext(c, pos + 2, Quoted) && TailAt(c, pos + 2, rest[1..], e, ints)
  }

  /** An emitted comma tail, followed by `}`, is laid out as TailAt says. */
  lemma {:induction false} TailAtTokens(c: Ctx, items: seq<Value>, k: nat, pos: nat, e: nat, ints: bool)
    requires k <= |items| && forall i :: 0 <= i < |items| ==> ListScalar(items[i]) && (ints ==> items[i].Num?)
    requires Occurs(c, pos, CommaTail(items, k)) && e == pos + |CommaTail(items, k)| && IsNext(c, e, RRangeEx)
    ensures TailAt(c, pos, items[k..], e, ints)
    decreases |items| - k
  {
    if k < |items| {
      CommaTailTokens(c, items, k, pos, e);
      TailAtTokens(c, items, k + 1, pos + 2, e, ints);
      assert items[k..][0] == items[k] && items[k..][1..] == items[k + 1..];
    }
  }

  /** The comma loop of a scalar list reads an emitted tail back: each comma adds its item. */
  lemma {:induction false} ReadCommaTail(c: Ctx, acc: seq<Value>, rest: seq<Value>, pos: nat, e: nat)
    requires TailAt(c, pos, rest, e, false) && IsNext(c, e, RRangeEx)
    ensures ScalarTail(c, pos, acc) == Success(Parsed(acc + rest, e))
    decreases |rest|
  {
    if rest == [] {
      ReadCommaTailEnd(c, acc, rest, pos, e);
    } else {
      ReadCommaTail(c, acc + [rest[0]], rest[1..], pos + 2, e);
      ReadCommaTailStep(c, acc, rest, pos, e);
    }
  }

  /** The loop stops at the `}` after the last item. */
  lemma ReadCommaTailEnd(c: Ctx, acc: seq<Value>, rest: seq<Value>, pos: nat, e: nat)
    requires rest == [] && TailAt(c, pos, rest, e, false) && IsNext(c, e, RRangeEx)
    ensures ScalarTail(c, pos, acc) == Success(Parsed(acc + rest, e))
  {
    assert acc + rest == acc;
  }

  /** One more `, item` in front of a tail the loop reads back. */
  lemma ReadCommaTailStep(c: Ctx, acc: seq<Value>, rest: seq<Value>, pos: nat, e: nat)
    requires rest != [] && TailAt(c, pos, rest, e, false)
    requires ScalarTail(c, pos + 2, acc + [rest[0]]) == Success(Parsed(acc + [rest[0]] + rest[1..], e))
    ensures ScalarTail(c, pos, acc) == Success(Parsed(acc + rest, e))
  {
    ScalarItemStep(c, pos, acc, rest[0]);
    MoveFirst(acc, rest);
  }

  /** The comma loop of an intvector reads an emitted tail of ints back. */
  lemma {:induction false} ReadIntTail(c: Ctx, acc: seq<Value>, rest: seq<Value>, pos: nat, e: nat)
    requires TailAt(c, pos, rest, e, true) && IsNext(c, e, RRangeEx)
    ensures IntTail(c, pos, acc) == Success(Parsed(acc + rest, e))
    decreases |rest|
  {
    if rest == [] {
      ReadIntTailEnd(c, acc, rest, pos, e);
    } else {
      ReadIntTail(c, acc + [rest[0]], rest[1..], pos + 2, e);
      ReadIntTailStep(c, acc, rest, pos, e);
    }
  }

  /** The loop stops at the `}` after the last item. */
  lemma ReadIntTailEnd(c: Ctx, acc: seq<Value>, rest: seq<Value>, pos: nat, e: nat)
    requires rest == [] && TailAt(c, pos, rest, e, true) && IsNext(c, e, RRangeEx)
    ensures IntTail(c, pos, acc) == Success(Parsed(acc + rest, e))
  {
    assert acc + rest == acc;
  }

  /** One more `, item` in front of a tail the loop reads back. */
  lemma ReadIntTailStep(c: Ctx, acc: seq<Value>, rest: seq<Value>, pos: nat, e: nat)
    requires rest != [] && TailAt(c, pos, rest, e, true)
    requires IntTail(c, pos + 2, acc + [rest[0]]) == Success(Parsed(acc + [rest[0]] + rest[1..], e))
    ensures IntTail(c, pos, acc) == Success(Parsed(acc + rest, e))
  {
    IntItemStep(c, pos, acc, rest[0]);
    MoveFirst(acc, rest);
  }

  /** Moving the first of `rest` onto the end of `acc` keeps their concatenation. */
  lemma MoveFirst(acc: seq<Value>, rest: seq<Value>)
    requires rest != []
    ensures (acc + [rest[0]]) + rest[1..] == acc + rest
  {
    assert rest == [rest[0]] + rest[1..];
  }

  /** An emitted `, item` is one pass of the scalar comma loop. */
  lemma ScalarItemStep(c: Ctx, pos: nat, acc: seq<Value>, v: Value)
    requires ListScalar(v) && pos + 2 < |c.toks| && IsNext(c, pos, Comma) && c.toks[pos + 1] == ItemToken(v)
    requires !IsNext(c, pos + 2, Quoted)
    ensures ScalarTail(c, pos, acc) == ScalarTail(c, pos + 2, acc + [v])
  {
    ReadItem(c, v, pos + 1);
    ScalarStep(c, pos, acc, v);
  }

  /** An emitted `, int` is one pass of the intvector comma loop. */
  lemma IntItemStep(c: Ctx, pos: nat, acc: seq<Value>, v: Value)
    requires ListScalar(v) && v.Num? && pos + 2 < |c.toks| && IsNext(c, pos, Comma) && c.toks[pos + 1] == ItemToken(v)
    ensures IntTail(c, pos, acc) == IntTail(c, pos + 2, acc + [v])
  {
    ReadInt(c, v, pos + 1);
    IntStep(c, pos, acc, v);
  }

  /** One pass of the scalar comma loop: the comma and the item after it are consumed, and the item appended. */
  lemma ScalarStep(c: Ctx, pos: nat, acc: seq<Value>, v: Value)
    requires pos + 2 <= |c.toks| && IsNext(c, pos, Comma)
    requires ScalarValue(c, pos + 1) == Success(Parsed(v, pos + 2))
    ensures ScalarTail(c, pos, acc) == ScalarTail(c, pos + 2, acc + [v])
  {
  }

  /** One pass of the intvector comma loop. */
  lemma IntStep(c: Ctx, pos: nat, acc: seq<Value>, v: Value)
    requires pos + 2 <= |c.toks| && IsNext(c, pos, Comma)
    requires IntValue(c, pos + 1) == Success(Parsed(v, pos + 2))
    ensures IntTail(c, pos, acc) == IntTail(c, pos + 2, acc + [v])
  {
  }

  /** Where the first item of a comma list sits, and what follows it. */
  lemma CommaListTokens(c: Ctx, items: seq<Value>, pos: nat, e: nat)
    requires items != []
    requires Occurs(c, pos, CommaList(items)) && e == pos + |CommaList(items)| && IsNext(c, e, RRangeEx)
    ensures c.toks[pos] == ItemToken(items[0]) && pos + 1 < |c.toks| && !IsNext(c, pos + 1, Quoted)
    ensures Occurs(c, pos + 1, CommaTail(items, 1)) && e == pos + 1 + |CommaTail(items, 1)|
    ensures |items| >= 2 ==> IsNext(c, pos + 1, Comma)
    ensures |items| == 1 ==> e == pos + 1
  {
    var t := CommaTail(items, 1);
    OccursSplit(c, pos, [ItemToken(items[0])], t);
    FirstToken(c, pos, [ItemToken(items[0])]);
    if |items| >= 2 {
      assert t == [CommaToken, ItemToken(items[1])] + CommaTail(items, 2);
      FirstToken(c, pos + 1, t);
    }
  }

  /** The scalar-list productions read an emitted comma list back, followed by `}`. */
  lemma ReadCommaList(c: Ctx, items: seq<Value>, pos: nat, e: nat)
    requires items != [] && forall i :: 0 <= i < |items| ==> ListScalar(items[i])
    requires Occurs(c, pos, CommaList(items)) && e == pos + |CommaList(items)| && IsNext(c, e, RRangeEx)
    ensures ScalarValue(c, pos) == Success(Parsed(items[0], pos + 1))
    ensures ScalarList(c, pos) == Success(Parsed(ListOf(items), e))
  {
    ListLayout(c, items, pos, e, false);
    ReadScalarList(c, pos, items[0], items[1..], e);
  }

  /** An emitted first scalar and an emitted tail read back as the list of both. */
  lemma ReadScalarList(c: Ctx, pos: nat, v: Value, rest: seq<Value>, e: nat)
    requires ListScalar(v) && pos + 1 < |c.toks| && c.toks[pos] == ItemToken(v) && !IsNext(c, pos + 1, Quoted)
    requires TailAt(c, pos + 1, rest, e, false) && IsNext(c, e, RRangeEx)
    ensures ScalarValue(c, pos) == Success(Parsed(v, pos + 1))
    ensures ScalarList(c, pos) == Success(Parsed(ListOf([v] + rest), e))
  {
    ReadItem(c, v, pos);
    ReadCommaTail(c, [v], rest, pos + 1, e);
    ScalarListOf(c, pos, v, rest, e);
  }

  /** intVectorValueStatement reads an emitted comma list of ints back, followed by `}`. */
  lemma ReadIntVector(c: Ctx, items: seq<Value>, pos: nat, e: nat)
    requires items != [] && forall i :: 0 <= i < |items| ==> items[i].Num? && items[i].n <= PhpIntMax
    requires Occurs(c, pos, CommaList(items)) && e == pos + |CommaList(items)| && IsNext(c, e, RRangeEx)
    ensures IntVectorValue(c, pos) == Success(Parsed(Arr(ListOf(items)), e))
  {
    ListLayout(c, items, pos, e, true);
    ReadIntList(c, pos, items[0], items[1..], e);
  }

  /** An emitted first int and an emitted tail of ints read back as the list of both. */
  lemma ReadIntList(c: Ctx, pos: nat, v: Value, rest: seq<Value>, e: nat)
    requires ListScalar(v) && v.Num? && pos + 1 < |c.toks| && c.toks[pos] == ItemToken(v)
    requires TailAt(c, pos + 1, rest, e, true) && IsNext(c, e, RRangeEx)
    ensures IntVectorValue(c, pos) == Success(Parsed(Arr(ListOf([v] + rest)), e))
  {
    ReadInt(c, v, pos);
    ReadIntTail(c, [v], rest, pos + 1, e);
    IntVectorOf(c, pos, v, rest, e);
  }

  /** An emitted comma list is its first item's token, then a tail laid out as TailAt says. */
  lemma ListLayout(c: Ctx, items: seq<Value>, pos: nat, e: nat, ints: bool)
    requires items != [] && forall i :: 0 <= i < |items| ==> ListScalar(items[i]) && (ints ==> items[i].Num?)
    requires Occurs(c, pos, CommaList(items)) && e == pos + |CommaList(items)| && IsNext(c, e, RRangeEx)
    ensures ListScalar(items[0]) && (ints ==> items[0].Num?)
    ensures c.toks[pos] == ItemToken(items[0]) && pos + 1 < |c.toks| && !IsNext(c, pos + 1, Quoted)
    ensures TailAt(c, pos + 1, items[1..], e, ints)
    ensures [items[0]] + items[1..] == items
  {
    CommaListTokens(c, items, pos, e);
    TailAtTokens(c, items, 1, pos + 1, e, ints);
  }

  /** scalarListStatement is its first scalar, then its comma loop. */
  lemma ScalarListOf(c: Ctx, pos: nat, v: Value, rest: seq<Value>, e: nat)
    requires pos <= |c.toks| && ScalarValue(c, pos) == Success(Parsed(v, pos + 1))
    requires pos + 1 <= |c.toks| && ScalarTail(c, pos + 1, [v]) == Success(Parsed([v] + rest, e))
    ensures ScalarList(c, pos) == Success(Parsed(ListOf([v] + rest), e))
  {
  }

  /** intVectorValueStatement is its first int, then its comma loop, then `}`. */
  lemma IntVectorOf(c: Ctx, pos: nat, v: Value, rest: seq<Value>, e: nat)
    requires pos <= |c.toks| && IntValue(c, pos) == Success(Parsed(v, pos + 1))
    requires pos + 1 <= |c.toks| && IntTail(c, pos + 1, [v]) == Success(Parsed([v] + rest, e))
    requires IsNext(c, e, RRangeEx)
    ensures IntVectorValue(c, pos) == Success(Parsed(Arr(ListOf([v] + rest)), e))
  {
    var first := IntValue(c, pos).value;
    var ints := IntTail(c, first.next, [first.value]).value;
    assert ints == Parsed([v] + rest, e);
  }

  /** `:array` reads an emitted comma list back as the list of its items. */
  lemma CommaListRoundTrip(c: Ctx, items: seq<Value>, pos: nat)
    requires items != [] && forall i :: 0 <= i < |items| ==> ListScalar(items[i])
    requires Occurs(c, pos, CommaList(items)) && IsNext(c, pos + |CommaList(items)|, RRangeEx)
    ensures ValueStatement(c, Some(ArrayFormat), pos) == Success(Parsed(Arr(ListOf(items)), pos + |CommaList(items)|))
  {
    var e := pos + |CommaList(items)|;
    CommaListTokens(c, items, pos, e);
    ReadCommaList(c, items, pos, e);
    ArrayDispatch(c, pos, Parsed(ListOf(items), e));
  }

  /** `:intvector` reads an emitted comma list of ints back as the list of its items. */
  lemma IntVectorRoundTrip(c: Ctx, items: seq<Value>, pos: nat)
    requires items != [] && forall i :: 0 <= i < |items| ==> items[i].Num? && items[i].n <= PhpIntMax
    requires Occurs(c, pos, CommaList(items)) && IsNext(c, pos + |CommaList(items)|, RRangeEx)
    ensures ValueStatement(c, Some(IntVectorFormat), pos) == Success(Parsed(Arr(ListOf(items)), pos + |CommaList(items)|))
  {
    var e := pos + |CommaList(items)|;
    ReadIntVector(c, items, pos, e);
    IntVectorDispatch(c, pos, Parsed(Arr(ListOf(items)), e));
  }

  /** `:intvector` hands its value over to intVectorValueStatement unchanged. */
  lemma IntVectorDispatch(c: Ctx, pos: nat, v: Parsed<Value>)
    requires pos <= |c.toks| && IntVectorValue(c, pos) == Success(v)
    ensures ValueStatement(c, Some(IntVectorFormat), pos) == Success(v)
  {
  }

  /** `:array` before a list that is not explicit members is the scalar list. */
  lemma ArrayDispatch(c: Ctx, pos: nat, a: Parsed<seq<Entry>>)
    requires pos <= |c.toks| && !IsNext(c, pos, Colon) && !IsNext(c, pos, LRangeEx)
    requires ScalarList(c, pos) == Success(a)
    ensures ArrayValue(c, pos) == Success(a)
    ensures ValueStatement(c, Some(ArrayFormat), pos) == Success(Parsed(Arr(a.value), a.next))
  {
  }

  /**
   Without a format the lookahead decides: an emitted comma list of two or
   more items reads back as the list of its items, and a lone scalar as
   itself.
   */
  lemma BareCommaListRoundTrip(c: Ctx, items: seq<Value>, pos: nat)
    requires items != [] && forall i :: 0 <= i < |items| ==> ListScalar(items[i])
    requires Occurs(c, pos, CommaList(items)) && IsNext(c, pos + |CommaList(items)|, RRangeEx)
    ensures |items| >= 2 ==>
      ValueStatement(c, None, pos) == Success(Parsed(Arr(ListOf(items)), pos + |CommaList(items)|))
    ensures |items| == 1 ==> ValueStatement(c, None, pos) == Success(Parsed(items[0], pos + |CommaList(items)|))
  {
    var e := pos + |CommaList(items)|;
    CommaListTokens(c, items, pos, e);
    ReadCommaList(c, items, pos, e);
    ArrayDispatch(c, pos, Parsed(ListOf(items), e));
    if |items| == 1 {
      assert CommaTail(items, 1) == [];
    }
  }
}
