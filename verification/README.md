# ICU resource bundles in Dafny

A model of the PHP library `Adoy\ICU\ResourceBundle`. The library reads
ICU resource text files (`root { greeting { "Hello" } }`) and answers
lookups against them along a locale fallback chain. The model has the
same three parts as the library.

- **Lexer** (`lexer.dfy`). The nine token patterns are tried in priority
  order at each offset. Blanks and `//` comments are skipped. The offset
  and the line counter advance as the lexer reads. The two-slot
  `token`/`lookAhead` buffer of `reset()`/`yylex()` is modelled too, and
  so is `getLiteral()` over the class constants.
- **Parser** (`parser.dfy`). A recursive-descent reader from the token
  stream to a value tree. It covers the table, array, string, int,
  intvector, bin, import and alias productions, the `:format`
  dispatch, the format-free inference from the lookahead, and every
  parse error.
- **Resolver** (`bundle.dfy`). `get()`, `exists()` and `getIterator()`
  read a store of parsed locale files that grows on demand. They walk
  the chain `fr_CA -> fr -> root`. An array comes back as a sub-bundle
  whose fallback is off, and alias references (`resource_alias.dfy`) are
  walked from the whole store.

PHP arrays are ordered sequences of entries with distinct keys
(`values.dfy`). `$a[$k] = $v` is `Insert`, `+=` is the left-biased
`Union`, and `isset($a[$k])` is `Find`. `base.dfy` holds the shared
vocabulary: `Option`, `Result`, the error taxonomy, PHP truthiness,
line-feed counting and the `(int)` cast.

Three other pieces tie the parts together:

- `Lexer.BufferIsWindow` and `Parser.LookaheadAgrees` show that the
  parser's view of the token sequence agrees with the lexer object's
  buffer.
- `emitter.dfy` writes a value tree back out as tokens. `Emitter.RoundTrip`
  proves that the parser reads back exactly the tree that was written.
- `ResourceBundle.LocateOnLoaded`, `GetOnLoaded` and `IterateOnLoaded`
  compare the resolver's loop with a plain reference definition: the
  first locale on the chain that holds the key.

The resolver threads the store through every call, in place of the PHP
object's shared `$root` reference. Each operation returns the store it
leaves behind, and each contract says that the store only grows and that
entries already there keep their values.

Where the code and the library's prose description differ, the model
follows the code:

- `startStatement` calls `nameStatement()` without `mandatory`, so a file
  without a root name parses, and its table is stored under the key `""`.
- `getParent()` returns `"root"` for any locale with no truthy prefix
  before its last `_`. That covers locales with no `_` at all, and
  locales such as `_x` or `0_x`.
- The alias walk stops at the first segment that PHP treats as false,
  `""` or `"0"`. From there the walk returns the node reached so far.

## Model

| member | source | states |
|---|---|---|
| Base.IntCast | lib/Adoy/ICU/ResourceBundle/Parser.php:249 | `(int)` of a digit run is its decimal value, saturated at PHP_INT_MAX when it does not fit |
| Lexer.QuotedEnd | lib/Adoy/ICU/ResourceBundle/Lexer.php:38 | a quoted run ends just after a closing `"` inside the input, or is not a match |
| Lexer.MatchPattern | lib/Adoy/ICU/ResourceBundle/Lexer.php:30-40 | every pattern match consumes at least one character and stays inside the input |
| Lexer.RunLength | lib/Adoy/ICU/ResourceBundle/Lexer.php:31-39 | a `cls+` pattern matches exactly when the first character is in the class, and takes the maximal run |
| Lexer.FirstMatch | lib/Adoy/ICU/ResourceBundle/Lexer.php:165-171 | the alternation reports a pattern that really matches here, with its length |
| Lexer.FirstMatchIsFirst | lib/Adoy/ICU/ResourceBundle/Lexer.php:165-171 | every pattern before the chosen one fails; the alternation fails exactly when every pattern fails |
| Lexer.NextToken | lib/Adoy/ICU/ResourceBundle/Lexer.php:162-184 | the offset never moves back or past the input; no token is returned only at end of input |
| Lexer.NextTokenLine | lib/Adoy/ICU/ResourceBundle/Lexer.php:172-173 | the line counter grows by exactly the line feeds consumed, skipped text included |
| Lexer.TokenIsConsumedSlice | lib/Adoy/ICU/ResourceBundle/Lexer.php:171-180 | a returned token's text is the slice just consumed, shaped as its class demands (quotes and backslashes kept), with the line after that slice |
| Lexer.Tokenize | lib/Adoy/ICU/ResourceBundle/Lexer.php:162-184 | every token of the stream is well formed for its class |
| Lexer.EveryOffsetMatches | lib/Adoy/ICU/ResourceBundle/Lexer.php:30-40 | some pattern matches at every offset, since TERM takes whatever the earlier patterns refuse |
| Lexer.NextTokenNeverFails | lib/Adoy/ICU/ResourceBundle/Lexer.php:164-170 | the "Unexpected character" error is unreachable |
| Lexer.TokenizeNeverFails | lib/Adoy/ICU/ResourceBundle/Lexer.php:162-184 | tokenizing succeeds on every input |
| Lexer.DigitsLexAsInt | lib/Adoy/ICU/ResourceBundle/Lexer.php:37-39 | at a digit the INT pattern wins with the whole digit run, never TERM |
| Lexer.SkippedTextAdvancesLine | lib/Adoy/ICU/ResourceBundle/Lexer.php:31-32 | blanks and `//` comments produce no token; the scan restarts after them with their line feeds counted |
| Lexer.LookupConstant | lib/Adoy/ICU/ResourceBundle/Lexer.php:198-204 | the lookup returns a name paired with the code in the table, or the code itself exactly when no constant has it |
| Lexer.GetLiteral | lib/Adoy/ICU/ResourceBundle/Lexer.php:192-205 | a name comes back exactly for the seven token codes 256..262, otherwise the code itself |
| Lexer.LiteralNames | lib/Adoy/ICU/ResourceBundle/Lexer.php:18-24 | each token class's code is reported under its `T_` constant name |
| Lexer.LiteralsDistinct | lib/Adoy/ICU/ResourceBundle/Lexer.php:18-24 | distinct classes have distinct codes and distinct literals |
| Lexer.Reset | lib/Adoy/ICU/ResourceBundle/Lexer.php:125-132 | after reset the current token is null, for the same file and input |
| Lexer.YyLex | lib/Adoy/ICU/ResourceBundle/Lexer.php:140-144 | the lookahead moves into `token`, and the result says whether a token is now current |
| Lexer.IsNextToken | lib/Adoy/ICU/ResourceBundle/Lexer.php:152-154 | false without a lookahead, otherwise a comparison of the lookahead's class only |
| Lexer.BufferIsWindow | lib/Adoy/ICU/ResourceBundle/Lexer.php:125-144 | after reset and n yylex calls, `token` is token n-1 of the stream and `lookAhead` is token n |
| Lexer.EmptyInputHasNoToken | lib/Adoy/ICU/ResourceBundle/Lexer.php:140-144 | on empty input the first yylex after reset returns false |
| Lexer.LineCounts | lib/Adoy/ICU/ResourceBundle/Lexer.php:172-179 | a token's line is 1 plus the line feeds consumed up to and including it |
| Parser.LowerChars | lib/Adoy/ICU/ResourceBundle/Parser.php:301 | lower-casing maps each character on its own (ASCII `A`-`Z` only) |
| Parser.FormatFrom | lib/Adoy/ICU/ResourceBundle/Parser.php:302 | a format found in the whitelist carries the name searched for |
| Parser.FormatFromNone | lib/Adoy/ICU/ResourceBundle/Parser.php:302 | the whitelist search fails exactly when no remaining name matches |
| Parser.ParseFormat | lib/Adoy/ICU/ResourceBundle/Parser.php:301-302 | an accepted keyword's lower-case form is that format's name |
| Parser.ParseFormatNone | lib/Adoy/ICU/ResourceBundle/Parser.php:301-304 | a keyword is rejected exactly when its lower-case form is none of the eight names |
| Parser.FormatNamesRoundTrip | lib/Adoy/ICU/ResourceBundle/Parser.php:301-302 | any spelling whose lower case is a format's name reads back as that format |
| Parser.FormatFromFinds | lib/Adoy/ICU/ResourceBundle/Parser.php:302 | the whitelist search finds each format under its own name |
| Parser.Unquote | lib/Adoy/ICU/ResourceBundle/Parser.php:237 | the first and last characters are dropped; a text shorter than two gives "" |
| Parser.UnquoteQuoted | lib/Adoy/ICU/ResourceBundle/Parser.php:227 | unquoting inverts wrapping in double quotes, so an alias keeps its reference unchanged |
| Parser.Match | lib/Adoy/ICU/ResourceBundle/Parser.php:317-323 | match succeeds exactly when the lookahead has the class, and consumes it; otherwise it is a parse error against the lookahead |
| Parser.MatchEof | lib/Adoy/ICU/ResourceBundle/Parser.php:68 | the final match succeeds exactly when no token is left |
| Parser.NameStatement | lib/Adoy/ICU/ResourceBundle/Parser.php:280-288 | a TERM or INT lookahead is taken as the name; without one it is an error exactly when the name is mandatory |
| Parser.FormatStatement | lib/Adoy/ICU/ResourceBundle/Parser.php:296-310 | without `:` nothing is read; after `:` it succeeds exactly when a TERM naming a known format follows |
| Parser.ReadSeparated | lib/Adoy/ICU/ResourceBundle/Parser.php:232-240 | consumes the whole run of QUOTED tokens and returns their unquoted texts concatenated |
| Parser.StringValue | lib/Adoy/ICU/ResourceBundle/Parser.php:212-218 | succeeds exactly on a QUOTED lookahead, with the concatenated run |
| Parser.IntValue | lib/Adoy/ICU/ResourceBundle/Parser.php:245-252 | succeeds exactly on an INT lookahead, with its `(int)` value |
| Parser.BinValue | lib/Adoy/ICU/ResourceBundle/Parser.php:124-131 | succeeds exactly on a TERM lookahead, with its base64 decoding |
| Parser.ImportValue | lib/Adoy/ICU/ResourceBundle/Parser.php:136-147 | needs a QUOTED lookahead; succeeds exactly when the named file next to the parsed one is readable, with its contents |
| Parser.AliasValue | lib/Adoy/ICU/ResourceBundle/Parser.php:223-230 | succeeds exactly on a QUOTED lookahead, with an alias of its unquoted text |
| Parser.ScalarValue | lib/Adoy/ICU/ResourceBundle/Parser.php:181-189 | QUOTED gives a string, INT gives an int, anything else is an error; the value is the one its token span spells (`ScalarSpan`: the `(int)` of the INT token, or the unquoted QUOTED run) |
| Parser.ScalarTail | lib/Adoy/ICU/ResourceBundle/Parser.php:169-172 | keeps what was read, appends one scalar per comma, each the value of the span after its comma, and stops at the first lookahead that is not a comma; a comma followed by neither QUOTED nor INT is an error there |
| Parser.IntTail | lib/Adoy/ICU/ResourceBundle/Parser.php:198-201 | keeps what was read, appends one int per comma, each the `(int)` of the INT after its comma, and stops at the first lookahead that is not a comma; a comma not followed by INT is an error there |
| Parser.IntVectorValue | lib/Adoy/ICU/ResourceBundle/Parser.php:195-206 | one or more ints as a list, item by item the values of the comma-separated INT tokens read, and on success the next token is `}` |
| Parser.ValueStatement | lib/Adoy/ICU/ResourceBundle/Parser.php:82-119 | the value has the kind its format declares; without a format it is never an alias; `}` where a value is expected is an error |
| Parser.InferredValue | lib/Adoy/ICU/ResourceBundle/Parser.php:101-117 | without a format a value is never an alias, and a failure is a parse error of this file |
| Parser.ValueInference | lib/Adoy/ICU/ResourceBundle/Parser.php:101-117 | without a format the lookahead decides: a QUOTED or INT scalar stands alone unless a comma follows, and then the value is the comma list; TERM reads a table, `{` an array, and anything else is the "T_QUOTED, T_INT, T_TERM or T_RRANGEEX" error |
| Parser.TableValue | lib/Adoy/ICU/ResourceBundle/Parser.php:261-274 | a table has at least one entry and distinct keys, and ends before a `}`; `{ }` is an error |
| Parser.TableEntries | lib/Adoy/ICU/ResourceBundle/Parser.php:264-271 | the loop keeps every name already read at its position, and the keys stay distinct |
| Parser.TableEntriesStep | lib/Adoy/ICU/ResourceBundle/Parser.php:265-271 | one pass reads a name and a member and assigns the member's value under the name |
| Parser.SameTokensRead | lib/Adoy/ICU/ResourceBundle/Parser.php:264-271 | whether the loop succeeds, and where it stops, does not depend on the entries already read |
| Parser.LaterMembersWin | lib/Adoy/ICU/ResourceBundle/Parser.php:264-271 | each key ends up with the value of the last member read under it, or keeps its earlier value when no member names it |
| Parser.LastMemberWins | lib/Adoy/ICU/ResourceBundle/Parser.php:268 | the first name read holds its own member's value unless a later member names it again, and then the later one |
| Parser.ArrayValue | lib/Adoy/ICU/ResourceBundle/Parser.php:156-175 | an array is a non-empty list; the braced branch ends before `}`; the scalar branch holds, item by item, the values of the comma-separated scalar spans read |
| Parser.ScalarList | lib/Adoy/ICU/ResourceBundle/Parser.php:167-173 | a non-empty list, item by item the values of the comma-separated scalar spans read, not followed by a comma |
| Parser.ArrayMembers | lib/Adoy/ICU/ResourceBundle/Parser.php:159-166 | appends one braced member per pass and ends before `}` |
| Parser.MemberStatement | lib/Adoy/ICU/ResourceBundle/Parser.php:266-270 | `[:format] { value }` ends by consuming a `}` |
| Parser.MemberBody | lib/Adoy/ICU/ResourceBundle/Parser.php:268-269 | the value read under the member's format must be closed by `}`, which is consumed |
| Parser.StartStatement | lib/Adoy/ICU/ResourceBundle/Parser.php:57-70 | a parse is a one-entry array keyed by the leading name (or ""), holding the root table; an explicit root format other than `table` is the "Root node must have a table format" error |
| Parser.RootTable | lib/Adoy/ICU/ResourceBundle/Parser.php:64-68 | the root table is non-empty with distinct keys and is read after a `{`; its closing `}` is the last token, and any token after it is the end-of-input error |
| Parser.Dirname | lib/Adoy/ICU/ResourceBundle/Parser.php:50 | a path without `/` has directory "."; otherwise the directory is the text before the last `/`, or "/" when that slash is the first character |
| Parser.Parse | lib/Adoy/ICU/ResourceBundle/Parser.php:47-52 | an unreadable file is FILE_NOT_FOUND and only then; no lexing error is possible; success is a one-entry array |
| Parser.LookaheadAgrees | lib/Adoy/ICU/ResourceBundle/Lexer.php:140-154 | the parser's `IsNext` and lookahead line are the lexer object's isNextToken and lookahead line after as many yylex calls |
| ResourceAlias.GetIndexes | lib/Adoy/ICU/ResourceBundle/ResourceAlias.php:31-34 | the segments are non-empty in number, one more than the slashes, free of `/`, and join back to the reference |
| ResourceAlias.Split | lib/Adoy/ICU/ResourceBundle/ResourceAlias.php:33 | explode gives slash-free segments that join back to the input |
| ResourceAlias.SplitJoin | lib/Adoy/ICU/ResourceBundle/ResourceAlias.php:33 | explode inverts implode on slash-free segments |
| Values.Find | lib/Adoy/ICU/ResourceBundle/ResourceBundle.php:71-72 | a value is found exactly when the key is present, and it is the value stored under that key |
| Values.Insert | lib/Adoy/ICU/ResourceBundle/Parser.php:268 | assignment sets the key, leaves every other key alone, keeps existing positions and appends a new key |
| Values.Union | lib/Adoy/ICU/ResourceBundle/ResourceBundle.php:69 | `+=` keeps the left operand as a prefix and takes a right value only under a key the left lacks |
| Values.ListOf | lib/Adoy/ICU/ResourceBundle/Parser.php:168-171 | appending items gives keys "0", "1", ... holding the items in order |
| Values.ListLookup | lib/Adoy/ICU/ResourceBundle/ResourceBundle.php:71 | a list holds a key exactly when it is the canonical spelling of an index below its length, and then yields that item |
| Values.Child | lib/Adoy/ICU/ResourceBundle/ResourceBundle.php:117-118 | a member is found only inside an array that has the key |
| Emitter.ParseTable | lib/Adoy/ICU/ResourceBundle/Parser.php:264-271 | the table loop reads an emitted table's entries back exactly |
| Emitter.ParseList | lib/Adoy/ICU/ResourceBundle/Parser.php:159-166 | the array loop reads an emitted list's members back exactly |
| Emitter.RoundTrip | lib/Adoy/ICU/ResourceBundle/Parser.php:57-70 | parsing an emitted file gives back the one-entry array it was written from |
| Emitter.ReadCommaTail | lib/Adoy/ICU/ResourceBundle/Parser.php:169-172 | the scalar comma loop reads an emitted `, item` tail back, appending the items in order |
| Emitter.ReadIntTail | lib/Adoy/ICU/ResourceBundle/Parser.php:198-201 | the int comma loop reads an emitted `, int` tail back, appending the ints in order |
| Emitter.ReadCommaList | lib/Adoy/ICU/ResourceBundle/Parser.php:167-173 | scalarValueStatement reads an emitted list's first item, and the scalar-list branch reads the whole list back |
| Emitter.ReadIntVector | lib/Adoy/ICU/ResourceBundle/Parser.php:195-206 | intVectorValueStatement reads an emitted list of ints back |
| Emitter.CommaListRoundTrip | lib/Adoy/ICU/ResourceBundle/Parser.php:156-175 | under `:array` an emitted comma list of scalars reads back as the list of its items |
| Emitter.IntVectorRoundTrip | lib/Adoy/ICU/ResourceBundle/Parser.php:195-206 | under `:intvector` an emitted comma list of ints reads back as the list of its items |
| Emitter.BareCommaListRoundTrip | lib/Adoy/ICU/ResourceBundle/Parser.php:101-111 | without a format an emitted list of two or more scalars reads back as that list, and a single scalar as itself |
| ResourceBundle.Open | lib/Adoy/ICU/ResourceBundle/ResourceBundle.php:49-58 | construction fails exactly when realpath fails or is falsy; a new bundle reads the whole store from the resolved directory |
| ResourceBundle.LoadLocale | lib/Adoy/ICU/ResourceBundle/ResourceBundle.php:130-137 | an unreadable locale file gives an empty array; a readable one is parsed |
| ResourceBundle.EnsureLoaded | lib/Adoy/ICU/ResourceBundle/ResourceBundle.php:68-70 | a loaded locale leaves the store alone; loading only appends and never changes a stored key |
| ResourceBundle.GrowsKeepsFind | lib/Adoy/ICU/ResourceBundle/ResourceBundle.php:69 | growing the store never changes what an existing key holds |
| Base.LastIndex | lib/Adoy/ICU/ResourceBundle/ResourceBundle.php:156 | strrpos: the position of the last occurrence, with no occurrence after it, or none when there is none |
| ResourceBundle.Parent | lib/Adoy/ICU/ResourceBundle/ResourceBundle.php:152-161 | no parent exactly for "root"; a parent is truthy, ranks lower, and is "root" or a prefix ending before a `_` |
| ResourceBundle.ChainEndsAtRoot | lib/Adoy/ICU/ResourceBundle/ResourceBundle.php:152-161 | with fallback the chain from any locale ends at "root" and visits it only there |
| ResourceBundle.CacheAt | lib/Adoy/ICU/ResourceBundle/ResourceBundle.php:57 | a bundle reads the whole store; a sub-bundle reads only its own node under its own locale |
| ResourceBundle.Locate | lib/Adoy/ICU/ResourceBundle/ResourceBundle.php:66-83 | the lookup loop only grows the store and finds a value its locale's node really holds, on the chain |
| ResourceBundle.LocateOnLoaded | lib/Adoy/ICU/ResourceBundle/ResourceBundle.php:66-83 | on a loaded chain the loop leaves the store alone and finds the first holder of the key |
| ResourceBundle.FirstHolder | lib/Adoy/ICU/ResourceBundle/ResourceBundle.php:71-72 | none exactly when no listed locale holds the key; otherwise a listed locale that holds it |
| ResourceBundle.ResolveAlias | lib/Adoy/ICU/ResourceBundle/ResourceBundle.php:109-125 | loads the first segment's locale, then returns the raw node the path walk reaches from the whole store, or null |
| ResourceBundle.WalkAppend | lib/Adoy/ICU/ResourceBundle/ResourceBundle.php:116-123 | walking truthy segments and then a second path is walking their concatenation |
| ResourceBundle.WalkStopsAtFalsy | lib/Adoy/ICU/ResourceBundle/ResourceBundle.php:116 | a falsy segment ends the walk where it stands |
| ResourceBundle.LeadingSlashGivesStore | lib/Adoy/ICU/ResourceBundle/ResourceBundle.php:111-116 | a reference starting with `/` resolves to the whole store |
| ResourceBundle.AliasWalksItsSegments | lib/Adoy/ICU/ResourceBundle/ResourceBundle.php:111-123 | an alias joined from slash-free segments walks exactly those segments |
| ResourceBundle.Get | lib/Adoy/ICU/ResourceBundle/ResourceBundle.php:64-85 | the store only grows; a sub-bundle has fallback off, the same directory, one array node, and a locale on the chain |
| ResourceBundle.Deliver | lib/Adoy/ICU/ResourceBundle/ResourceBundle.php:71-81 | an array becomes a sub-bundle on that node, an alias its walk result or null, anything else itself |
| ResourceBundle.GetOnLoaded | lib/Adoy/ICU/ResourceBundle/ResourceBundle.php:64-85 | on a loaded chain get returns null, a sub-bundle or the value of the first holder, resolving an alias as resolveAlias does, and leaves the store alone |
| ResourceBundle.GetAliasOnLoaded | lib/Adoy/ICU/ResourceBundle/ResourceBundle.php:78-79 | on a loaded chain whose first holder holds an alias to a loaded locale, get returns the node the alias walks to from the whole store, or null |
| ResourceBundle.Exists | lib/Adoy/ICU/ResourceBundle/ResourceBundle.php:91-103 | true only when some locale on the chain holds the key |
| ResourceBundle.GetAgreesWithExists | lib/Adoy/ICU/ResourceBundle/ResourceBundle.php:64-103 | exists is false exactly where get finds nothing; a null from get for an existing key comes from an alias |
| ResourceBundle.SubViewReadsItsNode | lib/Adoy/ICU/ResourceBundle/ResourceBundle.php:74-77 | a sub-bundle answers exists from its own node only |
| ResourceBundle.UnionIdle | lib/Adoy/ICU/ResourceBundle/ResourceBundle.php:69 | merging entries whose keys are all present changes nothing |
| ResourceBundle.MisnamedFileIsReparsed | lib/Adoy/ICU/ResourceBundle/ResourceBundle.php:143-146 | a file whose root name differs from its locale never marks the locale loaded, and re-parsing it adds nothing |
| ResourceBundle.LoadingIsIdempotent | lib/Adoy/ICU/ResourceBundle/ResourceBundle.php:68-70 | once a locale is loaded, loading it again changes nothing |
| ResourceBundle.MissingFileAddsNothing | lib/Adoy/ICU/ResourceBundle/ResourceBundle.php:133-136 | a locale without a readable file adds nothing to the store |
| ResourceBundle.Iterate | lib/Adoy/ICU/ResourceBundle/ResourceBundle.php:200-214 | the store only grows; a non-empty result is a non-empty node of a locale on the chain |
| ResourceBundle.FirstNonEmpty | lib/Adoy/ICU/ResourceBundle/ResourceBundle.php:202-213 | the reference: the first non-empty node along the list, or an empty array when all are empty |
| ResourceBundle.IterateOnLoaded | lib/Adoy/ICU/ResourceBundle/ResourceBundle.php:200-214 | on a loaded chain getIterator reads nothing new and iterates the first non-empty node |
| ResourceBundle.OffsetSet | lib/Adoy/ICU/ResourceBundle/ResourceBundle.php:175-178 | always fails as read-only |
| ResourceBundle.OffsetUnset | lib/Adoy/ICU/ResourceBundle/ResourceBundle.php:192-195 | always fails as read-only |

## Left out

- File system: `is_readable`, `file_get_contents` and `realpath` become parameters. `Host.files` maps each readable path to its contents, and `Open` takes `realpath` as a function.
- `base64_decode` for `:bin` values is the parameter `Host.base64`. Lenient decoding belongs to PHP.
- The PCRE engine: each pattern is a hand-written scanner, and the scanners are tried in the same order. PCRE's `.` excludes the line feed, so the QUOTED pattern fails at a backslash followed by a line feed, and the text from the opening `"` lexes as TERM.
- Lexing is lazy in PHP, one token per `yylex()`. The parser here reads the whole token sequence at once. This is equivalent because lexing never fails (`Lexer.TokenizeNeverFails`) and the buffer is a window onto that sequence (`Lexer.BufferIsWindow`).
- `getLiteral()` reflection is the fixed constant table `Lexer.Constants`. The error message text (`sprintf`, "Parse error: expected ...") becomes the `Expectation` and `Reason` values.
- `parseError` at end of input passes a null line; the model reports line 0.
- The parser's format stack is modelled by its top, which is the only entry the parser ever reads.
- Parser.Dirname: models `dirname()` for `/`-separated paths only. It ignores trailing slashes, runs of slashes (`"a//b"` gives `"a/"` here and `"a"` in PHP) and Windows separators, because only the directory of a `.txt` path is ever needed.
- PHP's coercion of canonical decimal string keys to integer keys is not modelled as a separate key type. Keys stay strings, and a list's keys are the canonical spellings `Decimal(i)`.
- `isset` on a string offset (`$string[$key]`) is treated as "not set": only arrays have members here. The alias walk treats a `ResourceAlias` object the same way; in PHP, `isset($node[$key])` on that object (it has no ArrayAccess) throws an Error, and the model drops that exception.
- `offsetGet` and `offsetExists` only call `get` and `exists`, so they have no members of their own.
- The sub-bundle that `get()` builds re-runs the constructor's `realpath` check on a directory that is already resolved. The model assumes the check succeeds again and builds the view directly.
- `getIterator()` returns an `ArrayIterator`; the model returns the array it would iterate.
- ResourceBundle.Get: states the shape of the returned sub-bundle and the growth of the store. Which value is found is stated against the reference only once the chain is loaded (`GetOnLoaded`). Before that, the walk's loading order depends on the files.
- ResourceBundle.Locate: states only that a value found is held by its locale's node on the chain. That it is the first holder, and that None means no holder, is stated on a loaded chain (`LocateOnLoaded`). Before that a misnamed file loaded later can add a holder for a locale the loop has already passed.
- ResourceBundle.Exists: states only that a true answer has a holder on the chain. The exact answer is stated by `GetAgreesWithExists`, and by `LocateOnLoaded` on a loaded chain.
- ResourceBundle.Iterate: states what a non-empty result is. The full answer is stated by `IterateOnLoaded` on a loaded chain.
- ParsingException and LexingException are only carriers for message, code, file and line. They become the `Error` datatype.
- Base.IntCast: a digit run above PHP_INT_MAX saturates at PHP_INT_MAX, as 64-bit PHP 7 does for runs that still fit a double. A run too long for a double (over about 309 digits) becomes infinite in PHP, and some versions then give 0; that case and older PHP versions are not modelled.
