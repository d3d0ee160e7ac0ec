/**
 The resolver: lookups over a store of parsed locale files that grows on
 demand, along the locale fallback chain `fr_CA -> fr -> root`.

 The PHP object keeps the store in `$root` (shared by reference between a
 bundle and the sub-bundles it hands out) and a `$cache` that is either
 that same store or a one-entry array holding a single node. Here the
 store is a value threaded through every operation: each operation takes
 the store and returns the store it leaves behind. Reading files and
 parsing them goes through `Host`, the file system as the model sees it.
 */
module ResourceBundle {
  import opened Base
  import opened ResourceAlias
  import opened Values
  import opened Parser

  /** The file system: readable files with their contents, and the base64 decoder `:bin` uses. */
  datatype Host = Host(files: map<string, string>, base64: string -> string)

  /** Where a view reads `$this->cache[$locale]`. */
  datatype Cache =
    | WholeStore           // `$this->cache = &$this->root`
    | OneNode(node: Value) // `array($locale => &$val)` of a sub-bundle

  /** A ResourceBundle object: its locale, resolved directory, fallback flag and cache. */
  datatype View = View(locale: string, dir: string, fallback: bool, cache: Cache)

  /** What get() returns: null, a plain value, or a sub-bundle for an array. */
  datatype Got = Null | Val(v: Value) | Sub(view: View)

  /**
   The constructor: the directory must resolve (realpath) to a truthy
   path, otherwise InvalidArgumentException. A new bundle reads from the
   whole store.
   */
  function Open(locale: string, resourceDir: string, fallback: bool, realpath: string -> Option<string>): (r: Result<View, Error>)
    ensures r.Failure? <==> realpath(resourceDir).None? || !Truthy(realpath(resourceDir).value)
    ensures r.Failure? ==> r.error == InvalidResourceDir(resourceDir)
    ensures r.Success? ==>
      && r.value.locale == locale && r.value.fallback == fallback && r.value.cache.WholeStore?
      && Some(r.value.dir) == realpath(resourceDir) && Truthy(r.value.dir)
  {
    match realpath(resourceDir)
    case None => Failure(InvalidResourceDir(resourceDir))
    case Some(dir) =>
      if Truthy(dir) then Success(View(locale, dir, fallback, WholeStore))
      else Failure(InvalidResourceDir(resourceDir))
  }

  /** `$resourceDir . '/' . $locale . '.txt'` */
  function LocaleFile(dir: string, locale: string): string {
    dir + "/" + locale + ".txt"
  }

  /** loadLocale(): the parsed file when it is readable, an empty array otherwise. */
  function LoadLocale(host: Host, dir: string, locale: string): (r: Result<seq<Entry>, Error>)
    ensures LocaleFile(dir, locale) !in host.files ==> r == Success([])
    ensures LocaleFile(dir, locale) in host.files ==> r == Parse(host.files, host.base64, LocaleFile(dir, locale))
    ensures r.Success? ==> |r.value| <= 1
  {
    var file := LocaleFile(dir, locale);
    if file in host.files then Parse(host.files, host.base64, file) else Success([])
  }

  /** The store only grows: what it held stays, in place, and new entries go after it. */
  predicate Grows(s: seq<Entry>, s': seq<Entry>) {
    |s| <= |s'| && s'[..|s|] == s
  }

  /** Growing never changes what an existing key holds. */
  lemma GrowsKeepsFind(s: seq<Entry>, s': seq<Entry>, key: string)
    requires Grows(s, s') && HasKey(s, key)
    ensures Find(s', key) == Find(s, key)
  {
    var i := IndexOf(s, key).value;
    assert s'[i] == s[i];
    forall j | 0 <= j < i ensures s'[j].key != key {
      assert s'[j] == s[j];
    }
    IndexOfUnique(s', key, i);
  }

  lemma GrowsTrans(s1: seq<Entry>, s2: seq<Entry>, s3: seq<Entry>)
    requires Grows(s1, s2) && Grows(s2, s3)
    ensures Grows(s1, s3)
  {
    assert s3[..|s1|] == s3[..|s2|][..|s1|];
  }

  /**
   `if (!isLocaleLoaded($l)) $root += loadLocale($l)`: a locale counts as
   loaded when the store has its key; otherwise its file is parsed and
   merged with the left-biased array union.
   */
  function EnsureLoaded(host: Host, dir: string, store: seq<Entry>, locale: string): (r: Result<seq<Entry>, Error>)
    ensures HasKey(store, locale) ==> r == Success(store)
    ensures r.Success? ==> Grows(store, r.value)
    ensures r.Success? ==> forall k :: HasKey(store, k) ==> Find(r.value, k) == Find(store, k)
    ensures r.Success? && KeysDistinct(store) ==> KeysDistinct(r.value)
    ensures r.Failure? ==> !HasKey(store, locale) && LoadLocale(host, dir, locale).Failure?
  {
    if HasKey(store, locale) then Success(store)
    else
      var add :- LoadLocale(host, dir, locale);
      var s := Union(store, add);
      forall k | HasKey(store, k) ensures Find(s, k) == Find(store, k) {
        assert Find(store, k).Some?;
      }
      Success(s)
  }

  /** Rank of a locale on the fallback chain: "root" is last, every other name ranks by its length. */
  function Rank(locale: string): nat {
    if locale == "root" then 0 else |locale| + 1
  }

  /**
   getParent(): none for "root"; otherwise the part before the last '_'
   when that part is truthy (`substr($l, 0, false)` is ""), else "root".
   */
  function Parent(locale: string): (r: Option<string>)
    ensures r.None? <==> locale == "root"
    ensures r.Some? ==> Rank(r.value) < Rank(locale) && Truthy(r.value)
    ensures r.Some? && r.value != "root" ==>
      exists i :: 0 <= i < |locale| && locale[i] == '_' && r.value == locale[..i]
  {
    if locale == "root" then None
    else
      var p := match LastIndex(locale, '_') case None => "" case Some(i) => locale[..i];
      if Truthy(p) then Some(p) else Some("root")
  }

  /** The locales a lookup consults, in order, when none of them holds the key. */
  function Visits(fallback: bool, locale: string): (r: seq<string>)
    ensures |r| >= 1 && r[0] == locale
    decreases Rank(locale)
  {
    if !fallback then [locale]
    else match Parent(locale)
      case None => [locale]
      case Some(p) => [locale] + Visits(fallback, p)
  }

  /** With fallback on, the chain from any locale ends at "root" and visits "root" only there. */
  lemma {:induction false} ChainEndsAtRoot(locale: string)
    ensures Visits(true, locale)[|Visits(true, locale)| - 1] == "root"
    ensures forall i :: 0 <= i < |Visits(true, locale)| - 1 ==> Visits(true, locale)[i] != "root"
    decreases Rank(locale)
  {
    match Parent(locale)
    case None =>
    case Some(p) =>
      ChainEndsAtRoot(p);
      var v := Visits(true, p);
      assert Visits(true, locale) == [locale] + v;
      forall i | 0 <= i < |v| ensures ([locale] + v)[i + 1] == v[i] {
      }
  }

  /** `$this->cache[$locale]`, when set. */
  function CacheAt(view: View, store: seq<Entry>, locale: string): (r: Option<Value>)
    ensures view.cache.WholeStore? ==> r == Find(store, locale)
    ensures view.cache.OneNode? ==> r == if locale == view.locale then Some(view.cache.node) else None
  {
    match view.cache
    case WholeStore => Find(store, locale)
    case OneNode(node) => if locale == view.locale then Some(node) else None
  }

  /** `isset($this->cache[$locale][$key])`, and the value it guards. */
  function HolderAt(view: View, store: seq<Entry>, locale: string, key: string): Option<Value> {
    match CacheAt(view, store, locale)
    case None => None
    case Some(node) => Child(node, key)
  }

  /**
   The do-while loop that get() and exists() share: starting at `locale`,
   make sure the locale is loaded, stop at the first one whose node holds
   `key`, and move to the parent while fallback is on. The result is the
   locale and value found, if any, with the store left behind.
   */
  function Locate(host: Host, view: View, store: seq<Entry>, locale: string, key: string)
    : (r: Result<(Option<(string, Value)>, seq<Entry>), Error>)
    ensures r.Success? ==> Grows(store, r.value.1)
    ensures r.Success? && KeysDistinct(store) ==> KeysDistinct(r.value.1)
    ensures r.Success? && r.value.0.Some? ==> HolderAt(view, r.value.1, r.value.0.value.0, key) == Some(r.value.0.value.1)
    ensures r.Success? && r.value.0.Some? ==> r.value.0.value.0 in Visits(view.fallback, locale)
    decreases Rank(locale)
  {
    var s :- EnsureLoaded(host, view.dir, store, locale);
    match HolderAt(view, s, locale, key)
    case Some(v) => Success((Some((locale, v)), s))
    case None =>
      if view.fallback && Parent(locale).Some? then
        var r := Locate(host, view, s, Parent(locale).value, key);
        if r.Success? then
          GrowsTrans(store, s, r.value.1);
          r
        else r
      else Success((None, s))
  }

  /**
   resolveAlias(): load the locale named by the first segment, then walk
   from the whole store by exact key. The node reached is returned as it
   is, alias or array included; a missing key gives null.
   */
  function ResolveAlias(host: Host, dir: string, store: seq<Entry>, a: Alias): (r: Result<(Option<Value>, seq<Entry>), Error>)
    ensures r.Success? ==> Grows(store, r.value.1)
    ensures r.Success? && KeysDistinct(store) ==> KeysDistinct(r.value.1)
    ensures r.Success? ==> r.value.0 == Walk(Arr(r.value.1), GetIndexes(a))
    ensures r.Failure? ==> !HasKey(store, GetIndexes(a)[0])
  {
    var path := GetIndexes(a);
    var s :- EnsureLoaded(host, dir, store, path[0]);
    Success((Walk(Arr(s), path), s))
  }

  /**
   `while ($key = array_shift($path))`: follow the segments one by one;
   the walk ends early, where it stands, at a falsy segment ("" or "0").
   */
  function Walk(node: Value, path: seq<string>): (r: Option<Value>)
    decreases |path|
  {
    if path == [] || !Truthy(path[0]) then Some(node)
    else match Child(node, path[0])
      case None => None
      case Some(next) => Walk(next, path[1..])
  }

  /** Walking two paths one after the other is walking their concatenation, when the first has no falsy segment. */
  lemma {:induction false} WalkAppend(node: Value, p: seq<string>, q: seq<string>)
    requires forall i :: 0 <= i < |p| ==> Truthy(p[i])
    ensures Walk(node, p + q) == match Walk(node, p) case None => None case Some(n) => Walk(n, q)
    decreases |p|
  {
    if p != [] {
      assert (p + q)[0] == p[0] && (p + q)[1..] == p[1..] + q;
      match Child(node, p[0])
      case None =>
      case Some(next) => WalkAppend(next, p[1..], q);
    } else {
      assert p + q == q;
    }
  }

  /** A falsy segment ends the walk at once: the rest of the path is never looked at. */
  lemma WalkStopsAtFalsy(node: Value, seg: string, rest: seq<string>)
    requires !Truthy(seg)
    ensures Walk(node, [seg] + rest) == Some(node)
  {
  }

  /** An alias whose reference starts with '/' resolves to the whole store. */
  lemma LeadingSlashGivesStore(host: Host, dir: string, store: seq<Entry>, a: Alias)
    requires |a.ref| >= 1 && a.ref[0] == '/'
    requires ResolveAlias(host, dir, store, a).Success?
    ensures ResolveAlias(host, dir, store, a).value.0 == Some(Arr(ResolveAlias(host, dir, store, a).value.1))
  {
    var segs := GetIndexes(a);
    JoinFirst(segs);
    assert segs[0] == "";
    assert segs == [segs[0]] + segs[1..];
  }

  /** The joined string starts with its first segment. */
  lemma JoinFirst(segs: seq<string>)
    requires |segs| >= 1
    ensures |Join(segs)| >= |segs[0]| && Join(segs)[..|segs[0]|] == segs[0]
  {
    if |segs| > 1 {
      var t := segs[0] + "/" + Join(segs[1..]);
      assert t[..|segs[0]|] == segs[0];
    }
  }

  /**
   An alias built from '/'-free, truthy segments walks exactly those
   segments: getIndexes() gives them back and none stops the walk early.
   */
  lemma AliasWalksItsSegments(host: Host, dir: string, store: seq<Entry>, segs: seq<string>)
    requires |segs| >= 1
    requires forall i :: 0 <= i < |segs| ==> NoSlash(segs[i])
    requires ResolveAlias(host, dir, store, Alias(Join(segs))).Success?
    ensures GetIndexes(Alias(Join(segs))) == segs
    ensures ResolveAlias(host, dir, store, Alias(Join(segs))).value.0
         == Walk(Arr(ResolveAlias(host, dir, store, Alias(Join(segs))).value.1), segs)
  {
    SplitJoin(segs);
  }

  /**
   get(): the value from the first locale on the chain whose node holds
   `key`. An array comes back as a sub-bundle fixed on that locale and
   node, with fallback off; an alias is resolved; anything else is
   returned as it is; nothing found is null.
   */
  function Get(host: Host, view: View, store: seq<Entry>, key: string): (r: Result<(Got, seq<Entry>), Error>)
    ensures r.Success? ==> Grows(store, r.value.1)
    ensures r.Success? && KeysDistinct(store) ==> KeysDistinct(r.value.1)
    ensures r.Success? && r.value.0.Sub? ==>
      var w := r.value.0.view;
      && !w.fallback && w.dir == view.dir && w.cache.OneNode? && w.cache.node.Arr?
      && w.locale in Visits(view.fallback, view.locale)
  {
    var x :- Locate(host, view, store, view.locale, key);
    match x.0
    case None => Success((Null, x.1))
    case Some(found) =>
      var y := Deliver(host, view.dir, x.1, found.0, found.1);
      if y.Success? then
        GrowsTrans(store, x.1, y.value.1);
        y
      else y
  }

  /**
   What get() hands back for the value `v` found under `locale`: a
   sub-bundle fixed on that node with fallback off for an array, the
   resolved node (or null) for an alias, the value itself otherwise.
   */
  function Deliver(host: Host, dir: string, store: seq<Entry>, locale: string, v: Value): (r: Result<(Got, seq<Entry>), Error>)
    ensures r.Success? ==> Grows(store, r.value.1)
    ensures r.Success? && KeysDistinct(store) ==> KeysDistinct(r.value.1)
    ensures v.Arr? ==> r == Success((Sub(View(locale, dir, false, OneNode(v))), store))
    ensures !v.Arr? && !v.Ref? ==> r == Success((Val(v), store))
    ensures v.Ref? && r.Success? ==>
      r.value.0 == match Walk(Arr(r.value.1), GetIndexes(v.alias)) case None => Null case Some(n) => Val(n)
  {
    if v.Arr? then Success((Sub(View(locale, dir, false, OneNode(v))), store))
    else if v.Ref? then
      var y :- ResolveAlias(host, dir, store, v.alias);
      Success((if y.0.Some? then Val(y.0.value) else Null, y.1))
    else Success((Val(v), store))
  }

  /** exists(): the same walk as get(); true for any value held, aliases and arrays included. */
  function Exists(host: Host, view: View, store: seq<Entry>, key: string): (r: Result<(bool, seq<Entry>), Error>)
    ensures r.Success? ==> Grows(store, r.value.1)
    ensures r.Success? && r.value.0 ==>
      exists l :: l in Visits(view.fallback, view.locale) && HolderAt(view, r.value.1, l, key).Some?
  {
    var x :- Locate(host, view, store, view.locale, key);
    Success((x.0.Some?, x.1))
  }

  /**
   get() and exists() agree: when get() succeeds, exists() succeeds too
   and leaves the store get() had before any alias resolution; exists()
   is false exactly when get() found nothing, and a null from get() for a
   key that exists comes from an alias whose walk failed.
   */
  lemma GetAgreesWithExists(host: Host, view: View, store: seq<Entry>, key: string)
    requires Get(host, view, store, key).Success?
    ensures Exists(host, view, store, key).Success?
    ensures !Exists(host, view, store, key).value.0 ==> Get(host, view, store, key).value.0 == Null
    ensures !Exists(host, view, store, key).value.0 ==>
      Get(host, view, store, key).value.1 == Exists(host, view, store, key).value.1
    ensures Exists(host, view, store, key).value.0 && Get(host, view, store, key).value.0 == Null ==>
      Locate(host, view, store, view.locale, key).value.0.value.1.Ref?
  {
  }

  /** Every locale of the list is already loaded. */
  predicate AllLoaded(store: seq<Entry>, locales: seq<string>) {
    forall i :: 0 <= i < |locales| ==> HasKey(store, locales[i])
  }

  /** The first locale of the list whose node holds `key`, with that value: the reference lookup. */
  function FirstHolder(view: View, store: seq<Entry>, locales: seq<string>, key: string): (r: Option<(string, Value)>)
    ensures r.None? <==> forall i :: 0 <= i < |locales| ==> HolderAt(view, store, locales[i], key).None?
    ensures r.Some? ==> r.value.0 in locales && HolderAt(view, store, r.value.0, key) == Some(r.value.1)
  {
    if locales == [] then None
    else match HolderAt(view, store, locales[0], key)
      case Some(v) => Some((locales[0], v))
      case None =>
        var r := FirstHolder(view, store, locales[1..], key);
        assert forall i :: 1 <= i < |locales| ==> locales[i] == locales[1..][i - 1];
        r
  }

  /**
   Once every locale on the chain is loaded, the walk reads nothing new:
   the store is unchanged and the result is the first holder of `key`
   along the chain.
   */
  lemma {:induction false} LocateOnLoaded(host: Host, view: View, store: seq<Entry>, locale: string, key: string)
    requires AllLoaded(store, Visits(view.fallback, locale))
    ensures Locate(host, view, store, locale, key)
         == Success((FirstHolder(view, store, Visits(view.fallback, locale), key), store))
    decreases Rank(locale)
  {
    var vs := Visits(view.fallback, locale);
    assert HasKey(store, vs[0]);
    if HolderAt(view, store, locale, key).None? && view.fallback && Parent(locale).Some? {
      var p := Parent(locale).value;
      assert vs == [locale] + Visits(true, p);
      assert vs[1..] == Visits(true, p);
      assert AllLoaded(store, Visits(view.fallback, p)) by {
        forall i | 0 <= i < |vs[1..]| ensures HasKey(store, vs[1..][i]) {
          assert vs[1..][i] == vs[i + 1];
        }
      }
      LocateOnLoaded(host, view, store, p, key);
    }
  }

  /**
   get() on a loaded chain: null when no locale holds the key, otherwise
   the first holder's value, wrapped or resolved as get() does.
   */
  lemma GetOnLoaded(host: Host, view: View, store: seq<Entry>, key: string)
    requires AllLoaded(store, Visits(view.fallback, view.locale))
    ensures var h := FirstHolder(view, store, Visits(view.fallback, view.locale), key);
      && (h.None? ==> Get(host, view, store, key) == Success((Null, store)))
      && (h.Some? && h.value.1.Arr? ==>
            Get(host, view, store, key) == Success((Sub(View(h.value.0, view.dir, false, OneNode(h.value.1))), store)))
      && (h.Some? && !h.value.1.Arr? && !h.value.1.Ref? ==>
            Get(host, view, store, key) == Success((Val(h.value.1), store)))
      && (h.Some? && h.value.1.Ref? ==> Get(host, view, store, key) == Deliver(host, view.dir, store, h.value.0, h.value.1))
  {
    LocateOnLoaded(host, view, store, view.locale, key);
  }

  /**
   get() of an alias on a loaded chain, when the locale its reference
   starts with is loaded too: nothing is read, and the result is the node
   the reference walks to from the whole store, or null.
   */
  lemma GetAliasOnLoaded(host: Host, view: View, store: seq<Entry>, key: string)
    requires AllLoaded(store, Visits(view.fallback, view.locale))
    requires var h := FirstHolder(view, store, Visits(view.fallback, view.locale), key);
      h.Some? && h.value.1.Ref? && HasKey(store, GetIndexes(h.value.1.alias)[0])
    ensures var a := FirstHolder(view, store, Visits(view.fallback, view.locale), key).value.1.alias;
      Get(host, view, store, key) ==
        Success((match Walk(Arr(store), GetIndexes(a)) case None => Null case Some(n) => Val(n), store))
  {
    var h := FirstHolder(view, store, Visits(view.fallback, view.locale), key).value;
    GetOnLoaded(host, view, store, key);
    assert ResolveAlias(host, view.dir, store, h.1.alias) == Success((Walk(Arr(store), GetIndexes(h.1.alias)), store));
  }

  /**
   A sub-bundle looks only inside its own node: with its locale loaded,
   exists() answers from the node and leaves the store alone.
   */
  lemma SubViewReadsItsNode(host: Host, w: View, store: seq<Entry>, key: string)
    requires w.cache.OneNode? && !w.fallback && HasKey(store, w.locale)
    ensures Exists(host, w, store, key) == Success((Child(w.cache.node, key).Some?, store))
  {
  }

  /**
   A file whose root name differs from the locale it was loaded for never
   marks that locale as loaded, so the next lookup parses it again; the
   merge then adds nothing, because its root name is already in the store.
   */
  lemma MisnamedFileIsReparsed(host: Host, dir: string, store: seq<Entry>, locale: string)
    requires !HasKey(store, locale)
    requires LoadLocale(host, dir, locale).Success?
    requires forall i :: 0 <= i < |LoadLocale(host, dir, locale).value| ==> LoadLocale(host, dir, locale).value[i].key != locale
    ensures EnsureLoaded(host, dir, store, locale).Success?
    ensures !HasKey(EnsureLoaded(host, dir, store, locale).value, locale)
    ensures EnsureLoaded(host, dir, EnsureLoaded(host, dir, store, locale).value, locale)
         == EnsureLoaded(host, dir, store, locale)
  {
    var add := LoadLocale(host, dir, locale).value;
    var s := Union(store, add);
    assert Find(add, locale).None?;
    assert Find(s, locale).None?;
    if add != [] {
      assert Find(s, add[0].key).Some? by {
        assert Find(add, add[0].key).Some?;
      }
      UnionIdle(s, add);
    }
  }

  /** Merging entries whose keys are all present already changes nothing. */
  lemma UnionIdle(s: seq<Entry>, add: seq<Entry>)
    requires forall i :: 0 <= i < |add| ==> HasKey(s, add[i].key)
    ensures Union(s, add) == s
    decreases |add|
  {
    if add != [] {
      assert HasKey(s, add[0].key);
      UnionIdle(s, add[1..]);
    }
  }

  /** A file named after its locale makes the locale loaded; loading it again is a no-op. */
  lemma LoadingIsIdempotent(host: Host, dir: string, store: seq<Entry>, locale: string)
    requires EnsureLoaded(host, dir, store, locale).Success?
    requires HasKey(EnsureLoaded(host, dir, store, locale).value, locale)
    ensures EnsureLoaded(host, dir, EnsureLoaded(host, dir, store, locale).value, locale)
         == EnsureLoaded(host, dir, store, locale)
  {
  }

  /** A locale without a readable file adds nothing and stays unloaded. */
  lemma MissingFileAddsNothing(host: Host, dir: string, store: seq<Entry>, locale: string)
    requires LocaleFile(dir, locale) !in host.files
    ensures EnsureLoaded(host, dir, store, locale) == Success(store)
  {
    if !HasKey(store, locale) {
      assert Union(store, []) == store;
    }
  }

  /**
   getIterator(): the first locale on the chain whose node is non-empty
   gives the array to iterate; none gives an empty array.
   */
  function Iterate(host: Host, view: View, store: seq<Entry>, locale: string): (r: Result<(Value, seq<Entry>), Error>)
    ensures r.Success? ==> Grows(store, r.value.1)
    ensures r.Success? && r.value.0 != Arr([]) ==>
      !Empty(r.value.0) && exists l :: l in Visits(view.fallback, locale) && CacheAt(view, r.value.1, l) == Some(r.value.0)
    decreases Rank(locale)
  {
    var s :- EnsureLoaded(host, view.dir, store, locale);
    var node := CacheAt(view, s, locale);
    if node.Some? && !Empty(node.value) then Success((node.value, s))
    else if view.fallback && Parent(locale).Some? then
        var r := Iterate(host, view, s, Parent(locale).value);
        if r.Success? then
          GrowsTrans(store, s, r.value.1);
          r
        else r
    else Success((Arr([]), s))
  }

  /** The reference for getIterator(): the first non-empty node along the list. */
  function FirstNonEmpty(view: View, store: seq<Entry>, locales: seq<string>): (r: Value)
    ensures r != Arr([]) ==> exists i :: 0 <= i < |locales| && CacheAt(view, store, locales[i]) == Some(r)
    ensures (forall i :: 0 <= i < |locales| ==> CacheAt(view, store, locales[i]).None? || Empty(CacheAt(view, store, locales[i]).value))
      ==> r == Arr([])
  {
    if locales == [] then Arr([])
    else if CacheAt(view, store, locales[0]).Some? && !Empty(CacheAt(view, store, locales[0]).value) then
      CacheAt(view, store, locales[0]).value
    else
        var r := FirstNonEmpty(view, store, locales[1..]);
        assert r != Arr([]) ==> exists i :: 1 <= i < |locales| && CacheAt(view, store, locales[i]) == Some(r) by {
          if r != Arr([]) {
            var i :| 0 <= i < |locales[1..]| && CacheAt(view, store, locales[1..][i]) == Some(r);
            assert locales[i + 1] == locales[1..][i];
          }
        }
        r
  }

  /** On a loaded chain getIterator() reads nothing new and iterates the first non-empty node. */
  lemma {:induction false} IterateOnLoaded(host: Host, view: View, store: seq<Entry>, locale: string)
    requires AllLoaded(store, Visits(view.fallback, locale))
    ensures Iterate(host, view, store, locale) == Success((FirstNonEmpty(view, store, Visits(view.fallback, locale)), store))
    decreases Rank(locale)
  {
    var vs := Visits(view.fallback, locale);
    assert HasKey(store, vs[0]);
    var c := CacheAt(view, store, locale);
    if !(c.Some? && !Empty(c.value)) && view.fallback && Parent(locale).Some? {
      var p := Parent(locale).value;
      assert vs == [locale] + Visits(true, p);
      assert vs[1..] == Visits(true, p);
      assert AllLoaded(store, Visits(view.fallback, p)) by {
        forall i | 0 <= i < |vs[1..]| ensures HasKey(store, vs[1..][i]) {
          assert vs[1..][i] == vs[i + 1];
        }
      }
      IterateOnLoaded(host, view, store, p);
    }
  }

  /** offsetSet(): the bundle is read-only; the store is not touched. */
  function OffsetSet(store: seq<Entry>, key: string, v: Value): (r: Result<seq<Entry>, Error>)
    ensures r.Failure? && r.error == ReadOnlyResource
  {
    Failure(ReadOnlyResource)
  }

  /** offsetUnset(): likewise read-only. */
  function OffsetUnset(store: seq<Entry>, key: string): (r: Result<seq<Entry>, Error>)
    ensures r.Failure? && r.error == ReadOnlyResource
  {
    Failure(ReadOnlyResource)
  }
}
