/**
 The PHP values a parsed resource file is made of, and the ordered
 array operations the library applies to them.

 A PHP array is an ordered sequence of (key, value) entries with distinct
 keys. Keys are kept as strings: PHP turns a canonical decimal string such
 as "12" into the integer key 12 and leaves "012" a string, and that
 conversion is injective, so two keys are the same array key exactly when
 the strings are equal. A list is an array whose keys are "0", "1", ...
 */
module Values {
  import opened Base
  import opened ResourceAlias

  datatype Value =
    | Arr(entries: seq<Entry>)  // a table or a list
    | Str(s: string)            // string, bin and import values
    | Num(n: nat)               // int values
    | Ref(alias: Alias)         // a ResourceAlias object

  datatype Entry = Entry(key: string, value: Value)

  predicate HasKey(es: seq<Entry>, key: string) {
    exists i :: 0 <= i < |es| && es[i].key == key
  }

  /** The key of entry `i`; it names the pairs KeysDistinct speaks about. */
  function KeyAt(es: seq<Entry>, i: nat): string
    requires i < |es|
  {
    es[i].key
  }

  predicate KeysDistinct(es: seq<Entry>) {
    forall i, j :: 0 <= i < j < |es| ==> KeyAt(es, i) != KeyAt(es, j)
  }

  /** Position of the first entry with `key`, searching from `k`. */
  function IndexFrom(es: seq<Entry>, key: string, k: nat): (r: Option<nat>)
    ensures r.Some? ==> k <= r.value < |es| && es[r.value].key == key
    ensures r.Some? ==> forall j :: k <= j < r.value ==> es[j].key != key
    ensures r.None? ==> forall j :: k <= j < |es| ==> es[j].key != key
    decreases |es| - k
  {
    if k >= |es| then None
    else if es[k].key == key then Some(k)
    else IndexFrom(es, key, k + 1)
  }

  function IndexOf(es: seq<Entry>, key: string): Option<nat> {
    IndexFrom(es, key, 0)
  }

  /** The first entry with `key` is the one IndexOf finds. */
  lemma IndexOfUnique(es: seq<Entry>, key: string, i: nat)
    requires i < |es| && es[i].key == key
    requires forall j :: 0 <= j < i ==> es[j].key != key
    ensures IndexOf(es, key) == Some(i)
  {
  }

  /** `$array[$key]` behind an `isset`: the value stored under `key`, if any. */
  function Find(es: seq<Entry>, key: string): (r: Option<Value>)
    ensures r.Some? <==> HasKey(es, key)
    ensures r.Some? ==> exists i :: 0 <= i < |es| && es[i] == Entry(key, r.value)
  {
    match IndexOf(es, key)
    case Some(i) => Some(es[i].value)
    case None => None
  }

  /** With distinct keys every entry is found under its own key. */
  lemma FindEntry(es: seq<Entry>, i: nat)
    requires KeysDistinct(es) && i < |es|
    ensures Find(es, es[i].key) == Some(es[i].value)
  {
    forall j | 0 <= j < i ensures es[j].key != es[i].key {
      assert KeyAt(es, j) != KeyAt(es, i);
    }
    IndexOfUnique(es, es[i].key, i);
  }

  /** Rewriting values under the same keys keeps the keys distinct. */
  lemma SameKeysDistinct(es: seq<Entry>, r: seq<Entry>)
    requires |r| == |es| && forall i :: 0 <= i < |es| ==> r[i].key == es[i].key
    ensures KeysDistinct(es) ==> KeysDistinct(r)
  {
    if KeysDistinct(es) {
      forall i, j | 0 <= i < j < |r| ensures KeyAt(r, i) != KeyAt(r, j) {
        assert KeyAt(es, i) != KeyAt(es, j);
      }
    }
  }

  /** Appending an entry under a new key keeps the keys distinct. */
  lemma SnocDistinct(es: seq<Entry>, e: Entry)
    requires !HasKey(es, e.key)
    ensures KeysDistinct(es) ==> KeysDistinct(es + [e])
  {
    var r := es + [e];
    if KeysDistinct(es) {
      forall i, j | 0 <= i < j < |r| ensures KeyAt(r, i) != KeyAt(r, j) {
        if j < |es| {
          assert KeyAt(es, i) != KeyAt(es, j);
        } else {
          assert r[i] == es[i];
        }
      }
    }
  }

  lemma FindCons(e: Entry, es: seq<Entry>, key: string)
    ensures Find([e] + es, key) == if e.key == key then Some(e.value) else Find(es, key)
  {
    var s := [e] + es;
    if e.key == key {
      IndexOfUnique(s, key, 0);
    } else {
      match IndexOf(es, key)
      case Some(i) =>
        assert s[i + 1] == es[i];
        assert forall j :: 0 <= j < i + 1 ==> s[j].key != key by {
          forall j | 0 < j < i + 1 ensures s[j].key != key {
            assert s[j] == es[j - 1];
          }
        }
        IndexOfUnique(s, key, i + 1);
      case None =>
        assert forall j :: 0 <= j < |s| ==> s[j].key != key by {
          forall j | 0 < j < |s| ensures s[j].key != key {
            assert s[j] == es[j - 1];
          }
        }
    }
  }

  lemma FindSnoc(es: seq<Entry>, e: Entry, key: string)
    ensures Find(es + [e], key)
         == if Find(es, key).Some? then Find(es, key) else if e.key == key then Some(e.value) else None
  {
    var s := es + [e];
    match IndexOf(es, key)
    case Some(i) =>
      IndexOfUnique(s, key, i);
    case None =>
      if e.key == key {
        IndexOfUnique(s, key, |es|);
      } else {
        assert forall j :: 0 <= j < |s| ==> s[j].key != key;
      }
  }

  /**
   `$array[$key] = $value`: an existing key keeps its position and gets
   the new value; a new key is appended.
   */
  function Insert(es: seq<Entry>, key: string, v: Value): (r: seq<Entry>)
    ensures Find(r, key) == Some(v)
    ensures forall k :: k != key ==> Find(r, k) == Find(es, k)
    ensures HasKey(es, key) ==> |r| == |es|
    ensures !HasKey(es, key) ==> r == es + [Entry(key, v)]
    ensures forall i :: 0 <= i < |es| ==> r[i].key == es[i].key
    ensures KeysDistinct(es) ==> KeysDistinct(r)
  {
    match IndexOf(es, key)
    case Some(i) =>
      var r := es[i := Entry(key, v)];
      IndexOfUnique(r, key, i);
      ReplaceKeepsOthers(es, i, Entry(key, v));
      SameKeysDistinct(es, r);
      r
    case None =>
      var r := es + [Entry(key, v)];
      FindSnoc(es, Entry(key, v), key);
      SnocKeepsOthers(es, Entry(key, v));
      SnocDistinct(es, Entry(key, v));
      r
  }

  lemma ReplaceKeepsOthers(es: seq<Entry>, i: nat, e: Entry)
    requires i < |es| && es[i].key == e.key
    ensures forall k :: k != e.key ==> Find(es[i := e], k) == Find(es, k)
  {
    var r := es[i := e];
    forall k | k != e.key ensures Find(r, k) == Find(es, k) {
      match IndexOf(es, k)
      case Some(m) => IndexOfUnique(r, k, m);
      case None => assert forall j :: 0 <= j < |r| ==> r[j].key != k;
    }
  }

  lemma SnocKeepsOthers(es: seq<Entry>, e: Entry)
    ensures forall k :: k != e.key ==> Find(es + [e], k) == Find(es, k)
  {
    forall k | k != e.key ensures Find(es + [e], k) == Find(es, k) {
      FindSnoc(es, e, k);
    }
  }

  /**
   `$left + $right`: the entries of `left`, then those of `right` whose
   key `left` lacks, in order. The left operand wins on a shared key.
   */
  function Union(left: seq<Entry>, right: seq<Entry>): (r: seq<Entry>)
    ensures forall k :: Find(r, k) == if Find(left, k).Some? then Find(left, k) else Find(right, k)
    ensures |left| <= |r| && r[..|left|] == left
    ensures KeysDistinct(left) ==> KeysDistinct(r)
    decreases |right|
  {
    if right == [] then left
    else
      var e := right[0];
      var left' := if HasKey(left, e.key) then left else left + [e];
      var r := Union(left', right[1..]);
      UnionStep(left, right);
      AddDistinct(left, e);
      assert r[..|left|] == r[..|left'|][..|left|];
      r
  }

  /** The union's step adds an entry only under a new key. */
  lemma AddDistinct(left: seq<Entry>, e: Entry)
    ensures KeysDistinct(left) ==> KeysDistinct(if HasKey(left, e.key) then left else left + [e])
  {
    if !HasKey(left, e.key) {
      SnocDistinct(left, e);
    }
  }

  /** One step of the union: `right[0]` is added exactly when `left` lacks its key. */
  lemma UnionStep(left: seq<Entry>, right: seq<Entry>)
    requires right != []
    ensures forall k ::
      Find(if HasKey(left, right[0].key) then left else left + [right[0]], k)
        == if Find(left, k).Some? then Find(left, k)
           else if right[0].key == k then Some(right[0].value) else None
    ensures forall k :: Find(right, k) == if right[0].key == k then Some(right[0].value) else Find(right[1..], k)
  {
    var e := right[0];
    assert right == [e] + right[1..];
    forall k ensures Find(right, k) == if e.key == k then Some(e.value) else Find(right[1..], k) {
      FindCons(e, right[1..], k);
    }
    forall k ensures Find(if HasKey(left, e.key) then left else left + [e], k)
        == if Find(left, k).Some? then Find(left, k) else if e.key == k then Some(e.value) else None {
      if !HasKey(left, e.key) {
        FindSnoc(left, e, k);
      }
    }
  }

  /** A list: the keys are "0", "1", ... in order. */
  predicate IsList(es: seq<Entry>) {
    forall i :: 0 <= i < |es| ==> es[i].key == Decimal(i)
  }

  /** `$list[] = $item` for each item, starting from an empty array. */
  function ListOf(items: seq<Value>): (r: seq<Entry>)
    ensures |r| == |items| && IsList(r)
    ensures forall i :: 0 <= i < |items| ==> r[i].value == items[i]
  {
    seq(|items|, i requires 0 <= i < |items| => Entry(Decimal(i), items[i]))
  }

  /** The values of an array, in order. */
  function ValuesOf(es: seq<Entry>): (r: seq<Value>)
    ensures |r| == |es|
    ensures forall i :: 0 <= i < |es| ==> r[i] == es[i].value
  {
    seq(|es|, i requires 0 <= i < |es| => es[i].value)
  }

  /** A list is determined by its values. */
  lemma ListOfValues(es: seq<Entry>)
    requires IsList(es)
    ensures ListOf(ValuesOf(es)) == es
  {
  }

  lemma ListKeysDistinct(items: seq<Value>)
    ensures KeysDistinct(ListOf(items))
  {
    var r := ListOf(items);
    forall i, j | 0 <= i < j < |r| ensures r[i].key != r[j].key {
      assert DecimalValue(Decimal(i)) != DecimalValue(Decimal(j));
    }
  }

  /**
   Looking a key up in a list: it is found exactly when it is the
   canonical spelling of an index below the length, and then it yields the
   item at that index.
   */
  lemma ListLookup(items: seq<Value>, key: string)
    ensures Find(ListOf(items), key).Some? <==> CanonicalIndex(key) && DecimalValue(key) < |items|
    ensures Find(ListOf(items), key).Some? ==> Find(ListOf(items), key) == Some(items[DecimalValue(key)])
  {
    var r := ListOf(items);
    if CanonicalIndex(key) && DecimalValue(key) < |items| {
      var n := DecimalValue(key);
      CanonicalUnique(Decimal(n), key);
      forall j | 0 <= j < n ensures r[j].key != key {
        assert DecimalValue(Decimal(j)) == j;
      }
      IndexOfUnique(r, key, n);
    }
  }

  /** `isset($node[$key])` followed by `$node[$key]`: only arrays have members here. */
  function Child(v: Value, key: string): (r: Option<Value>)
    ensures r.Some? <==> v.Arr? && HasKey(v.entries, key)
  {
    if v.Arr? then Find(v.entries, key) else None
  }

  /** PHP's `empty()` on a value. */
  predicate Empty(v: Value) {
    match v
    case Arr(es) => es == []
    case Str(s) => !Truthy(s)
    case Num(n) => n == 0
    case Ref(_) => false
  }
}
