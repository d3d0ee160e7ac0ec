/**
 A `:alias` value. The only behaviour of the PHP class is `getIndexes()`,
 which splits the reference on '/' (PHP's `explode`).
 */
module ResourceAlias {

  datatype Alias = Alias(ref: string)

  /** getIndexes(): the '/'-separated segments of the reference. */
  function GetIndexes(a: Alias): (segs: seq<string>)
    ensures |segs| >= 1
    ensures |segs| == Slashes(a.ref) + 1
    ensures forall i :: 0 <= i < |segs| ==> NoSlash(segs[i])
    ensures Join(segs) == a.ref
  {
    Split(a.ref)
  }

  predicate NoSlash(s: string) {
    forall i :: 0 <= i < |s| ==> s[i] != '/'
  }

  function Slashes(s: string): nat {
    if s == [] then 0 else (if s[0] == '/' then 1 else 0) + Slashes(s[1..])
  }

  /** explode('/', s): never empty; a string without '/' is its own only segment. */
  function Split(s: string): (segs: seq<string>)
    ensures |segs| >= 1
    ensures |segs| == Slashes(s) + 1
    ensures forall i :: 0 <= i < |segs| ==> NoSlash(segs[i])
    ensures Join(segs) == s
    decreases |s|
  {
    if s == [] then [""]
    else if s[0] == '/' then
      var t := Split(s[1..]);
      assert Join([""] + t) == "/" + Join(t) by {
        assert ([""] + t)[1..] == t;
      }
      assert s == "/" + s[1..];
      [""] + t
    else
      var t := Split(s[1..]);
      var segs := [[s[0]] + t[0]] + t[1..];
      JoinConsChar(s[0], t);
      assert s == [s[0]] + s[1..];
      segs
  }

  /** implode('/', segs). */
  function Join(segs: seq<string>): string
    requires |segs| >= 1
  {
    if |segs| == 1 then segs[0] else segs[0] + "/" + Join(segs[1..])
  }

  lemma JoinConsChar(c: char, t: seq<string>)
    requires |t| >= 1
    ensures Join([[c] + t[0]] + t[1..]) == [c] + Join(t)
  {
    assert t == [t[0]] + t[1..];
    JoinCons([c] + t[0], t[1..]);
    JoinCons(t[0], t[1..]);
    if |t| > 1 {
      var rest := Join(t[1..]);
      Assoc([c], t[0] + "/", rest);
      Assoc([c], t[0], "/");
    }
  }

  lemma Assoc(a: string, b: string, d: string)
    ensures a + (b + d) == (a + b) + d
  {
  }

  /** Joining a first segment onto the rest. */
  lemma JoinCons(a: string, r: seq<string>)
    ensures Join([a] + r) == if r == [] then a else a + "/" + Join(r)
  {
    if r != [] {
      assert ([a] + r)[1..] == r;
    }
  }

  /** Splitting a segment free of '/' followed by '/' peels off exactly that segment. */
  lemma {:induction false} SplitSlash(x: string, y: string)
    requires NoSlash(x)
    ensures Split(x + "/" + y) == [x] + Split(y)
    decreases |x|
  {
    if x == [] {
      assert x + "/" + y == "/" + y;
      assert ("/" + y)[1..] == y;
    } else {
      var s := x + "/" + y;
      assert s[0] == x[0] && s[1..] == x[1..] + "/" + y;
      SplitSlash(x[1..], y);
      assert [x[0]] + x[1..] == x;
    }
  }

  lemma {:induction false} SplitNoSlash(x: string)
    requires NoSlash(x)
    ensures Split(x) == [x]
    decreases |x|
  {
    if x != [] {
      SplitNoSlash(x[1..]);
      assert [x[0]] + x[1..] == x;
    }
  }

  /** explode inverts implode on segments that contain no '/'. */
  lemma {:induction false} SplitJoin(segs: seq<string>)
    requires |segs| >= 1
    requires forall i :: 0 <= i < |segs| ==> NoSlash(segs[i])
    ensures Split(Join(segs)) == segs
    decreases |segs|
  {
    if |segs| == 1 {
      SplitNoSlash(segs[0]);
    } else {
      SplitJoin(segs[1..]);
      SplitSlash(segs[0], Join(segs[1..]));
    }
  }
}
