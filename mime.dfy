/** MIME types as (type, subtype) pairs, the type-level wildcard, and the order in which
    `save` writes keys. */
module Mimes {
  import opened Text

  datatype RawMime = RawMime(top: string, sub: string)

  /** What the `mime` crate guarantees of every value it hands out: both halves present
      and neither containing the `/` separator. */
  predicate WellFormed(m: RawMime) {
    |m.top| > 0 && |m.sub| > 0 && '/' !in m.top && '/' !in m.sub
  }

  type Mime = m: RawMime | WellFormed(m) witness RawMime("text", "plain")

  const TextPlain: Mime := RawMime("text", "plain")
  const TerminalScheme: Mime :=
    var top := "x-scheme-handler";
    assert forall i :: 0 <= i < |top| ==> top[i] != '/';
    RawMime(top, "terminal")

  /** `Mime::essence_str` (and `to_string` of a parameter-free MIME type). */
  function Essence(m: Mime): string {
    m.top + "/" + m.sub
  }

  /** `format!("{}/{}", mime.type_(), "*")`, parsed back: the type-level wildcard. */
  function Wildcard(m: Mime): (w: Mime)
    ensures w.top == m.top && w.sub == "*"
    ensures Essence(w) == m.top + "/*"
  {
    RawMime(m.top, "*")
  }

  lemma {:induction false} FirstIndexAfterPrefix(t: string, u: string, c: char)
    requires c !in t
    ensures FirstIndex(t + [c] + u, c) == |t|
  {
    if |t| > 0 {
      assert (t + [c] + u)[1..] == t[1..] + [c] + u;
      FirstIndexAfterPrefix(t[1..], u, c);
    }
  }

  /** Distinct MIME types have distinct essence strings. */
  lemma EssenceInjective(a: Mime, b: Mime)
    requires Essence(a) == Essence(b)
    ensures a == b
  {
    var s := Essence(a);
    FirstIndexAfterPrefix(a.top, a.sub, '/');
    FirstIndexAfterPrefix(b.top, b.sub, '/');
    assert |a.top| == |b.top|;
    assert a.top == s[..|a.top|] == b.top;
    assert a.sub == s[|a.top| + 1..] == b.sub;
  }

  /** The `Ord` of `Mime`: the order of its text. */
  predicate MimeLt(a: Mime, b: Mime) {
    LexLt(Essence(a), Essence(b))
  }

  lemma MimeLtTotal(a: Mime, b: Mime)
    requires a != b
    ensures MimeLt(a, b) || MimeLt(b, a)
  {
    if Essence(a) == Essence(b) { EssenceInjective(a, b); }
    LexLtTotal(Essence(a), Essence(b));
  }

  predicate IsLeast(k: Mime, s: set<Mime>) {
    k in s && forall j :: j in s && j != k ==> MimeLt(k, j)
  }

  /** Every non-empty set of MIME types has a least element. */
  lemma {:induction false} LeastExists(s: set<Mime>)
    requires s != {}
    ensures exists k :: IsLeast(k, s)
    decreases |s|
  {
    var x :| x in s;
    if s != {x} {
      var rest := s - {x};
      LeastExists(rest);
      var y :| IsLeast(y, rest);
      MimeLtTotal(x, y);
      if MimeLt(x, y) {
        forall j | j in s && j != x ensures MimeLt(x, j) {
          if j != y {
            assert j in rest;
            assert MimeLt(y, j);
            LexLtTransitive(Essence(x), Essence(y), Essence(j));
          }
        }
        assert IsLeast(x, s);
      } else {
        assert IsLeast(y, s);
      }
    } else {
      assert IsLeast(x, s);
    }
  }

  lemma LeastUnique(k1: Mime, k2: Mime, s: set<Mime>)
    requires IsLeast(k1, s) && IsLeast(k2, s)
    ensures k1 == k2
  {
    if k1 != k2 { LexLtAsymmetric(Essence(k1), Essence(k2)); }
  }

  predicate StrictlySorted(ks: seq<Mime>) {
    forall i, j :: 0 <= i < j < |ks| ==> MimeLt(ks[i], ks[j])
  }

  /** The keys of a map in the order `iter().sorted()` visits them. */
  ghost function SortedKeys(s: set<Mime>): (ks: seq<Mime>)
    ensures StrictlySorted(ks)
    ensures |ks| == |s|
    ensures forall k :: k in ks <==> k in s
    decreases |s|
  {
    if s == {} then []
    else
      LeastExists(s);
      var k :| IsLeast(k, s);
      var rest := SortedKeys(s - {k});
      assert forall j :: j in rest ==> MimeLt(k, j);
      [k] + rest
  }

  /** The first key written is the least one, and the rest follow in the same order. */
  lemma SortedKeysUnfold(s: set<Mime>, k: Mime)
    requires IsLeast(k, s)
    ensures SortedKeys(s) == [k] + SortedKeys(s - {k})
  {
    var ks := SortedKeys(s);
    assert ks[0] in s;
    forall j | j in s && j != ks[0] ensures MimeLt(ks[0], j) {
      var i :| 0 <= i < |ks| && ks[i] == j;
      assert i != 0;
    }
    LeastUnique(k, ks[0], s);
  }

  lemma HeadIsLeast(a: seq<Mime>, s: set<Mime>)
    requires a != [] && StrictlySorted(a)
    requires forall k :: k in a <==> k in s
    ensures IsLeast(a[0], s)
  {
    assert a[0] in a;
    forall j | j in s && j != a[0] ensures MimeLt(a[0], j) {
      var i :| 0 <= i < |a| && a[i] == j;
      assert i != 0;
    }
  }

  lemma TailKeys(a: seq<Mime>, s: set<Mime>)
    requires a != [] && StrictlySorted(a)
    requires forall k :: k in a <==> k in s
    ensures StrictlySorted(a[1..])
    ensures forall k :: k in a[1..] <==> k in s - {a[0]}
  {
    forall k ensures k in a[1..] <==> k in s - {a[0]} {
      if k in a[1..] {
        var i :| 1 <= i < |a| && a[i] == k;
        assert MimeLt(a[0], k);
        if k == a[0] { LexLtIrreflexive(Essence(k)); }
      }
      if k in s - {a[0]} {
        var j :| 0 <= j < |a| && a[j] == k;
        assert a[1..][j - 1] == k;
      }
    }
  }

  lemma NoKeys(s: set<Mime>)
    requires forall k :: k !in s
    ensures SortedKeys(s) == []
  {
    assert s == {};
  }

  /** A strictly sorted enumeration of a key set is the one `SortedKeys` gives. */
  lemma {:induction false} SortedEnumerationIsSortedKeys(a: seq<Mime>, s: set<Mime>)
    requires StrictlySorted(a)
    requires forall k :: k in a <==> k in s
    ensures a == SortedKeys(s)
    decreases |a|
  {
    if a == [] {
      NoKeys(s);
    } else {
      var k, rest := a[0], a[1..];
      HeadIsLeast(a, s);
      TailKeys(a, s);
      SortedEnumerationIsSortedKeys(rest, s - {k});
      SortedKeysUnfold(s, k);
      assert a == [k] + rest;
    }
  }

  /** Any two strictly sorted enumerations of the same keys are equal: `save`'s output does
      not depend on the map's internal order. */
  lemma SortedEnumerationUnique(a: seq<Mime>, b: seq<Mime>)
    requires StrictlySorted(a) && StrictlySorted(b)
    requires forall k :: k in a <==> k in b
    ensures a == b
  {
    var keys := set k | k in a;
    SortedEnumerationIsSortedKeys(a, keys);
    SortedEnumerationIsSortedKeys(b, keys);
  }
}
