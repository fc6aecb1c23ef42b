/**
 * The order in which `Object.keys(completions).sort()` lists date keys.
 *
 * `Array.prototype.sort` with no comparator compares strings element by
 * element; a proper prefix comes first. `LexLess` is that comparison and
 * `SortedKeys` is the key list it produces.
 */
module KeyOrder {

  /** The default string comparison of `Array.prototype.sort`. */
  predicate LexLess(a: string, b: string)
  {
    if |a| == 0 then |b| > 0
    else if |b| == 0 then false
    else if a[0] != b[0] then a[0] < b[0]
    else LexLess(a[1..], b[1..])
  }

  lemma {:induction false} LexIrreflexive(a: string)
    ensures !LexLess(a, a)
  {
    if |a| > 0 {
      LexIrreflexive(a[1..]);
    }
  }

  lemma {:induction false} LexTransitive(a: string, b: string, c: string)
    requires LexLess(a, b) && LexLess(b, c)
    ensures LexLess(a, c)
  {
    if |a| > 0 && |b| > 0 && |c| > 0 && a[0] == b[0] == c[0] {
      LexTransitive(a[1..], b[1..], c[1..]);
    }
  }

  /** Any two distinct strings are ordered one way or the other. */
  lemma {:induction false} LexTotal(a: string, b: string)
    ensures a == b || LexLess(a, b) || LexLess(b, a)
  {
    if |a| > 0 && |b| > 0 && a[0] == b[0] {
      LexTotal(a[1..], b[1..]);
      if a[1..] == b[1..] {
        assert a == [a[0]] + a[1..] && b == [b[0]] + b[1..];
      }
    }
  }

  lemma {:induction false} LexAsymmetric(a: string, b: string)
    ensures !(LexLess(a, b) && LexLess(b, a))
  {
    if LexLess(a, b) && LexLess(b, a) {
      LexTransitive(a, b, a);
      LexIrreflexive(a);
    }
  }

  /** Comparing two concatenations whose first parts have the same length. */
  lemma {:induction false} LexConcat(p: string, q: string, s: string, t: string)
    requires |p| == |q|
    ensures LexLess(p + s, q + t) <==> LexLess(p, q) || (p == q && LexLess(s, t))
  {
    if |p| > 0 {
      assert (p + s)[1..] == p[1..] + s;
      assert (q + t)[1..] == q[1..] + t;
      LexConcat(p[1..], q[1..], s, t);
      if p[0] == q[0] && p[1..] == q[1..] {
        assert p == [p[0]] + p[1..] && q == [q[0]] + q[1..];
      }
    } else {
      assert p + s == s && q + t == t;
    }
  }

  predicate StrictlyIncreasing(s: seq<string>) {
    forall i, j :: 0 <= i < j < |s| ==> LexLess(s[i], s[j])
  }

  /** `k` is the first of `keys` in sort order. */
  predicate IsLeast(k: string, keys: set<string>) {
    k in keys && forall j :: j in keys ==> !LexLess(j, k)
  }

  lemma {:induction false} LeastExists(keys: set<string>)
    requires keys != {}
    ensures exists k :: IsLeast(k, keys)
    decreases |keys|
  {
    var x :| x in keys;
    LexIrreflexive(x);
    var rest := keys - {x};
    if rest != {} {
      LeastExists(rest);
      var y :| IsLeast(y, rest);
      if LexLess(x, y) {
        forall j | j in rest
          ensures !LexLess(j, x)
        {
          if LexLess(j, x) {
            LexTransitive(j, x, y);
          }
        }
        assert IsLeast(x, keys);
      } else {
        assert IsLeast(y, keys);
      }
    } else {
      assert keys == {x};
      assert IsLeast(x, keys);
    }
  }

  lemma LeastUnique(keys: set<string>)
    ensures forall k, k' :: IsLeast(k, keys) && IsLeast(k', keys) ==> k == k'
  {
    forall k, k' | IsLeast(k, keys) && IsLeast(k', keys)
      ensures k == k'
    {
      LexTotal(k, k');
    }
  }

  lemma SortedCons(k: string, rest: seq<string>, keys: set<string>)
    requires IsLeast(k, keys) && StrictlyIncreasing(rest)
    requires forall j :: j in rest <==> j in keys - {k}
    ensures StrictlyIncreasing([k] + rest)
  {
    var r := [k] + rest;
    forall i, j | 0 <= i < j < |r|
      ensures LexLess(r[i], r[j])
    {
      if i == 0 {
        assert r[j] == rest[j - 1] && r[j] in keys - {k};
        LexTotal(k, r[j]);
      }
    }
  }

  /** The keys of a completion map in the order `.sort()` gives them: least key first. */
  function SortedKeys(keys: set<string>): (r: seq<string>)
    ensures |r| == |keys| && forall k :: k in r <==> k in keys
    decreases |keys|
  {
    if keys == {} then []
    else
      LeastExists(keys);
      LeastUnique(keys);
      var k :| IsLeast(k, keys);
      [k] + SortedKeys(keys - {k})
  }

  /** The listing is in strictly increasing order. */
  lemma {:induction false} SortedKeysIncreasing(keys: set<string>)
    ensures StrictlyIncreasing(SortedKeys(keys))
    decreases |keys|
  {
    if keys != {} {
      LeastExists(keys);
      LeastUnique(keys);
      var k :| IsLeast(k, keys);
      SortedKeysIncreasing(keys - {k});
      SortedCons(k, SortedKeys(keys - {k}), keys);
    }
  }

  /** A strictly increasing list is determined by its elements. */
  lemma {:induction false} StrictlyIncreasingUnique(s: seq<string>, t: seq<string>)
    requires StrictlyIncreasing(s) && StrictlyIncreasing(t)
    requires forall k :: k in s <==> k in t
    ensures s == t
  {
    assert |s| > 0 ==> s[0] in s;
    assert |t| > 0 ==> t[0] in t;
    if |s| > 0 {
      assert s[0] in t && t[0] in s;
      if s[0] != t[0] {
        var i :| 0 <= i < |s| && s[i] == t[0];
        var j :| 0 <= j < |t| && t[j] == s[0];
        LexAsymmetric(s[0], t[0]);
      }
      forall k | k in s[1..]
        ensures k in t[1..]
      {
        var i :| 1 <= i < |s| && s[i] == k;
        LexIrreflexive(k);
        assert k != t[0] && k in s && k in t;
        var j :| 0 <= j < |t| && t[j] == k;
        assert t[1..][j - 1] == k;
      }
      forall k | k in t[1..]
        ensures k in s[1..]
      {
        var i :| 1 <= i < |t| && t[i] == k;
        LexIrreflexive(k);
        assert k != s[0] && k in t && k in s;
        var j :| 0 <= j < |s| && s[j] == k;
        assert s[1..][j - 1] == k;
      }
      StrictlyIncreasingUnique(s[1..], t[1..]);
      assert s == [s[0]] + s[1..] && t == [t[0]] + t[1..];
    }
  }

  /** SortedKeys gives the one strictly increasing listing of the keys. */
  lemma SortedKeysUnique(keys: set<string>, s: seq<string>)
    requires StrictlyIncreasing(s) && forall k :: k in s <==> k in keys
    ensures SortedKeys(keys) == s
  {
    SortedKeysIncreasing(keys);
    StrictlyIncreasingUnique(SortedKeys(keys), s);
  }

  /**
   * In a strictly increasing list, a member `y` after `s[p]` with nothing
   * of the list strictly between them comes right after `s[p]`.
   */
  lemma SortedNext(s: seq<string>, p: int, y: string)
    requires StrictlyIncreasing(s) && 0 <= p < |s| && y in s && LexLess(s[p], y)
    requires forall z :: z in s ==> !(LexLess(s[p], z) && LexLess(z, y))
    ensures p + 1 < |s| && s[p + 1] == y
  {
    var q :| 0 <= q < |s| && s[q] == y;
    LexIrreflexive(y);
    LexAsymmetric(s[p], y);
  }

  /** Consecutive entries of `w` increase and no member of `s` sorts strictly between them. */
  predicate Gapless(s: seq<string>, w: seq<string>) {
    forall j :: 0 <= j < |w| - 1 ==>
      LexLess(w[j], w[j + 1]) && forall z :: z in s ==> !(LexLess(w[j], z) && LexLess(z, w[j + 1]))
  }

  /**
   * A gapless block `w` of members of a strictly increasing list `s`
   * occupies consecutive positions of `s`, starting where `w[0]` is.
   */
  lemma {:induction false} SortedBlock(s: seq<string>, w: seq<string>, p: int, i: int)
    requires StrictlyIncreasing(s) && Gapless(s, w)
    requires forall k :: k in w ==> k in s
    requires 0 <= p < |s| && 0 <= i < |w| && s[p] == w[0]
    ensures p + i < |s| && s[p + i] == w[i]
  {
    if i > 0 {
      SortedBlock(s, w, p, i - 1);
      assert w[i] in w;
      SortedNext(s, p + i - 1, w[i]);
    }
  }

  /** The whole block: `w` is the slice of `s` that starts where `w[0]` is. */
  lemma SortedBlockSlice(s: seq<string>, w: seq<string>, p: int)
    requires StrictlyIncreasing(s) && Gapless(s, w)
    requires forall k :: k in w ==> k in s
    requires 0 <= p < |s| && 0 < |w| && s[p] == w[0]
    ensures p + |w| <= |s| && s[p..p + |w|] == w
  {
    SortedBlock(s, w, p, |w| - 1);
    forall i | 0 <= i < |w|
      ensures s[p + i] == w[i]
    {
      SortedBlock(s, w, p, i);
    }
  }
}
