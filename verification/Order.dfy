/** Total preorders given by a comparison, and permutations of a range of a sequence. */
module Order {

  ghost predicate TotalPreorder<T(!new)>(cmp: (T, T) -> int) {
    (forall x, y :: cmp(x, y) < 0 <==> cmp(y, x) > 0) &&
    (forall x, y, z :: cmp(x, y) <= 0 && cmp(y, z) <= 0 ==> cmp(x, z) <= 0)
  }

  /** Replacing one side of a comparison by an equal element keeps its sign. */
  lemma EqualSubstitutes<T(!new)>(cmp: (T, T) -> int, x: T, y: T, p: T)
    requires TotalPreorder(cmp) && cmp(y, p) == 0
    ensures cmp(p, y) == 0
    ensures (cmp(x, y) < 0 <==> cmp(x, p) < 0) && (cmp(x, y) > 0 <==> cmp(x, p) > 0)
    ensures (cmp(y, x) < 0 <==> cmp(x, p) > 0) && (cmp(y, x) > 0 <==> cmp(x, p) < 0)
  {
    assert cmp(p, y) == 0;
    assert cmp(x, y) <= 0 ==> cmp(x, p) <= 0;
    assert cmp(x, p) <= 0 ==> cmp(x, y) <= 0;
    assert cmp(y, x) <= 0 ==> cmp(p, x) <= 0;
    assert cmp(p, x) <= 0 ==> cmp(y, x) <= 0;
  }

  lemma StrictThrough<T(!new)>(cmp: (T, T) -> int, x: T, p: T, y: T)
    requires TotalPreorder(cmp)
    requires (cmp(x, p) < 0 && cmp(p, y) <= 0) || (cmp(x, p) <= 0 && cmp(p, y) < 0)
    ensures cmp(x, y) < 0
  {
    assert cmp(x, y) <= 0;
    assert cmp(y, x) <= 0 && cmp(p, y) <= 0 ==> cmp(p, x) <= 0;
    assert cmp(y, x) <= 0 && cmp(x, p) <= 0 ==> cmp(y, p) <= 0;
  }

  function Swapped<T>(s: seq<T>, x: nat, y: nat): (t: seq<T>)
    requires x < |s| && y < |s|
    ensures |t| == |s|
  {
    s[x := s[y]][y := s[x]]
  }

  /** `t` is `s` with the elements at lo..hi rearranged. */
  ghost predicate Rearranged<T>(s: seq<T>, t: seq<T>, lo: nat, hi: nat) {
    lo <= hi <= |s| == |t| &&
    s[..lo] == t[..lo] && s[hi..] == t[hi..] && multiset(s[lo..hi]) == multiset(t[lo..hi])
  }

  lemma SwapRearranges<T>(s: seq<T>, x: nat, y: nat, lo: nat, hi: nat)
    requires lo <= x < hi <= |s| && lo <= y < hi
    ensures Rearranged(s, Swapped(s, x, y), lo, hi)
  {
    var r := s[lo..hi];
    assert Swapped(s, x, y)[lo..hi] == r[x - lo := s[y]][y - lo := s[x]];
  }

  /** A rearrangement of a part is a rearrangement of the whole. */
  lemma WidenRearranged<T>(s: seq<T>, t: seq<T>, lo: nat, hi: nat, lo': nat, hi': nat)
    requires Rearranged(s, t, lo, hi) && lo' <= lo && hi <= hi' <= |s|
    ensures Rearranged(s, t, lo', hi')
  {
    assert s[lo'..hi'] == s[lo'..lo] + s[lo..hi] + s[hi..hi'];
    assert t[lo'..hi'] == t[lo'..lo] + t[lo..hi] + t[hi..hi'];
    assert s[lo'..lo] == s[..lo][lo'..] == t[..lo][lo'..] == t[lo'..lo];
    assert s[hi..hi'] == s[hi..][..hi' - hi] == t[hi..][..hi' - hi] == t[hi..hi'];
    assert s[..lo'] == s[..lo][..lo'] == t[..lo][..lo'] == t[..lo'];
    assert s[hi'..] == s[hi..][hi' - hi..] == t[hi..][hi' - hi..] == t[hi'..];
  }

  /** Every element of the rearranged range was in the range before. */
  lemma FromRange<T>(s: seq<T>, t: seq<T>, lo: nat, hi: nat, k: nat) returns (j: nat)
    requires Rearranged(s, t, lo, hi) && lo <= k < hi
    ensures lo <= j < hi && s[j] == t[k]
  {
    assert t[k] == t[lo..hi][k - lo];
    assert t[k] in multiset(t[lo..hi]);
    assert t[k] in s[lo..hi];
    var i :| 0 <= i < |s[lo..hi]| && s[lo..hi][i] == t[k];
    j := lo + i;
  }

  lemma SameOutside<T>(s: seq<T>, t: seq<T>, lo: nat, hi: nat, k: nat)
    requires Rearranged(s, t, lo, hi) && k < |s| && (k < lo || hi <= k)
    ensures s[k] == t[k]
  {
    if k < lo {
      assert s[k] == s[..lo][k] && t[k] == t[..lo][k];
    } else {
      assert s[k] == s[hi..][k - hi] && t[k] == t[hi..][k - hi];
    }
  }

  // ----- Multisets

  lemma UnionShuffle<T>(a: multiset<T>, b: multiset<T>, c: multiset<T>)
    ensures (a + b) + c == (a + c) + b == a + (b + c)
  {
  }

  lemma MultisetCancel<T>(a: multiset<T>, b: multiset<T>, x: T)
    requires a + multiset{x} == b + multiset{x}
    ensures a == b
  {
    forall y: T
      ensures a[y] == b[y]
    {
      assert (a + multiset{x})[y] == (b + multiset{x})[y];
    }
  }

  lemma MultisetRemoveAt<T>(t: seq<T>, k: nat)
    requires k < |t|
    ensures multiset(t) == multiset(t[..k] + t[k + 1..]) + multiset{t[k]}
  {
    assert t == t[..k] + [t[k]] + t[k + 1..];
    UnionShuffle(multiset(t[..k]), multiset{t[k]}, multiset(t[k + 1..]));
  }

  lemma MultisetOfConcat<T>(s: seq<T>, t: seq<T>)
    ensures multiset(s + t) == multiset(s) + multiset(t)
  {
  }
}
