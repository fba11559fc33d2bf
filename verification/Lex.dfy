/** Lexicographic order: the first place where two sequences differ decides, and a proper prefix comes first. */
module Lex {

  /** Up to place k they agree; there `a` ends or has the smaller element. */
  ghost predicate FirstDifference(a: seq<int>, b: seq<int>, k: nat) {
    k <= |a| && k < |b| && a[..k] == b[..k] && (k == |a| || a[k] < b[k])
  }

  ghost predicate Precedes(a: seq<int>, b: seq<int>) {
    exists k: nat :: FirstDifference(a, b, k)
  }

  lemma HeadsAgree(a: seq<int>, b: seq<int>, k: nat)
    requires FirstDifference(a, b, k)
    ensures 0 < k ==> a[0] == b[0]
  {
    assert 0 < k ==> a[0] == a[..k][0] && b[0] == b[..k][0];
  }

  lemma SameHead(a: seq<int>, b: seq<int>)
    requires a != [] && b != [] && a[0] == b[0]
    ensures Precedes(a, b) <==> Precedes(a[1..], b[1..])
  {
    if k: nat :| FirstDifference(a, b, k) {
      assert a[..k] == b[..k] && 0 < k;
      assert a[1..][..k - 1] == a[..k][1..] && b[1..][..k - 1] == b[..k][1..];
      assert FirstDifference(a[1..], b[1..], k - 1);
    }
    if k: nat :| FirstDifference(a[1..], b[1..], k) {
      assert a[..k + 1] == [a[0]] + a[1..][..k] && b[..k + 1] == [b[0]] + b[1..][..k];
      assert FirstDifference(a, b, k + 1);
    }
  }

  lemma OtherHead(a: seq<int>, b: seq<int>)
    requires a == [] || b == [] || a[0] != b[0]
    ensures Precedes(a, b) <==> b != [] && (a == [] || a[0] < b[0])
  {
    if k: nat :| FirstDifference(a, b, k) {
      HeadsAgree(a, b, k);
    }
    if b != [] && (a == [] || a[0] < b[0]) {
      assert FirstDifference(a, b, 0);
    }
  }

  /** Exactly one of the three holds. */
  lemma {:induction false} Trichotomy(a: seq<int>, b: seq<int>)
    ensures a == b ==> !Precedes(a, b)
    ensures a != b ==> (Precedes(a, b) <==> !Precedes(b, a))
    decreases |a|
  {
    if a != [] && b != [] && a[0] == b[0] {
      SameHead(a, b);
      SameHead(b, a);
      Trichotomy(a[1..], b[1..]);
      assert a == [a[0]] + a[1..] && b == [b[0]] + b[1..];
    } else {
      OtherHead(a, b);
      OtherHead(b, a);
    }
  }
}
