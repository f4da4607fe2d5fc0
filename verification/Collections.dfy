/** Small facts about sequences and sets that several models share. */
module Collections {

  predicate Distinct<T(==)>(s: seq<T>) { forall i, j :: 0 <= i < j < |s| ==> s[i] != s[j] }

  function Total(weights: seq<nat>): nat {
    if weights == [] then 0 else Total(weights[..|weights| - 1]) + weights[|weights| - 1]
  }

  lemma TotalNext(weights: seq<nat>, k: nat)
    requires k < |weights|
    ensures Total(weights[..k + 1]) == Total(weights[..k]) + weights[k]
  {
    assert weights[..k + 1][..k] == weights[..k];
  }

  lemma SubsetSmaller<T>(a: set<T>, b: set<T>)
    requires a <= b
    ensures |a| <= |b|
  {
    assert b == a + (b - a);
  }

  lemma SameSizeSubset<T>(a: set<T>, b: set<T>)
    requires a <= b && |a| == |b|
    ensures a == b
  {
    assert b == a + (b - a);
  }

  ghost function Image<T>(s: set<T>, f: T -> nat): set<nat> { set x | x in s :: f(x) }

  /** The numbers below `n`. */
  ghost function Below(n: nat): (s: set<nat>)
    ensures forall i: nat :: i in s <==> i < n
    ensures |s| == n
  {
    if n == 0 then {} else Below(n - 1) + {n - 1}
  }

  ghost predicate NumberedApart<T(!new)>(s: set<T>, f: T -> nat) { forall x, y :: x in s && y in s && x != y ==> f(x) != f(y) }

  lemma {:induction false} ImageSize<T(!new)>(s: set<T>, f: T -> nat)
    requires NumberedApart(s, f)
    ensures |Image(s, f)| == |s|
    decreases |s|
  {
    if s == {} {
      assert Image(s, f) == {};
    } else {
      var x :| x in s;
      ImageSize(s - {x}, f);
      assert Image(s, f) == Image(s - {x}, f) + {f(x)};
    }
  }

  ghost function Under<T>(s: set<T>, f: T -> nat, k: nat): set<T> { set x | x in s && f(x) < k }

  /** Of n elements numbered apart with numbers below n, min(k, n) have a number below k. */
  lemma NumberedUnder<T(!new)>(s: set<T>, f: T -> nat, k: nat)
    requires NumberedApart(s, f) && Under(s, f, |s|) == s
    ensures |Under(s, f, k)| == if k < |s| then k else |s|
  {
    var part := Under(s, f, k);
    var n := if k < |s| then k else |s|;
    ImageSize(s, f);
    ImageSize(part, f);
    SameSizeSubset(Image(s, f), Below(|s|));
    forall i | i in Below(n) ensures i in Image(part, f) {
      assert i in Image(s, f);
    }
    assert Image(part, f) == Below(n);
  }

  /** Euclidean division is unique. */
  lemma Remainder(q: nat, r: nat, d: nat)
    requires r < d
    ensures (q * d + r) / d == q && (q * d + r) % d == r
  {
    var n := q * d + r;
    var p, s := n / d, n % d;
    assert n == p * d + s && 0 <= s < d;
    if p < q {
      Scale(p + 1, q, d);
    } else if p > q {
      Scale(q + 1, p, d);
    }
  }

  lemma Scale(a: nat, b: nat, d: nat)
    requires a <= b
    ensures a * d <= b * d
  {
  }
}
