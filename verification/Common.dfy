/**
 What several components use.
 */
module Common {

  datatype Option<T> = None | Some(value: T)

  function Min(a: nat, b: nat): nat {
    if a < b then a else b
  }

  function Max(a: nat, b: nat): nat {
    if a < b then b else a
  }

  ghost predicate Distinct<T>(s: seq<T>) {
    forall i, j :: 0 <= i < j < |s| ==> s[i] != s[j]
  }

  lemma MulAtLeast(t: int, d: nat)
    requires t >= 1
    ensures t * d >= d
  {
  }

  lemma RestOf(q: nat, d: nat, r: nat)
    requires r < d
    ensures (q * d + r) % d == r
  {
    var t := (q * d + r) / d - q;
    assert (q * d + r) % d == r - t * d;
    if t >= 1 {
      MulAtLeast(t, d);
    } else if t <= -1 {
      MulAtLeast(-t, d);
    }
  }

  predicate PowerOfTwo(n: nat) {
    n == 1 || (n > 1 && n % 2 == 0 && PowerOfTwo(n / 2))
  }

  lemma OneIsPower()
    ensures PowerOfTwo(1)
  {
  }

  lemma PowerDoubles(n: nat)
    requires PowerOfTwo(n)
    ensures PowerOfTwo(2 * n)
  {
  }

  lemma {:induction false} PowersDivide(n: nat, m: nat)
    requires PowerOfTwo(n) && PowerOfTwo(m) && n <= m
    ensures exists k: nat :: m == k * n
    decreases m
  {
    if n == 1 {
      assert m == m * n;
    } else {
      PowersDivide(n / 2, m / 2);
      var k: nat :| m / 2 == k * (n / 2);
      assert m == k * n;
    }
  }
}
