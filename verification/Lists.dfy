/** Removing an element from a list without repetitions, as the linked lists of the runtime do. */
module Lists {
  function Without<T(==)>(s: seq<T>, x: T): seq<T> {
    if s == [] then []
    else if s[0] == x then s[1..]
    else [s[0]] + Without(s[1..], x)
  }

  ghost predicate IsDistinct<T>(s: seq<T>) {
    forall i, j | 0 <= i < j < |s| :: s[i] != s[j]
  }

  lemma {:induction false} WithoutSplit<T>(s: seq<T>, k: nat)
    requires k < |s| && s[k] !in s[..k]
    ensures Without(s, s[k]) == s[..k] + s[k + 1..]
    decreases k
  {
    if k > 0 {
      assert s[1..][k - 1] == s[k] && s[..k] == [s[0]] + s[1..][..k - 1];
      WithoutSplit(s[1..], k - 1);
      assert s[1..][k..] == s[k + 1..];
    }
  }

  lemma {:induction false} WithoutAbsent<T>(s: seq<T>, x: T)
    requires x !in s
    ensures Without(s, x) == s
  {
    if s != [] {
      WithoutAbsent(s[1..], x);
    }
  }

  /** Removing one of distinct elements removes exactly that one and keeps the order of the others. */
  lemma WithoutDistinct<T>(s: seq<T>, x: T)
    requires IsDistinct(s)
    ensures IsDistinct(Without(s, x)) && x !in Without(s, x)
    ensures forall y :: y in Without(s, x) <==> y in s && y != x
  {
    if x in s {
      var k :| 0 <= k < |s| && s[k] == x;
      WithoutSplit(s, k);
    } else {
      WithoutAbsent(s, x);
    }
  }
}
