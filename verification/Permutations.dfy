/** Facts about sequences with the same elements. */
module Permutations {
  function Without<T>(s: seq<T>, j: nat): seq<T>
    requires j < |s|
  {
    s[..j] + s[j + 1..]
  }

  lemma RemoveAt<T>(s: seq<T>, j: nat)
    requires j < |s|
    ensures multiset(Without(s, j)) == multiset(s) - multiset{s[j]}
  {
    assert s == s[..j] + [s[j]] + s[j + 1..];
  }

  /** Two positions of one sequence correspond to two positions of a permutation of it. */
  lemma TwoPositions<T>(a: seq<T>, b: seq<T>, i: nat, j: nat) returns (k: nat, m: nat)
    requires multiset(a) == multiset(b) && i < j < |b|
    ensures k < |a| && m < |a| && k != m && a[k] == b[j] && a[m] == b[i]
  {
    RemoveAt(b, j);
    assert b[j] in multiset(a);
    k :| 0 <= k < |a| && a[k] == b[j];
    RemoveAt(a, k);
    assert Without(b, j)[i] == b[i];
    assert b[i] in multiset(Without(b, j));
    assert b[i] in multiset(Without(a, k));
    var n :| 0 <= n < |Without(a, k)| && Without(a, k)[n] == b[i];
    m := if n < k then n else n + 1;
  }

  /** The first element of one sequence, found in a permutation of it. */
  lemma FindFirst<T>(a: seq<T>, b: seq<T>) returns (j: nat)
    requires a != [] && multiset(a) == multiset(b)
    ensures j < |b| && b[j] == a[0] && multiset(a[1..]) == multiset(Without(b, j))
  {
    assert a[0] in multiset(b);
    j :| 0 <= j < |b| && b[j] == a[0];
    RemoveAt(a, 0);
    RemoveAt(b, j);
    assert Without(a, 0) == a[1..];
  }
}
