/** Regroupings of concatenations, and lists with one element taken out. */
module Seqs {

  lemma Regroup<T>(a: seq<T>, b: seq<T>, c: seq<T>, d: seq<T>)
    ensures a + ((b + c) + d) == (a + b) + (c + d)
    ensures a + ((b + c) + d) == a + (b + (c + d))
    ensures (a + (b + c)) + d == a + (b + (c + d))
    ensures (b + c) + d == b + (c + d)
  {
  }

  lemma WithoutFirst<T>(s: seq<T>)
    requires s != []
    ensures multiset(s[1..]) == multiset(s) - multiset{s[0]}
  {
    assert s == [s[0]] + s[1..];
  }

  lemma WithoutAt<T>(s: seq<T>, j: nat)
    requires j < |s|
    ensures multiset(s[..j] + s[j + 1..]) == multiset(s) - multiset{s[j]}
  {
    assert s == s[..j] + [s[j]] + s[j + 1..];
  }

  /** Two permutations stay permutations without an element they share. */
  lemma SameWithout<T>(a: seq<T>, b: seq<T>, j: nat)
    requires multiset(a) == multiset(b) && a != [] && j < |b| && b[j] == a[0]
    ensures multiset(a[1..]) == multiset(b[..j] + b[j + 1..])
  {
    WithoutFirst(a);
    WithoutAt(b, j);
  }
}
