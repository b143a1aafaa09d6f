/** Permutations of sequences, one element at a time. */
module Sequences {
  lemma Cancel<T>(a: multiset<T>, b: multiset<T>, c: multiset<T>)
    ensures c + a == b + c <==> a == b
  {
    assert c + a - c == a && b + c - c == b;
  }

  /** The first element of a sequence, located in a permutation of it; what is left is again a permutation. */
  lemma LocateFirst<T>(a: seq<T>, b: seq<T>) returns (left: seq<T>, right: seq<T>)
    requires a != [] && multiset(a) == multiset(b)
    ensures b == left + [a[0]] + right
    ensures multiset(a[1..]) == multiset(left + right)
    ensures |left| + |right| < |b|
  {
    assert a[0] in multiset(a);
    assert a[0] in multiset(b);
    var j :| 0 <= j < |b| && b[j] == a[0];
    left, right := b[..j], b[j + 1..];
    assert b == left + [a[0]] + right;
    RestAround(a, left, right);
  }

  lemma RestAround<T>(a: seq<T>, left: seq<T>, right: seq<T>)
    requires a != [] && multiset(a) == multiset(left + [a[0]] + right)
    ensures multiset(a[1..]) == multiset(left + right)
  {
    assert a == [a[0]] + a[1..];
    Cancel(multiset(a[1..]), multiset(left + right), multiset{a[0]});
  }

  lemma SameLength<T>(a: seq<T>, b: seq<T>)
    requires multiset(a) == multiset(b)
    ensures |a| == |b|
  {
    assert |multiset(a)| == |a| && |multiset(b)| == |b|;
  }

  /** Permutations with the same first element have permutations for tails. */
  lemma SameRest<T>(a: seq<T>, b: seq<T>)
    requires a != [] && b != [] && a[0] == b[0] && multiset(a) == multiset(b)
    ensures multiset(a[1..]) == multiset(b[1..])
  {
    assert a == [a[0]] + a[1..] && b == [b[0]] + b[1..];
    Cancel(multiset(a[1..]), multiset(b[1..]), multiset{a[0]});
  }
}
