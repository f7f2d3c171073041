/** Facts about duplicate-free sequences, used for the intrusive lists of the
    allocator (the big-block list and the two defer-slot lists). */
module Sequences {

  /** No element occurs twice. */
  ghost predicate NoDup<T(!new)>(l: seq<T>) {
    forall x :: multiset(l)[x] <= 1
  }

  /** The pairwise form of NoDup: positions holding equal elements are equal. */
  ghost predicate Distinct<T>(l: seq<T>) {
    forall i, j :: 0 <= i < j < |l| ==> l[i] != l[j]
  }

  /** A non-empty sequence is duplicate-free when its head is not in its
      tail and its tail is duplicate-free. */
  lemma NoDupCons<T(!new)>(l: seq<T>)
    requires |l| > 0
    ensures NoDup(l) <==> l[0] !in l[1..] && NoDup(l[1..])
  {
    var t := l[1..];
    assert l == [l[0]] + t;
    assert multiset(l) == multiset{l[0]} + multiset(t);
    if NoDup(l) {
      assert multiset(l)[l[0]] <= 1;
      forall x
        ensures multiset(t)[x] <= 1
      {
        assert multiset(l)[x] <= 1;
      }
    }
    if l[0] !in t && NoDup(t) {
      forall x
        ensures multiset(l)[x] <= 1
      {
        if x == l[0] {
          assert multiset(t)[x] == 0;
        }
      }
    }
  }

  lemma {:induction false} NoDupDistinct<T(!new)>(l: seq<T>)
    ensures NoDup(l) <==> Distinct(l)
  {
    if |l| > 0 {
      NoDupCons(l);
      NoDupDistinct(l[1..]);
      if Distinct(l) {
        assert forall j :: 0 <= j < |l[1..]| ==> l[1..][j] == l[j + 1];
        assert l[0] !in l[1..];
        assert Distinct(l[1..]) by {
          forall i, j | 0 <= i < j < |l[1..]|
            ensures l[1..][i] != l[1..][j]
          {
            assert l[1..][i] == l[i + 1] && l[1..][j] == l[j + 1];
          }
        }
      }
      if NoDup(l) {
        forall i, j | 0 <= i < j < |l|
          ensures l[i] != l[j]
        {
          assert l[j] == l[1..][j - 1];
          if i > 0 {
            assert l[i] == l[1..][i - 1];
          }
        }
      }
    }
  }

  /** The elements of a sequence, as a set. */
  function Elements<T(!new)>(l: seq<T>): (s: set<T>)
    ensures forall x :: x in s <==> x in l
  {
    set x | x in l
  }

  /** l with every occurrence of x taken out. */
  function Without<T(==,!new)>(l: seq<T>, x: T): (r: seq<T>)
    ensures |r| <= |l|
    ensures forall y :: y in r <==> y in l && y != x
  {
    if l == [] then []
    else if l[0] == x then Without(l[1..], x)
    else [l[0]] + Without(l[1..], x)
  }

  /** In a duplicate-free sequence, removing x is cutting out its one position. */
  lemma {:induction false} WithoutAt<T(!new)>(l: seq<T>, i: nat)
    requires NoDup(l) && i < |l|
    ensures Without(l, l[i]) == l[..i] + l[i + 1..]
  {
    NoDupCons(l);
    if i == 0 {
      WithoutAbsent(l[1..], l[0]);
    } else {
      assert l[1..][i - 1] == l[i];
      WithoutAt(l[1..], i - 1);
      assert l[1..][..i - 1] + l[1..][i..] == l[1..i] + l[i + 1..];
      assert [l[0]] + (l[1..i] + l[i + 1..]) == l[..i] + l[i + 1..];
    }
  }

  lemma {:induction false} WithoutAbsent<T(!new)>(l: seq<T>, x: T)
    requires x !in l
    ensures Without(l, x) == l
  {
    if l != [] {
      assert x !in l[1..];
      WithoutAbsent(l[1..], x);
    }
  }

  lemma NoDupAt<T(!new)>(l: seq<T>, i: nat, j: nat)
    requires NoDup(l) && i < |l| && j < |l| && i != j
    ensures l[i] != l[j]
  {
    NoDupDistinct(l);
  }

  lemma CutNoDup<T(!new)>(l: seq<T>, i: nat)
    requires NoDup(l) && i < |l|
    ensures NoDup(l[..i] + l[i + 1..])
  {
    var r := l[..i] + l[i + 1..];
    NoDupDistinct(l);
    forall a, b | 0 <= a < b < |r|
      ensures r[a] != r[b]
    {
      var a' := if a < i then a else a + 1;
      var b' := if b < i then b else b + 1;
      assert r[a] == l[a'] && r[b] == l[b'];
    }
    NoDupDistinct(r);
  }

  /** Index of x in a sequence that holds it. */
  lemma IndexOf<T>(l: seq<T>, x: T) returns (i: nat)
    requires x in l
    ensures i < |l| && l[i] == x
  {
    i :| 0 <= i < |l| && l[i] == x;
  }
}
