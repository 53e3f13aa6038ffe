/** Sums and multiset unions taken over a sequence, and the fact that both
    depend only on the multiset of the sequence's elements. The heap moves
    trees around; these lemmas say that the totals it carries do not change. */
module Bags {

  /** The sum of `f` over the elements of `s`. */
  function SumBy<T>(s: seq<T>, f: T -> nat): nat
  {
    if |s| == 0 then 0 else f(s[0]) + SumBy(s[1..], f)
  }

  /** The multiset union of `f` over the elements of `s`. */
  function BagBy<T, U>(s: seq<T>, f: T -> multiset<U>): multiset<U>
  {
    if |s| == 0 then multiset{} else f(s[0]) + BagBy(s[1..], f)
  }

  lemma {:induction false} SumByConcat<T>(a: seq<T>, b: seq<T>, f: T -> nat)
    ensures SumBy(a + b, f) == SumBy(a, f) + SumBy(b, f)
  {
    if |a| == 0 {
      assert a + b == b;
    } else {
      assert (a + b)[1..] == a[1..] + b;
      SumByConcat(a[1..], b, f);
    }
  }

  lemma {:induction false} BagByConcat<T, U>(a: seq<T>, b: seq<T>, f: T -> multiset<U>)
    ensures BagBy(a + b, f) == BagBy(a, f) + BagBy(b, f)
  {
    if |a| == 0 {
      assert a + b == b;
    } else {
      assert (a + b)[1..] == a[1..] + b;
      BagByConcat(a[1..], b, f);
    }
  }

  /** Removing the element at position k from a sequence removes one copy of
      it from the sequence's multiset. */
  lemma DropOne<T>(a: seq<T>, b: seq<T>, k: nat)
    requires |a| > 0 && k < |b| && b[k] == a[0]
    requires multiset(a) == multiset(b)
    ensures multiset(a[1..]) == multiset(b[..k] + b[k + 1..])
  {
    assert a == [a[0]] + a[1..];
    assert b == b[..k] + [b[k]] + b[k + 1..];
    assert multiset(b) == multiset(b[..k] + b[k + 1..]) + multiset{b[k]};
    assert multiset(a) == multiset{a[0]} + multiset(a[1..]);
    assert multiset(a[1..]) == multiset(a) - multiset{a[0]};
  }

  lemma SumByRemove<T>(b: seq<T>, k: nat, f: T -> nat)
    requires k < |b|
    ensures SumBy(b, f) == f(b[k]) + SumBy(b[..k] + b[k + 1..], f)
  {
    var x, y := b[..k], b[k + 1..];
    var m := [b[k]] + y;
    assert b == x + m;
    assert SumBy(m, f) == f(b[k]) + SumBy(y, f) by {
      assert m[0] == b[k] && m[1..] == y;
    }
    SumByConcat(x, m, f);
    SumByConcat(x, y, f);
  }

  lemma BagByRemove<T, U>(b: seq<T>, k: nat, f: T -> multiset<U>)
    requires k < |b|
    ensures BagBy(b, f) == f(b[k]) + BagBy(b[..k] + b[k + 1..], f)
  {
    var x, y := b[..k], b[k + 1..];
    var m := [b[k]] + y;
    assert b == x + m;
    assert BagBy(m, f) == f(b[k]) + BagBy(y, f) by {
      assert m[0] == b[k] && m[1..] == y;
    }
    BagByConcat(x, m, f);
    BagByConcat(x, y, f);
  }

  /** Sums over two orderings of the same elements agree. */
  lemma {:induction false} SumByPermutation<T>(a: seq<T>, b: seq<T>, f: T -> nat)
    requires multiset(a) == multiset(b)
    ensures SumBy(a, f) == SumBy(b, f)
    decreases |a|
  {
    if |a| == 0 {
      assert |multiset(b)| == 0;
    } else {
      assert a[0] in multiset(b);
      var k :| 0 <= k < |b| && b[k] == a[0];
      DropOne(a, b, k);
      SumByPermutation(a[1..], b[..k] + b[k + 1..], f);
      SumByRemove(b, k, f);
    }
  }

  /** Unions over two orderings of the same elements agree. */
  lemma {:induction false} BagByPermutation<T, U>(a: seq<T>, b: seq<T>, f: T -> multiset<U>)
    requires multiset(a) == multiset(b)
    ensures BagBy(a, f) == BagBy(b, f)
    decreases |a|
  {
    if |a| == 0 {
      assert |multiset(b)| == 0;
    } else {
      assert a[0] in multiset(b);
      var k :| 0 <= k < |b| && b[k] == a[0];
      DropOne(a, b, k);
      BagByPermutation(a[1..], b[..k] + b[k + 1..], f);
      BagByRemove(b, k, f);
    }
  }
}
