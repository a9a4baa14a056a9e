/**
 * Sequence vocabulary shared by the table and record models: subsequences (what a
 * boolean-mask selection of a DataFrame yields), filtering, duplicate-free sequences and
 * `drop_duplicates` with its default `keep='first'`.
 */
module Seqs {

  /** `a` is `b` with some elements deleted; the survivors keep their order. */
  predicate IsSubseq<T(==)>(a: seq<T>, b: seq<T>)
    decreases |b|
  {
    if |b| == 0 then |a| == 0
    else
      (|a| > 0 && a[|a| - 1] == b[|b| - 1] && IsSubseq(a[..|a| - 1], b[..|b| - 1]))
      || IsSubseq(a, b[..|b| - 1])
  }

  lemma {:induction false} SubseqMembers<T>(a: seq<T>, b: seq<T>)
    requires IsSubseq(a, b)
    ensures |a| <= |b|
    ensures forall x :: x in a ==> x in b
    decreases |b|
  {
    if |b| > 0 {
      var b' := b[..|b| - 1];
      if |a| > 0 && a[|a| - 1] == b[|b| - 1] && IsSubseq(a[..|a| - 1], b') {
        var a' := a[..|a| - 1];
        SubseqMembers(a', b');
        assert a == a' + [b[|b| - 1]];
        assert b == b' + [b[|b| - 1]];
      } else {
        SubseqMembers(a, b');
        assert b == b' + [b[|b| - 1]];
      }
    }
  }

  lemma {:induction false} SubseqTransitive<T>(a: seq<T>, b: seq<T>, c: seq<T>)
    requires IsSubseq(a, b) && IsSubseq(b, c)
    ensures IsSubseq(a, c)
    decreases |c|
  {
    if |c| > 0 {
      var c' := c[..|c| - 1];
      if |b| > 0 && b[|b| - 1] == c[|c| - 1] && IsSubseq(b[..|b| - 1], c') {
        var b' := b[..|b| - 1];
        if |a| > 0 && a[|a| - 1] == b[|b| - 1] && IsSubseq(a[..|a| - 1], b') {
          SubseqTransitive(a[..|a| - 1], b', c');
        } else {
          SubseqTransitive(a, b', c');
        }
      } else {
        SubseqTransitive(a, b, c');
      }
    }
  }

  /** Pointwise image of a sequence. */
  function Map<T, U>(s: seq<T>, f: T -> U): (r: seq<U>)
    ensures |r| == |s|
    ensures forall i :: 0 <= i < |s| ==> r[i] == f(s[i])
  {
    seq(|s|, i requires 0 <= i < |s| => f(s[i]))
  }

  /** The elements that satisfy `p`, in their original order (a boolean-mask selection). */
  function Filter<T(!new)>(s: seq<T>, p: T -> bool): (r: seq<T>)
    ensures |r| <= |s|
    ensures forall x :: x in r ==> x in s && p(x)
    ensures forall x {:trigger x in r} :: x in s && p(x) ==> x in r
    ensures IsSubseq(r, s)
    ensures forall x :: multiset(r)[x] == if p(x) then multiset(s)[x] else 0
  {
    if |s| == 0 then []
    else
      var front := Filter(s[..|s| - 1], p);
      var last := s[|s| - 1];
      assert s == s[..|s| - 1] + [last];
      assert multiset(s) == multiset(s[..|s| - 1]) + multiset{last};
      if p(last) then
        assert (front + [last])[..|front|] == front;
        assert multiset(front + [last]) == multiset(front) + multiset{last};
        front + [last]
      else front
  }

  predicate NoDup<T(==)>(s: seq<T>) {
    forall i, j :: 0 <= i < j < |s| ==> s[i] != s[j]
  }

  lemma NoDupSnoc<T>(s: seq<T>, x: T)
    requires NoDup(s) && x !in s
    ensures NoDup(s + [x])
  {
  }

  /** The position of the first occurrence of `x` in `s`. */
  ghost function FirstIndex<T>(s: seq<T>, x: T): (i: nat)
    requires x in s
    ensures i < |s| && s[i] == x && forall j :: 0 <= j < i ==> s[j] != x
  {
    if s[0] == x then 0
    else 1 + FirstIndex(s[1..], x)
  }

  /** A position holding `x` with no `x` before it is the first occurrence. */
  lemma FirstIndexAt<T>(s: seq<T>, x: T, i: int)
    requires 0 <= i < |s| && s[i] == x && x !in s[..i]
    ensures FirstIndex(s, x) == i
  {
    var j := FirstIndex(s, x);
  }

  /** First occurrences in a prefix are first occurrences in the whole sequence. */
  lemma FirstIndexPrefix<T>(s: seq<T>, k: int)
    requires 0 <= k <= |s|
    ensures forall y :: y in s[..k] ==> FirstIndex(s, y) == FirstIndex(s[..k], y)
  {
    forall y | y in s[..k]
      ensures FirstIndex(s, y) == FirstIndex(s[..k], y)
    {
      var i := FirstIndex(s[..k], y);
      var j := FirstIndex(s, y);
      assert s[..k][j] == y;
    }
  }

  /** The elements of `r` occur in `s`, and `r` lists them in the order of their first occurrence there. */
  ghost predicate FirstOccurrenceOrder<T>(s: seq<T>, r: seq<T>) {
    && (forall x :: x in r ==> x in s)
    && (forall i, j :: 0 <= i < j < |r| ==> FirstIndex(s, r[i]) < FirstIndex(s, r[j]))
  }

  /**
   * `drop_duplicates()` with `keep='first'`: each distinct element once; `DedupInOrder` states
   * that they come in the order of their first occurrence.
   */
  function Dedup<T(==)>(s: seq<T>): (r: seq<T>)
    ensures NoDup(r)
    ensures forall i :: 0 <= i < |r| ==> r[i] in s
    ensures forall i :: 0 <= i < |s| ==> s[i] in r
    ensures IsSubseq(r, s)
  {
    if |s| == 0 then []
    else
      var front := Dedup(s[..|s| - 1]);
      var last := s[|s| - 1];
      assert s == s[..|s| - 1] + [last];
      if last in s[..|s| - 1] then front
      else
        NoDupSnoc(front, last);
        assert (front + [last])[..|front|] == front;
        front + [last]
  }

  /** One step of `Dedup`: the last element is appended unless it occurred before. */
  lemma DedupSnoc<T>(s: seq<T>)
    requires |s| > 0
    ensures s[|s| - 1] in s[..|s| - 1] ==> Dedup(s) == Dedup(s[..|s| - 1])
    ensures s[|s| - 1] !in s[..|s| - 1] ==> Dedup(s) == Dedup(s[..|s| - 1]) + [s[|s| - 1]]
  {
  }

  /** `Dedup` keeps the first occurrence: it lists the elements in the order they first appear. */
  lemma {:induction false} DedupInOrder<T>(s: seq<T>)
    ensures FirstOccurrenceOrder(s, Dedup(s))
  {
    if |s| > 0 {
      var front := s[..|s| - 1];
      DedupInOrder(front);
      DedupSnoc(s);
      OrderStep(s, Dedup(front), Dedup(s));
    }
  }

  /** The order is kept by the step that `Dedup` takes on the last element of `s`. */
  lemma OrderStep<T>(s: seq<T>, r: seq<T>, r': seq<T>)
    requires |s| > 0 && FirstOccurrenceOrder(s[..|s| - 1], r)
    requires r' == if s[|s| - 1] in s[..|s| - 1] then r else r + [s[|s| - 1]]
    ensures FirstOccurrenceOrder(s, r')
  {
    var x := s[|s| - 1];
    if x in s[..|s| - 1] {
      assert r' == r;
      OrderFromPrefix(s, |s| - 1, r);
    } else {
      assert r' == r + [x];
      OrderSnoc(s, r);
    }
  }

  /** An order by first occurrence in a prefix of `s` is one in `s`. */
  lemma OrderFromPrefix<T>(s: seq<T>, k: int, r: seq<T>)
    requires 0 <= k <= |s| && FirstOccurrenceOrder(s[..k], r)
    ensures FirstOccurrenceOrder(s, r)
  {
    FirstIndexPrefix(s, k);
    assert forall i :: 0 <= i < |r| ==> r[i] in r;
  }

  /** Appending a new last element of `s` keeps the order by first occurrence. */
  lemma OrderSnoc<T>(s: seq<T>, r: seq<T>)
    requires |s| > 0 && s[|s| - 1] !in s[..|s| - 1] && FirstOccurrenceOrder(s[..|s| - 1], r)
    ensures FirstOccurrenceOrder(s, r + [s[|s| - 1]])
  {
    var n := |s|;
    OrderFromPrefix(s, n - 1, r);
    FirstIndexAt(s, s[n - 1], n - 1);
    var r' := r + [s[n - 1]];
    forall i, j | 0 <= i < j < |r'|
      ensures FirstIndex(s, r'[i]) < FirstIndex(s, r'[j])
    {
      if j == |r| {
        assert r'[i] == r[i] && r[i] in r;
      }
    }
  }

  /** An order by first occurrence in `s` is one in a prefix of `s` holding all the elements. */
  lemma OrderInPrefix<T>(s: seq<T>, k: int, r: seq<T>)
    requires 0 <= k <= |s| && FirstOccurrenceOrder(s, r)
    requires forall y :: y in r ==> y in s[..k]
    ensures FirstOccurrenceOrder(s[..k], r)
  {
    FirstIndexPrefix(s, k);
    assert forall i :: 0 <= i < |r| ==> r[i] in r;
  }

  lemma OrderOfFront<T>(s: seq<T>, r: seq<T>)
    requires |r| > 0 && FirstOccurrenceOrder(s, r)
    ensures FirstOccurrenceOrder(s, r[..|r| - 1])
  {
    var r' := r[..|r| - 1];
    assert forall i :: 0 <= i < |r'| ==> r'[i] == r[i];
    assert forall y :: y in r' ==> y in r;
  }

  /**
   * Keeping the first occurrence fixes the result: the only duplicate-free sequence of the
   * elements of `s` in first-occurrence order is `Dedup(s)`.
   */
  lemma {:induction false} DedupUnique<T>(s: seq<T>, r: seq<T>)
    requires NoDup(r) && FirstOccurrenceOrder(s, r)
    requires forall x :: x in s ==> x in r
    ensures r == Dedup(s)
  {
    if |s| == 0 {
      HeadIn(r);
    } else {
      var n := |s|;
      var front, x := s[..n - 1], s[n - 1];
      assert s == front + [x];
      if x in front {
        assert forall y :: y in r ==> y in front;
        OrderInPrefix(s, n - 1, r);
        DedupUnique(front, r);
      } else {
        LastIsNewest(s, r);
        var r' := r[..|r| - 1];
        assert r == r' + [x];
        assert NoDup(r') && x !in r';
        assert forall y :: y in r' ==> y in front;
        forall y | y in front
          ensures y in r'
        {
          assert y in s && y != x;
        }
        OrderOfFront(s, r);
        OrderInPrefix(s, n - 1, r');
        DedupUnique(front, r');
      }
    }
  }

  lemma HeadIn<T>(r: seq<T>)
    ensures |r| > 0 ==> r[0] in r
  {
  }

  /** When the last element of `s` is new, every sequence in first-occurrence order that holds it ends with it. */
  lemma LastIsNewest<T>(s: seq<T>, r: seq<T>)
    requires |s| > 0 && s[|s| - 1] !in s[..|s| - 1] && FirstOccurrenceOrder(s, r) && s[|s| - 1] in r
    requires NoDup(r)
    ensures |r| > 0 && r[|r| - 1] == s[|s| - 1]
    ensures forall i :: 0 <= i < |r| - 1 ==> r[i] in s[..|s| - 1]
  {
    var n := |s|;
    var x := s[n - 1];
    FirstIndexAt(s, x, n - 1);
    assert r[|r| - 1] in r;
    assert s == s[..n - 1] + [x];
    forall i | 0 <= i < |r| - 1
      ensures r[i] in s[..n - 1]
    {
      assert r[i] in r;
    }
  }

  /** A sequence without repetitions is left as it is by `drop_duplicates`. */
  lemma {:induction false} DedupOfDistinct<T>(s: seq<T>)
    requires NoDup(s)
    ensures Dedup(s) == s
  {
    if |s| > 0 {
      var front := s[..|s| - 1];
      assert NoDup(front);
      DedupOfDistinct(front);
      assert s[|s| - 1] !in front;
      assert s == front + [s[|s| - 1]];
    }
  }

  /** Removing duplicates twice is the same as removing them once. */
  lemma DedupIdempotent<T>(s: seq<T>)
    ensures Dedup(Dedup(s)) == Dedup(s)
  {
    DedupOfDistinct(Dedup(s));
  }

  /** The first element always survives `drop_duplicates`. */
  lemma {:induction false} DedupKeepsFirst<T>(s: seq<T>)
    requires |s| > 0
    ensures |Dedup(s)| > 0 && Dedup(s)[0] == s[0]
  {
    if |s| > 1 {
      var front := s[..|s| - 1];
      DedupKeepsFirst(front);
      assert front[0] == s[0];
    }
  }

  /** A duplicate-free sequence holds each element at most once, so its permutations are duplicate-free. */
  lemma {:induction false} NoDupMultiplicity<T>(s: seq<T>, x: T)
    requires NoDup(s)
    ensures multiset(s)[x] <= 1
  {
    if |s| > 0 {
      var front := s[..|s| - 1];
      assert s == front + [s[|s| - 1]];
      assert NoDup(front);
      NoDupMultiplicity(front, x);
      if x == s[|s| - 1] {
        assert x !in front;
        assert multiset(front)[x] == 0;
      }
    }
  }

  lemma TwoCopies<T>(s: seq<T>, i: int, j: int)
    requires 0 <= i < j < |s| && s[i] == s[j]
    ensures multiset(s)[s[i]] >= 2
  {
    assert s == s[..j] + [s[j]] + s[j + 1..];
    assert s[i] in s[..j];
    assert multiset(s[..j])[s[i]] >= 1;
  }

  lemma PermutationNoDup<T>(a: seq<T>, b: seq<T>)
    requires NoDup(a) && multiset(a) == multiset(b)
    ensures NoDup(b)
  {
    forall i, j | 0 <= i < j < |b|
      ensures b[i] != b[j]
    {
      if b[i] == b[j] {
        TwoCopies(b, i, j);
        NoDupMultiplicity(a, b[i]);
      }
    }
  }
}
