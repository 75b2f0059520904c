/** Sequence facts used by several parts of the model. */
module Seqs {

  /** No element occurs twice (Ruby arrays of distinct tile objects). */
  predicate Distinct<T(==)>(s: seq<T>)
  {
    forall i, j :: 0 <= i < j < |s| ==> s[i] != s[j]
  }

  lemma DistinctConcat<T>(a: seq<T>, b: seq<T>)
    requires Distinct(a) && Distinct(b)
    requires forall x :: x in a ==> x !in b
    ensures Distinct(a + b)
  {
    var c := a + b;
    forall i, j | 0 <= i < j < |c| ensures c[i] != c[j] {
      if j < |a| {
        assert c[i] == a[i] && c[j] == a[j];
      } else if i >= |a| {
        assert c[i] == b[i - |a|] && c[j] == b[j - |a|];
      } else {
        assert c[i] == a[i] && c[j] == b[j - |a|];
        assert c[i] in a;
      }
    }
  }

  lemma ConcatAssoc<T>(a: seq<T>, b: seq<T>, c: seq<T>)
    ensures a + (b + c) == (a + b) + c
  {
  }

  /** Strictly increasing, so also free of repeats. */
  predicate Increasing(s: seq<nat>)
  {
    forall i, j :: 0 <= i < j < |s| ==> s[i] < s[j]
  }

  /** Every element of `s` kept, except those in `gone`, in the original order. */
  function Without<T(==,!new)>(s: seq<T>, gone: set<T>): (r: seq<T>)
    ensures |r| <= |s|
    ensures forall x :: x in r <==> x in s && x !in gone
  {
    if s == [] then []
    else (if s[0] in gone then [] else [s[0]]) + Without(s[1..], gone)
  }

  /** `a` can be obtained from `b` by deleting elements. */
  predicate IsSubsequence<T(==)>(a: seq<T>, b: seq<T>)
    decreases |b|
  {
    a == [] || (b != [] && (if a[0] == b[0] then IsSubsequence(a[1..], b[1..]) else IsSubsequence(a, b[1..])))
  }

  lemma {:induction false} WithoutIsSubsequence<T(!new)>(s: seq<T>, gone: set<T>)
    ensures IsSubsequence(Without(s, gone), s)
    decreases |s|
  {
    if s != [] {
      WithoutIsSubsequence(s[1..], gone);
      if s[0] !in gone {
        assert Without(s, gone)[0] == s[0] && Without(s, gone)[1..] == Without(s[1..], gone);
      } else {
        assert Without(s, gone) == Without(s[1..], gone);
        var w := Without(s[1..], gone);
        if w != [] {
          assert w[0] in s[1..];
          assert w[0] != s[0];
        }
      }
    }
  }

  /** Removing one set of elements and then another removes their union. */
  lemma {:induction false} WithoutWithout<T(!new)>(s: seq<T>, a: set<T>, b: set<T>)
    ensures Without(Without(s, a), b) == Without(s, a + b)
    decreases |s|
  {
    if s != [] {
      WithoutWithout(s[1..], a, b);
      if s[0] in a {
        assert Without(s, a) == Without(s[1..], a);
      } else {
        assert Without(s, a) == [s[0]] + Without(s[1..], a);
        assert Without(s, a)[1..] == Without(s[1..], a);
      }
    }
  }

  /** Removing elements that do not occur changes nothing. */
  lemma {:induction false} WithoutAbsent<T(!new)>(s: seq<T>, gone: set<T>)
    requires forall x :: x in gone ==> x !in s
    ensures Without(s, gone) == s
    decreases |s|
  {
    if s != [] {
      WithoutAbsent(s[1..], gone);
    }
  }

  lemma DistinctWithout<T(!new)>(s: seq<T>, gone: set<T>)
    requires Distinct(s)
    ensures Distinct(Without(s, gone))
    decreases |s|
  {
    if s != [] {
      DistinctWithout(s[1..], gone);
      assert s[0] !in s[1..];
      DistinctConcat(if s[0] in gone then [] else [s[0]], Without(s[1..], gone));
    }
  }

  /** Growing the longer list keeps a subsequence one. */
  lemma {:induction false} SubsequenceExtend<T>(a: seq<T>, b: seq<T>, x: T)
    requires IsSubsequence(a, b)
    ensures IsSubsequence(a, b + [x])
    decreases |b|
  {
    if a != [] {
      assert (b + [x])[0] == b[0] && (b + [x])[1..] == b[1..] + [x];
      if a[0] == b[0] {
        SubsequenceExtend(a[1..], b[1..], x);
      } else {
        SubsequenceExtend(a, b[1..], x);
      }
    }
  }

  /** Appending the same element to both lists keeps a subsequence one. */
  lemma {:induction false} SubsequenceSnoc<T>(a: seq<T>, b: seq<T>, x: T)
    requires IsSubsequence(a, b)
    ensures IsSubsequence(a + [x], b + [x])
    decreases |b|
  {
    var a', b' := a + [x], b + [x];
    if b == [] {
      assert a == [] && a' == [x] && b' == [x] && a'[1..] == [];
    } else {
      assert b'[0] == b[0] && b'[1..] == b[1..] + [x];
      if a == [] {
        if b[0] != x {
          SubsequenceSnoc(a, b[1..], x);
        } else {
          assert a'[1..] == [];
        }
      } else {
        assert a'[0] == a[0] && a'[1..] == a[1..] + [x];
        if a[0] == b[0] {
          SubsequenceSnoc(a[1..], b[1..], x);
        } else {
          SubsequenceSnoc(a, b[1..], x);
        }
      }
    }
  }

  /** A filter step: the next element of b is kept or dropped. */
  lemma SubsequenceAppend<T>(a: seq<T>, b: seq<T>, x: T, keep: bool)
    requires IsSubsequence(a, b)
    ensures IsSubsequence(a + (if keep then [x] else []), b + [x])
  {
    if keep {
      SubsequenceSnoc(a, b, x);
    } else {
      assert a + [] == a;
      SubsequenceExtend(a, b, x);
    }
  }

  /** Appending an element above all others keeps a list increasing. */
  lemma IncreasingSnoc(s: seq<nat>, x: nat)
    requires Increasing(s) && forall y :: y in s ==> y < x
    ensures Increasing(s + [x])
  {
    var t := s + [x];
    forall i, j | 0 <= i < j < |t| ensures t[i] < t[j] {
      if j == |s| {
        assert t[i] == s[i] && s[i] in s;
      }
    }
  }

  /** Deleting an element that occurs once shortens a list by one (Ruby's `Array#delete`). */
  lemma {:induction false} WithoutOne<T(!new)>(s: seq<T>, x: T)
    requires Distinct(s) && x in s
    ensures |Without(s, {x})| == |s| - 1
    decreases |s|
  {
    if s[0] == x {
      assert forall y :: y in s[1..] ==> y != x;
      WithoutAbsent(s[1..], {x});
    } else {
      assert x in s[1..];
      WithoutOne(s[1..], x);
    }
  }

  /** Deleting an element that occurs shortens a list. */
  lemma {:induction false} WithoutShorter<T(!new)>(s: seq<T>, x: T)
    requires x in s
    ensures |Without(s, {x})| < |s|
    decreases |s|
  {
    if s[0] != x {
      WithoutShorter(s[1..], x);
    }
  }

  /** Ruby's `Set#add` on an insertion-ordered set: x joins at the end unless already present. */
  function Insert(s: seq<nat>, x: nat): (r: seq<nat>)
    ensures forall y :: y in r <==> y in s || y == x
  {
    if x in s then s else s + [x]
  }

  lemma IncreasingDistinct(s: seq<nat>)
    requires Increasing(s)
    ensures Distinct(s)
  {
  }

  /** Every entry of ts is a slot of an arena of n entries. */
  predicate Slots(ts: seq<nat>, n: int)
  {
    forall k :: 0 <= k < |ts| ==> ts[k] < n
  }

  lemma SlotsMembers(ts: seq<nat>, n: int)
    ensures Slots(ts, n) <==> forall x :: x in ts ==> x < n
  {
    if forall x :: x in ts ==> x < n {
      forall k | 0 <= k < |ts| ensures ts[k] < n {
        assert ts[k] in ts;
      }
    }
  }

  lemma SlotsConcat(a: seq<nat>, b: seq<nat>, n: int)
    requires Slots(a, n) && Slots(b, n)
    ensures Slots(a + b, n)
  {
  }

  /** A list without repeats drawn from 0..n-1 has at most n entries. */
  lemma {:induction false} DistinctBound(s: seq<nat>, n: nat)
    requires Distinct(s) && forall x :: x in s ==> x < n
    ensures |s| <= n
    decreases n
  {
    if s != [] {
      assert s[0] in s;
      var top: nat := n - 1;
      var rest := Without<nat>(s, {top});
      DistinctWithout(s, {top});
      if top in s {
        WithoutOne(s, top);
      } else {
        WithoutAbsent(s, {top});
      }
      DistinctBound(rest, top);
    }
  }
}
