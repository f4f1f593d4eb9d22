/** Facts about finite sequences: integer ranges, distinct entries, subsequences. */
module Sequences {

  ghost predicate Distinct<T>(s: seq<T>) {
    forall i, j :: 0 <= i < j < |s| ==> s[i] != s[j]
  }

  lemma DistinctCons<T>(x: T, s: seq<T>)
    ensures Distinct([x] + s) <==> x !in s && Distinct(s)
  {
    if Distinct([x] + s) {
      forall i | 0 <= i < |s| ensures s[i] != x {
        assert ([x] + s)[0] != ([x] + s)[i + 1];
      }
      forall i, j | 0 <= i < j < |s| ensures s[i] != s[j] {
        assert ([x] + s)[i + 1] != ([x] + s)[j + 1];
      }
    }
  }

  /** Distinct entries all found in another sequence are no more than that has. */
  lemma {:induction false} DistinctFits<T>(s: seq<T>, whole: seq<T>)
    requires Distinct(s) && forall x :: x in s ==> x in whole
    ensures |s| <= |whole|
  {
    if s != [] {
      var n := |s| - 1;
      assert s[n] in whole;
      var i :| 0 <= i < |whole| && whole[i] == s[n];
      var rest := whole[..i] + whole[i + 1..];
      forall x | x in s[..n] ensures x in rest {
        assert x in s && x in whole && x != s[n];
        var j :| 0 <= j < |whole| && whole[j] == x;
        assert rest[if j < i then j else j - 1] == x;
      }
      DistinctFits(s[..n], rest);
    }
  }

  /** The half-open range [lo, hi), empty when hi <= lo. */
  function Interval(lo: int, hi: int): (r: seq<int>)
    ensures |r| == if lo < hi then hi - lo else 0
    ensures forall k :: 0 <= k < |r| ==> r[k] == lo + k
  {
    if lo < hi then seq(hi - lo, i => lo + i) else []
  }

  lemma IntervalMembers(lo: int, hi: int)
    ensures forall x :: x in Interval(lo, hi) <==> lo <= x < hi
  {
    forall x | lo <= x < hi ensures x in Interval(lo, hi) {
      assert Interval(lo, hi)[x - lo] == x;
    }
  }

  lemma IntervalSplit(lo: int, mid: int, hi: int)
    requires lo <= mid <= hi
    ensures Interval(lo, mid) + Interval(mid, hi) == Interval(lo, hi)
  {
  }

  lemma IntervalPrefix(s: seq<int>, rest: seq<int>, lo: int, hi: int)
    requires s + rest == Interval(lo, hi)
    ensures s == Interval(lo, lo + |s|)
  {
    assert forall i :: 0 <= i < |s| ==> s[i] == (s + rest)[i];
  }

  lemma IntervalHead(lo: int, hi: int)
    requires lo < hi
    ensures Interval(lo, hi) == [lo] + Interval(lo + 1, hi)
  {
  }

  /** Strictly rising, and so without duplicates. */
  ghost predicate Rising(s: seq<int>) { forall i, j :: 0 <= i < j < |s| ==> s[i] < s[j] }

  lemma RisingConcat(a: seq<int>, b: seq<int>)
    ensures Rising(a + b) <==> Rising(a) && Rising(b) && (a == [] || b == [] || a[|a| - 1] < b[0])
  {
    var c := a + b;
    if Rising(c) {
      assert forall i :: 0 <= i < |a| ==> c[i] == a[i];
      assert forall i :: 0 <= i < |b| ==> c[|a| + i] == b[i];
      assert a != [] && b != [] ==> c[|a| - 1] < c[|a|];
    }
    if Rising(a) && Rising(b) && (a == [] || b == [] || a[|a| - 1] < b[0]) {
      forall i, j | 0 <= i < j < |c| ensures c[i] < c[j] {
        if i < |a| <= j {
          assert a[i] <= a[|a| - 1] && b[0] <= b[j - |a|];
        }
      }
    }
  }

  /** `s` can be read off `whole` from left to right by skipping entries. */
  ghost predicate Subsequence<T>(s: seq<T>, whole: seq<T>)
    decreases |whole|
  {
    if s == [] then true
    else if whole == [] then false
    else
      var n, m := |s| - 1, |whole| - 1;
      (s[n] == whole[m] && Subsequence(s[..n], whole[..m])) || Subsequence(s, whole[..m])
  }

  lemma {:induction false} SubsequenceRefl<T>(s: seq<T>)
    ensures Subsequence(s, s)
  {
    if s != [] {
      SubsequenceRefl(s[..|s| - 1]);
    }
  }

  lemma {:induction false} SubsequenceAppend<T>(s: seq<T>, whole: seq<T>, more: seq<T>)
    requires Subsequence(s, whole)
    ensures Subsequence(s + more, whole + more)
    decreases |more|
  {
    if more == [] {
      assert s + more == s && whole + more == whole;
    } else {
      var k := |more| - 1;
      SubsequenceAppend(s, whole, more[..k]);
      assert (s + more)[..|s + more| - 1] == s + more[..k];
      assert (whole + more)[..|whole + more| - 1] == whole + more[..k];
    }
  }

  /** Dropping a tail of the shorter sequence, or extending the longer one, keeps the relation. */
  lemma {:induction false} SubsequencePrefix<T>(s: seq<T>, k: nat, whole: seq<T>)
    requires k <= |s| && Subsequence(s, whole)
    ensures Subsequence(s[..k], whole)
    decreases |whole|
  {
    if k == |s| {
      assert s[..k] == s;
    } else if k > 0 {
      var n, m := |s| - 1, |whole| - 1;
      if s[n] == whole[m] && Subsequence(s[..n], whole[..m]) {
        SubsequencePrefix(s[..n], k, whole[..m]);
        assert s[..n][..k] == s[..k];
      } else {
        SubsequencePrefix(s, k, whole[..m]);
      }
    }
  }

  lemma {:induction false} SubsequenceTrans<T>(a: seq<T>, b: seq<T>, c: seq<T>)
    requires Subsequence(a, b) && Subsequence(b, c)
    ensures Subsequence(a, c)
    decreases |b| + |c|
  {
    if a != [] {
      var n, m, l := |a| - 1, |b| - 1, |c| - 1;
      if b[m] == c[l] && Subsequence(b[..m], c[..l]) {
        if a[n] == b[m] && Subsequence(a[..n], b[..m]) {
          SubsequenceTrans(a[..n], b[..m], c[..l]);
        } else {
          SubsequenceTrans(a, b[..m], c[..l]);
        }
      } else {
        SubsequenceTrans(a, b, c[..l]);
      }
    }
  }

  lemma {:induction false} SubsequencePrepend<T>(front: seq<T>, s: seq<T>, whole: seq<T>)
    requires Subsequence(s, whole)
    ensures Subsequence(front + s, front + whole)
    decreases |whole|
  {
    if whole == [] {
      SubsequenceRefl(front);
      assert front + s == front && front + whole == front;
    } else {
      var m := |whole| - 1;
      assert (front + whole)[..|front + whole| - 1] == front + whole[..m];
      if s == [] {
        SubsequencePrepend(front, s, whole[..m]);
      } else {
        var n := |s| - 1;
        assert (front + s)[..|front + s| - 1] == front + s[..n];
        if s[n] == whole[m] && Subsequence(s[..n], whole[..m]) {
          SubsequencePrepend(front, s[..n], whole[..m]);
        } else {
          SubsequencePrepend(front, s, whole[..m]);
        }
      }
    }
  }

  /** A subsequence of distinct entries has distinct entries, all of them from the longer sequence. */
  lemma {:induction false} SubsequenceDistinct<T>(s: seq<T>, whole: seq<T>)
    requires Subsequence(s, whole)
    ensures forall x :: x in s ==> x in whole
    ensures Distinct(whole) ==> Distinct(s)
    decreases |whole|
  {
    if s != [] {
      var n, m := |s| - 1, |whole| - 1;
      assert s == s[..n] + [s[n]];
      if s[n] == whole[m] && Subsequence(s[..n], whole[..m]) {
        SubsequenceDistinct(s[..n], whole[..m]);
        forall i | 0 <= i < n ensures s[i] in whole[..m] {
          assert s[i] == s[..n][i];
        }
        assert forall i, j :: 0 <= i < j < n ==> s[i] == s[..n][i] && s[j] == s[..n][j];
      } else {
        SubsequenceDistinct(s, whole[..m]);
      }
    }
  }
}
