/** The count of repeated IDs that the benchmark reports. */
module Benchtool {

  ghost predicate Sorted(s: seq<int>) { forall i, j :: 0 <= i <= j < |s| ==> s[i] <= s[j] }

  function Insert(x: int, s: seq<int>): (r: seq<int>)
    requires Sorted(s)
    ensures Sorted(r) && multiset(r) == multiset{x} + multiset(s)
  {
    if s == [] || x <= s[0] then [x] + s
    else
      assert s == [s[0]] + s[1..];
      var rest := Insert(x, s[1..]);
      SortedCons(s[0], x, s[1..], rest);
      [s[0]] + rest
  }

  lemma SortedCons(least: int, x: int, s: seq<int>, rest: seq<int>)
    requires Sorted(rest) && multiset(rest) == multiset{x} + multiset(s)
    requires least <= x && forall i :: 0 <= i < |s| ==> least <= s[i]
    ensures Sorted([least] + rest)
  {
    forall i | 0 <= i < |rest| ensures least <= rest[i] {
      assert rest[i] in multiset(rest);
      assert rest[i] == x || rest[i] in s;
    }
  }

  /** The list sorting promises: the same entries, in order. */
  function SortedOf(s: seq<int>): (r: seq<int>)
    ensures Sorted(r) && multiset(r) == multiset(s)
  {
    if s == [] then []
    else
      assert s == [s[0]] + s[1..];
      Insert(s[0], SortedOf(s[1..]))
  }

  /** The library's sort: reorders the array in place. */
  method SortSlice(a: array<int>)
    modifies a
    ensures a[..] == SortedOf(old(a[..]))
  {
    var s := SortedOf(a[..]);
    SameLength(a[..]);
    forall i | 0 <= i < a.Length {
      a[i] := s[i];
    }
    assert a[..] == s;
  }

  lemma SameLength(s: seq<int>)
    ensures |SortedOf(s)| == |s|
  {
    assert |multiset(SortedOf(s))| == |multiset(s)|;
  }

  function Values(s: seq<int>): set<int> { set x | x in s }

  lemma SameValues(s: seq<int>, t: seq<int>)
    requires multiset(s) == multiset(t)
    ensures Values(s) == Values(t)
  {
    forall x ensures x in s <==> x in t {
      assert x in s <==> x in multiset(s);
      assert x in t <==> x in multiset(t);
    }
  }

  /** The length minus the number of distinct values; the input is left as it was. */
  method CountDuplicates(ids: array<int>) returns (duplicates: int)
    ensures duplicates == ids.Length - |Values(ids[..])|
  {
    if ids.Length < 2 {
      FewValues(ids[..]);
      return 0;
    }
    var sorted := new int[ids.Length];
    forall i | 0 <= i < ids.Length {
      sorted[i] := ids[i];
    }
    assert sorted[..] == ids[..];
    hide SortedOf, Values;
    SortSlice(sorted);
    SameValues(sorted[..], ids[..]);
    duplicates := CountAdjacent(sorted);
  }

  method CountAdjacent(sorted: array<int>) returns (duplicates: int)
    requires sorted.Length >= 1 && Sorted(sorted[..])
    ensures duplicates == sorted.Length - |Values(sorted[..])|
  {
    hide Values;
    ghost var s := sorted[..];
    duplicates := 0;
    FewValues(s[..1]);
    for i := 1 to sorted.Length
      invariant duplicates == i - |Values(s[..i])|
    {
      NewValue(s, i);
      if sorted[i] == sorted[i - 1] {
        duplicates := duplicates + 1;
      }
    }
    assert s[..sorted.Length] == s;
  }

  lemma FewValues(s: seq<int>)
    requires |s| < 2
    ensures |Values(s)| == |s|
  {
    if |s| == 1 {
      assert Values(s) == {s[0]};
    } else {
      assert Values(s) == {};
    }
  }

  /** In a sorted list an entry is new exactly when it differs from its left neighbour. */
  lemma NewValue(s: seq<int>, i: nat)
    requires Sorted(s) && 1 <= i < |s|
    ensures |Values(s[..i + 1])| == |Values(s[..i])| + if s[i] == s[i - 1] then 0 else 1
  {
    assert s[..i + 1] == s[..i] + [s[i]];
    assert Values(s[..i + 1]) == Values(s[..i]) + {s[i]};
    if s[i] == s[i - 1] {
      assert s[..i][i - 1] == s[i] && s[i] in Values(s[..i]);
      assert Values(s[..i + 1]) == Values(s[..i]);
    } else {
      forall x | x in s[..i] ensures x != s[i] {
        var k :| 0 <= k < i && s[..i][k] == x;
        assert s[k] <= s[i - 1] < s[i];
      }
    }
  }
}
