/** The array operations the components use — `filter`, `findIndex`,
    `find` — as functions on sequences, with the facts the rest of the
    model relies on. */
module Seqs {
  import opened Interfaces

  /** `s.filter(p)`: the elements satisfying `p`, in their original order. */
  function Filter<T>(s: seq<T>, p: T -> bool): (r: seq<T>)
    ensures |r| <= |s|
    ensures forall x :: x in r ==> x in s && p(x)
  {
    if s == [] then []
    else (if p(s[0]) then [s[0]] else []) + Filter(s[1..], p)
  }

  /** Filter distributes over concatenation. */
  lemma {:induction false} FilterConcat<T>(a: seq<T>, b: seq<T>, p: T -> bool)
    ensures Filter(a + b, p) == Filter(a, p) + Filter(b, p)
  {
    if a == [] {
      assert a + b == b;
    } else {
      assert (a + b)[0] == a[0];
      assert (a + b)[1..] == a[1..] + b;
      FilterConcat(a[1..], b, p);
    }
  }

  /** The filter keeps every element satisfying `p` exactly as often as it
      occurs, and drops every other element. */
  lemma {:induction false} FilterMultiset<T>(s: seq<T>, p: T -> bool)
    ensures forall x :: multiset(Filter(s, p))[x] == if p(x) then multiset(s)[x] else 0
  {
    if s != [] {
      FilterMultiset(s[1..], p);
      assert s == [s[0]] + s[1..];
    }
  }

  /** Filtering keeps the relative order: the filter of `s` is the filter
      of its first `k` elements followed by the filter of the rest. */
  lemma FilterSplit<T>(s: seq<T>, k: nat, p: T -> bool)
    requires k <= |s|
    ensures Filter(s, p) == Filter(s[..k], p) + Filter(s[k..], p)
  {
    assert s == s[..k] + s[k..];
    FilterConcat(s[..k], s[k..], p);
  }

  /** The filter is empty exactly when no element satisfies `p`. */
  lemma {:induction false} FilterEmpty<T>(s: seq<T>, p: T -> bool)
    ensures Filter(s, p) == [] <==> forall i :: 0 <= i < |s| ==> !p(s[i])
  {
    if s != [] {
      FilterEmpty(s[1..], p);
      assert forall i :: 1 <= i < |s| ==> s[i] == s[1..][i - 1];
    }
  }

  /** Filtering a sequence all of whose elements satisfy `p` changes nothing;
      in particular filtering twice is filtering once. */
  lemma {:induction false} FilterAll<T>(s: seq<T>, p: T -> bool)
    requires forall i :: 0 <= i < |s| ==> p(s[i])
    ensures Filter(s, p) == s
  {
    if s != [] {
      assert forall i :: 0 <= i < |s[1..]| ==> s[1..][i] == s[i + 1];
      FilterAll(s[1..], p);
    }
  }

  /** Nothing is dropped exactly when every element satisfies `p`. */
  lemma {:induction false} FilterAllIff<T>(s: seq<T>, p: T -> bool)
    ensures |Filter(s, p)| == |s| <==> forall i :: 0 <= i < |s| ==> p(s[i])
  {
    if s != [] {
      FilterAllIff(s[1..], p);
      assert forall i :: 1 <= i < |s| ==> s[i] == s[1..][i - 1];
    }
  }

  /** Replacing one element changes the number of elements kept by at most
      one, as `p` says of the old and the new element. */
  lemma {:induction false} FilterUpdateCount<T>(s: seq<T>, i: nat, y: T, p: T -> bool)
    requires i < |s|
    ensures |Filter(s[i := y], p)| + (if p(s[i]) then 1 else 0)
         == |Filter(s, p)| + (if p(y) then 1 else 0)
  {
    if i == 0 {
      assert s[i := y][1..] == s[1..];
    } else {
      assert s[i := y][0] == s[0];
      assert s[i := y][1..] == s[1..][i - 1 := y];
      FilterUpdateCount(s[1..], i - 1, y, p);
    }
  }

  /** `s.findIndex(p)`: the index of the first element satisfying `p`, or -1. */
  function FindIndex<T>(s: seq<T>, p: T -> bool): (r: int)
    ensures -1 <= r < |s|
    ensures r == -1 <==> forall i :: 0 <= i < |s| ==> !p(s[i])
    ensures 0 <= r ==> p(s[r]) && forall j :: 0 <= j < r ==> !p(s[j])
  {
    if s == [] then -1
    else if p(s[0]) then 0
    else
      var k := FindIndex(s[1..], p);
      if k < 0 then -1 else k + 1
  }

  /** `s.find(p)`: the first element satisfying `p`, or `undefined`. */
  function Find<T>(s: seq<T>, p: T -> bool): (r: Maybe<T>)
    ensures r.Undefined? <==> forall i :: 0 <= i < |s| ==> !p(s[i])
    ensures r.Defined? ==> exists i :: 0 <= i < |s| && s[i] == r.value && p(s[i])
                                 && forall j :: 0 <= j < i ==> !p(s[j])
  {
    var k := FindIndex(s, p);
    if k < 0 then Undefined else Defined(s[k])
  }

  /** An element satisfying `p` survives the filter. */
  lemma FilterKeeps<T>(s: seq<T>, p: T -> bool, x: T)
    requires x in s && p(x)
    ensures x in Filter(s, p)
  {
    FilterMultiset(s, p);
    assert multiset(Filter(s, p))[x] == multiset(s)[x] > 0;
  }

  /** Pigeonhole: distinct elements all found in `values` are no more
      numerous than `values`. */
  lemma {:induction false} Pigeonhole<T>(elems: seq<T>, values: seq<T>)
    requires forall i, j :: 0 <= i < j < |elems| ==> elems[i] != elems[j]
    requires forall i :: 0 <= i < |elems| ==> elems[i] in values
    ensures |elems| <= |values|
  {
    if elems != [] {
      var j :| 0 <= j < |values| && values[j] == elems[0];
      var rest := values[..j] + values[j + 1..];
      assert values == values[..j] + [values[j]] + values[j + 1..];
      forall i | 0 <= i < |elems[1..]|
        ensures elems[1..][i] in rest
      {
        assert elems[1..][i] == elems[i + 1] != elems[0];
        assert elems[i + 1] in values;
      }
      Pigeonhole(elems[1..], rest);
    }
  }
}
