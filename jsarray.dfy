/**
  The JavaScript array operations the two scripts rely on, over values:
  `Array.prototype.find` / `findIndex` (the first element satisfying a
  predicate) and `Array.prototype.filter` (the elements satisfying a
  predicate, in their original order).
 */
module JsArray {

  datatype Option<+T> = None | Some(value: T)

  /** Index of the first element satisfying `p`, as `findIndex` (None for -1). */
  function FindIndex<T>(s: seq<T>, p: T -> bool): (r: Option<nat>)
    ensures r.Some? ==> r.value < |s| && p(s[r.value])
    ensures r.Some? ==> forall j :: 0 <= j < r.value ==> !p(s[j])
    ensures r.None? <==> forall j :: 0 <= j < |s| ==> !p(s[j])
  {
    if s == [] then None
    else if p(s[0]) then Some(0)
    else match FindIndex(s[1..], p)
      case None => None
      case Some(i) => Some(i + 1)
  }

  /** The elements of `s` that satisfy `p`, in the order they appear in `s`. */
  function Filter<T>(s: seq<T>, p: T -> bool): (r: seq<T>)
    ensures |r| <= |s|
    ensures forall i :: 0 <= i < |r| ==> r[i] in s && p(r[i])
    ensures forall i :: 0 <= i < |s| && p(s[i]) ==> s[i] in r
  {
    if s == [] then []
    else
      assert s == [s[0]] + s[1..];
      (if p(s[0]) then [s[0]] else []) + Filter(s[1..], p)
  }

  /** Filtering distributes over concatenation: the kept elements keep their order. */
  lemma {:induction false} FilterConcat<T>(a: seq<T>, b: seq<T>, p: T -> bool)
    ensures Filter(a + b, p) == Filter(a, p) + Filter(b, p)
  {
    if a == [] {
      assert a + b == b;
    } else {
      assert (a + b)[1..] == a[1..] + b;
      FilterConcat(a[1..], b, p);
    }
  }

  /** Filtering with a predicate that every element satisfies changes nothing. */
  lemma {:induction false} FilterKeepsAll<T>(s: seq<T>, p: T -> bool)
    requires forall i :: 0 <= i < |s| ==> p(s[i])
    ensures Filter(s, p) == s
  {
    if s != [] {
      FilterKeepsAll(s[1..], p);
    }
  }

  /** The kept and the removed elements together are exactly the input, counted with multiplicity. */
  lemma {:induction false} FilterPartition<T>(s: seq<T>, p: T -> bool)
    ensures multiset(Filter(s, p)) + multiset(Filter(s, x => !p(x))) == multiset(s)
  {
    if s != [] {
      FilterPartition(s[1..], p);
      assert s == [s[0]] + s[1..];
    }
  }
}
