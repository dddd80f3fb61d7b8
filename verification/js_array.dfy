/**
 * The JavaScript array built-ins the note manager relies on: `filter`, which
 * keeps the elements a callback accepts in their original order, and `find`,
 * which returns the first element a callback accepts or `undefined`.
 */
module JsArray {

  import opened Optional

  /** `r` can be obtained from `s` by deleting elements, keeping the rest in order. */
  predicate IsSubsequence<T(==)>(r: seq<T>, s: seq<T>)
    decreases |s|
  {
    if r == [] then true
    else if s == [] then false
    else if r[0] == s[0] then IsSubsequence(r[1..], s[1..])
    else IsSubsequence(r, s[1..])
  }

  /** `Array.prototype.filter`: exactly the elements that satisfy `keep`. */
  function Filter<T>(s: seq<T>, keep: T -> bool): (r: seq<T>)
    ensures |r| <= |s|
    ensures forall x | x in r :: x in s && keep(x)
    ensures forall x | x in s && keep(x) :: x in r
  {
    if s == [] then []
    else (if keep(s[0]) then [s[0]] else []) + Filter(s[1..], keep)
  }

  /** `filter` keeps the original order. */
  lemma {:induction false} FilterIsSubsequence<T>(s: seq<T>, keep: T -> bool)
    ensures IsSubsequence(Filter(s, keep), s)
  {
    if s != [] {
      var rest := Filter(s[1..], keep);
      FilterIsSubsequence(s[1..], keep);
      if keep(s[0]) {
        assert Filter(s, keep)[1..] == rest;
      } else {
        assert Filter(s, keep) == rest;
        SubsequenceOfTail(rest, s);
      }
    }
  }

  /** A subsequence of the tail of `s` is a subsequence of `s`. */
  lemma {:induction false} SubsequenceOfTail<T>(r: seq<T>, s: seq<T>)
    requires s != [] && IsSubsequence(r, s[1..])
    ensures IsSubsequence(r, s)
    decreases |s|, 0
  {
    if r != [] && r[0] == s[0] {
      SubsequenceDropHead(r, s[1..]);
    }
  }

  /** Dropping the first element of a subsequence leaves a subsequence. */
  lemma {:induction false} SubsequenceDropHead<T>(r: seq<T>, s: seq<T>)
    requires r != [] && IsSubsequence(r, s)
    ensures IsSubsequence(r[1..], s)
    decreases |s|, 1
  {
    if r[0] != s[0] {
      SubsequenceDropHead(r, s[1..]);
    }
    SubsequenceOfTail(r[1..], s);
  }

  /** `filter` keeps every copy of an accepted element and no copy of a rejected one. */
  lemma {:induction false} FilterMultiplicity<T>(s: seq<T>, keep: T -> bool, x: T)
    ensures multiset(Filter(s, keep))[x] == if keep(x) then multiset(s)[x] else 0
  {
    if s != [] {
      FilterMultiplicity(s[1..], keep, x);
      assert s == [s[0]] + s[1..];
    }
  }

  /** When every element is accepted, `filter` returns the array unchanged. */
  lemma {:induction false} FilterKeepsAll<T>(s: seq<T>, keep: T -> bool)
    requires forall x | x in s :: keep(x)
    ensures Filter(s, keep) == s
  {
    if s != [] {
      FilterKeepsAll(s[1..], keep);
      assert s == [s[0]] + s[1..];
    }
  }

  /** `Array.prototype.findIndex`, with `|s|` standing for "no such element". */
  function FindIndex<T>(s: seq<T>, accept: T -> bool): (k: nat)
    ensures k <= |s|
    ensures forall j | 0 <= j < k :: !accept(s[j])
    ensures k < |s| ==> accept(s[k])
  {
    if s == [] then 0
    else if accept(s[0]) then 0
    else 1 + FindIndex(s[1..], accept)
  }

  /** `Array.prototype.find`: the first accepted element, or nothing when none is accepted. */
  function Find<T>(s: seq<T>, accept: T -> bool): (r: Option<T>)
    ensures r.None? <==> forall x | x in s :: !accept(x)
    ensures r.Some? ==> r.value in s && accept(r.value)
    ensures r.Some? ==> exists k | 0 <= k < |s| ::
      r.value == s[k] && accept(s[k]) && forall j | 0 <= j < k :: !accept(s[j])
  {
    var k := FindIndex(s, accept);
    if k < |s| then Some(s[k]) else None
  }
}
