/**
 * The two shapes of linear scan the record store performs over a collection
 * read in file order: stop at the first row that matches, or keep every row
 * that matches.
 */
module Scans {
  import opened Wrappers

  /** `i` is the position of the first element of `s` satisfying `p`. */
  ghost predicate FirstAt<T>(s: seq<T>, p: T -> bool, i: int) {
    && 0 <= i < |s|
    && p(s[i])
    && forall j :: 0 <= j < i ==> !p(s[j])
  }

  /** The position of the first element of `s` satisfying `p`. */
  function FirstIndex<T>(s: seq<T>, p: T -> bool): (r: Option<nat>)
    ensures r.None? <==> forall j :: 0 <= j < |s| ==> !p(s[j])
    ensures r.Some? ==> FirstAt(s, p, r.value)
  {
    if |s| == 0 then None
    else if p(s[0]) then Some(0)
    else
      match FirstIndex(s[1..], p)
      case None =>
        assert forall j :: 1 <= j < |s| ==> s[j] == s[1..][j - 1];
        None
      case Some(i) => Some(i + 1)
  }

  /** The first element of `s`, in order, that satisfies `p`. */
  function FirstMatch<T>(s: seq<T>, p: T -> bool): (r: Option<T>)
    ensures r.None? <==> forall j :: 0 <= j < |s| ==> !p(s[j])
    ensures r.Some? ==> exists i :: FirstAt(s, p, i) && s[i] == r.value
  {
    match FirstIndex(s, p)
    case None => None
    case Some(i) => Some(s[i])
  }

  /** There is at most one first matching position. */
  lemma FirstAtUnique<T>(s: seq<T>, p: T -> bool, i: int)
    requires FirstAt(s, p, i)
    ensures forall k :: FirstAt(s, p, k) ==> k == i
  {
  }

  /** The first match is the element at the first matching position. */
  lemma FirstMatchAt<T>(s: seq<T>, p: T -> bool, i: int)
    requires FirstAt(s, p, i)
    ensures FirstMatch(s, p) == Some(s[i])
  {
    var k := FirstIndex(s, p).value;
    assert FirstAt(s, p, k);
  }

  /** The elements of `s` satisfying `p`, in their order in `s`. */
  function Filter<T(!new)>(s: seq<T>, p: T -> bool): (r: seq<T>)
    ensures |r| <= |s|
    ensures forall k :: 0 <= k < |r| ==> p(r[k]) && r[k] in s
    ensures forall k :: 0 <= k < |s| && p(s[k]) ==> s[k] in r
  {
    if |s| == 0 then []
    else
      assert s == [s[0]] + s[1..];
      (if p(s[0]) then [s[0]] else []) + Filter(s[1..], p)
  }

  /** Filtering keeps every copy of a kept element and no copy of any other. */
  lemma {:induction false} FilterCounts<T(!new)>(s: seq<T>, p: T -> bool)
    ensures forall x :: multiset(Filter(s, p))[x] == if p(x) then multiset(s)[x] else 0
  {
    if |s| > 0 {
      FilterCounts(s[1..], p);
      assert s == [s[0]] + s[1..];
    }
  }

  /** Filtering commutes with concatenation, so the kept rows stay in file order. */
  lemma {:induction false} FilterAppend<T(!new)>(a: seq<T>, b: seq<T>, p: T -> bool)
    ensures Filter(a + b, p) == Filter(a, p) + Filter(b, p)
  {
    if |a| == 0 {
      assert a + b == b;
    } else {
      assert (a + b)[1..] == a[1..] + b;
      FilterAppend(a[1..], b, p);
    }
  }

  /** Two predicates that agree on every element of `s` keep the same rows. */
  lemma {:induction false} FilterCongruent<T(!new)>(s: seq<T>, p: T -> bool, q: T -> bool)
    requires forall k :: 0 <= k < |s| ==> p(s[k]) == q(s[k])
    ensures Filter(s, p) == Filter(s, q)
  {
    if |s| > 0 {
      FilterCongruent(s[1..], p, q);
    }
  }

  /** The values `f` yields on the elements of `s`, in order, skipping the elements it yields nothing for. */
  function Collect<A, B>(s: seq<A>, f: A -> Option<B>): seq<B> {
    if |s| == 0 then []
    else
      (match f(s[0]) case None => [] case Some(b) => [b]) + Collect(s[1..], f)
  }

  /** At most one value per element. */
  lemma {:induction false} CollectBound<A, B>(s: seq<A>, f: A -> Option<B>)
    ensures |Collect(s, f)| <= |s|
  {
    if |s| > 0 {
      CollectBound(s[1..], f);
    }
  }

  /** Every value collected is what `f` yields on some element. */
  lemma {:induction false} CollectSound<A, B>(s: seq<A>, f: A -> Option<B>)
    ensures forall k :: 0 <= k < |Collect(s, f)| ==> exists j :: 0 <= j < |s| && f(s[j]) == Some(Collect(s, f)[k])
  {
    if |s| > 0 {
      var head: seq<B> := match f(s[0]) case None => [] case Some(b) => [b];
      var rest := Collect(s[1..], f);
      CollectSound(s[1..], f);
      var r := Collect(s, f);
      assert r == head + rest;
      forall k | 0 <= k < |r|
        ensures exists j :: 0 <= j < |s| && f(s[j]) == Some(r[k])
      {
        if k < |head| {
          assert f(s[0]) == Some(r[k]);
        } else {
          var j :| 0 <= j < |s[1..]| && f(s[1..][j]) == Some(rest[k - |head|]);
          assert s[1..][j] == s[j + 1];
          assert f(s[j + 1]) == Some(r[k]);
        }
      }
    } else {
      assert Collect(s, f) == [];
    }
  }

  /** Every element `f` yields a value for contributes that value. */
  lemma {:induction false} CollectComplete<A, B>(s: seq<A>, f: A -> Option<B>)
    ensures forall j :: 0 <= j < |s| && f(s[j]).Some? ==> f(s[j]).value in Collect(s, f)
  {
    if |s| > 0 {
      CollectComplete(s[1..], f);
      forall j | 1 <= j < |s|
        ensures s[j] == s[1..][j - 1]
      {
      }
    }
  }

  /** Collecting over a concatenation collects over each part, in order. */
  lemma {:induction false} CollectAppend<A, B>(a: seq<A>, b: seq<A>, f: A -> Option<B>)
    ensures Collect(a + b, f) == Collect(a, f) + Collect(b, f)
  {
    if |a| == 0 {
      assert a + b == b;
    } else {
      assert (a + b)[0] == a[0];
      assert (a + b)[1..] == a[1..] + b;
      CollectAppend(a[1..], b, f);
    }
  }
}
