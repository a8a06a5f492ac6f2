/** Collection helpers shared by the whole model: an optional value, and the
    order-preserving filter that both PHP's `array_filter`/PostgREST's equality
    filters and JavaScript's `Array.prototype.filter` compute. */
module Base {

  datatype Option<+T> = None | Some(value: T)

  /** The elements of `s` that satisfy `p`, in their original order. */
  function Filter<T>(s: seq<T>, p: T -> bool): (r: seq<T>)
    ensures |r| <= |s|
    ensures forall i :: 0 <= i < |r| ==> r[i] in s && p(r[i])
    ensures forall i :: 0 <= i < |s| && p(s[i]) ==> s[i] in r
  {
    if s == [] then []
    else (if p(s[0]) then [s[0]] else []) + Filter(s[1..], p)
  }

  /** Filtering distributes over concatenation, so it keeps relative order. */
  lemma {:induction false} FilterAppend<T>(a: seq<T>, b: seq<T>, p: T -> bool)
    ensures Filter(a + b, p) == Filter(a, p) + Filter(b, p)
  {
    if a == [] {
      assert a + b == b;
    } else {
      assert (a + b)[1..] == a[1..] + b;
      FilterAppend(a[1..], b, p);
    }
  }

  /** A filter whose predicate holds everywhere keeps everything. */
  lemma {:induction false} FilterAll<T>(s: seq<T>, p: T -> bool)
    requires forall i :: 0 <= i < |s| ==> p(s[i])
    ensures Filter(s, p) == s
  {
    if s != [] {
      FilterAll(s[1..], p);
    }
  }

  /** A filter whose predicate holds nowhere keeps nothing. */
  lemma {:induction false} FilterNone<T>(s: seq<T>, p: T -> bool)
    requires forall i :: 0 <= i < |s| ==> !p(s[i])
    ensures Filter(s, p) == []
  {
    if s != [] {
      FilterNone(s[1..], p);
    }
  }

  /** A filter that keeps nothing met no element satisfying `p`. */
  lemma FilterEmpty<T>(s: seq<T>, p: T -> bool)
    requires Filter(s, p) == []
    ensures forall i :: 0 <= i < |s| ==> !p(s[i])
  {
  }

  /** Two complementary filters split a sequence: together they hold every
      element exactly as often as the sequence does. */
  lemma {:induction false} FilterPartition<T>(s: seq<T>, p: T -> bool, q: T -> bool)
    requires forall x :: q(x) == !p(x)
    ensures multiset(Filter(s, p)) + multiset(Filter(s, q)) == multiset(s)
    ensures |Filter(s, p)| + |Filter(s, q)| == |s|
  {
    if s != [] {
      FilterPartition(s[1..], p, q);
      assert s == [s[0]] + s[1..];
    }
  }

  /** Filters with disjoint predicates together keep at most every element. */
  lemma {:induction false} FilterDisjointCount<T>(s: seq<T>, p: T -> bool, q: T -> bool)
    requires forall x :: !(p(x) && q(x))
    ensures |Filter(s, p)| + |Filter(s, q)| <= |s|
  {
    if s != [] {
      FilterDisjointCount(s[1..], p, q);
    }
  }

  /** Filters with disjoint predicates that between them hold for every
      element split the sequence exactly. */
  lemma {:induction false} FilterCoverCount<T>(s: seq<T>, p: T -> bool, q: T -> bool)
    requires forall x :: !(p(x) && q(x))
    requires forall i :: 0 <= i < |s| ==> p(s[i]) || q(s[i])
    ensures |Filter(s, p)| + |Filter(s, q)| == |s|
  {
    if s != [] {
      assert forall i :: 0 <= i < |s[1..]| ==> s[1..][i] == s[i + 1];
      FilterCoverCount(s[1..], p, q);
    }
  }

  /** Filtering twice with the same predicate is filtering once. */
  lemma {:induction false} FilterIdempotent<T>(s: seq<T>, p: T -> bool)
    ensures Filter(Filter(s, p), p) == Filter(s, p)
  {
    FilterAll(Filter(s, p), p);
  }

  /** The first element a filter keeps is the first element of `s` that
      satisfies `p`. */
  lemma {:induction false} FilterFirst<T>(s: seq<T>, p: T -> bool)
    requires Filter(s, p) != []
    ensures exists i :: 0 <= i < |s| && Filter(s, p)[0] == s[i] && p(s[i]) && forall j :: 0 <= j < i ==> !p(s[j])
  {
    if p(s[0]) {
      assert Filter(s, p)[0] == s[0];
    } else {
      assert Filter(s, p) == Filter(s[1..], p);
      FilterFirst(s[1..], p);
      var i :| 0 <= i < |s[1..]| && Filter(s[1..], p)[0] == s[1..][i] && p(s[1..][i]) && forall j :: 0 <= j < i ==> !p(s[1..][j]);
      assert forall j :: 1 <= j < i + 1 ==> s[j] == s[1..][j - 1];
      assert Filter(s, p)[0] == s[i + 1];
    }
  }

  /** A filter keeps exactly the elements that satisfy `p`, and keeps none
      exactly when no element does. */
  lemma FilterMembers<T>(s: seq<T>, p: T -> bool)
    ensures Filter(s, p) == [] <==> forall i :: 0 <= i < |s| ==> !p(s[i])
    ensures forall x :: x in Filter(s, p) <==> x in s && p(x)
  {
    var r := Filter(s, p);
    if forall i :: 0 <= i < |s| ==> !p(s[i]) {
      FilterNone(s, p);
    }
    forall x | x in r ensures x in s && p(x) {
      var j :| 0 <= j < |r| && r[j] == x;
    }
    forall x | x in s && p(x) ensures x in r {
      var j :| 0 <= j < |s| && s[j] == x;
    }
  }

  /** The first row of a result set, as PHP's `$rows[0] ?? null` reads it. */
  function FirstOf<T>(rows: seq<T>): (r: Option<T>)
    ensures r.None? <==> rows == []
    ensures r.Some? ==> r.value == rows[0]
  {
    if rows == [] then None else Some(rows[0])
  }
}
