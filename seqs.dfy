/**
 * List comprehensions over `seq`: `[x for x in s if p(x)]` as `Filter`, with the facts the
 * scripts depend on (order kept, nothing added, idempotent), and `''.join` as `Concat`.
 */
module Seqs {
  import opened Options

  /** `[x for x in s if p(x)]` */
  function Filter<T>(p: T -> bool, s: seq<T>): (r: seq<T>)
    ensures |r| <= |s|
  {
    if s == [] then []
    else Filter(p, s[..|s| - 1]) + (if p(s[|s| - 1]) then [s[|s| - 1]] else [])
  }

  /** The comprehension keeps exactly the elements that pass the test. */
  lemma {:induction false} FilterMembers<T>(p: T -> bool, s: seq<T>)
    ensures forall i :: 0 <= i < |Filter(p, s)| ==> Filter(p, s)[i] in s && p(Filter(p, s)[i])
    ensures forall i :: 0 <= i < |s| && p(s[i]) ==> s[i] in Filter(p, s)
  {
    if s != [] {
      var init := s[..|s| - 1];
      FilterMembers(p, init);
      var r := Filter(p, s);
      forall i | 0 <= i < |r|
        ensures r[i] in s && p(r[i])
      {
        if i < |Filter(p, init)| {
          assert r[i] == Filter(p, init)[i];
          assert r[i] in init;
        } else {
          assert r[i] == s[|s| - 1];
        }
      }
      forall i | 0 <= i < |s| && p(s[i])
        ensures s[i] in r
      {
        if i < |init| {
          assert s[i] == init[i];
          assert s[i] in Filter(p, init);
        } else {
          assert r[|r| - 1] == s[i];
        }
      }
    }
  }

  lemma FilterSnoc<T>(p: T -> bool, s: seq<T>, x: T)
    ensures Filter(p, s + [x]) == Filter(p, s) + (if p(x) then [x] else [])
  {
    assert (s + [x])[..|s|] == s;
  }

  lemma {:induction false} FilterAppend<T>(p: T -> bool, s: seq<T>, t: seq<T>)
    ensures Filter(p, s + t) == Filter(p, s) + Filter(p, t)
    decreases |t|
  {
    if t == [] {
      assert s + t == s;
    } else {
      var u := t[..|t| - 1];
      var x := t[|t| - 1];
      assert t == u + [x];
      assert s + t == (s + u) + [x];
      FilterAppend(p, s, u);
      FilterSnoc(p, s + u, x);
      FilterSnoc(p, u, x);
    }
  }

  /** `a` is what is left of `b` after deleting some elements, order kept. */
  predicate IsSubseq<T(==)>(a: seq<T>, b: seq<T>)
    decreases |b|
  {
    if a == [] then true
    else if b == [] then false
    else if a[|a| - 1] == b[|b| - 1] then IsSubseq(a[..|a| - 1], b[..|b| - 1])
    else IsSubseq(a, b[..|b| - 1])
  }

  lemma {:induction false} SubseqDropLast<T>(a: seq<T>, b: seq<T>)
    requires a != [] && IsSubseq(a, b)
    ensures IsSubseq(a[..|a| - 1], b)
    decreases |b|, 1
  {
    if b == [] {
      assert false;
    } else {
      var a' := a[..|a| - 1];
      var b' := b[..|b| - 1];
      assert b' + [b[|b| - 1]] == b;
      if a' != [] {
        if a[|a| - 1] != b[|b| - 1] {
          SubseqDropLast(a, b');
        }
        SubseqExtend(a', b', b[|b| - 1]);
      }
    }
  }

  lemma {:induction false} SubseqExtend<T>(a: seq<T>, b: seq<T>, x: T)
    requires IsSubseq(a, b)
    ensures IsSubseq(a, b + [x])
    decreases |b|, 2
  {
    assert (b + [x])[..|b|] == b;
    if a != [] && a[|a| - 1] == x {
      SubseqDropLast(a, b);
    }
  }

  /** A filtered list is a subsequence of the list it was filtered from. */
  lemma {:induction false} FilterIsSubseq<T>(p: T -> bool, s: seq<T>)
    ensures IsSubseq(Filter(p, s), s)
    decreases |s|
  {
    if s != [] {
      var s' := s[..|s| - 1];
      var x := s[|s| - 1];
      FilterIsSubseq(p, s');
      var f := Filter(p, s');
      if p(x) {
        assert Filter(p, s) == f + [x];
        assert (f + [x])[..|f|] == f;
      } else {
        assert s' + [x] == s;
        assert Filter(p, s) == f;
        SubseqExtend(f, s', x);
      }
    }
  }

  /** Filtering twice by the same test is filtering once. */
  lemma {:induction false} FilterIdempotent<T>(p: T -> bool, s: seq<T>)
    ensures Filter(p, Filter(p, s)) == Filter(p, s)
    decreases |s|
  {
    if s != [] {
      var s' := s[..|s| - 1];
      var x := s[|s| - 1];
      FilterIdempotent(p, s');
      if p(x) {
        assert Filter(p, s) == Filter(p, s') + [x];
        FilterSnoc(p, Filter(p, s'), x);
      } else {
        assert Filter(p, s) == Filter(p, s');
      }
    }
  }

  /** Filtering by a stricter test after a looser one is filtering by the stricter one alone. */
  lemma {:induction false} FilterNarrow<T>(p: T -> bool, q: T -> bool, s: seq<T>)
    requires forall x :: q(x) ==> p(x)
    ensures Filter(q, Filter(p, s)) == Filter(q, s)
    decreases |s|
  {
    if s != [] {
      var s' := s[..|s| - 1];
      var x := s[|s| - 1];
      FilterNarrow(p, q, s');
      if p(x) {
        assert Filter(p, s) == Filter(p, s') + [x];
        FilterSnoc(q, Filter(p, s'), x);
      } else {
        assert Filter(p, s) == Filter(p, s');
      }
    }
  }

  /** A test every element passes keeps the whole list. */
  lemma {:induction false} FilterAll<T>(p: T -> bool, s: seq<T>)
    requires forall i :: 0 <= i < |s| ==> p(s[i])
    ensures Filter(p, s) == s
    decreases |s|
  {
    if s != [] {
      var s' := s[..|s| - 1];
      FilterAll(p, s');
      assert s' + [s[|s| - 1]] == s;
    }
  }

  /** Two tests that agree on every element keep the same elements. */
  lemma {:induction false} FilterAgree<T>(p: T -> bool, q: T -> bool, s: seq<T>)
    requires forall i :: 0 <= i < |s| ==> p(s[i]) == q(s[i])
    ensures Filter(p, s) == Filter(q, s)
    decreases |s|
  {
    if s != [] {
      FilterAgree(p, q, s[..|s| - 1]);
    }
  }

  predicate ExactlyOne(a: bool, b: bool, c: bool) {
    if a then !b && !c else if b then !c else c
  }

  /**
   * Three tests of which exactly one holds of each element split the list into three lists
   * that together hold every element exactly once.
   */
  lemma {:induction false} FilterPartition<T>(p: T -> bool, q: T -> bool, r: T -> bool, s: seq<T>)
    requires forall i :: 0 <= i < |s| ==> ExactlyOne(p(s[i]), q(s[i]), r(s[i]))
    ensures multiset(Filter(p, s)) + multiset(Filter(q, s)) + multiset(Filter(r, s)) == multiset(s)
    decreases |s|
  {
    if s != [] {
      var s' := s[..|s| - 1];
      var x := s[|s| - 1];
      FilterPartition(p, q, r, s');
      assert s == s' + [x];
      FilterSnocMultiset(p, s', x);
      FilterSnocMultiset(q, s', x);
      FilterSnocMultiset(r, s', x);
      assert ExactlyOne(p(x), q(x), r(x));
    }
  }

  lemma FilterSnocMultiset<T>(p: T -> bool, s: seq<T>, x: T)
    ensures multiset(Filter(p, s + [x])) == multiset(Filter(p, s)) + if p(x) then multiset{x} else multiset{}
  {
    FilterSnoc(p, s, x);
  }

  /** `[f(x) for x in s if f(x) is not None]`: what a loop appends while skipping some elements. */
  function FilterMap<T, U>(f: T -> Option<U>, s: seq<T>): seq<U> {
    if s == [] then []
    else FilterMap(f, s[..|s| - 1]) + (match f(s[|s| - 1]) case Some(u) => [u] case None => [])
  }

  lemma FilterMapSnoc<T, U>(f: T -> Option<U>, s: seq<T>, x: T)
    ensures FilterMap(f, s + [x]) == FilterMap(f, s) + (match f(x) case Some(u) => [u] case None => [])
  {
    assert (s + [x])[..|s|] == s;
  }

  /** A value is appended exactly when some element produces it. */
  lemma {:induction false} FilterMapHas<T, U>(f: T -> Option<U>, s: seq<T>)
    ensures forall u :: u in FilterMap(f, s) <==> exists i :: 0 <= i < |s| && f(s[i]) == Some(u)
  {
    if s != [] {
      var init := s[..|s| - 1];
      FilterMapHas(f, init);
      forall u
        ensures u in FilterMap(f, s) <==> exists i :: 0 <= i < |s| && f(s[i]) == Some(u)
      {
        if u in FilterMap(f, s) && u !in FilterMap(f, init) {
          assert f(s[|s| - 1]) == Some(u);
        }
        if u in FilterMap(f, init) {
          var i :| 0 <= i < |init| && f(init[i]) == Some(u);
          assert s[i] == init[i];
        }
        if exists i :: 0 <= i < |s| && f(s[i]) == Some(u) {
          var i :| 0 <= i < |s| && f(s[i]) == Some(u);
          if i < |init| {
            assert init[i] == s[i];
          }
        }
      }
    }
  }

  /** `{f(x) for x in s if f(x) is not None}`: what a loop adds to a set while skipping some elements. */
  function Collect<T, U>(f: T -> Option<U>, s: seq<T>): set<U> {
    if s == [] then {}
    else Collect(f, s[..|s| - 1]) + (match f(s[|s| - 1]) case Some(u) => {u} case None => {})
  }

  lemma CollectSnoc<T, U>(f: T -> Option<U>, s: seq<T>, x: T)
    ensures Collect(f, s + [x]) == Collect(f, s) + (match f(x) case Some(u) => {u} case None => {})
  {
    assert (s + [x])[..|s|] == s;
  }

  /** A value is in the set exactly when some element produces it. */
  lemma {:induction false} CollectHas<T, U>(f: T -> Option<U>, s: seq<T>)
    ensures forall u :: u in Collect(f, s) <==> exists i :: 0 <= i < |s| && f(s[i]) == Some(u)
  {
    if s != [] {
      var init := s[..|s| - 1];
      CollectHas(f, init);
      forall u
        ensures u in Collect(f, s) <==> exists i :: 0 <= i < |s| && f(s[i]) == Some(u)
      {
        if u in Collect(f, s) && u !in Collect(f, init) {
          assert f(s[|s| - 1]) == Some(u);
        }
        if u in Collect(f, init) {
          var i :| 0 <= i < |init| && f(init[i]) == Some(u);
          assert s[i] == init[i];
        }
        if exists i :: 0 <= i < |s| && f(s[i]) == Some(u) {
          var i :| 0 <= i < |s| && f(s[i]) == Some(u);
          if i < |init| {
            assert init[i] == s[i];
          }
        }
      }
    }
  }

  /** `''.join(parts)` */
  function Concat(parts: seq<string>): string {
    if parts == [] then "" else Concat(parts[..|parts| - 1]) + parts[|parts| - 1]
  }

  /** The values paired with `k`: what a dictionary of sets filled from `pairs` holds at `k`. */
  function ValuesOf<K(==), V(==)>(pairs: seq<(K, V)>, k: K): set<V> {
    set i | 0 <= i < |pairs| && pairs[i].0 == k :: pairs[i].1
  }

  lemma ValuesOfSnoc<K, V>(pairs: seq<(K, V)>, k: K, v: V, key: K)
    ensures ValuesOf(pairs + [(k, v)], key) == ValuesOf(pairs, key) + (if key == k then {v} else {})
  {
    var post := pairs + [(k, v)];
    assert post[|pairs|] == (k, v);
    forall u | u in ValuesOf(post, key)
      ensures u in ValuesOf(pairs, key) + (if key == k then {v} else {})
    {
      var j :| 0 <= j < |post| && post[j].0 == key && post[j].1 == u;
      if j < |pairs| {
        assert pairs[j] == post[j];
      }
    }
    forall u | u in ValuesOf(pairs, key)
      ensures u in ValuesOf(post, key)
    {
      var j :| 0 <= j < |pairs| && pairs[j].0 == key && pairs[j].1 == u;
      assert post[j] == pairs[j];
    }
  }

  lemma ValuesOfHas<K, V>(pairs: seq<(K, V)>, k: K, v: V)
    ensures v in ValuesOf(pairs, k) <==> (k, v) in pairs
  {
    if (k, v) in pairs {
      var j :| 0 <= j < |pairs| && pairs[j] == (k, v);
    }
  }

  predicate Distinct<T(==)>(s: seq<T>) {
    forall i, j :: 0 <= i < j < |s| ==> s[i] != s[j]
  }
}
