/**
 * Python's insertion-ordered `defaultdict(list)` keyed by strings, as a sequence of groups with
 * distinct keys: `d[key].append(v)` appends to the group of `key`, or opens a new group at the
 * end the first time `key` is seen.
 */
module Grouping {

  /** One entry of the dictionary: a key and the values appended under it, in order. */
  datatype Group<T> = Group(key: string, items: seq<T>)

  predicate DistinctKeys<T>(gs: seq<Group<T>>) {
    forall i, j :: 0 <= i < j < |gs| ==> gs[i].key != gs[j].key
  }

  predicate HasKey<T>(gs: seq<Group<T>>, key: string) {
    exists i :: 0 <= i < |gs| && gs[i].key == key
  }

  /** Where `key` sits in the dictionary, or -1. */
  function IndexOf<T>(gs: seq<Group<T>>, key: string): (k: int)
    ensures -1 <= k < |gs|
    ensures k >= 0 ==> gs[k].key == key
    ensures k < 0 ==> forall i :: 0 <= i < |gs| ==> gs[i].key != key
  {
    if gs == [] then -1
    else if gs[|gs| - 1].key == key then |gs| - 1
    else IndexOf(gs[..|gs| - 1], key)
  }

  /** `d.get(key, [])` */
  function Lookup<T>(gs: seq<Group<T>>, key: string): seq<T> {
    var k := IndexOf(gs, key);
    if k >= 0 then gs[k].items else []
  }

  /** `d[key].append(v)` */
  function Append<T>(gs: seq<Group<T>>, key: string, v: T): seq<Group<T>> {
    var k := IndexOf(gs, key);
    if k >= 0 then gs[k := Group(key, gs[k].items + [v])] else gs + [Group(key, [v])]
  }

  /** `[v for (k, v) in pairs if k == key]` */
  function Select<T>(pairs: seq<(string, T)>, key: string): seq<T> {
    if pairs == [] then []
    else
      var last := pairs[|pairs| - 1];
      Select(pairs[..|pairs| - 1], key) + (if last.0 == key then [last.1] else [])
  }

  /** The dictionary obtained by appending every pair, in order, to an empty one. */
  function GroupAll<T>(pairs: seq<(string, T)>): seq<Group<T>> {
    if pairs == [] then []
    else
      var last := pairs[|pairs| - 1];
      Append(GroupAll(pairs[..|pairs| - 1]), last.0, last.1)
  }

  lemma GroupAllSnoc<T>(pairs: seq<(string, T)>, key: string, v: T)
    ensures GroupAll(pairs + [(key, v)]) == Append(GroupAll(pairs), key, v)
  {
    assert (pairs + [(key, v)])[..|pairs|] == pairs;
  }

  /** An append adds its own key and no other. */
  lemma AppendKeys<T>(gs: seq<Group<T>>, key: string, v: T, k: string)
    ensures HasKey(Append(gs, key, v), k) <==> HasKey(gs, k) || k == key
  {
    var r := Append(gs, key, v);
    var j := IndexOf(gs, key);
    assert r[if j >= 0 then j else |gs|].key == key;
    if HasKey(gs, k) {
      var i :| 0 <= i < |gs| && gs[i].key == k;
      assert r[i].key == k;
    }
    if HasKey(r, k) && k != key {
      var i :| 0 <= i < |r| && r[i].key == k;
      assert i < |gs| && gs[i].key == k;
    }
  }

  /** One append changes the list of its own key only, and only by adding the value at its end. */
  lemma AppendSpec<T>(gs: seq<Group<T>>, key: string, v: T)
    requires DistinctKeys(gs)
    ensures DistinctKeys(Append(gs, key, v))
    ensures forall k :: Lookup(Append(gs, key, v), k) == Lookup(gs, k) + (if k == key then [v] else [])
    ensures HasKey(Append(gs, key, v), key)
    ensures forall k :: HasKey(gs, k) ==> HasKey(Append(gs, key, v), k)
    ensures forall i :: 0 <= i < |gs| ==> Append(gs, key, v)[i].key == gs[i].key
  {
    var r := Append(gs, key, v);
    var j := IndexOf(gs, key);
    assert r[if j >= 0 then j else |gs|].key == key;
    forall k | HasKey(gs, k)
      ensures HasKey(r, k)
    {
      var i :| 0 <= i < |gs| && gs[i].key == k;
      assert r[i].key == k;
    }
    forall k
      ensures Lookup(r, k) == Lookup(gs, k) + (if k == key then [v] else [])
    {
      var a, b := IndexOf(r, k), IndexOf(gs, k);
      if b >= 0 {
        assert r[b].key == k;
      } else if k == key {
        assert a == |gs|;
      }
    }
  }

  /**
   * Appending the pairs one by one leaves, under every key, exactly that key's values in their
   * original order; keys are distinct, and a key is present iff some pair carries it.
   */
  lemma {:induction false} GroupAllSpec<T>(pairs: seq<(string, T)>)
    ensures DistinctKeys(GroupAll(pairs))
    ensures forall k :: Lookup(GroupAll(pairs), k) == Select(pairs, k)
    ensures forall k :: HasKey(GroupAll(pairs), k) <==> Select(pairs, k) != []
  {
    if pairs != [] {
      var init := pairs[..|pairs| - 1];
      var last := pairs[|pairs| - 1];
      GroupAllSpec(init);
      AppendSpec(GroupAll(init), last.0, last.1);
    }
    GroupAllKeys(pairs);
  }

  /** A key is present iff some pair carries it. */
  lemma {:induction false} GroupAllKeys<T>(pairs: seq<(string, T)>)
    ensures forall k :: HasKey(GroupAll(pairs), k) <==> Select(pairs, k) != []
  {
    if pairs != [] {
      var init := pairs[..|pairs| - 1];
      var last := pairs[|pairs| - 1];
      GroupAllKeys(init);
      forall k
        ensures HasKey(GroupAll(pairs), k) <==> Select(pairs, k) != []
      {
        AppendKeys(GroupAll(init), last.0, last.1, k);
      }
    }
  }

  /** Every group's list is that key's values, and keys sit at distinct positions. */
  lemma GroupAllItems<T>(pairs: seq<(string, T)>, i: int)
    requires 0 <= i < |GroupAll(pairs)|
    ensures GroupAll(pairs)[i].items == Select(pairs, GroupAll(pairs)[i].key)
    ensures GroupAll(pairs)[i].items != []
  {
    var g := GroupAll(pairs);
    GroupAllSpec(pairs);
    assert IndexOf(g, g[i].key) == i;
    assert HasKey(g, g[i].key);
  }

  /** A value is listed under a key exactly when some pair carries both. */
  lemma {:induction false} SelectHas<T>(pairs: seq<(string, T)>, key: string, v: T)
    ensures v in Select(pairs, key) <==> (key, v) in pairs
  {
    if pairs != [] {
      var init := pairs[..|pairs| - 1];
      SelectHas(init, key, v);
      assert pairs == init + [pairs[|pairs| - 1]];
    }
  }
}
