/**
 * Neighbourhoods of atoms in the per-genome orders of filter_geese_iter.py. Both
 * `compute_unique_contexts` and `compute_in_out` walk every position of every genome order and add
 * something derived from the position's neighbours to a per-atom set; `CollectByAtom` is that walk,
 * parameterised by what a position contributes.
 */
module GeeseNeighbours {
  import opened Options
  import opened Grouping
  import opened GeeseRecords

  /** `order[i-1][0] if i > 0 else None` */
  function PrevAtom(order: seq<Placement>, i: int): Option<Atom> {
    if 0 < i <= |order| then Some(order[i - 1].atom) else None
  }

  /** `order[i+1][0] if i < len(order) - 1 else None` */
  function NextAtom(order: seq<Placement>, i: int): Option<Atom> {
    if -1 <= i < |order| - 1 then Some(order[i + 1].atom) else None
  }

  /** `d.get(a, set())` for a `defaultdict(set)` */
  function Get<K, V>(m: map<K, set<V>>, a: K): set<V> {
    if a in m then m[a] else {}
  }

  /** Some position of some order holds atom `a` and contributes `v`. */
  predicate Witnessed<V(==)>(orders: Orders, f: (seq<Placement>, int) -> Option<V>, a: Atom, v: V) {
    WitnessedBefore(orders, f, a, v, |orders|)
  }

  /** Some position of some order holds atom `a` and contributes something. */
  predicate Produces<V>(orders: Orders, f: (seq<Placement>, int) -> Option<V>, a: Atom) {
    ProducesBefore(orders, f, a, |orders|)
  }

  /** Everything the positions holding `a` contribute. */
  ghost function Gathered<V>(orders: Orders, f: (seq<Placement>, int) -> Option<V>, a: Atom): set<V> {
    set k, i | 0 <= k < |orders| && 0 <= i < |orders[k].items|
      && orders[k].items[i].atom == a && f(orders[k].items, i).Some? :: f(orders[k].items, i).value
  }

  predicate WitnessedIn<V(==)>(order: seq<Placement>, f: (seq<Placement>, int) -> Option<V>, a: Atom, v: V, n: int) {
    exists i :: 0 <= i < n && i < |order| && order[i].atom == a && f(order, i) == Some(v)
  }

  predicate ProducesIn<V>(order: seq<Placement>, f: (seq<Placement>, int) -> Option<V>, a: Atom, n: int) {
    exists i :: 0 <= i < n && i < |order| && order[i].atom == a && f(order, i).Some?
  }

  /** One genome's order added to the sets: the inner `for i, (atom, _) in enumerate(order)`. */
  method AddOrder<V(==, !new)>(m0: map<Atom, set<V>>, order: seq<Placement>, f: (seq<Placement>, int) -> Option<V>)
    returns (m: map<Atom, set<V>>)
    requires forall a :: a in m0 ==> m0[a] != {}
    ensures forall a :: a in m ==> m[a] != {}
    ensures forall a :: a in m <==> a in m0 || ProducesIn(order, f, a, |order|)
    ensures forall a, v :: v in Get(m, a) <==> v in Get(m0, a) || WitnessedIn(order, f, a, v, |order|)
  {
    m := m0;
    var i := 0;
    while i < |order|
      invariant 0 <= i <= |order|
      invariant forall a :: a in m ==> m[a] != {}
      invariant forall a :: a in m <==> a in m0 || ProducesIn(order, f, a, i)
      invariant forall a, v :: v in Get(m, a) <==> v in Get(m0, a) || WitnessedIn(order, f, a, v, i)
    {
      var a := order[i].atom;
      var c := f(order, i);
      if c.Some? {
        m := m[a := Get(m, a) + {c.value}];
      }
      i := i + 1;
    }
  }

  /**
   * The walk over all genome orders: afterwards `a` has a set iff some position holding it
   * contributes, and the set holds exactly what those positions contribute.
   */
  method CollectByAtom<V(==, !new)>(orders: Orders, f: (seq<Placement>, int) -> Option<V>) returns (m: map<Atom, set<V>>)
    ensures forall a :: a in m ==> m[a] != {}
    ensures forall a :: a in m <==> Produces(orders, f, a)
    ensures forall a, v :: v in Get(m, a) <==> Witnessed(orders, f, a, v)
    ensures forall a :: Get(m, a) == Gathered(orders, f, a)
  {
    m := map[];
    var k := 0;
    while k < |orders|
      invariant 0 <= k <= |orders|
      invariant forall a :: a in m ==> m[a] != {}
      invariant forall a :: a in m <==> ProducesBefore(orders, f, a, k)
      invariant forall a, v :: v in Get(m, a) <==> WitnessedBefore(orders, f, a, v, k)
    {
      ghost var m0 := m;
      m := AddOrder(m, orders[k].items, f);
      CollectStep(orders, f, k, m0, m);
      k := k + 1;
    }
    forall a
      ensures Get(m, a) == Gathered(orders, f, a)
    {
      GatheredWitnessed(orders, f, a, Get(m, a));
    }
  }

  lemma CollectStep<V>(orders: Orders, f: (seq<Placement>, int) -> Option<V>, k: int, m0: map<Atom, set<V>>, m: map<Atom, set<V>>)
    requires 0 <= k < |orders|
    requires forall a :: a in m0 <==> ProducesBefore(orders, f, a, k)
    requires forall a, v :: v in Get(m0, a) <==> WitnessedBefore(orders, f, a, v, k)
    requires forall a :: a in m <==> a in m0 || ProducesIn(orders[k].items, f, a, |orders[k].items|)
    requires forall a, v :: v in Get(m, a) <==> v in Get(m0, a) || WitnessedIn(orders[k].items, f, a, v, |orders[k].items|)
    ensures forall a :: a in m <==> ProducesBefore(orders, f, a, k + 1)
    ensures forall a, v :: v in Get(m, a) <==> WitnessedBefore(orders, f, a, v, k + 1)
  {
    forall a, v
      ensures v in Get(m, a) <==> WitnessedBefore(orders, f, a, v, k + 1)
    {
      assert WitnessedBefore(orders, f, a, v, k + 1)
        <==> WitnessedBefore(orders, f, a, v, k) || WitnessedIn(orders[k].items, f, a, v, |orders[k].items|);
    }
    forall a
      ensures a in m <==> ProducesBefore(orders, f, a, k + 1)
    {
      assert ProducesBefore(orders, f, a, k + 1)
        <==> ProducesBefore(orders, f, a, k) || ProducesIn(orders[k].items, f, a, |orders[k].items|);
    }
  }

  predicate WitnessedBefore<V(==)>(orders: Orders, f: (seq<Placement>, int) -> Option<V>, a: Atom, v: V, n: int) {
    exists k :: 0 <= k < n && k < |orders| && WitnessedIn(orders[k].items, f, a, v, |orders[k].items|)
  }

  predicate ProducesBefore<V>(orders: Orders, f: (seq<Placement>, int) -> Option<V>, a: Atom, n: int) {
    exists k :: 0 <= k < n && k < |orders| && ProducesIn(orders[k].items, f, a, |orders[k].items|)
  }

  lemma GatheredWitnessed<V>(orders: Orders, f: (seq<Placement>, int) -> Option<V>, a: Atom, s: set<V>)
    requires forall v :: v in s <==> Witnessed(orders, f, a, v)
    ensures s == Gathered(orders, f, a)
  {
    forall v | v in Gathered(orders, f, a)
      ensures v in s
    {
      var k, i :| 0 <= k < |orders| && 0 <= i < |orders[k].items|
        && orders[k].items[i].atom == a && f(orders[k].items, i).Some? && f(orders[k].items, i).value == v;
      assert Witnessed(orders, f, a, v);
    }
  }
}
