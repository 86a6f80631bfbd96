/**
 * The per-genome disambiguation of filter_geese_iter.py (`context_filter`). Every atom that sits
 * between some recorded pair is looked up in all genome orders; its occurrences are grouped by
 * their strand-normalised context, the context seen by the most genomes wins (the first one met on
 * a tie), and the atom is dropped from every genome that shows it in any other context.
 */
module GeeseContext {
  import opened Options
  import opened Seqs
  import opened Grouping
  import opened GeeseRecords
  import opened GeeseNeighbours
  import opened GeesePairs

  /** A strand-normalised context: `(prev, next)` on the `+` strand, `(next, prev)` otherwise. */
  datatype Oriented = Oriented(left: Option<Atom>, right: Option<Atom>)

  function OrientedAt(order: seq<Placement>, i: int): Oriented
    requires 0 <= i < |order|
  {
    if order[i].strand == "+" then Oriented(PrevAtom(order, i), NextAtom(order, i))
    else Oriented(NextAtom(order, i), PrevAtom(order, i))
  }

  // ---------------------------------------------------------------------------
  // Which genomes show an atom in which context

  /** One of the first `n` positions of `order` holds `x` in context `c`. */
  predicate ShowsIn(order: seq<Placement>, x: Atom, c: Oriented, n: int) {
    exists i :: 0 <= i < n <= |order| && order[i].atom == x && OrientedAt(order, i) == c
  }

  /** One of the first `n` genome orders is genome `g`'s and shows `x` in context `c`. */
  predicate ShowsBefore(orders: Orders, x: Atom, c: Oriented, g: Genome, n: int) {
    exists k :: 0 <= k < n && k < |orders| && orders[k].key == g
      && ShowsIn(orders[k].items, x, c, |orders[k].items|)
  }

  /** Genome `g` shows atom `x` in context `c`. */
  predicate Shows(orders: Orders, x: Atom, c: Oriented, g: Genome) {
    ShowsBefore(orders, x, c, g, |orders|)
  }

  /** The genomes that show `x` in context `c`. */
  ghost function Support(orders: Orders, x: Atom, c: Oriented): set<Genome> {
    set k | 0 <= k < |orders| && ShowsIn(orders[k].items, x, c, |orders[k].items|) :: orders[k].key
  }

  lemma SupportShows(orders: Orders, x: Atom, c: Oriented, g: Genome)
    ensures g in Support(orders, x, c) <==> Shows(orders, x, c, g)
  {
  }

  // ---------------------------------------------------------------------------
  // atom_ctx2gen: an insertion-ordered dictionary from contexts to genome sets

  /** An entry `ctx: genomes` of `atom_ctx2gen`. */
  datatype Entry = Entry(ctx: Oriented, genomes: set<Genome>)

  type Table = seq<Entry>

  /** Where context `c` sits in the table, or -1. */
  function Find(t: Table, c: Oriented): (r: int)
    ensures -1 <= r < |t|
    ensures r >= 0 ==> t[r].ctx == c
    ensures r < 0 ==> forall s :: 0 <= s < |t| ==> t[s].ctx != c
  {
    if t == [] then -1
    else if t[|t| - 1].ctx == c then |t| - 1
    else Find(t[..|t| - 1], c)
  }

  /** `atom_ctx2gen[c].add(g)` */
  function Add(t: Table, c: Oriented, g: Genome): Table {
    var r := Find(t, c);
    if r >= 0 then t[r := Entry(c, t[r].genomes + {g})] else t + [Entry(c, {g})]
  }

  /** The `(context, genome)` of every occurrence of `x` among the first `n` positions of `order`. */
  function OccsIn(order: seq<Placement>, g: Genome, x: Atom, n: int): seq<(Oriented, Genome)>
    requires 0 <= n <= |order|
  {
    if n == 0 then []
    else OccsIn(order, g, x, n - 1) + (if order[n - 1].atom == x then [(OrientedAt(order, n - 1), g)] else [])
  }

  /** The occurrences of `x` in the first `n` genome orders, in the order the walk meets them. */
  function Occs(orders: Orders, x: Atom, n: int): seq<(Oriented, Genome)>
    requires 0 <= n <= |orders|
  {
    if n == 0 then []
    else Occs(orders, x, n - 1) + OccsIn(orders[n - 1].items, orders[n - 1].key, x, |orders[n - 1].items|)
  }

  /** The table the walk builds from a list of occurrences. */
  function Tabulate(occs: seq<(Oriented, Genome)>): Table {
    if occs == [] then []
    else
      var last := occs[|occs| - 1];
      Add(Tabulate(occs[..|occs| - 1]), last.0, last.1)
  }

  /** `atom_ctx2gen` for atom `x` over all genome orders. */
  function ContextTable(orders: Orders, x: Atom): Table {
    Tabulate(Occs(orders, x, |orders|))
  }

  /** Context `c` occurs among the first `m` occurrences. */
  predicate SeenBefore(occs: seq<(Oriented, Genome)>, c: Oriented, m: int) {
    exists m' :: 0 <= m' < m && m' < |occs| && occs[m'].0 == c
  }

  /** Each table entry was first met before every later entry. */
  predicate InFirstSeenOrder(t: Table, occs: seq<(Oriented, Genome)>) {
    forall s, s', m :: 0 <= s < s' < |t| && 0 <= m < |occs| && occs[m].0 == t[s'].ctx ==> SeenBefore(occs, t[s].ctx, m)
  }

  lemma TabulateSnoc(occs: seq<(Oriented, Genome)>, c: Oriented, g: Genome)
    ensures Tabulate(occs + [(c, g)]) == Add(Tabulate(occs), c, g)
  {
    assert (occs + [(c, g)])[..|occs|] == occs;
  }

  /** The table has one entry per context met, holding exactly the genomes met with that context. */
  lemma {:induction false} TabulateEntries(occs: seq<(Oriented, Genome)>)
    ensures forall s, s' :: 0 <= s < s' < |Tabulate(occs)| ==> Tabulate(occs)[s].ctx != Tabulate(occs)[s'].ctx
    ensures forall s, g :: 0 <= s < |Tabulate(occs)| ==> (g in Tabulate(occs)[s].genomes <==> (Tabulate(occs)[s].ctx, g) in occs)
    ensures forall s :: 0 <= s < |Tabulate(occs)| ==> Tabulate(occs)[s].genomes != {}
  {
    if occs != [] {
      var init := occs[..|occs| - 1];
      var last := occs[|occs| - 1];
      assert occs == init + [last];
      TabulateEntries(init);
      var t0 := Tabulate(init);
      var t := Tabulate(occs);
      assert t == Add(t0, last.0, last.1);
      TabulateFind(init);
      var r := Find(t0, last.0);
      forall s, g | 0 <= s < |t|
        ensures g in t[s].genomes <==> (t[s].ctx, g) in occs
      {
        var p := (t[s].ctx, g);
        assert p in occs <==> p in init || p == last;
        if r >= 0 && s == r {
          // the entry of `last.0` gained `last.1`
        } else if s < |t0| {
          assert t[s] == t0[s];
        } else {
          forall m | 0 <= m < |init|
            ensures init[m] != p
          {
            assert Find(t0, init[m].0) >= 0;
          }
        }
      }
    }
  }

  /** Every context met has an entry. */
  lemma {:induction false} TabulateFind(occs: seq<(Oriented, Genome)>)
    ensures forall m :: 0 <= m < |occs| ==> Find(Tabulate(occs), occs[m].0) >= 0
  {
    if occs != [] {
      var init := occs[..|occs| - 1];
      var last := occs[|occs| - 1];
      TabulateFind(init);
      var t0 := Tabulate(init);
      var t := Tabulate(occs);
      var r := Find(t0, last.0);
      assert t == Add(t0, last.0, last.1);
      forall m | 0 <= m < |occs|
        ensures Find(t, occs[m].0) >= 0
      {
        if m < |init| {
          var s := Find(t0, init[m].0);
          assert t[s].ctx == occs[m].0;
        } else {
          assert t[if r >= 0 then r else |t0|].ctx == last.0;
        }
      }
    }
  }

  /** The entries come in the order their contexts were first met. */
  lemma {:induction false} TabulateOrder(occs: seq<(Oriented, Genome)>)
    ensures InFirstSeenOrder(Tabulate(occs), occs)
  {
    if occs != [] {
      var init := occs[..|occs| - 1];
      var last := occs[|occs| - 1];
      var t0 := Tabulate(init);
      TabulateOrder(init);
      TabulateEntries(init);
      TabulateFind(init);
      assert occs == init + [last];
      assert Tabulate(occs) == Add(t0, last.0, last.1);
      OrderStep(t0, init, last);
    }
  }

  /** Adding one occurrence keeps the entries in first-met order. */
  lemma {:induction false} OrderStep(t0: Table, init: seq<(Oriented, Genome)>, last: (Oriented, Genome))
    requires InFirstSeenOrder(t0, init)
    requires forall s :: 0 <= s < |t0| ==> t0[s].genomes != {}
    requires forall s, g :: 0 <= s < |t0| ==> (g in t0[s].genomes <==> (t0[s].ctx, g) in init)
    requires forall m :: 0 <= m < |init| ==> Find(t0, init[m].0) >= 0
    ensures InFirstSeenOrder(Add(t0, last.0, last.1), init + [last])
  {
    var t := Add(t0, last.0, last.1);
    var occs := init + [last];
    forall s, s', m | 0 <= s < s' < |t| && 0 <= m < |occs| && occs[m].0 == t[s'].ctx
      ensures SeenBefore(occs, t[s].ctx, m)
    {
      if s' == |t0| && m < |init| {
        // the appended context is new, yet `init[m]` already has it
        assert false;
      } else if m < |init| {
        OrderStepEarlier(t0, init, last, s, s', m);
      } else {
        assert s < |t0| && t[s].ctx == t0[s].ctx;
        OrderStepLast(t0, init, last, s);
      }
    }
  }

  /** One step of `TabulateOrder`, for an occurrence already met before the last one. */
  lemma {:induction false} OrderStepEarlier(t0: Table, init: seq<(Oriented, Genome)>, last: (Oriented, Genome), s: int, s': int, m: int)
    requires InFirstSeenOrder(t0, init)
    requires forall m :: 0 <= m < |init| ==> Find(t0, init[m].0) >= 0
    requires 0 <= s < s' < |Add(t0, last.0, last.1)| && 0 <= m < |init|
    requires init[m].0 == Add(t0, last.0, last.1)[s'].ctx
    ensures SeenBefore(init + [last], Add(t0, last.0, last.1)[s].ctx, m)
  {
    var t := Add(t0, last.0, last.1);
    var occs := init + [last];
    assert t[s].ctx == t0[s].ctx;
    var r := Find(t0, init[m].0);
    assert s' < |t0| && t[s'].ctx == t0[s'].ctx;
    assert SeenBefore(init, t0[s].ctx, m);
    var m' :| 0 <= m' < m && m' < |init| && init[m'].0 == t0[s].ctx;
    assert occs[m'] == init[m'];
    assert SeenBefore(occs, t[s].ctx, m);
  }

  /** One step of `TabulateOrder`, for the last occurrence. */
  lemma {:induction false} OrderStepLast(t0: Table, init: seq<(Oriented, Genome)>, last: (Oriented, Genome), s: int)
    requires forall s :: 0 <= s < |t0| ==> t0[s].genomes != {}
    requires forall s, g :: 0 <= s < |t0| ==> (g in t0[s].genomes <==> (t0[s].ctx, g) in init)
    requires 0 <= s < |t0|
    ensures SeenBefore(init + [last], t0[s].ctx, |init|)
  {
    var occs := init + [last];
    var g :| g in t0[s].genomes;
    assert (t0[s].ctx, g) in init;
    var m' :| 0 <= m' < |init| && init[m'] == (t0[s].ctx, g);
    assert occs[m'] == init[m'];
  }

  lemma OccsInStep(order: seq<Placement>, g: Genome, x: Atom, n: int)
    requires 0 <= n < |order|
    ensures OccsIn(order, g, x, n + 1)
            == OccsIn(order, g, x, n) + (if order[n].atom == x then [(OrientedAt(order, n), g)] else [])
  {
  }

  /** An occurrence of `x` in one order is a position holding `x`, with its context and the genome. */
  lemma {:induction false} OccsInSpec(order: seq<Placement>, g: Genome, x: Atom, n: int)
    requires 0 <= n <= |order|
    ensures forall c, g' :: (c, g') in OccsIn(order, g, x, n) <==> g' == g && ShowsIn(order, x, c, n)
  {
    if n > 0 {
      OccsInSpec(order, g, x, n - 1);
      forall c, g'
        ensures (c, g') in OccsIn(order, g, x, n) <==> g' == g && ShowsIn(order, x, c, n)
      {
        if g' == g && ShowsIn(order, x, c, n) && !ShowsIn(order, x, c, n - 1) {
          var i :| 0 <= i < n <= |order| && order[i].atom == x && OrientedAt(order, i) == c;
          assert i == n - 1;
        }
      }
    }
  }

  /** An occurrence of `x` is a genome showing `x` in that context. */
  lemma {:induction false} OccsSpec(orders: Orders, x: Atom, n: int)
    requires 0 <= n <= |orders|
    ensures forall c, g :: (c, g) in Occs(orders, x, n) <==> ShowsBefore(orders, x, c, g, n)
  {
    if n > 0 {
      OccsSpec(orders, x, n - 1);
      var o := orders[n - 1];
      OccsInSpec(o.items, o.key, x, |o.items|);
      forall c, g
        ensures (c, g) in Occs(orders, x, n) <==> ShowsBefore(orders, x, c, g, n)
      {
        assert ShowsBefore(orders, x, c, g, n)
          <==> ShowsBefore(orders, x, c, g, n - 1) || (o.key == g && ShowsIn(o.items, x, c, |o.items|));
      }
    }
  }

  /**
   * `atom_ctx2gen` for atom `x`: one entry per context some genome shows `x` in, each holding
   * exactly the genomes that do, in the order the walk first meets the contexts.
   */
  lemma ContextTableSpec(orders: Orders, x: Atom)
    ensures forall s, s' :: 0 <= s < s' < |ContextTable(orders, x)| ==> ContextTable(orders, x)[s].ctx != ContextTable(orders, x)[s'].ctx
    ensures forall s :: 0 <= s < |ContextTable(orders, x)| ==>
      ContextTable(orders, x)[s].genomes == Support(orders, x, ContextTable(orders, x)[s].ctx) != {}
    ensures forall c, g :: Shows(orders, x, c, g) ==> Find(ContextTable(orders, x), c) >= 0
    ensures InFirstSeenOrder(ContextTable(orders, x), Occs(orders, x, |orders|))
  {
    var occs := Occs(orders, x, |orders|);
    var t := ContextTable(orders, x);
    TabulateEntries(occs);
    TabulateFind(occs);
    TabulateOrder(occs);
    OccsSpec(orders, x, |orders|);
    forall s | 0 <= s < |t|
      ensures t[s].genomes == Support(orders, x, t[s].ctx)
    {
      forall g
        ensures g in t[s].genomes <==> g in Support(orders, x, t[s].ctx)
      {
        SupportShows(orders, x, t[s].ctx, g);
      }
    }
    forall c, g | Shows(orders, x, c, g)
      ensures Find(t, c) >= 0
    {
      var m :| 0 <= m < |occs| && occs[m] == (c, g);
    }
  }

  /**
   * The inner walk of `context_filter` for one atom: every genome order in turn, every position
   * holding `x`, its normalised context and genome added to the table.
   */
  method AtomContexts(orders: Orders, x: Atom) returns (t: Table)
    ensures t == ContextTable(orders, x)
  {
    t := [];
    var k := 0;
    while k < |orders|
      invariant 0 <= k <= |orders|
      invariant t == Tabulate(Occs(orders, x, k))
    {
      ghost var pre := Occs(orders, x, k);
      t := AddGenome(t, orders[k].items, orders[k].key, x, pre);
      OccsNext(orders, x, k);
      k := k + 1;
    }
  }

  lemma OccsNext(orders: Orders, x: Atom, k: int)
    requires 0 <= k < |orders|
    ensures Occs(orders, x, k + 1) == Occs(orders, x, k) + OccsIn(orders[k].items, orders[k].key, x, |orders[k].items|)
  {
  }

  /** The positions of one genome order added to the table. */
  method AddGenome(t0: Table, order: seq<Placement>, g: Genome, x: Atom, ghost pre: seq<(Oriented, Genome)>)
    returns (t: Table)
    requires t0 == Tabulate(pre)
    ensures t == Tabulate(pre + OccsIn(order, g, x, |order|))
  {
    t := t0;
    var i := 0;
    assert pre + OccsIn(order, g, x, 0) == pre;
    while i < |order|
      invariant 0 <= i <= |order|
      invariant t == Tabulate(pre + OccsIn(order, g, x, i))
    {
      AddGenomeStep(t, order, g, x, pre, i);
      if order[i].atom == x {
        t := Add(t, OrientedAt(order, i), g);
      }
      i := i + 1;
    }
  }

  /** One position of the order added to the table. */
  lemma AddGenomeStep(t: Table, order: seq<Placement>, g: Genome, x: Atom, pre: seq<(Oriented, Genome)>, i: int)
    requires 0 <= i < |order|
    requires t == Tabulate(pre + OccsIn(order, g, x, i))
    ensures (if order[i].atom == x then Add(t, OrientedAt(order, i), g) else t) == Tabulate(pre + OccsIn(order, g, x, i + 1))
  {
    OccsInStep(order, g, x, i);
    if order[i].atom == x {
      var c := OrientedAt(order, i);
      assert pre + OccsIn(order, g, x, i + 1) == (pre + OccsIn(order, g, x, i)) + [(c, g)];
      TabulateSnoc(pre + OccsIn(order, g, x, i), c, g);
    } else {
      assert OccsIn(order, g, x, i + 1) == OccsIn(order, g, x, i);
    }
  }

  // ---------------------------------------------------------------------------
  // The winning context

  /**
   * `max(atom_ctx2gen.items(), key=lambda item: len(item[1]))`: the first entry whose genome set
   * is as large as any.
   */
  function FirstMax(t: Table): (r: int)
    requires t != []
    ensures 0 <= r < |t|
    ensures forall s :: 0 <= s < |t| ==> |t[s].genomes| <= |t[r].genomes|
    ensures forall s :: 0 <= s < r ==> |t[s].genomes| < |t[r].genomes|
  {
    if |t| == 1 then 0
    else
      var r := FirstMax(t[..|t| - 1]);
      if |t[|t| - 1].genomes| > |t[r].genomes| then |t| - 1 else r
  }

  /** The context that wins for atom `x`. */
  function Best(orders: Orders, x: Atom): Oriented
    requires ContextTable(orders, x) != []
  {
    ContextTable(orders, x)[FirstMax(ContextTable(orders, x))].ctx
  }

  /**
   * No context is shown by more genomes than the winning one, and any other context shown by as
   * many genomes was first met after the winning one.
   */
  lemma BestIsMaximal(orders: Orders, x: Atom, c: Oriented)
    requires ContextTable(orders, x) != []
    ensures Support(orders, x, c) != {} ==> Find(ContextTable(orders, x), c) >= 0
    ensures |Support(orders, x, c)| <= |Support(orders, x, Best(orders, x))|
    ensures c != Best(orders, x) && |Support(orders, x, c)| == |Support(orders, x, Best(orders, x))| ==>
      forall m :: 0 <= m < |Occs(orders, x, |orders|)| && Occs(orders, x, |orders|)[m].0 == c
        ==> SeenBefore(Occs(orders, x, |orders|), Best(orders, x), m)
  {
    var t := ContextTable(orders, x);
    var b := FirstMax(t);
    ContextTableSpec(orders, x);
    if Support(orders, x, c) != {} {
      var g :| g in Support(orders, x, c);
      SupportShows(orders, x, c, g);
      var s := Find(t, c);
      assert t[s].genomes == Support(orders, x, c);
      if s != b && |t[s].genomes| == |t[b].genomes| {
        assert b < s;
      }
    }
  }

  /** Genome `g` shows `x` in a context other than the winning one. */
  predicate Marked(t: Table, b: int, n: int, g: Genome)
    requires 0 <= b < |t|
  {
    exists s :: 0 <= s < n && s < |t| && t[s].ctx != t[b].ctx && g in t[s].genomes
  }

  /** `x` is to be removed from genome `g`. */
  predicate Misplaced(orders: Orders, x: Atom, g: Genome) {
    var t := ContextTable(orders, x);
    t != [] && Marked(t, FirstMax(t), |t|, g)
  }

  /**
   * An atom is removed from a genome iff that genome shows it in some context other than the
   * winning one, whichever other contexts the genome also shows it in.
   */
  lemma MisplacedMeans(orders: Orders, x: Atom, g: Genome)
    ensures Misplaced(orders, x, g) <==>
      ContextTable(orders, x) != [] && exists c :: c != Best(orders, x) && Shows(orders, x, c, g)
  {
    if ContextTable(orders, x) != [] {
      if Misplaced(orders, x, g) {
        MisplacedShows(orders, x, g);
      }
      if c :| c != Best(orders, x) && Shows(orders, x, c, g) {
        ShowsMisplaced(orders, x, g, c);
      }
    }
  }

  lemma MisplacedShows(orders: Orders, x: Atom, g: Genome)
    requires Misplaced(orders, x, g)
    ensures exists c :: c != Best(orders, x) && Shows(orders, x, c, g)
  {
    var t := ContextTable(orders, x);
    ContextTableSpec(orders, x);
    var b := FirstMax(t);
    var s :| 0 <= s < |t| && t[s].ctx != t[b].ctx && g in t[s].genomes;
    SupportShows(orders, x, t[s].ctx, g);
  }

  lemma ShowsMisplaced(orders: Orders, x: Atom, g: Genome, c: Oriented)
    requires ContextTable(orders, x) != []
    requires c != Best(orders, x) && Shows(orders, x, c, g)
    ensures Misplaced(orders, x, g)
  {
    var t := ContextTable(orders, x);
    ContextTableSpec(orders, x);
    var b := FirstMax(t);
    var s := Find(t, c);
    SupportShows(orders, x, c, g);
    assert Marked(t, b, |t|, g);
  }

  // ---------------------------------------------------------------------------
  // context_filter

  /** `set(x for ctx in between_ctxs for x in ctx)` */
  function UnionAtoms(between: map<seq<Atom>, set<Genome>>): (u: set<Atom>)
    ensures forall x :: x in u <==> exists bt :: bt in between && x in bt
  {
    set bt, t | bt in between && 0 <= t < |bt| :: bt[t]
  }

  /** `x` lies between the two atoms of some recorded pair. */
  predicate InTuples(ctx: ContextsMap, x: Atom) {
    exists ab :: ab in ctx && x in UnionAtoms(ctx[ab])
  }

  /** `x` lies between the two atoms of some recorded pair among `keys`. */
  predicate InTuplesOf(ctx: ContextsMap, keys: set<(Atom, Atom)>, x: Atom) {
    exists ab :: ab in keys && ab in ctx && x in UnionAtoms(ctx[ab])
  }

  /** The body of the loop over `union_atoms` for one atom: its removals added to `rm0`. */
  method RemoveAtom(rm0: map<Genome, set<Atom>>, orders: Orders, x: Atom) returns (rm: map<Genome, set<Atom>>)
    ensures forall g, y :: y in Get(rm, g) <==> y in Get(rm0, g) || (y == x && Misplaced(orders, x, g))
  {
    var t := AtomContexts(orders, x);
    if t == [] {
      return rm0;
    }
    var best := FirstMax(t);
    rm := rm0;
    var s := 0;
    while s < |t|
      invariant 0 <= s <= |t|
      invariant forall g, y :: y in Get(rm, g) <==> y in Get(rm0, g) || (y == x && Marked(t, best, s, g))
    {
      if t[s].ctx != t[best].ctx {
        rm := MarkGenomes(rm, t[s].genomes, x);
      }
      assert forall g :: Marked(t, best, s + 1, g) <==>
        Marked(t, best, s, g) || (t[s].ctx != t[best].ctx && g in t[s].genomes);
      s := s + 1;
    }
  }

  /** `for g in gens: per_genome_rm[g].add(x)` */
  method MarkGenomes(rm0: map<Genome, set<Atom>>, gens: set<Genome>, x: Atom) returns (rm: map<Genome, set<Atom>>)
    ensures forall g, y :: y in Get(rm, g) <==> y in Get(rm0, g) || (y == x && g in gens)
  {
    rm := rm0;
    var gs := gens;
    while gs != {}
      invariant gs <= gens
      invariant forall g, y :: y in Get(rm, g) <==> y in Get(rm0, g) || (y == x && g in gens - gs)
      decreases |gs|
    {
      var g :| g in gs;
      rm := rm[g := Get(rm, g) + {x}];
      gs := gs - {g};
    }
  }

  /** The final loop of `context_filter`: every genome order loses the atoms removed from it. */
  method ApplyRemovals(orders: Orders, rm: map<Genome, set<Atom>>) returns (r: Orders)
    ensures |r| == |orders|
    ensures forall k :: 0 <= k < |r| ==>
      r[k].key == orders[k].key && r[k].items == Filter((p: Placement) => p.atom !in Get(rm, orders[k].key), orders[k].items)
  {
    r := [];
    var k := 0;
    while k < |orders|
      invariant 0 <= k <= |orders|
      invariant |r| == k
      invariant forall k' :: 0 <= k' < k ==>
        r[k'].key == orders[k'].key && r[k'].items == Filter((p: Placement) => p.atom !in Get(rm, orders[k'].key), orders[k'].items)
    {
      var g := orders[k].key;
      r := r + [Group(g, Filter((p: Placement) => p.atom !in Get(rm, g), orders[k].items))];
      k := k + 1;
    }
  }

  /**
   * After the removals every genome order is a subsequence of what it was, holds no atom removed
   * from its genome, and keeps every placement whose atom was not removed there.
   */
  lemma RemovalsApplied(orders: Orders, rm: map<Genome, set<Atom>>, r: Orders)
    requires |r| == |orders|
    requires forall k :: 0 <= k < |r| ==>
      r[k].key == orders[k].key && r[k].items == Filter((p: Placement) => p.atom !in Get(rm, orders[k].key), orders[k].items)
    ensures forall k, i :: 0 <= k < |r| && 0 <= i < |r[k].items| ==> r[k].items[i].atom !in Get(rm, r[k].key)
    ensures forall k, i :: 0 <= k < |r| && 0 <= i < |orders[k].items| && orders[k].items[i].atom !in Get(rm, r[k].key) ==>
      orders[k].items[i] in r[k].items
    ensures forall k :: 0 <= k < |r| ==> IsSubseq(r[k].items, orders[k].items)
  {
    forall k | 0 <= k < |r|
      ensures IsSubseq(r[k].items, orders[k].items)
    {
      FilterIsSubseq((p: Placement) => p.atom !in Get(rm, orders[k].key), orders[k].items);
    }
    forall k | 0 <= k < |r|
      ensures forall i :: 0 <= i < |r[k].items| ==> r[k].items[i].atom !in Get(rm, r[k].key)
      ensures forall i :: 0 <= i < |orders[k].items| && orders[k].items[i].atom !in Get(rm, r[k].key) ==>
        orders[k].items[i] in r[k].items
    {
      FilterMembers((p: Placement) => p.atom !in Get(rm, orders[k].key), orders[k].items);
    }
  }

  /** The loop over `union_atoms` for one pair, in any order. */
  method RemoveAtoms(rm0: map<Genome, set<Atom>>, orders: Orders, union: set<Atom>) returns (rm: map<Genome, set<Atom>>)
    ensures forall g, x :: x in Get(rm, g) <==> x in Get(rm0, g) || (x in union && Misplaced(orders, x, g))
  {
    rm := rm0;
    var todo := union;
    while todo != {}
      invariant todo <= union
      invariant forall g, x :: x in Get(rm, g) <==> x in Get(rm0, g) || (x in union - todo && Misplaced(orders, x, g))
      decreases |todo|
    {
      var x :| x in todo;
      ghost var rm1 := rm;
      rm := RemoveAtom(rm, orders, x);
      assert union - (todo - {x}) == (union - todo) + {x};
      todo := todo - {x};
    }
    assert union - todo == union;
  }

  /**
   * `context_filter`. Walks the recorded pairs and, for each, the atoms between them, in any
   * order; afterwards `x` is removed from genome `g` iff `x` lies between some recorded pair and
   * `g` shows `x` in a context that is not the winning one. The removals are applied to the orders
   * only once every pair has been handled.
   */
  method ContextFilter(ctx: ContextsMap, orders: Orders) returns (rm: map<Genome, set<Atom>>, filtered: Orders)
    ensures forall g, x :: x in Get(rm, g) <==> InTuples(ctx, x) && Misplaced(orders, x, g)
    ensures |filtered| == |orders|
    ensures forall k :: 0 <= k < |filtered| ==>
      filtered[k].key == orders[k].key && filtered[k].items == Filter((p: Placement) => p.atom !in Get(rm, orders[k].key), orders[k].items)
  {
    rm := map[];
    var pairs := ctx.Keys;
    ghost var done: set<(Atom, Atom)> := {};
    while pairs != {}
      invariant pairs + done == ctx.Keys && pairs !! done
      invariant forall g, x :: x in Get(rm, g) <==> InTuplesOf(ctx, done, x) && Misplaced(orders, x, g)
      decreases |pairs|
    {
      var ab :| ab in pairs;
      var union := UnionAtoms(ctx[ab]);
      var rm1 := RemoveAtoms(rm, orders, union);
      RemovalsStep(ctx, orders, done, ab, rm, rm1);
      rm := rm1;
      done := done + {ab};
      pairs := pairs - {ab};
    }
    assert done == ctx.Keys;
    assert forall x :: InTuplesOf(ctx, done, x) <==> InTuples(ctx, x);
    filtered := ApplyRemovals(orders, rm);
  }

  /** The removals of one more pair added to those of the pairs done so far. */
  lemma RemovalsStep(ctx: ContextsMap, orders: Orders, done: set<(Atom, Atom)>, ab: (Atom, Atom),
                     rm0: map<Genome, set<Atom>>, rm1: map<Genome, set<Atom>>)
    requires ab in ctx
    requires forall g, x :: x in Get(rm0, g) <==> InTuplesOf(ctx, done, x) && Misplaced(orders, x, g)
    requires forall g, x :: x in Get(rm1, g) <==> x in Get(rm0, g) || (x in UnionAtoms(ctx[ab]) && Misplaced(orders, x, g))
    ensures forall g, x :: x in Get(rm1, g) <==> InTuplesOf(ctx, done + {ab}, x) && Misplaced(orders, x, g)
  {
    InTuplesOfStep(ctx, done, ab);
    forall g, x
      ensures x in Get(rm1, g) <==> InTuplesOf(ctx, done + {ab}, x) && Misplaced(orders, x, g)
    {
      assert x in Get(rm1, g) <==> x in Get(rm0, g) || (x in UnionAtoms(ctx[ab]) && Misplaced(orders, x, g));
      assert x in Get(rm0, g) <==> InTuplesOf(ctx, done, x) && Misplaced(orders, x, g);
    }
  }

  /** Taking one more pair into account adds the atoms between its two atoms. */
  lemma InTuplesOfStep(ctx: ContextsMap, done: set<(Atom, Atom)>, ab: (Atom, Atom))
    requires ab in ctx
    ensures forall x :: InTuplesOf(ctx, done + {ab}, x) <==> InTuplesOf(ctx, done, x) || x in UnionAtoms(ctx[ab])
  {
    forall x | InTuplesOf(ctx, done + {ab}, x)
      ensures InTuplesOf(ctx, done, x) || x in UnionAtoms(ctx[ab])
    {
      var ab' :| ab' in done + {ab} && ab' in ctx && x in UnionAtoms(ctx[ab']);
      if ab' != ab {
        assert ab' in done;
      }
    }
    forall x | InTuplesOf(ctx, done, x) || x in UnionAtoms(ctx[ab])
      ensures InTuplesOf(ctx, done + {ab}, x)
    {
      if InTuplesOf(ctx, done, x) {
        var ab' :| ab' in done && ab' in ctx && x in UnionAtoms(ctx[ab']);
        assert ab' in done + {ab};
      } else {
        assert ab in done + {ab};
      }
    }
  }

  /**
   * Removal is atom-wide: if genome `g` keeps an atom that lies between some recorded pair, every
   * context `g` shows it in, before the removals, is the winning one.
   */
  lemma SurvivorsShowOnlyBest(ctx: ContextsMap, orders: Orders, rm: map<Genome, set<Atom>>, x: Atom, g: Genome)
    requires forall g, x :: x in Get(rm, g) <==> InTuples(ctx, x) && Misplaced(orders, x, g)
    requires InTuples(ctx, x) && x !in Get(rm, g)
    ensures forall c :: Shows(orders, x, c, g) ==> ContextTable(orders, x) != [] && c == Best(orders, x)
  {
    MisplacedMeans(orders, x, g);
    ContextTableSpec(orders, x);
    forall c | Shows(orders, x, c, g)
      ensures ContextTable(orders, x) != [] && c == Best(orders, x)
    {
      var s := Find(ContextTable(orders, x), c);
    }
  }
}
