/**
 * The driver of filter_geese_iter.py: the repeated global filter, the pair scan over the lengths
 * of a fresh parse, the per-genome disambiguation, and the final rewrite of the original lines.
 */
module GeesePipeline {
  import opened Options
  import opened Text
  import opened Seqs
  import opened Grouping
  import opened GeeseRecords
  import opened GeeseNeighbours
  import opened GeeseStats
  import opened GeesePairs
  import opened GeeseContext

  // ---------------------------------------------------------------------------
  // rewrite_final_geese

  /**
   * Whether the rewrite writes a line: `#` lines and lines with fewer than three tab fields always,
   * any other line unless its atom (field 2) is removed globally or from its genome (field 0).
   */
  predicate KeepLine(globalRm: set<Atom>, perRm: map<Genome, set<Atom>>, line: string) {
    if StartsWith(line, "#") then true
    else
      var p := Split(line, '\t');
      |p| < 3 || !(p[2] in globalRm || p[2] in Get(perRm, p[0]))
  }

  function Keeps(globalRm: set<Atom>, perRm: map<Genome, set<Atom>>): string -> bool {
    line => KeepLine(globalRm, perRm, line)
  }

  /** `rewrite_final_geese`: the lines written, in order (each is written followed by a newline). */
  method RewriteFinal(raw: seq<string>, globalRm: set<Atom>, perRm: map<Genome, set<Atom>>) returns (out: seq<string>)
    ensures out == Filter(Keeps(globalRm, perRm), raw)
  {
    out := [];
    var i := 0;
    while i < |raw|
      invariant 0 <= i <= |raw|
      invariant out == Filter(Keeps(globalRm, perRm), raw[..i])
    {
      var line := raw[i];
      assert raw[..i + 1] == raw[..i] + [line];
      FilterSnoc(Keeps(globalRm, perRm), raw[..i], line);
      if StartsWith(line, "#") {
        out := out + [line];
      } else {
        var p := Split(line, '\t');
        if |p| < 3 {
          out := out + [line];
        } else {
          var genome, atom := p[0], p[2];
          if !(atom in globalRm || atom in Get(perRm, genome)) {
            out := out + [line];
          }
        }
      }
      i := i + 1;
    }
    assert raw[..i] == raw;
  }

  /**
   * The rewrite keeps the original lines in their order and drops some: a line is written iff the
   * rule keeps it, `#` lines and lines with fewer than three fields always are, and with nothing
   * removed every line is.
   */
  lemma RewriteSpec(raw: seq<string>, globalRm: set<Atom>, perRm: map<Genome, set<Atom>>)
    ensures IsSubseq(Filter(Keeps(globalRm, perRm), raw), raw)
    ensures forall i :: 0 <= i < |raw| ==> (raw[i] in Filter(Keeps(globalRm, perRm), raw) <==> KeepLine(globalRm, perRm, raw[i]))
    ensures forall i :: 0 <= i < |raw| && (StartsWith(raw[i], "#") || |Split(raw[i], '\t')| < 3) ==>
      raw[i] in Filter(Keeps(globalRm, perRm), raw)
    ensures globalRm == {} && perRm == map[] ==> Filter(Keeps(globalRm, perRm), raw) == raw
  {
    FilterIsSubseq(Keeps(globalRm, perRm), raw);
    FilterMembers(Keeps(globalRm, perRm), raw);
    if globalRm == {} && perRm == map[] {
      FilterAll(Keeps(globalRm, perRm), raw);
    }
  }

  // ---------------------------------------------------------------------------
  // Dropping atoms from every genome order

  /** The placements whose atom is not in `rm`. */
  function Outside(rm: set<Atom>): Placement -> bool {
    (p: Placement) => p.atom !in rm
  }

  /** `for g, lst in genome_order.items(): genome_order[g] = [(a, st) for a, st in lst if a not in rm]` */
  method DropAtoms(orders: Orders, rm: set<Atom>) returns (r: Orders)
    ensures |r| == |orders|
    ensures forall k :: 0 <= k < |r| ==> r[k] == Group(orders[k].key, Filter(Outside(rm), orders[k].items))
  {
    r := [];
    var k := 0;
    while k < |orders|
      invariant 0 <= k <= |orders|
      invariant |r| == k
      invariant forall k' :: 0 <= k' < k ==> r[k'] == Group(orders[k'].key, Filter(Outside(rm), orders[k'].items))
    {
      r := r + [Group(orders[k].key, Filter(Outside(rm), orders[k].items))];
      k := k + 1;
    }
  }

  /** Dropping `a` and then `b` is dropping both at once. */
  lemma {:induction false} FilterOutsideTwice(s: seq<Placement>, a: set<Atom>, b: set<Atom>)
    ensures Filter(Outside(b), Filter(Outside(a), s)) == Filter(Outside(a + b), s)
    decreases |s|
  {
    if s != [] {
      var s', x := s[..|s| - 1], s[|s| - 1];
      var fa := Filter(Outside(a), s');
      FilterOutsideTwice(s', a, b);
      assert s == s' + [x];
      FilterSnoc(Outside(a), s', x);
      FilterSnoc(Outside(a + b), s', x);
      if x.atom in a {
        assert Filter(Outside(a), s) == fa;
        assert Filter(Outside(a + b), s) == Filter(Outside(a + b), s');
      } else {
        assert Filter(Outside(a), s) == fa + [x];
        FilterSnoc(Outside(b), fa, x);
        assert Outside(b)(x) == Outside(a + b)(x);
      }
    }
  }

  // ---------------------------------------------------------------------------
  // Rebuilding `occ` with zero coordinates

  /** The first `n` placements of genome `g`'s order as `occ` entries with zero coordinates. */
  function ZeroHitsIn(g: Genome, items: seq<Placement>, n: int): seq<(string, Hit)>
    requires 0 <= n <= |items|
  {
    if n == 0 then []
    else ZeroHitsIn(g, items, n - 1) + [(items[n - 1].atom, Hit(g, 0, 0, items[n - 1].strand))]
  }

  /** The placements of the first `n` genome orders as `occ` entries with zero coordinates. */
  function ZeroHits(orders: Orders, n: int): seq<(string, Hit)>
    requires 0 <= n <= |orders|
  {
    if n == 0 then []
    else ZeroHits(orders, n - 1) + ZeroHitsIn(orders[n - 1].key, orders[n - 1].items, |orders[n - 1].items|)
  }

  predicate OccursBefore(orders: Orders, a: Atom, n: int) {
    exists k, i :: 0 <= k < n && k < |orders| && 0 <= i < |orders[k].items| && orders[k].items[i].atom == a
  }

  predicate OccursIn(items: seq<Placement>, a: Atom, n: int) {
    exists i :: 0 <= i < n <= |items| && items[i].atom == a
  }

  /** One placement added to the rebuilt `occ`. */
  lemma ZeroStep(occ: Occ, pre: seq<(string, Hit)>, g: Genome, items: seq<Placement>, i: int)
    requires 0 <= i < |items|
    requires occ == GroupAll(pre + ZeroHitsIn(g, items, i))
    ensures Append(occ, items[i].atom, Hit(g, 0, 0, items[i].strand)) == GroupAll(pre + ZeroHitsIn(g, items, i + 1))
    ensures ZeroOcc(occ) ==> ZeroOcc(Append(occ, items[i].atom, Hit(g, 0, 0, items[i].strand)))
    ensures forall b :: HasKey(Append(occ, items[i].atom, Hit(g, 0, 0, items[i].strand)), b) <==> HasKey(occ, b) || b == items[i].atom
    ensures forall b :: OccursIn(items, b, i + 1) <==> OccursIn(items, b, i) || b == items[i].atom
  {
    var a, h := items[i].atom, Hit(g, 0, 0, items[i].strand);
    assert pre + ZeroHitsIn(g, items, i + 1) == (pre + ZeroHitsIn(g, items, i)) + [(a, h)];
    GroupAllSnoc(pre + ZeroHitsIn(g, items, i), a, h);
    if ZeroOcc(occ) {
      AppendZero(occ, a, h);
    }
    forall b
      ensures HasKey(Append(occ, a, h), b) <==> HasKey(occ, b) || b == a
    {
      AppendKeys(occ, a, h, b);
    }
    OccursInStep(items, i);
  }

  lemma OccursInStep(items: seq<Placement>, i: int)
    requires 0 <= i < |items|
    ensures forall b :: OccursIn(items, b, i + 1) <==> OccursIn(items, b, i) || b == items[i].atom
  {
    assert OccursIn(items, items[i].atom, i + 1);
  }

  /** Every hit list is non-empty and every hit has zero coordinates. */
  predicate ZeroOcc(occ: Occ) {
    forall k :: 0 <= k < |occ| ==>
      occ[k].items != [] && forall i :: 0 <= i < |occ[k].items| ==> occ[k].items[i].start == 0 && occ[k].items[i].end == 0
  }

  lemma AppendZero(occ: Occ, a: Atom, h: Hit)
    requires ZeroOcc(occ) && h.start == 0 && h.end == 0
    ensures ZeroOcc(Append(occ, a, h))
  {
    var r := Append(occ, a, h);
    var j := IndexOf(occ, a);
    forall k | 0 <= k < |r|
      ensures r[k].items != [] && forall i :: 0 <= i < |r[k].items| ==> r[k].items[i].start == 0 && r[k].items[i].end == 0
    {
      if k < |occ| && k != j {
        assert r[k] == occ[k];
      }
    }
  }

  /**
   * `occ` rebuilt from the genome orders: one zero-coordinate hit per placement, grouped by atom in
   * walk order; its atoms are exactly those still in some order.
   */
  method RebuildOcc(orders: Orders) returns (occ: Occ)
    ensures occ == GroupAll(ZeroHits(orders, |orders|))
    ensures ZeroOcc(occ)
    ensures forall a :: HasKey(occ, a) <==> Occurs(orders, a)
  {
    occ := [];
    var k := 0;
    while k < |orders|
      invariant 0 <= k <= |orders|
      invariant occ == GroupAll(ZeroHits(orders, k))
      invariant ZeroOcc(occ)
      invariant forall a :: HasKey(occ, a) <==> OccursBefore(orders, a, k)
    {
      occ := AddZeroHits(occ, orders, k);
      k := k + 1;
    }
    assert forall a :: OccursBefore(orders, a, |orders|) <==> Occurs(orders, a);
  }

  /** The inner loop of the rebuild, over one genome order. */
  method AddZeroHits(occ0: Occ, orders: Orders, k: int) returns (occ: Occ)
    requires 0 <= k < |orders|
    requires occ0 == GroupAll(ZeroHits(orders, k))
    requires ZeroOcc(occ0)
    requires forall a :: HasKey(occ0, a) <==> OccursBefore(orders, a, k)
    ensures occ == GroupAll(ZeroHits(orders, k + 1))
    ensures ZeroOcc(occ)
    ensures forall a :: HasKey(occ, a) <==> OccursBefore(orders, a, k + 1)
  {
    var g, items := orders[k].key, orders[k].items;
    ghost var pre := ZeroHits(orders, k);
    occ := occ0;
    var i := 0;
    assert pre + ZeroHitsIn(g, items, 0) == pre;
    while i < |items|
      invariant 0 <= i <= |items|
      invariant occ == GroupAll(pre + ZeroHitsIn(g, items, i))
      invariant ZeroOcc(occ)
      invariant forall a :: HasKey(occ, a) <==> OccursBefore(orders, a, k) || OccursIn(items, a, i)
    {
      var a, h := items[i].atom, Hit(g, 0, 0, items[i].strand);
      ZeroStep(occ, pre, g, items, i);
      occ := Append(occ, a, h);
      i := i + 1;
    }
    assert ZeroHits(orders, k + 1) == pre + ZeroHitsIn(g, items, |items|);
    OccursBeforeStep(orders, k);
  }

  lemma OccursBeforeStep(orders: Orders, k: int)
    requires 0 <= k < |orders|
    ensures forall a :: OccursBefore(orders, a, k + 1) <==> OccursBefore(orders, a, k) || OccursIn(orders[k].items, a, |orders[k].items|)
  {
    forall a | OccursIn(orders[k].items, a, |orders[k].items|)
      ensures OccursBefore(orders, a, k + 1)
    {
      var i :| 0 <= i < |orders[k].items| && orders[k].items[i].atom == a;
    }
  }

  // ---------------------------------------------------------------------------
  // The global filter loop

  datatype FilterParams = FilterParams(minDepth: int, maxLength: int, removeDup: bool, maxUnique: int, iterations: int)

  /** What one pass of the global filter builds for one atom's segment. */
  ghost predicate PassSegment(s: Segment, key: Atom, hits: seq<Hit>, orders: Orders)
    requires hits != []
  {
    s.name == key && s.depth == |hits| && s.length == hits[0].end - hits[0].start
    && (s.duplicated <==> RepeatsGenome(hits))
    && (Occurs(orders, key) ==>
          1 <= s.uniqueContext <= |RawContexts(orders, key)|
          && exists ch :: GreedyCover(ch, RawContexts(orders, key)) && |ch| == s.uniqueContext)
    && (!Occurs(orders, key) ==> s.uniqueContext == 0)
  }

  /** The atoms a pass removes: the names of the segments the rule removes. */
  ghost predicate RemovedBy(segs: seq<Segment>, fp: FilterParams, rm: set<Atom>) {
    forall a :: a in rm <==>
      exists k :: 0 <= k < |segs| && segs[k].name == a && GloballyRemovable(segs[k], fp.minDepth, fp.maxLength, fp.removeDup, fp.maxUnique)
  }

  /** One pass: `build_segments`, `compute_unique_contexts`, the `unique_context` update and `filter_atoms`. */
  method GlobalPass(occ: Occ, orders: Orders, fp: FilterParams) returns (newRm: set<Atom>, segs: seq<Segment>)
    requires forall k :: 0 <= k < |occ| ==> occ[k].items != []
    ensures |segs| == |occ|
    ensures forall k :: 0 <= k < |occ| ==> PassSegment(segs[k], occ[k].key, occ[k].items, orders)
    ensures RemovedBy(segs, fp, newRm)
  {
    var built := BuildSegments(occ);
    var uniq;
    ghost var chosen;
    uniq, chosen := ComputeUniqueContexts(orders);
    segs := AttachUniqueContexts(built, uniq);
    newRm := FilterAtoms(segs, fp.minDepth, fp.maxLength, fp.removeDup, fp.maxUnique);
    forall k | 0 <= k < |occ|
      ensures PassSegment(segs[k], occ[k].key, occ[k].items, orders)
    {
      var a := occ[k].key;
      if Occurs(orders, a) {
        assert GreedyCover(chosen[a], RawContexts(orders, a)) && |chosen[a]| == segs[k].uniqueContext;
      }
    }
  }

  /** Everything removed over a list of passes. */
  function UnionOf(s: seq<set<Atom>>): set<Atom> {
    if s == [] then {} else UnionOf(s[..|s| - 1]) + s[|s| - 1]
  }

  lemma UnionOfSnoc(s: seq<set<Atom>>, x: set<Atom>)
    ensures UnionOf(s + [x]) == UnionOf(s) + x
  {
    assert (s + [x])[..|s|] == s;
  }

  lemma {:induction false} UnionOfHas(s: seq<set<Atom>>, t: int)
    requires 0 <= t < |s|
    ensures s[t] <= UnionOf(s)
  {
    if t < |s| - 1 {
      UnionOfHas(s[..|s| - 1], t);
    }
  }

  /** Pass `t` built its segments from zero-coordinate hits, so all their lengths are 0. */
  predicate ZeroLengths(segs: seq<Segment>) {
    forall j :: 0 <= j < |segs| ==> segs[j].length == 0
  }

  /** `genome_order` without the atoms of `rm`, genome by genome, each order kept in sequence. */
  ghost function OrdersWithout(orders0: Orders, rm: set<Atom>): (r: Orders)
    ensures |r| == |orders0|
    ensures forall k :: 0 <= k < |r| ==> r[k] == Group(orders0[k].key, Filter(Outside(rm), orders0[k].items))
  {
    seq(|orders0|, k requires 0 <= k < |orders0| => Group(orders0[k].key, Filter(Outside(rm), orders0[k].items)))
  }

  /** A pass built `segs` from `occ` and `orders`: one segment per `occ` entry, in `occ` order. */
  ghost predicate PassOn(segs: seq<Segment>, occ: Occ, orders: Orders) {
    |segs| == |occ|
    && (forall k :: 0 <= k < |occ| ==> occ[k].items != [])
    && forall k :: 0 <= k < |occ| ==> PassSegment(segs[k], occ[k].key, occ[k].items, orders)
  }

  /**
   * Pass `t >= 1` read the state the earlier passes left: the orders without everything removed
   * before it, and `occ` rebuilt from those orders with zero coordinates.
   */
  ghost predicate LaterPassOn(orders0: Orders, removed: seq<set<Atom>>, passSegs: seq<seq<Segment>>, t: int)
    requires 1 <= t <= |removed| && t < |passSegs|
  {
    var orders := OrdersWithout(orders0, UnionOf(removed[..t]));
    PassOn(passSegs[t], GroupAll(ZeroHits(orders, |orders|)), orders)
  }

  /** What the passes so far found: pass `t` removed `removed[t]` from its segments `passSegs[t]`. */
  ghost predicate History(fp: FilterParams, occ0: Occ, orders0: Orders, removed: seq<set<Atom>>, passSegs: seq<seq<Segment>>)
    requires forall k :: 0 <= k < |occ0| ==> occ0[k].items != []
  {
    |removed| == |passSegs|
    && (forall t :: 0 <= t < |removed| ==> RemovedBy(passSegs[t], fp, removed[t]))
    && (forall t, t' :: 0 <= t < t' < |removed| ==> removed[t] !! removed[t'])
    && (passSegs != [] ==>
          |passSegs[0]| == |occ0|
          && forall k :: 0 <= k < |occ0| ==> PassSegment(passSegs[0][k], occ0[k].key, occ0[k].items, orders0))
    && (forall t :: 1 <= t < |passSegs| ==> LaterPassOn(orders0, removed, passSegs, t))
    && (forall t :: 1 <= t < |passSegs| ==> ZeroLengths(passSegs[t]))
  }

  /** The state a pass starts from: the orders without the atoms removed so far, and `occ` built from them. */
  ghost predicate Current(occ0: Occ, orders0: Orders, it: int, globalRm: set<Atom>, orders: Orders, occ: Occ) {
    |orders| == |orders0|
    && (forall k :: 0 <= k < |orders| ==> orders[k] == Group(orders0[k].key, Filter(Outside(globalRm), orders0[k].items)))
    && (forall k :: 0 <= k < |occ| ==> occ[k].items != [])
    && (it == 0 ==> occ == occ0 && orders == orders0)
    && (it > 0 ==> occ == GroupAll(ZeroHits(orders, |orders|)))
    && (it > 0 ==> ZeroOcc(occ) && forall a :: HasKey(occ, a) <==> Occurs(orders, a))
  }

  /**
   * The `for it in range(iterations)` loop. Pass `t` removes `removed[t]`, the atoms the rule picks
   * from the segments `passSegs[t]`; the loop stops after `iterations` passes or at the first pass
   * that removes nothing. Every pass before that removes something new, so the passes' sets are
   * disjoint and `globalRm`, their union, grows with every pass. Every pass after the first reads
   * the orders without what the earlier passes removed and `occ` rebuilt from them, so it sees only
   * zero lengths. Afterwards the orders are the original ones without any globally removed atom.
   */
  method GlobalFilter(occ0: Occ, orders0: Orders, fp: FilterParams)
    returns (globalRm: set<Atom>, orders: Orders, ghost removed: seq<set<Atom>>, ghost passSegs: seq<seq<Segment>>)
    requires forall k :: 0 <= k < |occ0| ==> occ0[k].items != []
    ensures |removed| == |passSegs| <= (if fp.iterations > 0 then fp.iterations else 0)
    ensures forall t :: 0 <= t < |removed| ==> RemovedBy(passSegs[t], fp, removed[t])
    ensures forall t :: 0 <= t < |removed| - 1 ==> removed[t] != {}
    ensures |removed| < fp.iterations ==> removed != [] && removed[|removed| - 1] == {}
    ensures forall t, t' :: 0 <= t < t' < |removed| ==> removed[t] !! removed[t']
    ensures globalRm == UnionOf(removed)
    ensures |orders| == |orders0|
    ensures forall k :: 0 <= k < |orders| ==> orders[k] == Group(orders0[k].key, Filter(Outside(globalRm), orders0[k].items))
    ensures forall k, i :: 0 <= k < |orders| && 0 <= i < |orders[k].items| ==> orders[k].items[i].atom !in globalRm
    ensures passSegs != [] ==>
      |passSegs[0]| == |occ0|
      && forall k :: 0 <= k < |occ0| ==> PassSegment(passSegs[0][k], occ0[k].key, occ0[k].items, orders0)
    ensures forall t :: 1 <= t < |passSegs| ==> LaterPassOn(orders0, removed, passSegs, t)
    ensures forall t :: 1 <= t < |passSegs| ==> ZeroLengths(passSegs[t])
  {
    var it, occ;
    globalRm, orders, occ, it, removed, passSegs := FilterPasses(occ0, orders0, fp);
    FilterOutcome(fp, occ0, orders0, removed, passSegs, it, globalRm, orders, occ);
  }

  /** The `for it in range(iterations)` loop itself, summed up by its history and current state. */
  method FilterPasses(occ0: Occ, orders0: Orders, fp: FilterParams)
    returns (globalRm: set<Atom>, orders: Orders, occ: Occ, it: int, ghost removed: seq<set<Atom>>, ghost passSegs: seq<seq<Segment>>)
    requires forall k :: 0 <= k < |occ0| ==> occ0[k].items != []
    ensures |removed| <= (if fp.iterations > 0 then fp.iterations else 0)
    ensures forall t :: 0 <= t < |removed| - 1 ==> removed[t] != {}
    ensures |removed| < fp.iterations ==> removed != [] && removed[|removed| - 1] == {}
    ensures globalRm == UnionOf(removed)
    ensures History(fp, occ0, orders0, removed, passSegs)
    ensures Current(occ0, orders0, it, globalRm, orders, occ)
  {
    globalRm := {};
    orders := orders0;
    occ := occ0;
    removed, passSegs := [], [];
    it := 0;
    FilterStart(fp, occ0, orders0);
    while it < fp.iterations
      invariant 0 <= it && (it <= fp.iterations || it == 0)
      invariant |removed| == it
      invariant forall t :: 0 <= t < it ==> removed[t] != {}
      invariant globalRm == UnionOf(removed)
      invariant History(fp, occ0, orders0, removed, passSegs)
      invariant Current(occ0, orders0, it, globalRm, orders, occ)
    {
      ghost var segs;
      var newRm;
      newRm, segs := RecordedPass(fp, occ0, orders0, removed, passSegs, it, globalRm, orders, occ);
      removed, passSegs := removed + [newRm], passSegs + [segs];
      if newRm == {} {
        return;
      }
      orders, occ := NextState(occ0, orders0, it, globalRm, orders, occ, newRm);
      globalRm := globalRm + newRm;
      it := it + 1;
    }
  }

  /** One pass of the rule, with what it removes added to the history. */
  method RecordedPass(fp: FilterParams, occ0: Occ, orders0: Orders, ghost removed: seq<set<Atom>>, ghost passSegs: seq<seq<Segment>>,
                      it: int, globalRm: set<Atom>, orders: Orders, occ: Occ)
    returns (newRm: set<Atom>, ghost segs: seq<Segment>)
    requires forall k :: 0 <= k < |occ0| ==> occ0[k].items != []
    requires History(fp, occ0, orders0, removed, passSegs) && |removed| == it
    requires globalRm == UnionOf(removed)
    requires Current(occ0, orders0, it, globalRm, orders, occ)
    ensures History(fp, occ0, orders0, removed + [newRm], passSegs + [segs])
    ensures UnionOf(removed + [newRm]) == globalRm + newRm
  {
    var s;
    newRm, s := GlobalPass(occ, orders, fp);
    segs := s;
    HistoryStep(fp, occ0, orders0, removed, passSegs, it, globalRm, orders, occ, newRm, segs);
  }

  /** `all_orders` without the atoms just removed, and `occ` rebuilt from them. */
  method NextState(occ0: Occ, orders0: Orders, it: int, globalRm: set<Atom>, orders: Orders, occ: Occ, newRm: set<Atom>)
    returns (orders1: Orders, occ1: Occ)
    requires it >= 0 && Current(occ0, orders0, it, globalRm, orders, occ)
    ensures Current(occ0, orders0, it + 1, globalRm + newRm, orders1, occ1)
  {
    orders1 := DropAtoms(orders, newRm);
    occ1 := RebuildOcc(orders1);
    CurrentStep(occ0, orders0, it, globalRm, orders, occ, newRm, orders1, occ1);
  }

  /** Before the first pass: no history, and the state is the input. */
  lemma FilterStart(fp: FilterParams, occ0: Occ, orders0: Orders)
    requires forall k :: 0 <= k < |occ0| ==> occ0[k].items != []
    ensures History(fp, occ0, orders0, [], [])
    ensures Current(occ0, orders0, 0, {}, orders0, occ0)
  {
    forall k | 0 <= k < |orders0|
      ensures Filter(Outside({}), orders0[k].items) == orders0[k].items
    {
      FilterAll(Outside({}), orders0[k].items);
    }
  }

  /** What the history and the current state say once the loop is left. */
  lemma FilterOutcome(fp: FilterParams, occ0: Occ, orders0: Orders, removed: seq<set<Atom>>, passSegs: seq<seq<Segment>>,
                      it: int, globalRm: set<Atom>, orders: Orders, occ: Occ)
    requires forall k :: 0 <= k < |occ0| ==> occ0[k].items != []
    requires History(fp, occ0, orders0, removed, passSegs)
    requires globalRm == UnionOf(removed)
    requires Current(occ0, orders0, it, globalRm, orders, occ)
    ensures |removed| == |passSegs|
    ensures forall t :: 0 <= t < |removed| ==> RemovedBy(passSegs[t], fp, removed[t])
    ensures forall t, t' :: 0 <= t < t' < |removed| ==> removed[t] !! removed[t']
    ensures |orders| == |orders0|
    ensures forall k :: 0 <= k < |orders| ==> orders[k] == Group(orders0[k].key, Filter(Outside(globalRm), orders0[k].items))
    ensures forall k, i :: 0 <= k < |orders| && 0 <= i < |orders[k].items| ==> orders[k].items[i].atom !in globalRm
    ensures passSegs != [] ==>
      |passSegs[0]| == |occ0|
      && forall k :: 0 <= k < |occ0| ==> PassSegment(passSegs[0][k], occ0[k].key, occ0[k].items, orders0)
    ensures forall t :: 1 <= t < |passSegs| ==> LaterPassOn(orders0, removed, passSegs, t)
    ensures forall t :: 1 <= t < |passSegs| ==> ZeroLengths(passSegs[t])
  {
    forall k, i | 0 <= k < |orders| && 0 <= i < |orders[k].items|
      ensures orders[k].items[i].atom !in globalRm
    {
      FilterMembers(Outside(globalRm), orders0[k].items);
      assert Outside(globalRm)(orders[k].items[i]);
    }
  }

  /**
   * One pass added to the history: after the first pass every segment has length 0, and every atom
   * a pass removes is still in some order, hence was not removed by an earlier pass.
   */
  lemma HistoryStep(fp: FilterParams, occ0: Occ, orders0: Orders, removed: seq<set<Atom>>, passSegs: seq<seq<Segment>>,
                    it: int, globalRm: set<Atom>, orders: Orders, occ: Occ, newRm: set<Atom>, segs: seq<Segment>)
    requires forall k :: 0 <= k < |occ0| ==> occ0[k].items != []
    requires History(fp, occ0, orders0, removed, passSegs) && |removed| == it
    requires globalRm == UnionOf(removed)
    requires Current(occ0, orders0, it, globalRm, orders, occ)
    requires |segs| == |occ|
    requires forall k :: 0 <= k < |occ| ==> PassSegment(segs[k], occ[k].key, occ[k].items, orders)
    requires RemovedBy(segs, fp, newRm)
    ensures History(fp, occ0, orders0, removed + [newRm], passSegs + [segs])
    ensures UnionOf(removed + [newRm]) == globalRm + newRm
  {
    UnionOfSnoc(removed, newRm);
    if it > 0 {
      forall k | 0 <= k < |orders|
        ensures forall i :: 0 <= i < |orders[k].items| ==> Outside(globalRm)(orders[k].items[i])
      {
        FilterMembers(Outside(globalRm), orders0[k].items);
      }
      LaterPass(fp, it, globalRm, orders, occ, newRm, segs);
      forall t | 0 <= t < it
        ensures removed[t] !! newRm
      {
        UnionOfHas(removed, t);
      }
    }
    var removed1, passSegs1 := removed + [newRm], passSegs + [segs];
    assert forall t :: 0 <= t < |removed| ==> removed1[t] == removed[t] && passSegs1[t] == passSegs[t];
    forall t | 1 <= t < |passSegs1|
      ensures LaterPassOn(orders0, removed1, passSegs1, t)
    {
      assert removed1[..t] == removed[..t] by {
        assert removed == removed1[..|removed|];
      }
      if t == it {
        assert removed[..t] == removed;
        assert orders == OrdersWithout(orders0, globalRm);
      } else {
        assert LaterPassOn(orders0, removed, passSegs, t);
      }
    }
  }

  /**
   * A pass after the first sees only zero lengths, and removes only atoms still in some order,
   * none of them removed before.
   */
  lemma LaterPass(fp: FilterParams, it: int, globalRm: set<Atom>, orders: Orders, occ: Occ, newRm: set<Atom>, segs: seq<Segment>)
    requires it > 0
    requires forall k :: 0 <= k < |orders| ==> forall i :: 0 <= i < |orders[k].items| ==> Outside(globalRm)(orders[k].items[i])
    requires ZeroOcc(occ) && forall a :: HasKey(occ, a) <==> Occurs(orders, a)
    requires |segs| == |occ|
    requires forall k :: 0 <= k < |occ| ==> PassSegment(segs[k], occ[k].key, occ[k].items, orders)
    requires RemovedBy(segs, fp, newRm)
    ensures ZeroLengths(segs)
    ensures newRm !! globalRm
  {
    forall j | 0 <= j < |segs|
      ensures segs[j].length == 0
    {
      assert occ[j].items[0].start == 0 && occ[j].items[0].end == 0;
    }
    forall a | a in newRm
      ensures a !in globalRm
    {
      var j :| 0 <= j < |segs| && segs[j].name == a
        && GloballyRemovable(segs[j], fp.minDepth, fp.maxLength, fp.removeDup, fp.maxUnique);
      assert HasKey(occ, a);
      var k, i :| 0 <= k < |orders| && 0 <= i < |orders[k].items| && orders[k].items[i].atom == a;
      assert Outside(globalRm)(orders[k].items[i]);
    }
  }

  /** The orders and `occ` after a pass that removed `newRm`. */
  lemma CurrentStep(occ0: Occ, orders0: Orders, it: int, globalRm: set<Atom>, orders: Orders, occ: Occ, newRm: set<Atom>,
                    orders1: Orders, occ1: Occ)
    requires it >= 0 && Current(occ0, orders0, it, globalRm, orders, occ)
    requires |orders1| == |orders|
    requires forall k :: 0 <= k < |orders1| ==> orders1[k] == Group(orders[k].key, Filter(Outside(newRm), orders[k].items))
    requires occ1 == GroupAll(ZeroHits(orders1, |orders1|))
    requires ZeroOcc(occ1) && forall a :: HasKey(occ1, a) <==> Occurs(orders1, a)
    ensures Current(occ0, orders0, it + 1, globalRm + newRm, orders1, occ1)
  {
    forall k | 0 <= k < |orders1|
      ensures orders1[k] == Group(orders0[k].key, Filter(Outside(globalRm + newRm), orders0[k].items))
    {
      FilterOutsideTwice(orders0[k].items, globalRm, newRm);
    }
  }

  // ---------------------------------------------------------------------------
  // The whole pipeline

  datatype PairParams = PairParams(minIn: int, minOut: int, maxSpan: int)

  /** The first hit of atom `a` in file order. */
  function FirstHit(lines: seq<string>, a: Atom): Option<Hit> {
    var hits := Select(HitPairs(Records(lines)), a);
    if hits == [] then None else Some(hits[0])
  }

  /**
   * `atom_lengths`: the first-hit length of every atom of a fresh parse that was not removed
   * globally.
   */
  method AtomLengths(lines: seq<string>, globalRm: set<Atom>) returns (lengths: map<Atom, int>)
    ensures forall a :: a in lengths <==> FirstHit(lines, a).Some? && a !in globalRm
    ensures forall a :: a in lengths ==> lengths[a] == FirstHit(lines, a).value.end - FirstHit(lines, a).value.start
  {
    var occ, orders, raw := ParseGeese(lines);
    forall k | 0 <= k < |occ|
      ensures occ[k].items != []
    {
      GroupAllItems(HitPairs(Records(lines)), k);
    }
    var segs := BuildSegments(occ);
    assert forall i, j :: 0 <= i < j < |segs| ==> segs[i].name != segs[j].name;
    lengths := LengthMap(segs, globalRm);
    forall a
      ensures a in lengths <==> FirstHit(lines, a).Some? && a !in globalRm
      ensures a in lengths ==> lengths[a] == FirstHit(lines, a).value.end - FirstHit(lines, a).value.start
    {
      LengthOfAtom(occ, segs, globalRm, lengths, a);
      assert Lookup(occ, a) == Select(HitPairs(Records(lines)), a);
    }
  }

  /** `{s.name: s.length for s in segs if s.name not in global_rm}` over segments with distinct names. */
  function LengthMap(segs: seq<Segment>, globalRm: set<Atom>): (m: map<Atom, int>)
    requires forall i, j :: 0 <= i < j < |segs| ==> segs[i].name != segs[j].name
    ensures forall b :: b in m <==> exists k :: 0 <= k < |segs| && segs[k].name !in globalRm && segs[k].name == b
    ensures forall k :: 0 <= k < |segs| && segs[k].name !in globalRm ==> segs[k].name in m && m[segs[k].name] == segs[k].length
  {
    map k | 0 <= k < |segs| && segs[k].name !in globalRm :: segs[k].name := segs[k].length
  }

  /** The length map read back through the segments it was built from. */
  lemma LengthOfAtom(occ: Occ, segs: seq<Segment>, globalRm: set<Atom>, lengths: map<Atom, int>, a: Atom)
    requires DistinctKeys(occ) && |segs| == |occ|
    requires forall k :: 0 <= k < |occ| ==>
      occ[k].items != [] && segs[k].name == occ[k].key && segs[k].length == occ[k].items[0].end - occ[k].items[0].start
    requires forall b :: b in lengths <==> exists k :: 0 <= k < |segs| && segs[k].name !in globalRm && segs[k].name == b
    requires forall k :: 0 <= k < |segs| && segs[k].name !in globalRm ==> segs[k].name in lengths && lengths[segs[k].name] == segs[k].length
    ensures a in lengths <==> Lookup(occ, a) != [] && a !in globalRm
    ensures a in lengths ==> lengths[a] == Lookup(occ, a)[0].end - Lookup(occ, a)[0].start
  {
    var j := IndexOf(occ, a);
    if j >= 0 {
      assert segs[j].name == a;
    }
    if a in lengths {
      var k :| 0 <= k < |segs| && segs[k].name !in globalRm && segs[k].name == a;
      assert occ[k].key == a;
      assert k == j;
    }
  }

  /**
   * What the `for it in range(iterations)` loop of `main` did to the parsed lines: at most
   * `iterations` passes, each removing what `filter_atoms` picks from its segments, every pass
   * but the last removing something, a stop before `iterations` only at a pass that removed
   * nothing, pairwise disjoint removals whose union is `globalRm`, a first pass on the parsed
   * `occ` and `genome_order`, and every later pass on the orders without what the earlier passes
   * removed and on `occ` rebuilt from them, so with zero lengths only.
   */
  ghost predicate GlobalPasses(lines: seq<string>, fp: FilterParams, globalRm: set<Atom>,
                               removed: seq<set<Atom>>, passSegs: seq<seq<Segment>>) {
    var occ0 := GroupAll(HitPairs(Records(lines)));
    && |removed| == |passSegs| <= (if fp.iterations > 0 then fp.iterations else 0)
    && (forall t :: 0 <= t < |removed| ==> RemovedBy(passSegs[t], fp, removed[t]))
    && (forall t :: 0 <= t < |removed| - 1 ==> removed[t] != {})
    && (|removed| < fp.iterations ==> removed != [] && removed[|removed| - 1] == {})
    && (forall t, t' :: 0 <= t < t' < |removed| ==> removed[t] !! removed[t'])
    && globalRm == UnionOf(removed)
    && (forall k :: 0 <= k < |occ0| ==> occ0[k].items != [])
    && (passSegs != [] ==>
          |passSegs[0]| == |occ0|
          && forall k :: 0 <= k < |occ0| ==>
            PassSegment(passSegs[0][k], occ0[k].key, occ0[k].items, GroupAll(PlacementPairs(Records(lines)))))
    && (forall t :: 1 <= t < |passSegs| ==> LaterPassOn(GroupAll(PlacementPairs(Records(lines))), removed, passSegs, t))
    && (forall t :: 1 <= t < |passSegs| ==> ZeroLengths(passSegs[t]))
  }

  /**
   * The parse and the `for it in range(iterations)` loop of `main`, stated on the input lines:
   * the pass history and the genome orders once every globally removed atom is gone.
   */
  method ParseAndFilter(lines: seq<string>, fp: FilterParams)
    returns (raw: seq<string>, globalRm: set<Atom>, orders: Orders,
             ghost removed: seq<set<Atom>>, ghost passSegs: seq<seq<Segment>>)
    ensures raw == Chomped(lines)
    ensures GlobalPasses(lines, fp, globalRm, removed, passSegs)
    ensures |orders| == |GroupAll(PlacementPairs(Records(lines)))|
    ensures forall k :: 0 <= k < |orders| ==>
      var o := GroupAll(PlacementPairs(Records(lines)))[k];
      orders[k] == Group(o.key, Filter(Outside(globalRm), o.items))
  {
    var occ0, orders0;
    occ0, orders0, raw := ParseGeese(lines);
    forall k | 0 <= k < |occ0|
      ensures occ0[k].items != []
    {
      GroupAllItems(HitPairs(Records(lines)), k);
    }
    globalRm, orders, removed, passSegs := GlobalFilter(occ0, orders0, fp);
  }

  /**
   * The body of `main` after the arguments are read: parse, repeat the global filter, scan pairs
   * with the lengths of a fresh parse, disambiguate per genome, and rewrite the original lines.
   * `removed` and `passSegs` are the history of the global passes, `orders` the genome orders the
   * pair scan reads, and `filtered` those orders once `context_filter` has rewritten them.
   */
  method Run(lines: seq<string>, fp: FilterParams, pp: PairParams)
    returns (out: seq<string>, globalRm: set<Atom>, perRm: map<Genome, set<Atom>>, lengths: map<Atom, int>,
             orders: Orders, ctx: ContextsMap, filtered: Orders,
             ghost removed: seq<set<Atom>>, ghost passSegs: seq<seq<Segment>>)
    ensures GlobalPasses(lines, fp, globalRm, removed, passSegs)
    ensures out == Filter(Keeps(globalRm, perRm), Chomped(lines))
    ensures IsSubseq(out, Chomped(lines))
    ensures |orders| == |GroupAll(PlacementPairs(Records(lines)))|
    ensures forall k :: 0 <= k < |orders| ==>
      var o := GroupAll(PlacementPairs(Records(lines)))[k];
      orders[k] == Group(o.key, Filter(Outside(globalRm), o.items))
    ensures forall a :: a in lengths <==> FirstHit(lines, a).Some? && a !in globalRm
    ensures forall a :: a in lengths ==> lengths[a] == FirstHit(lines, a).value.end - FirstHit(lines, a).value.start
    ensures forall a, b, bt, g :: Recorded(ctx, a, b, bt, g) <==>
      FoundIn(orders, ScanParams(lengths, pp.minIn, pp.minOut, pp.maxSpan), a, b, bt, g, |orders|)
    ensures forall g, x :: x in Get(perRm, g) <==> InTuples(ctx, x) && Misplaced(orders, x, g)
    ensures |filtered| == |orders|
    ensures forall k :: 0 <= k < |filtered| ==>
      filtered[k].key == orders[k].key
      && filtered[k].items == Filter((p: Placement) => p.atom !in Get(perRm, orders[k].key), orders[k].items)
  {
    var raw;
    raw, globalRm, orders, removed, passSegs := ParseAndFilter(lines, fp);
    lengths := AtomLengths(lines, globalRm);
    ctx := FindPairs(orders, ScanParams(lengths, pp.minIn, pp.minOut, pp.maxSpan));
    perRm, filtered := ContextFilter(ctx, orders);
    out := RewriteFinal(raw, globalRm, perRm);
    RewriteSpec(raw, globalRm, perRm);
  }
}
