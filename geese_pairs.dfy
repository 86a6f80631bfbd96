/**
 * The adjacency and pair-scan stages of filter_geese.py: `compute_in_out` and
 * `find_high_diverse_pairs_with_contexts`.
 */
module GeesePairs {
  import opened Options
  import opened Grouping
  import opened GeeseRecords
  import opened GeeseNeighbours

  // ---------------------------------------------------------------------------
  // compute_in_out

  /** The atom a position points to: the next one, or the previous one on the `-` strand. */
  function OutNeighbour(order: seq<Placement>, i: int): Option<Atom> {
    if 0 <= i < |order| && order[i].strand == "-" then PrevAtom(order, i) else NextAtom(order, i)
  }

  /** The atom pointing into a position: the previous one, or the next one on the `-` strand. */
  function InNeighbour(order: seq<Placement>, i: int): Option<Atom> {
    if 0 <= i < |order| && order[i].strand == "-" then NextAtom(order, i) else PrevAtom(order, i)
  }

  /** Position `i` of genome `k` holds `a`, and `b` sits at offset `d` (-1 or +1) from it. */
  predicate NextTo(orders: Orders, k: int, i: int, a: Atom, b: Atom, d: int) {
    0 <= k < |orders| && 0 <= i < |orders[k].items| && orders[k].items[i].atom == a
    && 0 <= i + d < |orders[k].items| && orders[k].items[i + d].atom == b
  }

  /** Offset of the successor in reading direction: +1, or -1 on the `-` strand. */
  function Forward(orders: Orders, k: int, i: int): int
    requires 0 <= k < |orders| && 0 <= i < |orders[k].items|
  {
    if orders[k].items[i].strand == "-" then -1 else 1
  }

  /**
   * `compute_in_out`: `OUT[a]` holds the atoms that follow an occurrence of `a` in its reading
   * direction and `IN[a]` those that precede it; on the `-` strand the order's predecessor is the
   * successor and vice versa, and every strand other than `-` reads as `+`.
   */
  method ComputeInOut(orders: Orders) returns (IN: map<Atom, set<Atom>>, OUT: map<Atom, set<Atom>>)
    ensures forall a, b :: b in Get(OUT, a) <==>
      exists k, i :: 0 <= k < |orders| && 0 <= i < |orders[k].items| && NextTo(orders, k, i, a, b, Forward(orders, k, i))
    ensures forall a, b :: b in Get(IN, a) <==>
      exists k, i :: 0 <= k < |orders| && 0 <= i < |orders[k].items| && NextTo(orders, k, i, a, b, -Forward(orders, k, i))
    ensures forall a :: Get(IN, a) == Gathered(orders, InNeighbour, a)
    ensures forall a :: Get(OUT, a) == Gathered(orders, OutNeighbour, a)
  {
    IN := CollectByAtom(orders, InNeighbour);
    OUT := CollectByAtom(orders, OutNeighbour);
    forall a, b
      ensures b in Get(OUT, a) <==>
        exists k, i :: 0 <= k < |orders| && 0 <= i < |orders[k].items| && NextTo(orders, k, i, a, b, Forward(orders, k, i))
      ensures b in Get(IN, a) <==>
        exists k, i :: 0 <= k < |orders| && 0 <= i < |orders[k].items| && NextTo(orders, k, i, a, b, -Forward(orders, k, i))
    {
      WitnessedNextTo(orders, a, b);
    }
  }

  lemma WitnessedNextTo(orders: Orders, a: Atom, b: Atom)
    ensures Witnessed(orders, OutNeighbour, a, b) <==>
      exists k, i :: 0 <= k < |orders| && 0 <= i < |orders[k].items| && NextTo(orders, k, i, a, b, Forward(orders, k, i))
    ensures Witnessed(orders, InNeighbour, a, b) <==>
      exists k, i :: 0 <= k < |orders| && 0 <= i < |orders[k].items| && NextTo(orders, k, i, a, b, -Forward(orders, k, i))
  {
    WitnessedOut(orders, a, b);
    WitnessedIn'(orders, a, b);
  }

  lemma WitnessedOut(orders: Orders, a: Atom, b: Atom)
    ensures Witnessed(orders, OutNeighbour, a, b) <==>
      exists k, i :: 0 <= k < |orders| && 0 <= i < |orders[k].items| && NextTo(orders, k, i, a, b, Forward(orders, k, i))
  {
    if Witnessed(orders, OutNeighbour, a, b) {
      var k :| 0 <= k < |orders| && WitnessedIn(orders[k].items, OutNeighbour, a, b, |orders[k].items|);
      var i :| 0 <= i < |orders[k].items| && orders[k].items[i].atom == a && OutNeighbour(orders[k].items, i) == Some(b);
      NeighbourOffsets(orders, k, i);
      assert NextTo(orders, k, i, a, b, Forward(orders, k, i));
    }
    if exists k, i :: 0 <= k < |orders| && 0 <= i < |orders[k].items| && NextTo(orders, k, i, a, b, Forward(orders, k, i)) {
      var k, i :| 0 <= k < |orders| && 0 <= i < |orders[k].items| && NextTo(orders, k, i, a, b, Forward(orders, k, i));
      NeighbourOffsets(orders, k, i);
      assert WitnessedIn(orders[k].items, OutNeighbour, a, b, |orders[k].items|);
    }
  }

  lemma WitnessedIn'(orders: Orders, a: Atom, b: Atom)
    ensures Witnessed(orders, InNeighbour, a, b) <==>
      exists k, i :: 0 <= k < |orders| && 0 <= i < |orders[k].items| && NextTo(orders, k, i, a, b, -Forward(orders, k, i))
  {
    if Witnessed(orders, InNeighbour, a, b) {
      var k :| 0 <= k < |orders| && WitnessedIn(orders[k].items, InNeighbour, a, b, |orders[k].items|);
      var i :| 0 <= i < |orders[k].items| && orders[k].items[i].atom == a && InNeighbour(orders[k].items, i) == Some(b);
      NeighbourOffsets(orders, k, i);
      assert NextTo(orders, k, i, a, b, -Forward(orders, k, i));
    }
    if exists k, i :: 0 <= k < |orders| && 0 <= i < |orders[k].items| && NextTo(orders, k, i, a, b, -Forward(orders, k, i)) {
      var k, i :| 0 <= k < |orders| && 0 <= i < |orders[k].items| && NextTo(orders, k, i, a, b, -Forward(orders, k, i));
      NeighbourOffsets(orders, k, i);
      assert WitnessedIn(orders[k].items, InNeighbour, a, b, |orders[k].items|);
    }
  }

  /** The OUT neighbour sits one step forward in reading direction, the IN neighbour one step back. */
  lemma NeighbourOffsets(orders: Orders, k: int, i: int)
    requires 0 <= k < |orders| && 0 <= i < |orders[k].items|
    ensures var o, d := orders[k].items, Forward(orders, k, i);
      && (OutNeighbour(o, i).Some? <==> 0 <= i + d < |o|)
      && (OutNeighbour(o, i).Some? ==> OutNeighbour(o, i).value == o[i + d].atom)
      && (InNeighbour(o, i).Some? <==> 0 <= i - d < |o|)
      && (InNeighbour(o, i).Some? ==> InNeighbour(o, i).value == o[i - d].atom)
  {
  }

  // ---------------------------------------------------------------------------
  // Spans

  /** `atom_lengths.get(atom, 0)` */
  function LengthOf(lengths: map<Atom, int>, a: Atom): int {
    if a in lengths then lengths[a] else 0
  }

  /** Total length of the atoms of `s`. */
  function SumLengths(s: seq<Placement>, lengths: map<Atom, int>): int {
    if s == [] then 0 else SumLengths(s[..|s| - 1], lengths) + LengthOf(lengths, s[|s| - 1].atom)
  }

  lemma {:induction false} SumLengthsAppend(s: seq<Placement>, t: seq<Placement>, lengths: map<Atom, int>)
    ensures SumLengths(s + t, lengths) == SumLengths(s, lengths) + SumLengths(t, lengths)
    decreases |t|
  {
    if t == [] {
      assert s + t == s;
    } else {
      assert (s + t)[..|s + t| - 1] == s + t[..|t| - 1];
      SumLengthsAppend(s, t[..|t| - 1], lengths);
    }
  }

  /** The total length from position `i` to position `j`, both included. */
  function Span(order: seq<Placement>, lengths: map<Atom, int>, i: int, j: int): int
    requires 0 <= i <= j < |order|
  {
    SumLengths(order[i..j + 1], lengths)
  }

  /**
   * `ps = [0]*(n+1)` filled with running totals: `ps[t]` is the total length of the first `t`
   * atoms, so `ps[j+1] - ps[i]` is the span from `i` to `j`.
   */
  method PrefixSums(order: seq<Placement>, lengths: map<Atom, int>) returns (ps: seq<int>)
    ensures |ps| == |order| + 1
    ensures forall t :: 0 <= t <= |order| ==> ps[t] == SumLengths(order[..t], lengths)
    ensures forall i, j :: 0 <= i <= j < |order| ==> ps[j + 1] - ps[i] == Span(order, lengths, i, j)
  {
    var n := |order|;
    var a := new int[n + 1](_ => 0);
    var i := 0;
    while i < n
      invariant 0 <= i <= n
      invariant a[0] == 0
      invariant forall t :: 0 <= t <= i ==> a[t] == SumLengths(order[..t], lengths)
    {
      assert order[..i + 1][..i] == order[..i];
      a[i + 1] := a[i] + LengthOf(lengths, order[i].atom);
      i := i + 1;
    }
    ps := a[..];
    forall i, j | 0 <= i <= j < |order|
      ensures ps[j + 1] - ps[i] == Span(order, lengths, i, j)
    {
      assert order[..j + 1] == order[..i] + order[i..j + 1];
      SumLengthsAppend(order[..i], order[i..j + 1], lengths);
    }
  }

  /** With no negative length, a span only grows when its right end moves right. */
  lemma SpanMonotone(order: seq<Placement>, lengths: map<Atom, int>, i: int, j1: int, j2: int)
    requires forall a :: a in lengths ==> lengths[a] >= 0
    requires 0 <= i <= j1 <= j2 < |order|
    ensures Span(order, lengths, i, j1) <= Span(order, lengths, i, j2)
  {
    assert order[i..j2 + 1] == order[i..j1 + 1] + order[j1 + 1..j2 + 1];
    SumLengthsAppend(order[i..j1 + 1], order[j1 + 1..j2 + 1], lengths);
    SumLengthsNonNegative(order[j1 + 1..j2 + 1], lengths);
  }

  lemma {:induction false} SumLengthsNonNegative(s: seq<Placement>, lengths: map<Atom, int>)
    requires forall a :: a in lengths ==> lengths[a] >= 0
    ensures SumLengths(s, lengths) >= 0
  {
    if s != [] {
      SumLengthsNonNegative(s[..|s| - 1], lengths);
    }
  }

  // ---------------------------------------------------------------------------
  // find_high_diverse_pairs_with_contexts

  /** The scan's thresholds and the length of every atom. */
  datatype ScanParams = ScanParams(lengths: map<Atom, int>, minIn: int, minOut: int, maxSpan: int)

  /** `contexts_map`: `(a, b) -> {between tuple -> genomes}`. */
  type ContextsMap = map<(Atom, Atom), map<seq<Atom>, set<Genome>>>

  /** `contexts_map[(a, b)][between]` holds genome `g`. */
  predicate Recorded(ctx: ContextsMap, a: Atom, b: Atom, bt: seq<Atom>, g: Genome) {
    (a, b) in ctx && bt in ctx[(a, b)] && g in ctx[(a, b)][bt]
  }

  /** Every recorded tuple has at least one genome, as entries are only made by adding one. */
  predicate WellFormed(ctx: ContextsMap) {
    forall p, bt :: p in ctx && bt in ctx[p] ==> ctx[p][bt] != {}
  }

  /** `contexts_map[(a, b)][between].add(genome)` */
  function Record(ctx: ContextsMap, a: Atom, b: Atom, bt: seq<Atom>, g: Genome): ContextsMap {
    var inner := if (a, b) in ctx then ctx[(a, b)] else map[];
    ctx[(a, b) := inner[bt := (if bt in inner then inner[bt] else {}) + {g}]]
  }

  /** `tuple(order[k][0] for k in range(i + 1, j))` */
  function Between(order: seq<Placement>, i: int, j: int): seq<Atom>
    requires 0 <= i < j <= |order|
  {
    seq(j - i - 1, t requires 0 <= t < j - i - 1 => order[i + 1 + t].atom)
  }

  ghost function OutDegree(orders: Orders, a: Atom): int {
    |Gathered(orders, OutNeighbour, a)|
  }

  ghost function InDegree(orders: Orders, a: Atom): int {
    |Gathered(orders, InNeighbour, a)|
  }

  /** The `j` loop has not broken off before reaching `j`. */
  ghost predicate NoEarlierBreak(orders: Orders, k: int, p: ScanParams, i: int, j: int)
    requires 0 <= k < |orders| && 0 <= i < j <= |orders[k].items|
  {
    var o := orders[k].items;
    forall j' :: i < j' < j && InDegree(orders, o[j'].atom) >= p.minOut ==> Span(o, p.lengths, i, j') <= p.maxSpan
  }

  /**
   * Positions `i < j` of genome `k` whose pair the scan records: `a = o[i]` has at least `minIn`
   * OUT neighbours, `b = o[j]` at least `minOut` IN neighbours, the span from `a` to `b` is within
   * `maxSpan`, and no earlier `b` candidate made the loop break.
   */
  ghost predicate Recordable(orders: Orders, k: int, p: ScanParams, i: int, j: int) {
    0 <= k < |orders| && 0 <= i < j < |orders[k].items|
    && var o := orders[k].items;
    OutDegree(orders, o[i].atom) >= p.minIn && InDegree(orders, o[j].atom) >= p.minOut
    && Span(o, p.lengths, i, j) <= p.maxSpan
    && NoEarlierBreak(orders, k, p, i, j)
  }

  /** Recordable positions `i, j` of genome `k` record exactly `(a, b, bt)`. */
  ghost predicate RecordsAt(orders: Orders, k: int, p: ScanParams, i: int, j: int, a: Atom, b: Atom, bt: seq<Atom>) {
    Recordable(orders, k, p, i, j)
    && orders[k].items[i].atom == a && orders[k].items[j].atom == b && bt == Between(orders[k].items, i, j)
  }

  /** What the scan of genome `k` records before reaching position `(i, j)`. */
  ghost predicate FoundBefore(orders: Orders, k: int, p: ScanParams, a: Atom, b: Atom, bt: seq<Atom>, i: int, j: int) {
    (exists i', j' :: 0 <= i' < i && RecordsAt(orders, k, p, i', j', a, b, bt))
    || (exists j' :: j' < j && RecordsAt(orders, k, p, i, j', a, b, bt))
  }

  /** What the scan of genomes `0..k` records. */
  ghost predicate FoundIn(orders: Orders, p: ScanParams, a: Atom, b: Atom, bt: seq<Atom>, g: Genome, k: int) {
    exists k' :: 0 <= k' < k && k' < |orders| && orders[k'].key == g && FoundInGenome(orders, k', p, a, b, bt)
  }

  /** Some recordable positions of genome `k` record `(a, b, bt)`. */
  ghost predicate FoundInGenome(orders: Orders, k: int, p: ScanParams, a: Atom, b: Atom, bt: seq<Atom>) {
    exists i, j :: RecordsAt(orders, k, p, i, j, a, b, bt)
  }

  /** `ctx` is `ctx0` plus what genome `k`'s scan records before position `(i, j)`. */
  ghost predicate ScanState(ctx: ContextsMap, ctx0: ContextsMap, orders: Orders, k: int, p: ScanParams, i: int, j: int)
    requires 0 <= k < |orders|
  {
    forall a, b, bt, g :: Recorded(ctx, a, b, bt, g) <==>
      Recorded(ctx0, a, b, bt, g) || (g == orders[k].key && FoundBefore(orders, k, p, a, b, bt, i, j))
  }

  /** Nothing is recorded by a row that has been scanned to its end or to its break. */
  lemma NextRow(ctx: ContextsMap, ctx0: ContextsMap, orders: Orders, k: int, p: ScanParams, i: int, j: int)
    requires 0 <= k < |orders| && 0 <= i
    requires ScanState(ctx, ctx0, orders, k, p, i, j)
    requires forall j' :: j <= j' ==> !Recordable(orders, k, p, i, j')
    ensures ScanState(ctx, ctx0, orders, k, p, i + 1, i + 2)
  {
    forall a, b, bt
      ensures FoundBefore(orders, k, p, a, b, bt, i + 1, i + 2) <==> FoundBefore(orders, k, p, a, b, bt, i, j)
    {
      if FoundBefore(orders, k, p, a, b, bt, i + 1, i + 2) {
        if !exists i', j' :: 0 <= i' < i && RecordsAt(orders, k, p, i', j', a, b, bt) {
          var i', j' :| 0 <= i' < i + 1 && RecordsAt(orders, k, p, i', j', a, b, bt);
          assert i' == i;
        }
      }
    }
  }

  /** One more `j` that is not recorded. */
  lemma NextColumn(ctx: ContextsMap, ctx0: ContextsMap, orders: Orders, k: int, p: ScanParams, i: int, j: int)
    requires 0 <= k < |orders|
    requires ScanState(ctx, ctx0, orders, k, p, i, j)
    requires !Recordable(orders, k, p, i, j)
    ensures ScanState(ctx, ctx0, orders, k, p, i, j + 1)
  {
    forall a, b, bt
      ensures FoundBefore(orders, k, p, a, b, bt, i, j + 1) <==> FoundBefore(orders, k, p, a, b, bt, i, j)
    {
    }
  }

  /** One more `j` that is recorded. */
  lemma RecordColumn(ctx: ContextsMap, ctx0: ContextsMap, orders: Orders, k: int, p: ScanParams, i: int, j: int)
    requires 0 <= k < |orders|
    requires ScanState(ctx, ctx0, orders, k, p, i, j)
    requires Recordable(orders, k, p, i, j)
    ensures var o := orders[k].items;
      ScanState(Record(ctx, o[i].atom, o[j].atom, Between(o, i, j), orders[k].key), ctx0, orders, k, p, i, j + 1)
  {
    var o := orders[k].items;
    var a0, b0, bt0, g0 := o[i].atom, o[j].atom, Between(o, i, j), orders[k].key;
    var ctx' := Record(ctx, a0, b0, bt0, g0);
    forall a, b, bt, g
      ensures Recorded(ctx', a, b, bt, g) <==> Recorded(ctx, a, b, bt, g) || (a == a0 && b == b0 && bt == bt0 && g == g0)
    {
    }
    forall a, b, bt
      ensures FoundBefore(orders, k, p, a, b, bt, i, j + 1)
              <==> FoundBefore(orders, k, p, a, b, bt, i, j) || (a == a0 && b == b0 && bt == bt0)
    {
      if a == a0 && b == b0 && bt == bt0 {
        assert RecordsAt(orders, k, p, i, j, a, b, bt);
      }
    }
  }

  /** A `span > max_span` at an admissible `b` rules out every later `j` of the row. */
  lemma BreakStopsRow(orders: Orders, k: int, p: ScanParams, i: int, j: int)
    requires 0 <= k < |orders| && 0 <= i < j < |orders[k].items|
    requires InDegree(orders, orders[k].items[j].atom) >= p.minOut
    requires Span(orders[k].items, p.lengths, i, j) > p.maxSpan
    ensures forall j' :: j <= j' ==> !Recordable(orders, k, p, i, j')
  {
  }

  /** Once every row is scanned, the state is everything the genome records. */
  lemma ScanDone(ctx: ContextsMap, ctx0: ContextsMap, orders: Orders, k: int, p: ScanParams)
    requires 0 <= k < |orders|
    requires ScanState(ctx, ctx0, orders, k, p, |orders[k].items|, |orders[k].items| + 1)
    ensures forall a, b, bt, g :: Recorded(ctx, a, b, bt, g) <==>
      Recorded(ctx0, a, b, bt, g) || (g == orders[k].key && FoundInGenome(orders, k, p, a, b, bt))
  {
    var n := |orders[k].items|;
    forall a, b, bt
      ensures FoundBefore(orders, k, p, a, b, bt, n, n + 1) <==> FoundInGenome(orders, k, p, a, b, bt)
    {
      if FoundInGenome(orders, k, p, a, b, bt) {
        var i, j :| RecordsAt(orders, k, p, i, j, a, b, bt);
        assert 0 <= i < n;
      }
    }
  }

  lemma RecordKeepsWellFormed(ctx: ContextsMap, a: Atom, b: Atom, bt: seq<Atom>, g: Genome)
    requires WellFormed(ctx)
    ensures WellFormed(Record(ctx, a, b, bt, g))
  {
  }

  /** The `j` loop for one `i` whose atom passed the OUT test; it stops at its break. */
  method ScanRow(orders: Orders, k: int, p: ScanParams, IN: map<Atom, set<Atom>>, ps: seq<int>, i: int,
                 ctx0: ContextsMap, ctxIn: ContextsMap) returns (ctx: ContextsMap, j: int)
    requires 0 <= k < |orders| && 0 <= i < |orders[k].items|
    requires |ps| == |orders[k].items| + 1
    requires forall i', j' :: 0 <= i' <= j' < |orders[k].items| ==> ps[j' + 1] - ps[i'] == Span(orders[k].items, p.lengths, i', j')
    requires forall a :: Get(IN, a) == Gathered(orders, InNeighbour, a)
    requires OutDegree(orders, orders[k].items[i].atom) >= p.minIn
    requires WellFormed(ctxIn) && ScanState(ctxIn, ctx0, orders, k, p, i, i + 1)
    ensures WellFormed(ctx) && ScanState(ctx, ctx0, orders, k, p, i, j)
    ensures forall j' :: j <= j' ==> !Recordable(orders, k, p, i, j')
  {
    var genome, order := orders[k].key, orders[k].items;
    var n := |order|;
    var a := order[i].atom;
    ctx := ctxIn;
    j := i + 1;
    while j < n
      invariant i + 1 <= j <= n
      invariant WellFormed(ctx)
      invariant NoEarlierBreak(orders, k, p, i, j)
      invariant ScanState(ctx, ctx0, orders, k, p, i, j)
    {
      var b := order[j].atom;
      assert |Get(IN, b)| == InDegree(orders, b);
      if |Get(IN, b)| < p.minOut {
        NextColumn(ctx, ctx0, orders, k, p, i, j);
        NoBreakStep(orders, k, p, i, j);
        j := j + 1;
        continue;
      }
      var span := ps[j + 1] - ps[i];
      if span > p.maxSpan {
        BreakStopsRow(orders, k, p, i, j);
        return;
      }
      var between := Between(order, i, j);
      RecordColumn(ctx, ctx0, orders, k, p, i, j);
      RecordKeepsWellFormed(ctx, a, b, between, genome);
      NoBreakStep(orders, k, p, i, j);
      ctx := Record(ctx, a, b, between, genome);
      j := j + 1;
    }
  }

  lemma NoBreakStep(orders: Orders, k: int, p: ScanParams, i: int, j: int)
    requires 0 <= k < |orders| && 0 <= i < j < |orders[k].items|
    requires NoEarlierBreak(orders, k, p, i, j)
    requires InDegree(orders, orders[k].items[j].atom) >= p.minOut ==> Span(orders[k].items, p.lengths, i, j) <= p.maxSpan
    ensures NoEarlierBreak(orders, k, p, i, j + 1)
  {
  }

  /** The scan of one genome, with `IN`/`OUT` as `compute_in_out` leaves them. */
  method ScanGenome(orders: Orders, k: int, p: ScanParams, IN: map<Atom, set<Atom>>, OUT: map<Atom, set<Atom>>,
                    ctx0: ContextsMap) returns (ctx: ContextsMap)
    requires 0 <= k < |orders|
    requires forall a :: Get(IN, a) == Gathered(orders, InNeighbour, a)
    requires forall a :: Get(OUT, a) == Gathered(orders, OutNeighbour, a)
    requires WellFormed(ctx0)
    ensures WellFormed(ctx)
    ensures forall a, b, bt, g :: Recorded(ctx, a, b, bt, g) <==>
      Recorded(ctx0, a, b, bt, g) || (g == orders[k].key && FoundInGenome(orders, k, p, a, b, bt))
  {
    var order := orders[k].items;
    var n := |order|;
    var ps := PrefixSums(order, p.lengths);
    ctx := ctx0;
    var i := 0;
    while i < n
      invariant 0 <= i <= n
      invariant WellFormed(ctx)
      invariant ScanState(ctx, ctx0, orders, k, p, i, i + 1)
    {
      var a := order[i].atom;
      assert |Get(OUT, a)| == OutDegree(orders, a);
      if |Get(OUT, a)| < p.minIn {
        NextRow(ctx, ctx0, orders, k, p, i, i + 1);
        i := i + 1;
        continue;
      }
      var j;
      ctx, j := ScanRow(orders, k, p, IN, ps, i, ctx0, ctx);
      NextRow(ctx, ctx0, orders, k, p, i, j);
      i := i + 1;
    }
    ScanDone(ctx, ctx0, orders, k, p);
  }

  /**
   * `find_high_diverse_pairs_with_contexts`: `g` is recorded under `(a, b)` and `bt` exactly when
   * some recordable positions `i < j` of g's order hold `a` and `b` with `bt` between them.
   */
  method FindPairs(orders: Orders, p: ScanParams) returns (ctx: ContextsMap)
    ensures WellFormed(ctx)
    ensures forall a, b, bt, g :: Recorded(ctx, a, b, bt, g) <==> FoundIn(orders, p, a, b, bt, g, |orders|)
  {
    var IN, OUT := ComputeInOut(orders);
    ctx := map[];
    var k := 0;
    while k < |orders|
      invariant 0 <= k <= |orders|
      invariant WellFormed(ctx)
      invariant forall a, b, bt, g :: Recorded(ctx, a, b, bt, g) <==> FoundIn(orders, p, a, b, bt, g, k)
    {
      ghost var ctx0 := ctx;
      ctx := ScanGenome(orders, k, p, IN, OUT, ctx);
      FoundInStep(orders, p, k, ctx0, ctx);
      k := k + 1;
    }
  }

  lemma FoundInStep(orders: Orders, p: ScanParams, k: int, ctx0: ContextsMap, ctx: ContextsMap)
    requires 0 <= k < |orders|
    requires forall a, b, bt, g :: Recorded(ctx0, a, b, bt, g) <==> FoundIn(orders, p, a, b, bt, g, k)
    requires forall a, b, bt, g :: Recorded(ctx, a, b, bt, g) <==>
      Recorded(ctx0, a, b, bt, g) || (g == orders[k].key && FoundInGenome(orders, k, p, a, b, bt))
    ensures forall a, b, bt, g :: Recorded(ctx, a, b, bt, g) <==> FoundIn(orders, p, a, b, bt, g, k + 1)
  {
    forall a, b, bt, g
      ensures FoundIn(orders, p, a, b, bt, g, k + 1)
              <==> FoundIn(orders, p, a, b, bt, g, k) || (g == orders[k].key && FoundInGenome(orders, k, p, a, b, bt))
    {
    }
  }

  /** The three tests of the scan: OUT degree of `a`, IN degree of `b`, span from `a` to `b`. */
  ghost predicate PassesTests(orders: Orders, k: int, p: ScanParams, i: int, j: int)
    requires 0 <= k < |orders| && 0 <= i < j < |orders[k].items|
  {
    var o := orders[k].items;
    OutDegree(orders, o[i].atom) >= p.minIn && InDegree(orders, o[j].atom) >= p.minOut
    && Span(o, p.lengths, i, j) <= p.maxSpan
  }

  /**
   * With no negative atom length the early `break` loses nothing: a pair of positions is
   * recordable exactly when it passes the three tests.
   */
  lemma BreakIsExact(orders: Orders, k: int, p: ScanParams, i: int, j: int)
    requires forall a :: a in p.lengths ==> p.lengths[a] >= 0
    requires 0 <= k < |orders| && 0 <= i < j < |orders[k].items|
    ensures Recordable(orders, k, p, i, j) <==> PassesTests(orders, k, p, i, j)
  {
    if PassesTests(orders, k, p, i, j) {
      forall j' | i < j' < j
        ensures Span(orders[k].items, p.lengths, i, j') <= p.maxSpan
      {
        SpanMonotone(orders[k].items, p.lengths, i, j', j);
      }
    }
  }

  /** Genome `g` has atoms `a` before `b` with the tuple `bt` between them, passing the three tests. */
  ghost predicate ComesFrom(orders: Orders, p: ScanParams, a: Atom, b: Atom, bt: seq<Atom>, g: Genome) {
    exists k, i, j :: 0 <= k < |orders| && orders[k].key == g && 0 <= i < j < |orders[k].items|
      && orders[k].items[i].atom == a && orders[k].items[j].atom == b && bt == Between(orders[k].items, i, j)
      && PassesTests(orders, k, p, i, j)
  }

  /**
   * What the scan returns, read back: every recorded genome comes from positions `i < j` of its
   * order that pass the three tests, with the atoms strictly between them as the tuple; and, with
   * no negative length, every such pair of positions is recorded.
   */
  lemma PairScanExact(orders: Orders, p: ScanParams, ctx: ContextsMap)
    requires forall a, b, bt, g :: Recorded(ctx, a, b, bt, g) <==> FoundIn(orders, p, a, b, bt, g, |orders|)
    ensures forall a, b, bt, g :: Recorded(ctx, a, b, bt, g) ==> ComesFrom(orders, p, a, b, bt, g)
    ensures (forall a :: a in p.lengths ==> p.lengths[a] >= 0) ==>
      forall k, i, j :: 0 <= k < |orders| && 0 <= i < j < |orders[k].items| && PassesTests(orders, k, p, i, j) ==>
        Recorded(ctx, orders[k].items[i].atom, orders[k].items[j].atom, Between(orders[k].items, i, j), orders[k].key)
  {
    forall a, b, bt, g | Recorded(ctx, a, b, bt, g)
      ensures ComesFrom(orders, p, a, b, bt, g)
    {
      var k :| 0 <= k < |orders| && orders[k].key == g && FoundInGenome(orders, k, p, a, b, bt);
      var i, j :| RecordsAt(orders, k, p, i, j, a, b, bt);
      assert PassesTests(orders, k, p, i, j);
    }
    if forall a :: a in p.lengths ==> p.lengths[a] >= 0 {
      forall k, i, j | 0 <= k < |orders| && 0 <= i < j < |orders[k].items| && PassesTests(orders, k, p, i, j)
        ensures Recorded(ctx, orders[k].items[i].atom, orders[k].items[j].atom, Between(orders[k].items, i, j), orders[k].key)
      {
        var o := orders[k].items;
        BreakIsExact(orders, k, p, i, j);
        assert RecordsAt(orders, k, p, i, j, o[i].atom, o[j].atom, Between(o, i, j));
        assert FoundInGenome(orders, k, p, o[i].atom, o[j].atom, Between(o, i, j));
        assert FoundIn(orders, p, o[i].atom, o[j].atom, Between(o, i, j), orders[k].key, |orders|);
      }
    }
  }
}
