/**
 * Per-atom statistics of filter_geese.py and the global filter built on them:
 * `compute_unique_contexts`, `revcomp`, `build_segments` and `filter_atoms`.
 */
module GeeseStats {
  import opened Options
  import opened Grouping
  import opened GeeseRecords
  import opened GeeseNeighbours

  // ---------------------------------------------------------------------------
  // compute_unique_contexts

  /** `(prev_a, next_a)` around one position, `None` past either end of the order. */
  datatype Neighbours = Neighbours(prev: Option<Atom>, next: Option<Atom>)

  /** What a position contributes to `raw[atom]`: its raw (strand-blind) neighbours. */
  function RawContextAt(order: seq<Placement>, i: int): Option<Neighbours> {
    Some(Neighbours(PrevAtom(order, i), NextAtom(order, i)))
  }

  /** `raw[atom]`: every raw context the atom is seen in, over all genomes. */
  ghost function RawContexts(orders: Orders, a: Atom): set<Neighbours> {
    Gathered(orders, RawContextAt, a)
  }

  /** Some genome order holds atom `a`. */
  predicate Occurs(orders: Orders, a: Atom) {
    exists k, i :: 0 <= k < |orders| && 0 <= i < |orders[k].items| && orders[k].items[i].atom == a
  }

  /** Some chosen pair has predecessor `x`. */
  predicate HasPrev(chosen: seq<Neighbours>, x: Option<Atom>) {
    exists i :: 0 <= i < |chosen| && chosen[i].prev == x
  }

  /** Some chosen pair has successor `x`. */
  predicate HasNext(chosen: seq<Neighbours>, x: Option<Atom>) {
    exists i :: 0 <= i < |chosen| && chosen[i].next == x
  }

  /** `c` cannot be counted once `chosen` has been: it shares its predecessor or its successor. */
  predicate Blocked(chosen: seq<Neighbours>, c: Neighbours) {
    HasPrev(chosen, c.prev) || HasNext(chosen, c.next)
  }

  /**
   * What the greedy walk over a pair set may count, whatever order it walks in: pairs drawn from
   * `pairs`, no two sharing a predecessor or a successor, and every pair of `pairs` blocked by a
   * chosen one.
   */
  predicate GreedyCover(chosen: seq<Neighbours>, pairs: set<Neighbours>) {
    (forall i :: 0 <= i < |chosen| ==> chosen[i] in pairs)
    && (forall i, j :: 0 <= i < j < |chosen| ==> chosen[i].prev != chosen[j].prev && chosen[i].next != chosen[j].next)
    && (forall c :: c in pairs ==> Blocked(chosen, c))
  }

  /**
   * The inner loop of `compute_unique_contexts` for one atom: walks the pair set in an arbitrary
   * order and counts a pair when neither its predecessor nor its successor was counted before.
   */
  method UniqueContextCount(pairs: set<Neighbours>) returns (cnt: nat, ghost chosen: seq<Neighbours>)
    ensures cnt == |chosen| && GreedyCover(chosen, pairs)
    ensures pairs != {} ==> 1 <= cnt
    ensures cnt <= |pairs|
  {
    var seenP: set<Option<Atom>> := {};
    var seenN: set<Option<Atom>> := {};
    cnt := 0;
    chosen := [];
    var rest := pairs;
    while rest != {}
      invariant rest <= pairs
      invariant cnt == |chosen|
      invariant cnt + |rest| <= |pairs|
      invariant rest == pairs || cnt >= 1
      invariant forall x :: x in seenP <==> HasPrev(chosen, x)
      invariant forall x :: x in seenN <==> HasNext(chosen, x)
      invariant forall i :: 0 <= i < |chosen| ==> chosen[i] in pairs
      invariant forall i, j :: 0 <= i < j < |chosen| ==> chosen[i].prev != chosen[j].prev && chosen[i].next != chosen[j].next
      invariant forall c :: c in pairs && c !in rest ==> Blocked(chosen, c)
      decreases |rest|
    {
      var c :| c in rest;
      if c.prev !in seenP && c.next !in seenN {
        ExtendChosen(chosen, c);
        cnt := cnt + 1;
        seenP := seenP + {c.prev};
        seenN := seenN + {c.next};
        chosen := chosen + [c];
      }
      rest := rest - {c};
    }
  }

  /** Appending a pair adds its predecessor and successor and keeps every block in place. */
  lemma ExtendChosen(ch: seq<Neighbours>, c: Neighbours)
    ensures forall x :: HasPrev(ch + [c], x) <==> HasPrev(ch, x) || x == c.prev
    ensures forall x :: HasNext(ch + [c], x) <==> HasNext(ch, x) || x == c.next
    ensures forall d :: Blocked(ch, d) ==> Blocked(ch + [c], d)
  {
    var e := ch + [c];
    assert e[|ch|] == c;
    assert forall i :: 0 <= i < |ch| ==> e[i] == ch[i];
  }

  /**
   * `compute_unique_contexts`: every atom that occurs gets a count, produced by the greedy walk
   * over its set of raw contexts; the count lies between 1 and the number of distinct contexts.
   */
  method ComputeUniqueContexts(orders: Orders) returns (uniq: map<Atom, nat>, ghost chosen: map<Atom, seq<Neighbours>>)
    ensures forall a :: a in uniq <==> Occurs(orders, a)
    ensures forall a :: a in uniq ==>
      a in chosen && uniq[a] == |chosen[a]| && GreedyCover(chosen[a], RawContexts(orders, a))
    ensures forall a :: a in uniq ==> 1 <= uniq[a] <= |RawContexts(orders, a)|
  {
    var raw := CollectByAtom(orders, RawContextAt);
    uniq, chosen := CountContexts(raw);
    forall a
      ensures a in uniq <==> Occurs(orders, a)
    {
      OccursProduces(orders, a);
    }
    forall a | a in uniq
      ensures raw[a] == RawContexts(orders, a)
    {
      assert Get(raw, a) == raw[a];
    }
  }

  /** The outer loop of `compute_unique_contexts`: one greedy count per atom of `raw`. */
  method CountContexts(raw: map<Atom, set<Neighbours>>) returns (uniq: map<Atom, nat>, ghost chosen: map<Atom, seq<Neighbours>>)
    requires forall a :: a in raw ==> raw[a] != {}
    ensures uniq.Keys == raw.Keys
    ensures forall a :: a in uniq ==>
      a in chosen && uniq[a] == |chosen[a]| && GreedyCover(chosen[a], raw[a]) && 1 <= uniq[a] <= |raw[a]|
  {
    uniq := map[];
    chosen := map[];
    var todo := raw.Keys;
    while todo != {}
      invariant todo <= raw.Keys
      invariant uniq.Keys == raw.Keys - todo
      invariant forall a :: a in uniq ==> a in chosen && Counted(raw[a], uniq[a], chosen[a])
      decreases |todo|
    {
      var a :| a in todo;
      var cnt;
      ghost var ch;
      cnt, ch := UniqueContextCount(raw[a]);
      assert Counted(raw[a], cnt, ch);
      uniq := uniq[a := cnt];
      chosen := chosen[a := ch];
      todo := todo - {a};
    }
  }

  /** `cnt` is a greedy count of `pairs`, witnessed by `chosen`. */
  ghost predicate Counted(pairs: set<Neighbours>, cnt: nat, chosen: seq<Neighbours>) {
    cnt == |chosen| && GreedyCover(chosen, pairs) && 1 <= cnt <= |pairs|
  }

  lemma OccursProduces(orders: Orders, a: Atom)
    ensures Occurs(orders, a) <==> Produces(orders, RawContextAt, a)
  {
    if Occurs(orders, a) {
      var k, i :| 0 <= k < |orders| && 0 <= i < |orders[k].items| && orders[k].items[i].atom == a;
      assert ProducesIn(orders[k].items, RawContextAt, a, |orders[k].items|);
    }
  }

  // ---------------------------------------------------------------------------
  // revcomp

  /** `str.maketrans('ACGTacgt', 'TGCAtgca')`: every other character is left alone. */
  function Complement(c: char): char {
    match c
    case 'A' => 'T' case 'C' => 'G' case 'G' => 'C' case 'T' => 'A'
    case 'a' => 't' case 'c' => 'g' case 'g' => 'c' case 't' => 'a'
    case _ => c
  }

  /** `revcomp`: translate, then reverse. */
  function RevComp(s: string): string {
    seq(|s|, i requires 0 <= i < |s| => Complement(s[|s| - 1 - i]))
  }

  /** Reverse-complementing twice gives back any string, whatever characters it holds. */
  lemma RevCompInvolution(s: string)
    ensures RevComp(RevComp(s)) == s
    ensures |RevComp(s)| == |s|
  {
    var r := RevComp(s);
    forall i | 0 <= i < |s|
      ensures RevComp(r)[i] == s[i]
    {
      assert r[|s| - 1 - i] == Complement(s[i]);
      ComplementInvolution(s[i]);
    }
  }

  lemma ComplementInvolution(c: char)
    ensures Complement(Complement(c)) == c
  {
  }

  // ---------------------------------------------------------------------------
  // build_segments

  /** A `GfaSegment` without its sequence: name, depth, first-hit length, duplication, unique context. */
  datatype Segment = Segment(name: Atom, depth: nat, length: int, duplicated: bool, uniqueContext: nat)

  /** How many hits lie in genome `g`. */
  function CountGenome(hits: seq<Hit>, g: Genome): nat {
    if hits == [] then 0
    else CountGenome(hits[..|hits| - 1], g) + (if hits[|hits| - 1].genome == g then 1 else 0)
  }

  /** Two different hits lie in the same genome. */
  predicate RepeatsGenome(hits: seq<Hit>) {
    exists i, j :: 0 <= i < j < |hits| && hits[i].genome == hits[j].genome
  }

  /** A genome is counted at all exactly when some hit lies in it. */
  lemma {:induction false} CountGenomeOnce(hits: seq<Hit>, g: Genome)
    ensures CountGenome(hits, g) >= 1 <==> exists i :: 0 <= i < |hits| && hits[i].genome == g
    decreases |hits|
  {
    if hits != [] {
      var init := hits[..|hits| - 1];
      CountGenomeOnce(init, g);
      if exists i :: 0 <= i < |hits| && hits[i].genome == g {
        var i :| 0 <= i < |hits| && hits[i].genome == g;
        if i < |init| {
          assert init[i] == hits[i];
        }
      }
      if CountGenome(init, g) >= 1 {
        var i :| 0 <= i < |init| && init[i].genome == g;
        assert hits[i] == init[i];
      }
    }
  }

  /** A genome is counted twice exactly when two different hits lie in it. */
  lemma {:induction false} CountGenomeTwice(hits: seq<Hit>, g: Genome)
    ensures CountGenome(hits, g) >= 2 <==>
      exists i, j :: 0 <= i < j < |hits| && hits[i].genome == g && hits[j].genome == g
    decreases |hits|
  {
    if hits != [] {
      var init := hits[..|hits| - 1];
      var n := |hits| - 1;
      CountGenomeTwice(init, g);
      CountGenomeOnce(init, g);
      if exists i, j :: 0 <= i < j < |hits| && hits[i].genome == g && hits[j].genome == g {
        var i, j :| 0 <= i < j < |hits| && hits[i].genome == g && hits[j].genome == g;
        assert init[i] == hits[i];
        if j < n {
          assert init[j] == hits[j];
        }
      }
      if CountGenome(init, g) >= 1 && hits[n].genome == g {
        var i :| 0 <= i < |init| && init[i].genome == g;
        assert hits[i] == init[i];
      }
      if CountGenome(init, g) >= 2 {
        var i, j :| 0 <= i < j < |init| && init[i].genome == g && init[j].genome == g;
        assert hits[i] == init[i] && hits[j] == init[j];
      }
    }
  }

  /** `by_genome` counting and `any(c > 1 for c in by_genome.values())`. */
  method Duplicated(hits: seq<Hit>) returns (dup: bool)
    ensures dup <==> RepeatsGenome(hits)
  {
    var byGenome: map<Genome, nat> := map[];
    var i := 0;
    while i < |hits|
      invariant 0 <= i <= |hits|
      invariant forall g :: (if g in byGenome then byGenome[g] else 0) == CountGenome(hits[..i], g)
    {
      var g := hits[i].genome;
      assert hits[..i + 1][..i] == hits[..i];
      byGenome := byGenome[g := (if g in byGenome then byGenome[g] else 0) + 1];
      i := i + 1;
    }
    assert hits[..i] == hits;
    dup := exists g | g in byGenome :: byGenome[g] > 1;
    if RepeatsGenome(hits) {
      var i, j :| 0 <= i < j < |hits| && hits[i].genome == hits[j].genome;
      CountGenomeTwice(hits, hits[i].genome);
      assert byGenome[hits[i].genome] > 1;
    }
    if dup {
      var g :| g in byGenome && byGenome[g] > 1;
      CountGenomeTwice(hits, g);
    }
  }

  /**
   * `build_segments` (the sequence left aside): one segment per atom, in `occ` order, with the
   * hit count as depth, the first hit's `end - start` as length, and `duplicated` iff two hits of
   * the atom lie in the same genome.
   */
  method BuildSegments(occ: Occ) returns (segs: seq<Segment>)
    requires forall k :: 0 <= k < |occ| ==> occ[k].items != []
    ensures |segs| == |occ|
    ensures forall k :: 0 <= k < |occ| ==>
      var hits := occ[k].items;
      segs[k].name == occ[k].key && segs[k].depth == |hits|
      && segs[k].length == hits[0].end - hits[0].start
      && (segs[k].duplicated <==> RepeatsGenome(hits))
      && segs[k].uniqueContext == 0
  {
    segs := [];
    var k := 0;
    while k < |occ|
      invariant 0 <= k <= |occ|
      invariant |segs| == k
      invariant forall k' :: 0 <= k' < k ==>
        var hits := occ[k'].items;
        segs[k'].name == occ[k'].key && segs[k'].depth == |hits|
        && segs[k'].length == hits[0].end - hits[0].start
        && (segs[k'].duplicated <==> RepeatsGenome(hits))
        && segs[k'].uniqueContext == 0
    {
      var hits := occ[k].items;
      var dup := Duplicated(hits);
      var first := hits[0];
      segs := segs + [Segment(occ[k].key, |hits|, first.end - first.start, dup, 0)];
      k := k + 1;
    }
  }

  /** `for s in segs: s.unique_context = uniq.get(s.name, 0)` */
  method AttachUniqueContexts(segs: seq<Segment>, uniq: map<Atom, nat>) returns (r: seq<Segment>)
    ensures |r| == |segs|
    ensures forall k :: 0 <= k < |segs| ==>
      r[k] == segs[k].(uniqueContext := if segs[k].name in uniq then uniq[segs[k].name] else 0)
  {
    r := segs;
    var k := 0;
    while k < |r|
      invariant 0 <= k <= |r| == |segs|
      invariant forall k' :: 0 <= k' < |segs| ==>
        r[k'] == if k' < k then segs[k'].(uniqueContext := if segs[k'].name in uniq then uniq[segs[k'].name] else 0)
                 else segs[k']
    {
      var s := r[k];
      r := r[k := s.(uniqueContext := if s.name in uniq then uniq[s.name] else 0)];
      k := k + 1;
    }
  }

  // ---------------------------------------------------------------------------
  // filter_atoms

  /**
   * The global removal rule: a duplicated atom when duplicates are to be removed, or an atom no
   * longer than `maxLength` seen fewer than `minDepth` times in more than `maxUnique` contexts.
   */
  predicate GloballyRemovable(s: Segment, minDepth: int, maxLength: int, removeDup: bool, maxUnique: int) {
    (removeDup && s.duplicated)
    || (s.length <= maxLength && s.depth < minDepth && s.uniqueContext > maxUnique)
  }

  /** `filter_atoms`: exactly the names of the segments the rule removes. */
  method FilterAtoms(segs: seq<Segment>, minDepth: int, maxLength: int, removeDup: bool, maxUnique: int)
    returns (toRm: set<Atom>)
    ensures forall a :: a in toRm <==>
      exists k :: 0 <= k < |segs| && segs[k].name == a && GloballyRemovable(segs[k], minDepth, maxLength, removeDup, maxUnique)
    ensures forall a :: a in toRm ==> exists k :: 0 <= k < |segs| && segs[k].name == a
  {
    toRm := {};
    var k := 0;
    while k < |segs|
      invariant 0 <= k <= |segs|
      invariant forall a :: a in toRm <==>
        exists k' :: 0 <= k' < k && segs[k'].name == a && GloballyRemovable(segs[k'], minDepth, maxLength, removeDup, maxUnique)
    {
      var s := segs[k];
      if removeDup && s.duplicated {
        toRm := toRm + {s.name};
      } else if s.length <= maxLength {
        if s.depth < minDepth && s.uniqueContext > maxUnique {
          toRm := toRm + {s.name};
        }
      }
      k := k + 1;
    }
  }
}
