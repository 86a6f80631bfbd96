/**
 * `build_links_from_geese`, shared by remove_segments_geese.py and
 * iterative_flag_te_candidates_with_geese.py: the `.geese` table read as rows, grouped per sample
 * (`sample_order`), each sample's entries stable-sorted by `atom_nr`, the removed classes dropped,
 * and one GFA link `L <seg1> <ori1> <seg2> <ori2> 0M` per pair of consecutive entries left.
 */
module GeeseLinks {
  import opened Options
  import opened Text
  import opened Seqs
  import opened Grouping

  /**
   * One data row as `csv.DictReader` yields it: the `#name` and `name` columns (None when the
   * header lacks them), `int(float(row["atom_nr"]))` (None when that raises), `class` and `strand`.
   */
  datatype Row = Row(hashName: Option<string>, name: Option<string>, atomNr: Option<int>, cls: string, strand: string)

  /** An entry `(atom_nr, class, strand)` of `sample_order[sample]`. */
  datatype Entry = Entry(atomNr: int, cls: string, strand: string)

  /** `row.get("#name") or row.get("name")`, kept only when non-empty (`if not sample: continue`). */
  function SampleOf(r: Row): (s: Option<string>)
    ensures s.Some? ==> s.value != [] && (s == r.hashName || s == r.name)
    ensures s.None? <==> (r.hashName.None? || r.hashName.value == []) && (r.name.None? || r.name.value == [])
  {
    if r.hashName.Some? && r.hashName.value != [] then r.hashName
    else if r.name.Some? && r.name.value != [] then r.name
    else None
  }

  /**
   * What a row appends to `sample_order`: nothing without a sample, without a readable `atom_nr`,
   * or when `keep` rejects its class; otherwise its entry under its sample.
   */
  function RowEntry(keep: string -> bool, r: Row): Option<(string, Entry)> {
    match SampleOf(r)
    case None => None
    case Some(sample) =>
      match r.atomNr
      case None => None
      case Some(nr) => if keep(r.cls) then Some((sample, Entry(nr, r.cls, r.strand))) else None
  }

  function RowEntries(keep: string -> bool): Row -> Option<(string, Entry)> {
    (r: Row) => RowEntry(keep, r)
  }

  /** The reading loop: every row that passes appended under its sample, in file order. */
  method CollectSamples(rows: seq<Row>, keep: string -> bool) returns (order: seq<Group<Entry>>)
    ensures order == GroupAll(FilterMap(RowEntries(keep), rows))
  {
    order := [];
    for i := 0 to |rows|
      invariant order == GroupAll(FilterMap(RowEntries(keep), rows[..i]))
    {
      var row := rows[i];
      CollectStep(rows, keep, i);
      var sample := SampleOf(row);
      if sample.None? {
        continue;
      }
      if row.atomNr.None? {
        continue;
      }
      if !keep(row.cls) {
        continue;
      }
      var e := Entry(row.atomNr.value, row.cls, row.strand);
      order := Append(order, sample.value, e);
    }
    assert rows[..|rows|] == rows;
  }

  /** What reading row `i` does to the dictionary. */
  lemma CollectStep(rows: seq<Row>, keep: string -> bool, i: int)
    requires 0 <= i < |rows|
    ensures GroupAll(FilterMap(RowEntries(keep), rows[..i + 1])) ==
      match RowEntry(keep, rows[i])
      case None => GroupAll(FilterMap(RowEntries(keep), rows[..i]))
      case Some(p) => Append(GroupAll(FilterMap(RowEntries(keep), rows[..i])), p.0, p.1)
  {
    var pairs := FilterMap(RowEntries(keep), rows[..i]);
    assert rows[..i + 1] == rows[..i] + [rows[i]];
    FilterMapSnoc(RowEntries(keep), rows[..i], rows[i]);
    assert RowEntries(keep)(rows[i]) == RowEntry(keep, rows[i]);
    match RowEntry(keep, rows[i])
    case None => assert FilterMap(RowEntries(keep), rows[..i + 1]) == pairs;
    case Some(p) => GroupAllSnoc(pairs, p.0, p.1);
  }

  /** A row contributes `(s, e)` exactly when it names `s` and `e` is its number, class and strand. */
  lemma RowEntrySpec(keep: string -> bool, r: Row, s: string, e: Entry)
    ensures RowEntries(keep)(r) == Some((s, e)) <==>
      SampleOf(r) == Some(s) && r.atomNr == Some(e.atomNr) && keep(r.cls) && e.cls == r.cls && e.strand == r.strand
  {
  }

  /**
   * `sample_order` holds, under every sample, exactly the entries of the rows that name that
   * sample, carry a readable `atom_nr` and a class `keep` accepts; samples are distinct.
   */
  lemma SamplesSpec(rows: seq<Row>, keep: string -> bool, s: string, e: Entry)
    ensures DistinctKeys(GroupAll(FilterMap(RowEntries(keep), rows)))
    ensures e in Lookup(GroupAll(FilterMap(RowEntries(keep), rows)), s) <==>
      exists i :: 0 <= i < |rows| && RowEntries(keep)(rows[i]) == Some((s, e))
  {
    var pairs := FilterMap(RowEntries(keep), rows);
    GroupAllSpec(pairs);
    FilterMapHas(RowEntries(keep), rows);
    SelectHas(pairs, s, e);
  }

  // ---------------------------------------------------------------------------
  // sorted(entries, key=lambda x: x[0])

  /** `t` with `e` placed after every entry whose `atom_nr` is not larger. */
  function Insert(t: seq<Entry>, e: Entry): (r: seq<Entry>)
    ensures |r| == |t| + 1
  {
    if t == [] || t[|t| - 1].atomNr <= e.atomNr then t + [e]
    else Insert(t[..|t| - 1], e) + [t[|t| - 1]]
  }

  /** Python's `sorted` by `atom_nr`: stable, so equal keys keep their input order. */
  function SortByNr(s: seq<Entry>): (r: seq<Entry>)
    ensures |r| == |s|
  {
    if s == [] then [] else Insert(SortByNr(s[..|s| - 1]), s[|s| - 1])
  }

  predicate SortedByNr(s: seq<Entry>) {
    forall i, j :: 0 <= i < j < |s| ==> s[i].atomNr <= s[j].atomNr
  }

  function HasNr(k: int): Entry -> bool {
    (e: Entry) => e.atomNr == k
  }

  lemma {:induction false} InsertSorted(t: seq<Entry>, e: Entry)
    requires SortedByNr(t)
    ensures SortedByNr(Insert(t, e))
    decreases |t|
  {
    if !(t == [] || t[|t| - 1].atomNr <= e.atomNr) {
      var init, last := t[..|t| - 1], t[|t| - 1];
      InsertSorted(init, e);
      var u := Insert(init, e);
      // the last entry of `u` is `e` or the last of `init`, neither past `last`
      if init == [] || init[|init| - 1].atomNr <= e.atomNr {
        assert u[|u| - 1] == e;
      } else {
        assert u[|u| - 1] == init[|init| - 1] == t[|t| - 2];
      }
      assert u[|u| - 1].atomNr <= last.atomNr;
      var r := u + [last];
      forall i, j | 0 <= i < j < |r|
        ensures r[i].atomNr <= r[j].atomNr
      {
        if j == |u| {
          assert r[i].atomNr <= u[|u| - 1].atomNr;
        }
      }
    }
  }

  lemma {:induction false} InsertPerm(t: seq<Entry>, e: Entry)
    ensures multiset(Insert(t, e)) == multiset(t) + multiset{e}
    decreases |t|
  {
    if !(t == [] || t[|t| - 1].atomNr <= e.atomNr) {
      var init, last := t[..|t| - 1], t[|t| - 1];
      assert t == init + [last];
      InsertPerm(init, e);
    }
  }

  /** Inserting `e` into a sorted list adds it behind the entries of its own key. */
  lemma {:induction false} InsertStable(t: seq<Entry>, e: Entry, k: int)
    requires SortedByNr(t)
    ensures Filter(HasNr(k), Insert(t, e)) == Filter(HasNr(k), t) + (if e.atomNr == k then [e] else [])
    decreases |t|
  {
    if t == [] || t[|t| - 1].atomNr <= e.atomNr {
      FilterSnoc(HasNr(k), t, e);
    } else {
      var init, last := t[..|t| - 1], t[|t| - 1];
      assert t == init + [last];
      InsertStable(init, e, k);
      FilterSnoc(HasNr(k), Insert(init, e), last);
      FilterSnoc(HasNr(k), init, last);
    }
  }

  /**
   * The sort orders the entries by `atom_nr`, keeps every entry exactly as often as it occurs,
   * and keeps the input order of the entries of every `atom_nr`.
   */
  lemma {:induction false} SortByNrSpec(s: seq<Entry>)
    ensures SortedByNr(SortByNr(s))
    ensures multiset(SortByNr(s)) == multiset(s)
    ensures forall k :: Filter(HasNr(k), SortByNr(s)) == Filter(HasNr(k), s)
  {
    if s != [] {
      var init, last := s[..|s| - 1], s[|s| - 1];
      assert s == init + [last];
      SortByNrSpec(init);
      InsertSorted(SortByNr(init), last);
      InsertPerm(SortByNr(init), last);
      forall k
        ensures Filter(HasNr(k), SortByNr(s)) == Filter(HasNr(k), s)
      {
        InsertStable(SortByNr(init), last, k);
        FilterSnoc(HasNr(k), init, last);
      }
    }
  }

  // ---------------------------------------------------------------------------
  // The links

  function NotIn(removed: set<string>): Entry -> bool {
    (e: Entry) => e.cls !in removed
  }

  /** `filtered_entries` of one sample: sorted, then the removed classes left out. */
  function Chain(entries: seq<Entry>, removed: set<string>): seq<Entry> {
    Filter(NotIn(removed), SortByNr(entries))
  }

  /** `f"L\t{seg1}\t{ori1}\t{seg2}\t{ori2}\t0M"` */
  function LinkLine(a: Entry, b: Entry): string {
    Join(["L", a.cls, a.strand, b.cls, b.strand, "0M"], '\t')
  }

  /** The link from the `i`-th entry of a chain to the next. */
  function LinkAt(f: seq<Entry>, i: int): string
    requires 0 <= i < |f| - 1
  {
    LinkLine(f[i], f[i + 1])
  }

  /** The links of one chain: one per pair of neighbours. */
  function ChainLinks(f: seq<Entry>): set<string> {
    set i | 0 <= i < |f| - 1 :: LinkAt(f, i)
  }

  /** `new_l_lines_set` after the samples of `order` are processed. */
  function AllLinks(order: seq<Group<Entry>>, removed: set<string>): set<string> {
    if order == [] then {}
    else AllLinks(order[..|order| - 1], removed) + ChainLinks(Chain(order[|order| - 1].items, removed))
  }

  /** The loop over the samples: every one's chain linked up, into one set. */
  method LinkSamples(order: seq<Group<Entry>>, removed: set<string>) returns (links: set<string>)
    ensures links == AllLinks(order, removed)
  {
    links := {};
    for k := 0 to |order|
      invariant links == AllLinks(order[..k], removed)
    {
      var f := Filter(NotIn(removed), SortByNr(order[k].items));
      links := LinkChain(links, f);
      assert order[..k + 1][..k] == order[..k];
    }
    assert order[..|order|] == order;
  }

  /** `for i in range(len(filtered_entries) - 1)`: the links of one chain added to `links0`. */
  method LinkChain(links0: set<string>, f: seq<Entry>) returns (links: set<string>)
    ensures links == links0 + ChainLinks(f)
  {
    links := links0;
    var i := 0;
    while i < |f| - 1
      invariant 0 <= i <= |f| || (|f| == 0 && i == 0)
      invariant links == links0 + set j | 0 <= j < i && j < |f| - 1 :: LinkAt(f, j)
    {
      links := links + {LinkAt(f, i)};
      i := i + 1;
    }
  }

  /** `l` is a link of the chain of the `k`-th sample. */
  predicate LinkOf(order: seq<Group<Entry>>, removed: set<string>, k: int, l: string) {
    0 <= k < |order| && l in ChainLinks(Chain(order[k].items, removed))
  }

  /** A link is a pair of neighbours in the chain of some sample, and every such pair is a link. */
  lemma {:induction false} AllLinksMeans(order: seq<Group<Entry>>, removed: set<string>, l: string)
    ensures l in AllLinks(order, removed) <==> exists k :: LinkOf(order, removed, k, l)
  {
    if order != [] {
      var init := order[..|order| - 1];
      assert AllLinks(order, removed) == AllLinks(init, removed) + ChainLinks(Chain(order[|init|].items, removed));
      AllLinksMeans(init, removed, l);
      if l in AllLinks(init, removed) {
        var k :| LinkOf(init, removed, k, l);
        assert order[k] == init[k];
        assert LinkOf(order, removed, k, l);
      } else if l in ChainLinks(Chain(order[|init|].items, removed)) {
        assert LinkOf(order, removed, |init|, l);
      } else {
        forall k | 0 <= k < |order|
          ensures !LinkOf(order, removed, k, l)
        {
          if k < |init| {
            assert order[k] == init[k];
            assert !LinkOf(init, removed, k, l);
          }
        }
      }
    }
  }

  /**
   * The two ends of every link are neighbours in a chain: entries of one sample, of classes not
   * removed, the first with an `atom_nr` no larger than the second's.
   */
  lemma LinkEnds(order: seq<Group<Entry>>, removed: set<string>, l: string) returns (k: int, a: Entry, b: Entry)
    requires l in AllLinks(order, removed)
    ensures 0 <= k < |order| && l == LinkLine(a, b) && a in order[k].items && b in order[k].items
    ensures a.cls !in removed && b.cls !in removed && a.atomNr <= b.atomNr
  {
    AllLinksMeans(order, removed, l);
    k :| LinkOf(order, removed, k, l);
    a, b := ChainLinkEnds(order[k].items, removed, l);
  }

  /** The ends of a link of one sample's chain. */
  lemma ChainLinkEnds(items: seq<Entry>, removed: set<string>, l: string) returns (a: Entry, b: Entry)
    requires l in ChainLinks(Chain(items, removed))
    ensures l == LinkLine(a, b) && a in items && b in items
    ensures a.cls !in removed && b.cls !in removed && a.atomNr <= b.atomNr
  {
    var f := Chain(items, removed);
    var i :| 0 <= i < |f| - 1 && l == LinkAt(f, i);
    a, b := f[i], f[i + 1];
    ChainEntry(items, removed, i);
    ChainEntry(items, removed, i + 1);
    ChainSorted(items, removed);
  }

  /** Every entry of a chain is an entry of its sample, of a class not removed. */
  lemma ChainEntry(items: seq<Entry>, removed: set<string>, i: int)
    requires 0 <= i < |Chain(items, removed)|
    ensures Chain(items, removed)[i] in items && Chain(items, removed)[i].cls !in removed
  {
    var sorted := SortByNr(items);
    var x := Chain(items, removed)[i];
    SortByNrSpec(items);
    FilterMembers(NotIn(removed), sorted);
    assert x in sorted && NotIn(removed)(x);
    assert x in multiset(sorted);
  }

  /** A chain is sorted by `atom_nr`. */
  lemma ChainSorted(items: seq<Entry>, removed: set<string>)
    ensures SortedByNr(Chain(items, removed))
  {
    SortByNrSpec(items);
    FilterIsSubseq(NotIn(removed), SortByNr(items));
    SubseqSorted(Chain(items, removed), SortByNr(items));
  }

  lemma {:induction false} SubseqSorted(f: seq<Entry>, s: seq<Entry>)
    requires IsSubseq(f, s) && SortedByNr(s)
    ensures SortedByNr(f)
    decreases |s|
  {
    if f != [] && s != [] {
      var s' := s[..|s| - 1];
      assert SortedByNr(s');
      if f[|f| - 1] == s[|s| - 1] {
        var f' := f[..|f| - 1];
        SubseqSorted(f', s');
        SubseqMembers(f', s');
        forall i | 0 <= i < |f'|
          ensures f[i].atomNr <= f[|f| - 1].atomNr
        {
          assert f[i] == f'[i] && f'[i] in s';
          var j :| 0 <= j < |s'| && s'[j] == f'[i];
          assert s[j] == s'[j];
        }
      } else {
        SubseqSorted(f, s');
      }
    }
  }

  lemma {:induction false} SubseqMembers<T>(f: seq<T>, s: seq<T>)
    requires IsSubseq(f, s)
    ensures forall i :: 0 <= i < |f| ==> f[i] in s
    decreases |s|
  {
    if f != [] && s != [] {
      var s' := s[..|s| - 1];
      if f[|f| - 1] == s[|s| - 1] {
        var f' := f[..|f| - 1];
        SubseqMembers(f', s');
        forall i | 0 <= i < |f|
          ensures f[i] in s
        {
          if i < |f'| {
            assert f[i] == f'[i];
            var j :| 0 <= j < |s'| && s'[j] == f'[i];
            assert s[j] == s'[j];
          } else {
            assert f[i] == s[|s| - 1];
          }
        }
      } else {
        SubseqMembers(f, s');
        forall i | 0 <= i < |f|
          ensures f[i] in s
        {
          var j :| 0 <= j < |s'| && s'[j] == f[i];
          assert s[j] == s'[j];
        }
      }
    }
  }

  /** A link splits back into its six fields when no class or strand holds a tab. */
  lemma LinkLineFields(a: Entry, b: Entry)
    requires '\t' !in a.cls && '\t' !in a.strand && '\t' !in b.cls && '\t' !in b.strand
    ensures Split(LinkLine(a, b), '\t') == ["L", a.cls, a.strand, b.cls, b.strand, "0M"]
  {
    SplitJoin(["L", a.cls, a.strand, b.cls, b.strand, "0M"], '\t');
  }

  /** A chain of fewer than two entries yields no link, and a chain of n entries at most n - 1. */
  lemma ChainLinksBound(f: seq<Entry>)
    ensures |f| <= 1 ==> ChainLinks(f) == {}
    ensures |ChainLinks(f)| <= if |f| <= 1 then 0 else |f| - 1
  {
    if |f| > 1 {
      ImageBound(f, |f| - 1);
      assert ChainLinks(f) == PrefixLinks(f, |f| - 1);
    } else {
      assert ChainLinks(f) == {};
    }
  }

  function PrefixLinks(f: seq<Entry>, n: int): set<string>
    requires 0 <= n < |f|
  {
    set i | 0 <= i < n :: LinkAt(f, i)
  }

  lemma {:induction false} ImageBound(f: seq<Entry>, n: int)
    requires 0 <= n < |f|
    ensures |PrefixLinks(f, n)| <= n
  {
    if n > 0 {
      ImageBound(f, n - 1);
      assert PrefixLinks(f, n) == PrefixLinks(f, n - 1) + {LinkAt(f, n - 1)};
    } else {
      assert PrefixLinks(f, n) == {};
    }
  }

  /** `Σ (n_s - 1)` over the samples whose chain is not empty. */
  function PairBudget(order: seq<Group<Entry>>, removed: set<string>): nat {
    if order == [] then 0
    else
      var n := |Chain(order[|order| - 1].items, removed)|;
      PairBudget(order[..|order| - 1], removed) + (if n <= 1 then 0 else n - 1)
  }

  /** There are never more links than neighbouring pairs over all samples. */
  lemma {:induction false} AllLinksBound(order: seq<Group<Entry>>, removed: set<string>)
    ensures |AllLinks(order, removed)| <= PairBudget(order, removed)
  {
    if order != [] {
      AllLinksBound(order[..|order| - 1], removed);
      ChainLinksBound(Chain(order[|order| - 1].items, removed));
    }
  }

  /**
   * `build_links_from_geese`: the sample dictionary built, every sample's chain linked, and the
   * set of links returned as a list (`list(new_l_lines_set)`), in an order left open.
   */
  method BuildLinksFromGeese(rows: seq<Row>, removed: set<string>, keep: string -> bool) returns (links: seq<string>)
    ensures Distinct(links)
    ensures forall l :: l in links <==> l in AllLinks(GroupAll(FilterMap(RowEntries(keep), rows)), removed)
  {
    var order := CollectSamples(rows, keep);
    var linkSet := LinkSamples(order, removed);
    links := ListOf(linkSet);
  }

  /** `list(s)`: every element once, in some order. */
  method ListOf(s: set<string>) returns (r: seq<string>)
    ensures Distinct(r)
    ensures forall x :: x in r <==> x in s
  {
    r := [];
    var rest := s;
    while rest != {}
      invariant rest <= s
      invariant Distinct(r)
      invariant forall x :: x in r <==> x in s && x !in rest
      decreases |rest|
    {
      var x :| x in rest;
      r := r + [x];
      rest := rest - {x};
    }
  }

  /**
   * Every link joins two rows of one sample, both with a readable `atom_nr` no smaller
   * from the first to the second, both of classes `keep` accepts and not removed.
   */
  lemma LinkRows(rows: seq<Row>, removed: set<string>, keep: string -> bool, l: string) returns (i: int, j: int)
    requires l in AllLinks(GroupAll(FilterMap(RowEntries(keep), rows)), removed)
    ensures 0 <= i < |rows| && 0 <= j < |rows| && SampleOf(rows[i]).Some? && SampleOf(rows[i]) == SampleOf(rows[j])
    ensures rows[i].atomNr.Some? && rows[j].atomNr.Some? && rows[i].atomNr.value <= rows[j].atomNr.value
    ensures keep(rows[i].cls) && keep(rows[j].cls) && rows[i].cls !in removed && rows[j].cls !in removed
    ensures l == Join(["L", rows[i].cls, rows[i].strand, rows[j].cls, rows[j].strand, "0M"], '\t')
  {
    var pairs := FilterMap(RowEntries(keep), rows);
    var k, a, b := LinkEnds(GroupAll(pairs), removed, l);
    var key := GroupAll(pairs)[k].key;
    GroupAllItems(pairs, k);
    i := RowOf(rows, keep, key, a);
    j := RowOf(rows, keep, key, b);
  }

  /** The row an entry of a sample's list comes from. */
  lemma RowOf(rows: seq<Row>, keep: string -> bool, s: string, e: Entry) returns (i: int)
    requires e in Select(FilterMap(RowEntries(keep), rows), s)
    ensures 0 <= i < |rows| && SampleOf(rows[i]) == Some(s) && rows[i].atomNr == Some(e.atomNr)
    ensures keep(rows[i].cls) && e.cls == rows[i].cls && e.strand == rows[i].strand
  {
    var pairs := FilterMap(RowEntries(keep), rows);
    SelectHas(pairs, s, e);
    FilterMapHas(RowEntries(keep), rows);
    i :| 0 <= i < |rows| && RowEntries(keep)(rows[i]) == Some((s, e));
    RowEntrySpec(keep, rows[i], s, e);
  }
}
