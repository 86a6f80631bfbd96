/**
 * The record store of the atom filter (filter_geese_iter.py, `parse_geese`): a `.geese` file is a
 * list of lines `genome <TAB> ordinal <TAB> atom <TAB> strand <TAB> start <TAB> end`. Every line is
 * kept verbatim (minus its newline) for the final rewrite; lines that parse also feed
 * `occ: atom -> [(genome, start, end, strand)]` and `genome_order: genome -> [(atom, strand)]`.
 */
module GeeseRecords {
  import opened Options
  import opened Text
  import opened Grouping

  type Atom = string
  type Genome = string

  /** A line that parsed: its genome, atom, strand and integer coordinates. */
  datatype Record = Record(genome: Genome, atom: Atom, strand: string, start: int, end: int)

  /** An entry of `occ[atom]`. */
  datatype Hit = Hit(genome: Genome, start: int, end: int, strand: string)

  /** An entry of `genome_order[genome]`. */
  datatype Placement = Placement(atom: Atom, strand: string)

  /** `genome_order`: insertion-ordered genome -> placements. */
  type Orders = seq<Group<Placement>>

  /** `occ`: insertion-ordered atom -> hits. */
  type Occ = seq<Group<Hit>>

  /**
   * What one line contributes: nothing for a `#` line, for fewer than six tab-separated fields, or
   * when `start`/`end` are not integers; otherwise one record.
   */
  function ParseRecord(line: string): Option<Record> {
    if StartsWith(line, "#") then None
    else
      var p := Split(RStrip(line, '\n'), '\t');
      if |p| < 6 then None
      else
        var start, end := ParseInt(p[4]), ParseInt(p[5]);
        if start.Some? && end.Some? then Some(Record(p[0], p[2], p[3], start.value, end.value))
        else None
  }

  /** The records of a file, in file order. */
  function Records(lines: seq<string>): seq<Record> {
    if lines == [] then []
    else
      Records(lines[..|lines| - 1])
      + match ParseRecord(lines[|lines| - 1]) case Some(r) => [r] case None => []
  }

  function HitPairs(recs: seq<Record>): seq<(string, Hit)> {
    if recs == [] then []
    else
      var r := recs[|recs| - 1];
      HitPairs(recs[..|recs| - 1]) + [(r.atom, Hit(r.genome, r.start, r.end, r.strand))]
  }

  function PlacementPairs(recs: seq<Record>): seq<(string, Placement)> {
    if recs == [] then []
    else
      var r := recs[|recs| - 1];
      PlacementPairs(recs[..|recs| - 1]) + [(r.genome, Placement(r.atom, r.strand))]
  }

  /**
   * `parse_geese`. Every line lands in `raw`; each record adds exactly one hit under its atom and
   * one placement under its genome, in file order, and nothing else is added.
   */
  method ParseGeese(lines: seq<string>) returns (occ: Occ, orders: Orders, raw: seq<string>)
    ensures raw == Chomped(lines)  // `raw_lines`
    ensures occ == GroupAll(HitPairs(Records(lines)))
    ensures orders == GroupAll(PlacementPairs(Records(lines)))
    ensures DistinctKeys(occ) && DistinctKeys(orders)
    ensures forall a :: Lookup(occ, a) == Select(HitPairs(Records(lines)), a)
    ensures forall g :: Lookup(orders, g) == Select(PlacementPairs(Records(lines)), g)
  {
    occ, orders, raw := [], [], [];
    var i := 0;
    assert Records(lines[..0]) == [];
    while i < |lines|
      invariant 0 <= i <= |lines|
      invariant raw == Chomped(lines[..i])
      invariant occ == GroupAll(HitPairs(Records(lines[..i])))
      invariant orders == GroupAll(PlacementPairs(Records(lines[..i])))
    {
      var line := lines[i];
      RecordsStep(lines, i);
      ghost var recs := Records(lines[..i]);
      raw := raw + [RStrip(line, '\n')];
      ghost var added := false;
      if !StartsWith(line, "#") {
        var p := Split(RStrip(line, '\n'), '\t');
        if |p| >= 6 {
          var start, end := ParseInt(p[4]), ParseInt(p[5]);
          if start.Some? && end.Some? {
            var r := Record(p[0], p[2], p[3], start.value, end.value);
            assert Records(lines[..i + 1]) == recs + [r];
            PairsSnoc(recs, r);
            GroupAllSnoc(HitPairs(recs), r.atom, Hit(r.genome, r.start, r.end, r.strand));
            GroupAllSnoc(PlacementPairs(recs), r.genome, Placement(r.atom, r.strand));
            occ := Append(occ, r.atom, Hit(r.genome, r.start, r.end, r.strand));
            orders := Append(orders, r.genome, Placement(r.atom, r.strand));
            added := true;
          }
        }
      }
      if !added {
        assert Records(lines[..i + 1]) == recs;
      }
      i := i + 1;
    }
    assert lines[..i] == lines;
    GroupAllSpec(HitPairs(Records(lines)));
    GroupAllSpec(PlacementPairs(Records(lines)));
  }

  lemma RecordsStep(lines: seq<string>, i: int)
    requires 0 <= i < |lines|
    ensures Chomped(lines[..i + 1]) == Chomped(lines[..i]) + [RStrip(lines[i], '\n')]
    ensures Records(lines[..i + 1])
            == Records(lines[..i]) + match ParseRecord(lines[i]) case Some(r) => [r] case None => []
  {
    assert lines[..i + 1][..i] == lines[..i];
  }

  lemma PairsSnoc(recs: seq<Record>, r: Record)
    ensures HitPairs(recs + [r]) == HitPairs(recs) + [(r.atom, Hit(r.genome, r.start, r.end, r.strand))]
    ensures PlacementPairs(recs + [r]) == PlacementPairs(recs) + [(r.genome, Placement(r.atom, r.strand))]
  {
    assert (recs + [r])[..|recs|] == recs;
  }

  /** How a record is written out: its six fields joined by tabs, ending in a newline. */
  function RecordLine(r: Record, ordinal: string): string {
    Join([r.genome, ordinal, r.atom, r.strand, ShowInt(r.start), ShowInt(r.end)], '\t') + "\n"
  }

  /** Parsing reads back every record a `.geese` writer can produce. */
  lemma ParseRecordLine(r: Record, ordinal: string)
    requires !StartsWith(r.genome, "#")
    requires '\t' !in r.genome && '\t' !in ordinal && '\t' !in r.atom && '\t' !in r.strand
    ensures ParseRecord(RecordLine(r, ordinal)) == Some(r)
  {
    var p := RecordLineFields(r, ordinal);
    ParseShowInt(r.start);
    ParseShowInt(r.end);
    assert ParseInt(p[4]) == Some(r.start) && ParseInt(p[5]) == Some(r.end);
  }

  /** Undoing the writer: the line is no comment, and its newline stripped and split gives the six fields back. */
  lemma RecordLineFields(r: Record, ordinal: string) returns (p: seq<string>)
    requires !StartsWith(r.genome, "#")
    requires '\t' !in r.genome && '\t' !in ordinal && '\t' !in r.atom && '\t' !in r.strand
    ensures !StartsWith(RecordLine(r, ordinal), "#")
    ensures p == Split(RStrip(RecordLine(r, ordinal), '\n'), '\t')
    ensures p == [r.genome, ordinal, r.atom, r.strand, ShowInt(r.start), ShowInt(r.end)]
  {
    var fields := [r.genome, ordinal, r.atom, r.strand, ShowInt(r.start), ShowInt(r.end)];
    var body := Join(fields, '\t');
    var line := RecordLine(r, ordinal);
    assert line == body + "\n";
    NoTab(r.start);
    NoTab(r.end);
    SplitJoin(fields, '\t');
    JoinEndsWith(fields, '\t');
    RStripNewline(body);
    assert !StartsWith(line, "#") by {
      JoinStartsWith(fields, '\t');
    }
    p := fields;
  }

  lemma NoTab(n: int)
    ensures '\t' !in ShowInt(n)
  {
    ShowIntNoSpace(n);
    if '\t' in ShowInt(n) {
      var i :| 0 <= i < |ShowInt(n)| && ShowInt(n)[i] == '\t';
      assert IsSpace(ShowInt(n)[i]);
    }
  }

  lemma RStripNewline(body: string)
    requires body != [] && body[|body| - 1] != '\n'
    ensures RStrip(body + "\n", '\n') == body
  {
    assert (body + "\n")[..|body|] == body;
  }

  /** A joined line starts with its first field, or with the separator when that field is empty. */
  lemma JoinStartsWith(parts: seq<string>, c: char)
    requires |parts| >= 2
    ensures parts[0] != [] ==> Join(parts, c)[0] == parts[0][0]
    ensures parts[0] == [] ==> Join(parts, c)[0] == c
  {
  }

  /** A tab-joined line ends with its last field. */
  lemma {:induction false} JoinEndsWith(parts: seq<string>, c: char)
    requires |parts| >= 1 && parts[|parts| - 1] != []
    ensures Join(parts, c) != [] && Join(parts, c)[|Join(parts, c)| - 1] == parts[|parts| - 1][|parts[|parts| - 1]| - 1]
  {
    if |parts| > 1 {
      JoinEndsWith(parts[1..], c);
    }
  }
}
