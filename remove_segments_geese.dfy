/**
 * remove_segments_geese.py: drop the listed segments from a GFA graph, throw away all of its
 * links, and link the remaining segments anew from the order the `.geese` table gives them.
 * The output holds the graph's other lines, then its kept `S` lines, then the new `L` lines.
 */
module RemoveSegmentsGeese {
  import opened Options
  import opened Text
  import opened Seqs
  import opened Grouping
  import RemoveSegments
  import opened GeeseLinks

  predicate IsS(line: string) {
    StartsWith(line, "S")
  }

  predicate IsL(line: string) {
    !IsS(line) && StartsWith(line, "L")
  }

  /** An `S` line with a second field that names a removed segment. */
  predicate RemovedS(removed: set<string>, line: string) {
    var f := Split(line, '\t');
    IsS(line) && |f| >= 2 && f[1] in removed
  }

  /** `process_gfa` keeps an `S` line unless it names a removed segment. */
  function KeptS(removed: set<string>): string -> bool {
    (line: string) => IsS(line) && !RemovedS(removed, line)
  }

  /** Any line that is neither `S` nor `L` goes to `other_lines`. */
  function Other(): string -> bool {
    (line: string) => !IsS(line) && !IsL(line)
  }

  /** What `process_gfa` drops: every `L` line and every removed `S` line. */
  function Dropped(removed: set<string>): string -> bool {
    (line: string) => IsL(line) || RemovedS(removed, line)
  }

  /** `process_gfa`: the kept `S` lines and the other lines, newline stripped, in file order. */
  method ProcessGfa(lines: seq<string>, removed: set<string>) returns (sLines: seq<string>, other: seq<string>)
    ensures sLines == Filter(KeptS(removed), Chomped(lines))
    ensures other == Filter(Other(), Chomped(lines))
  {
    sLines, other := [], [];
    for i := 0 to |lines|
      invariant sLines == Filter(KeptS(removed), Chomped(lines)[..i])
      invariant other == Filter(Other(), Chomped(lines)[..i])
    {
      var line := RStrip(lines[i], '\n');
      assert Chomped(lines)[..i + 1] == Chomped(lines)[..i] + [line];
      FilterSnoc(KeptS(removed), Chomped(lines)[..i], line);
      FilterSnoc(Other(), Chomped(lines)[..i], line);
      var toS, toOther := Route(removed, line);
      if toS {
        sLines := sLines + [line];
      } else if toOther {
        other := other + [line];
      }
    }
    assert Chomped(lines)[..|lines|] == Chomped(lines);
  }

  /** The branches of `process_gfa`'s loop body: which list, if any, the line is appended to. */
  method Route(removed: set<string>, line: string) returns (toS: bool, toOther: bool)
    ensures toS == KeptS(removed)(line) && toOther == Other()(line)
  {
    toS, toOther := false, false;
    if StartsWith(line, "S") {
      var fields := Split(line, '\t');
      if |fields| >= 2 {
        var seg := fields[1];
        if seg in removed {
          return;
        }
      }
      toS := true;
    } else if StartsWith(line, "L") {
      return;
    } else {
      toOther := true;
    }
  }

  /**
   * Every input line is kept as an `S` line, kept as another line, or dropped, and exactly one of
   * these: the two outputs and the dropped lines together are the input, as a multiset.
   */
  lemma ProcessGfaPartition(lines: seq<string>, removed: set<string>)
    ensures multiset(Filter(KeptS(removed), Chomped(lines))) + multiset(Filter(Other(), Chomped(lines)))
      + multiset(Filter(Dropped(removed), Chomped(lines))) == multiset(Chomped(lines))
  {
    var s := Chomped(lines);
    forall i | 0 <= i < |s|
      ensures ExactlyOne(KeptS(removed)(s[i]), Other()(s[i]), Dropped(removed)(s[i]))
    {
    }
    FilterPartition(KeptS(removed), Other(), Dropped(removed), s);
  }

  /**
   * No output line is an `L` line; the kept `S` lines are exactly the input's `S` lines that do
   * not name a removed segment, and the other lines exactly its lines that are neither.
   */
  lemma ProcessGfaLines(lines: seq<string>, removed: set<string>, line: string)
    requires line in Chomped(lines)
    ensures line in Filter(KeptS(removed), Chomped(lines)) <==> IsS(line) && !RemovedS(removed, line)
    ensures line in Filter(Other(), Chomped(lines)) <==> !IsS(line) && !StartsWith(line, "L")
  {
    var s := Chomped(lines);
    FilterMembers(KeptS(removed), s);
    FilterMembers(Other(), s);
    var i :| 0 <= i < |s| && s[i] == line;
    if line in Filter(KeptS(removed), s) {
      var j :| 0 <= j < |Filter(KeptS(removed), s)| && Filter(KeptS(removed), s)[j] == line;
    }
    if line in Filter(Other(), s) {
      var j :| 0 <= j < |Filter(Other(), s)| && Filter(Other(), s)[j] == line;
    }
  }

  /** The segment an `S` line declares, when it has a second field. */
  function SegName(line: string): Option<string> {
    var f := Split(line, '\t');
    if |f| >= 2 then Some(f[1]) else None
  }

  /** `valid_segments`: the names the kept `S` lines declare. */
  method ValidSegments(sLines: seq<string>) returns (valid: set<string>)
    ensures valid == Collect(SegName, sLines)
  {
    valid := {};
    for i := 0 to |sLines|
      invariant valid == Collect(SegName, sLines[..i])
    {
      assert sLines[..i + 1] == sLines[..i] + [sLines[i]];
      CollectSnoc(SegName, sLines[..i], sLines[i]);
      var fields := Split(sLines[i], '\t');
      if |fields| >= 2 {
        valid := valid + {fields[1]};
      }
    }
    assert sLines[..|sLines|] == sLines;
  }

  /** A name is valid exactly when some kept `S` line declares it; no valid name is removed. */
  lemma ValidSegmentsMeans(lines: seq<string>, removed: set<string>, n: string)
    ensures n in Collect(SegName, Filter(KeptS(removed), Chomped(lines))) <==>
      exists j :: 0 <= j < |Filter(KeptS(removed), Chomped(lines))| && SegName(Filter(KeptS(removed), Chomped(lines))[j]) == Some(n)
    ensures n in Collect(SegName, Filter(KeptS(removed), Chomped(lines))) ==> n !in removed
  {
    var sl := Filter(KeptS(removed), Chomped(lines));
    CollectHas(SegName, sl);
    FilterMembers(KeptS(removed), Chomped(lines));
    if n in Collect(SegName, sl) {
      var j :| 0 <= j < |sl| && SegName(sl[j]) == Some(n);
      assert KeptS(removed)(sl[j]);
    }
  }

  function InSet(valid: set<string>): string -> bool {
    (c: string) => c in valid
  }

  /**
   * The script: the removal list loaded, the graph filtered, the valid segments collected, the
   * links rebuilt from the `.geese` rows; then other lines, kept `S` lines and new links, in
   * that order.
   */
  method RemoveAndRelink(listLines: seq<string>, gfaLines: seq<string>, rows: seq<Row>)
    returns (out: seq<string>, ghost nKept: nat)
    ensures var removed := Collect(RemoveSegments.StrippedName, listLines);
      var head := Filter(Other(), Chomped(gfaLines)) + Filter(KeptS(removed), Chomped(gfaLines));
      var valid := Collect(SegName, Filter(KeptS(removed), Chomped(gfaLines)));
      nKept == |head| <= |out| && out[..nKept] == head && Distinct(out[nKept..])
      && forall l :: l in out[nKept..] <==> l in AllLinks(GroupAll(FilterMap(RowEntries(InSet(valid)), rows)), removed)
  {
    var removed := RemoveSegments.LoadSegmentsToRemove(listLines);
    var sLines, other := ProcessGfa(gfaLines, removed);
    var valid := ValidSegments(sLines);
    var links := BuildLinksFromGeese(rows, removed, InSet(valid));
    out := other + sLines + links;
    nKept := |other + sLines|;
    assert out[..nKept] == other + sLines;
    assert out[nKept..] == links;
  }

  /**
   * Every new link joins two segments that the output still declares (each named by a kept `S`
   * line, so neither removed), consecutive in one sample's order.
   */
  lemma NewLinksValid(gfaLines: seq<string>, removed: set<string>, rows: seq<Row>, l: string)
    returns (i: int, j: int)
    requires l in AllLinks(GroupAll(FilterMap(RowEntries(InSet(Collect(SegName, Filter(KeptS(removed), Chomped(gfaLines))))), rows)), removed)
    ensures 0 <= i < |rows| && 0 <= j < |rows| && SampleOf(rows[i]).Some? && SampleOf(rows[i]) == SampleOf(rows[j])
    ensures rows[i].atomNr.Some? && rows[j].atomNr.Some? && rows[i].atomNr.value <= rows[j].atomNr.value
    ensures l == Join(["L", rows[i].cls, rows[i].strand, rows[j].cls, rows[j].strand, "0M"], '\t')
    ensures rows[i].cls !in removed && rows[j].cls !in removed
    ensures exists si :: (0 <= si < |Filter(KeptS(removed), Chomped(gfaLines))|
      && SegName(Filter(KeptS(removed), Chomped(gfaLines))[si]) == Some(rows[i].cls))
    ensures exists sj :: (0 <= sj < |Filter(KeptS(removed), Chomped(gfaLines))|
      && SegName(Filter(KeptS(removed), Chomped(gfaLines))[sj]) == Some(rows[j].cls))
  {
    var valid := Collect(SegName, Filter(KeptS(removed), Chomped(gfaLines)));
    i, j := LinkRows(rows, removed, InSet(valid), l);
    ValidSegmentsMeans(gfaLines, removed, rows[i].cls);
    ValidSegmentsMeans(gfaLines, removed, rows[j].cls);
  }
}
