/**
 * iterative_flag_te_candidates_with_geese.py: split a GFA graph into its `S`, `L` and other
 * lines, then, round by round, add the nodes flagged in that round to the removed set, keep
 * the `S` lines of the nodes not removed, and rebuild every link from the `.geese` order.
 */
module IterativeFlag {
  import opened Options
  import opened Text
  import opened Seqs
  import opened Grouping
  import opened GeeseLinks

  function StartsS(): string -> bool {
    (line: string) => StartsWith(line, "S")
  }

  function StartsL(): string -> bool {
    (line: string) => !StartsWith(line, "S") && StartsWith(line, "L")
  }

  function Neither(): string -> bool {
    (line: string) => !StartsWith(line, "S") && !StartsWith(line, "L")
  }

  /** `read_gfa`: every line, newline stripped, appended to the list its first letter selects. */
  method ReadGfa(lines: seq<string>) returns (sLines: seq<string>, lLines: seq<string>, other: seq<string>)
    ensures sLines == Filter(StartsS(), Chomped(lines))
    ensures lLines == Filter(StartsL(), Chomped(lines))
    ensures other == Filter(Neither(), Chomped(lines))
  {
    sLines, lLines, other := [], [], [];
    for i := 0 to |lines|
      invariant sLines == Filter(StartsS(), Chomped(lines)[..i])
      invariant lLines == Filter(StartsL(), Chomped(lines)[..i])
      invariant other == Filter(Neither(), Chomped(lines)[..i])
    {
      var line := RStrip(lines[i], '\n');
      assert Chomped(lines)[..i + 1] == Chomped(lines)[..i] + [line];
      FilterSnoc(StartsS(), Chomped(lines)[..i], line);
      FilterSnoc(StartsL(), Chomped(lines)[..i], line);
      FilterSnoc(Neither(), Chomped(lines)[..i], line);
      if StartsWith(line, "S") {
        sLines := sLines + [line];
      } else if StartsWith(line, "L") {
        lLines := lLines + [line];
      } else {
        other := other + [line];
      }
    }
    assert Chomped(lines)[..|lines|] == Chomped(lines);
  }

  /** Every line lands in exactly one of the three lists. */
  lemma ReadGfaPartition(lines: seq<string>)
    ensures multiset(Filter(StartsS(), Chomped(lines))) + multiset(Filter(StartsL(), Chomped(lines)))
      + multiset(Filter(Neither(), Chomped(lines))) == multiset(Chomped(lines))
  {
    var s := Chomped(lines);
    forall i | 0 <= i < |s|
      ensures ExactlyOne(StartsS()(s[i]), StartsL()(s[i]), Neither()(s[i]))
    {
    }
    FilterPartition(StartsS(), StartsL(), Neither(), s);
  }

  /**
   * Each list keeps the file order and holds exactly the lines of its kind: a line of the file
   * is in the list its first letter selects.
   */
  lemma ReadGfaKinds(lines: seq<string>, p: string -> bool)
    requires p == StartsS() || p == StartsL() || p == Neither()
    ensures IsSubseq(Filter(p, Chomped(lines)), Chomped(lines))
    ensures forall line :: line in Chomped(lines) ==> (line in Filter(p, Chomped(lines)) <==> p(line))
  {
    var s := Chomped(lines);
    FilterIsSubseq(p, s);
    FilterMembers(p, s);
    forall line | line in s
      ensures line in Filter(p, s) <==> p(line)
    {
      if line in Filter(p, s) {
        var j :| 0 <= j < |Filter(p, s)| && Filter(p, s)[j] == line;
      } else {
        var j :| 0 <= j < |s| && s[j] == line;
      }
    }
  }

  /** `filter_s_lines` keeps a line with a second field that is not removed. */
  predicate NamesKept(removed: set<string>, line: string) {
    var f := Split(line, '\t');
    |f| >= 2 && f[1] !in removed
  }

  function NotRemoved(removed: set<string>): string -> bool {
    (line: string) => NamesKept(removed, line)
  }

  /** `filter_s_lines` */
  method FilterSLines(sLines: seq<string>, removed: set<string>) returns (kept: seq<string>)
    ensures kept == Filter(NotRemoved(removed), sLines)
  {
    kept := [];
    for i := 0 to |sLines|
      invariant kept == Filter(NotRemoved(removed), sLines[..i])
    {
      var line := sLines[i];
      assert sLines[..i + 1] == sLines[..i] + [line];
      FilterSnoc(NotRemoved(removed), sLines[..i], line);
      var fields := Split(line, '\t');
      if |fields| >= 2 {
        var seg := fields[1];
        if seg !in removed {
          kept := kept + [line];
        }
      }
    }
    assert sLines[..|sLines|] == sLines;
  }

  /**
   * A line survives exactly when it has a second field that is not removed (so a line of one
   * field never does); order is kept, and filtering again by the same set changes nothing.
   */
  lemma FilterSLinesSpec(sLines: seq<string>, removed: set<string>)
    ensures forall i :: 0 <= i < |sLines| ==>
      (sLines[i] in Filter(NotRemoved(removed), sLines) <==> NamesKept(removed, sLines[i]))
    ensures forall i :: 0 <= i < |sLines| && |Split(sLines[i], '\t')| < 2 ==> sLines[i] !in Filter(NotRemoved(removed), sLines)
    ensures IsSubseq(Filter(NotRemoved(removed), sLines), sLines)
    ensures Filter(NotRemoved(removed), Filter(NotRemoved(removed), sLines)) == Filter(NotRemoved(removed), sLines)
  {
    var r := Filter(NotRemoved(removed), sLines);
    FilterMembers(NotRemoved(removed), sLines);
    FilterIsSubseq(NotRemoved(removed), sLines);
    FilterIdempotent(NotRemoved(removed), sLines);
    forall i | 0 <= i < |sLines| && sLines[i] in r
      ensures NamesKept(removed, sLines[i])
    {
      var j :| 0 <= j < |r| && r[j] == sLines[i];
      assert NotRemoved(removed)(r[j]);
    }
  }

  /**
   * Rounds compose: filtering the survivors of one removed set by a larger one is filtering the
   * original lines by the larger one.
   */
  lemma FilterSLinesGrow(sLines: seq<string>, removed: set<string>, more: set<string>)
    requires removed <= more
    ensures Filter(NotRemoved(more), Filter(NotRemoved(removed), sLines)) == Filter(NotRemoved(more), sLines)
  {
    forall line | NotRemoved(more)(line)
      ensures NotRemoved(removed)(line)
    {
    }
    FilterNarrow(NotRemoved(removed), NotRemoved(more), sLines);
  }

  /** The nodes flagged in the first `n` rounds (`all_removed`). */
  function Flagged(picks: seq<set<string>>, n: int): set<string>
    requires 0 <= n <= |picks|
  {
    if n == 0 then {} else Flagged(picks, n - 1) + picks[n - 1]
  }

  /** Some `S` line survives the first `t` rounds. */
  predicate SegmentsLeft(sLines0: seq<string>, picks: seq<set<string>>, t: int)
    requires 0 <= t <= |picks|
  {
    Filter(NotRemoved(Flagged(picks, t)), sLines0) != []
  }

  function KeepAll(): string -> bool {
    (c: string) => true
  }

  /**
   * The rounds of `main`, with the nodes each round flags given as `picks` (they come from graph
   * metrics). The loop runs every round unless one leaves no `S` line, and then it stops at the
   * first such round: every round before the last run left some `S` line. Afterwards the `S` lines
   * are the original ones whose node was never flagged, and the links are those the `.geese` order
   * gives once every flagged class is left out.
   */
  method Rounds(sLines0: seq<string>, lLines0: seq<string>, rows: seq<Row>, picks: seq<set<string>>)
    returns (sLines: seq<string>, lLines: seq<string>, allRemoved: set<string>, ghost done: nat)
    ensures done <= |picks| && allRemoved == Flagged(picks, done)
    ensures done == 0 ==> sLines == sLines0 && lLines == lLines0
    ensures done > 0 ==> sLines == Filter(NotRemoved(allRemoved), sLines0)
    ensures done > 0 ==> (Distinct(lLines)
      && forall l :: l in lLines <==> l in AllLinks(GroupAll(FilterMap(RowEntries(KeepAll()), rows)), allRemoved))
    ensures done < |picks| ==> done > 0 && sLines == []
    ensures forall t :: 1 <= t < done ==> SegmentsLeft(sLines0, picks, t)
  {
    sLines, lLines, allRemoved := sLines0, lLines0, {};
    done := 0;
    for iteration := 0 to |picks|
      invariant done == iteration && allRemoved == Flagged(picks, done)
      invariant done == 0 ==> sLines == sLines0 && lLines == lLines0
      invariant done > 0 ==> sLines == Filter(NotRemoved(allRemoved), sLines0)
      invariant done > 0 ==> (Distinct(lLines)
        && forall l :: l in lLines <==> l in AllLinks(GroupAll(FilterMap(RowEntries(KeepAll()), rows)), allRemoved))
      invariant forall t :: 1 <= t <= done <= |picks| ==> SegmentsLeft(sLines0, picks, t)
    {
      var before := allRemoved;
      allRemoved := allRemoved + picks[iteration];
      sLines := FilterSLines(sLines, allRemoved);
      if iteration > 0 {
        FilterSLinesGrow(sLines0, before, allRemoved);
      }
      lLines := BuildLinksFromGeese(rows, allRemoved, KeepAll());
      assert allRemoved == Flagged(picks, done + 1);
      assert sLines == Filter(NotRemoved(Flagged(picks, done + 1)), sLines0);
      done := done + 1;
      if |sLines| == 0 {
        return;
      }
      assert SegmentsLeft(sLines0, picks, done);
    }
  }

  /** `build_graph` adds a node for an `S` line with a second field and two for an `L` line with six. */
  predicate GraphHasNode(sLines: seq<string>, lLines: seq<string>) {
    (exists i :: 0 <= i < |sLines| && |Split(sLines[i], '\t')| >= 2)
    || (exists j :: 0 <= j < |lLines| && |Split(lLines[j], '\t')| >= 6)
  }

  /**
   * A round after the first starts from `S` lines that survived a filter, so its graph has a node
   * whenever an `S` line is left: only the first round can meet an empty graph.
   */
  lemma SurvivorsGiveNode(sLines0: seq<string>, removed: set<string>, lLines: seq<string>)
    requires Filter(NotRemoved(removed), sLines0) != []
    ensures GraphHasNode(Filter(NotRemoved(removed), sLines0), lLines)
  {
    var kept := Filter(NotRemoved(removed), sLines0);
    FilterMembers(NotRemoved(removed), sLines0);
    assert NotRemoved(removed)(kept[0]);
  }

  /**
   * `main`: read the graph, run the rounds, and write the other lines, then the surviving `S`
   * lines, then the rebuilt links. When a round is due and the graph read has no node, no
   * candidate is found and `max` of the empty centrality map raises `ValueError` before the
   * output is opened: the result is None. Otherwise, with no round run, the output is the `S`,
   * `L` and other lines of the input regrouped; after some round the `S` lines are those of the
   * input whose node was never flagged, and the links the distinct `.geese` links without a
   * flagged class.
   */
  method Run(lines: seq<string>, rows: seq<Row>, picks: seq<set<string>>)
    returns (out: Option<seq<string>>, sLines: seq<string>, lLines: seq<string>, allRemoved: set<string>, ghost done: nat)
    ensures out.None? <==>
      |picks| > 0 && !GraphHasNode(Filter(StartsS(), Chomped(lines)), Filter(StartsL(), Chomped(lines)))
    ensures out.Some? ==> out.value == Filter(Neither(), Chomped(lines)) + sLines + lLines
    ensures done <= |picks| && allRemoved == Flagged(picks, done)
    ensures done == 0 ==> sLines == Filter(StartsS(), Chomped(lines)) && lLines == Filter(StartsL(), Chomped(lines))
    ensures done > 0 ==> sLines == Filter(NotRemoved(allRemoved), Filter(StartsS(), Chomped(lines)))
    ensures done > 0 ==> (Distinct(lLines)
      && forall l :: l in lLines <==> l in AllLinks(GroupAll(FilterMap(RowEntries(KeepAll()), rows)), allRemoved))
    ensures out.Some? && done < |picks| ==> done > 0 && sLines == []
    ensures forall t :: 1 <= t < done ==> SegmentsLeft(Filter(StartsS(), Chomped(lines)), picks, t)
  {
    var sLines0, lLines0, other := ReadGfa(lines);
    if |picks| > 0 && !GraphHasNode(sLines0, lLines0) {
      return None, sLines0, lLines0, {}, 0;
    }
    sLines, lLines, allRemoved, done := Rounds(sLines0, lLines0, rows, picks);
    out := Some(other + sLines + lLines);
  }
}
