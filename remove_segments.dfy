/**
 * remove_segments.py: drop the segments named in a list file from a GFA graph, together with
 * every link that touches one of them. A GFA file is a list of tab-separated lines; `S` lines
 * declare segments (`S <name> <sequence> ...`), `L` lines link two of them
 * (`L <from> <orient> <to> <orient> <overlap> ...`), and anything else is passed through.
 */
module RemoveSegments {
  import opened Options
  import opened Text
  import opened Seqs

  /** `seg = line.strip(); if seg: segments_to_remove.add(seg)`: the names a list file holds. */
  predicate Names(lines: seq<string>, n: string) {
    exists i :: 0 <= i < |lines| && Strip(lines[i]) == n && n != []
  }

  /** What one line of the list file adds: its stripped text, unless that is empty. */
  function StrippedName(line: string): Option<string> {
    var seg := Strip(line);
    if seg != [] then Some(seg) else None
  }

  /**
   * `load_segments_to_remove`: the set of stripped, non-blank lines. The same loop reads the
   * exclusion list of atoms2gfa.py and the removal list of remove_segments_geese.py.
   */
  method LoadSegmentsToRemove(lines: seq<string>) returns (names: set<string>)
    ensures names == Collect(StrippedName, lines)
    ensures forall n :: n in names <==> Names(lines, n)
  {
    names := {};
    var i := 0;
    while i < |lines|
      invariant 0 <= i <= |lines|
      invariant names == Collect(StrippedName, lines[..i])
    {
      var seg := Strip(lines[i]);
      assert lines[..i + 1] == lines[..i] + [lines[i]];
      CollectSnoc(StrippedName, lines[..i], lines[i]);
      if seg != [] {
        names := names + {seg};
      }
      i := i + 1;
    }
    assert lines[..i] == lines;
    NamesCollected(lines);
  }

  /** The set built holds exactly the names the file lists. */
  lemma NamesCollected(lines: seq<string>)
    ensures forall n :: n in Collect(StrippedName, lines) <==> Names(lines, n)
  {
    CollectHas(StrippedName, lines);
    forall n
      ensures n in Collect(StrippedName, lines) <==> Names(lines, n)
    {
      if Names(lines, n) {
        var i :| 0 <= i < |lines| && Strip(lines[i]) == n && n != [];
        assert StrippedName(lines[i]) == Some(n);
      }
    }
  }

  /** No loaded name is blank or carries surrounding whitespace. */
  lemma NamesAreStripped(lines: seq<string>, n: string)
    requires Names(lines, n)
    ensures n != [] && Strip(n) == n
  {
    var i :| 0 <= i < |lines| && Strip(lines[i]) == n && n != [];
    StripStripped(lines[i]);
  }

  /** `process_gfa`'s test for one line, its newline already stripped. */
  predicate KeepLine(removed: set<string>, line: string) {
    var f := Split(line, '\t');
    if StartsWith(line, "S") then !(|f| >= 2 && f[1] in removed)
    else if StartsWith(line, "L") then !(|f| >= 6 && (f[1] in removed || f[3] in removed))
    else true
  }

  function Keeps(removed: set<string>): string -> bool {
    (line: string) => KeepLine(removed, line)
  }

  /** `process_gfa`: the lines kept, newline stripped, in file order. */
  method ProcessGfa(lines: seq<string>, removed: set<string>) returns (kept: seq<string>)
    ensures kept == Filter(Keeps(removed), Chomped(lines))
  {
    kept := [];
    var i := 0;
    while i < |lines|
      invariant 0 <= i <= |lines|
      invariant kept == Filter(Keeps(removed), Chomped(lines)[..i])
    {
      var line := RStrip(lines[i], '\n');
      assert Chomped(lines)[..i + 1] == Chomped(lines)[..i] + [line];
      FilterSnoc(Keeps(removed), Chomped(lines)[..i], line);
      var keep := KeepsLine(removed, line);
      if keep {
        kept := kept + [line];
      }
      i := i + 1;
    }
    assert Chomped(lines)[..i] == Chomped(lines);
  }

  /** The branches of `process_gfa`'s loop body: does the line go to the output? */
  method KeepsLine(removed: set<string>, line: string) returns (keep: bool)
    ensures keep == KeepLine(removed, line)
  {
    if StartsWith(line, "S") {
      var fields := Split(line, '\t');
      keep := !(|fields| >= 2 && fields[1] in removed);
    } else if StartsWith(line, "L") {
      var fields := Split(line, '\t');
      keep := !(|fields| >= 6 && (fields[1] in removed || fields[3] in removed));
    } else {
      keep := true;
    }
  }

  /**
   * What `process_gfa` promises of its output as a whole: the input with some lines deleted,
   * order kept; with nothing to remove the graph comes out unchanged, and running the script on
   * its own output changes nothing.
   */
  lemma ProcessGfaSpec(lines: seq<string>, removed: set<string>)
    ensures IsSubseq(Filter(Keeps(removed), Chomped(lines)), Chomped(lines))
    ensures removed == {} ==> Filter(Keeps(removed), Chomped(lines)) == Chomped(lines)
    ensures Filter(Keeps(removed), Filter(Keeps(removed), Chomped(lines))) == Filter(Keeps(removed), Chomped(lines))
  {
    var s := Chomped(lines);
    FilterIsSubseq(Keeps(removed), s);
    FilterIdempotent(Keeps(removed), s);
    if removed == {} {
      forall line | true
        ensures Keeps(removed)(line)
      {
      }
      FilterAll(Keeps(removed), s);
    }
  }

  /** An input line survives exactly when `KeepLine` holds of it. */
  lemma ProcessGfaKeeps(lines: seq<string>, removed: set<string>)
    ensures forall line :: line in Chomped(lines) ==>
      (line in Filter(Keeps(removed), Chomped(lines)) <==> KeepLine(removed, line))
  {
    var s := Chomped(lines);
    FilterMembers(Keeps(removed), s);
    forall line | line in s
      ensures line in Filter(Keeps(removed), s) <==> KeepLine(removed, line)
    {
      var i :| 0 <= i < |s| && s[i] == line;
      assert Keeps(removed)(s[i]) == KeepLine(removed, line);
    }
  }

  /** No kept `S` line names a removed segment, and no kept six-field `L` line touches one. */
  lemma KeptLinesAvoidRemoved(lines: seq<string>, removed: set<string>)
    ensures forall line :: line in Filter(Keeps(removed), Chomped(lines)) ==>
      var f := Split(line, '\t');
      (StartsWith(line, "S") && |f| >= 2 ==> f[1] !in removed)
      && (StartsWith(line, "L") && |f| >= 6 ==> f[1] !in removed && f[3] !in removed)
  {
    FilterMembers(Keeps(removed), Chomped(lines));
    forall line | line in Filter(Keeps(removed), Chomped(lines))
      ensures KeepLine(removed, line)
    {
      var r := Filter(Keeps(removed), Chomped(lines));
      var i :| 0 <= i < |r| && r[i] == line;
      assert Keeps(removed)(r[i]);
    }
  }
}
