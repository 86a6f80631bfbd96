/**
 * Steps 6 and 7 of atoms2gfa.py's `main`, and `main` as a whole: the GFA lines written for the
 * atoms, in order. An included atom writes the `S` line of its class when the class has not had
 * one yet, then an `L` line from the last included atom of the same sequence, if there is one.
 */
module AtomsToGfaMain {
  import opened Options
  import opened Text
  import opened Seqs
  import RemoveSegments
  import opened AtomsToGfa

  /** Everything the output loop reads. */
  datatype Job = Job(atoms: seq<Atom>, sequences: map<string, string>, fachrom: map<string, bool>,
                     faplas: map<string, bool>, cutoff: int, excluded: set<string>)

  /** One line of the GFA output, before it is formatted. */
  datatype GfaLine =
    | Segment(name: string, sequence: string, colour: Option<string>)
    | Link(from: string, fromStrand: string, to: string, toStrand: string)

  /** The two colour tags of a segment, or none. */
  function ColourTags(colour: Option<string>): string {
    match colour
    case None => ""
    case Some(c) => "\tCL:z:" + c + "\tC2:z:" + c
  }

  /** The text of one output line, without its newline. */
  function Render(l: GfaLine): string {
    match l
    case Segment(name, sequence, colour) => "S\t" + name + "\t" + sequence + ColourTags(colour)
    case Link(from, fs, to, ts) => Join(["L", from, fs, to, ts, "0M"], '\t')
  }

  function RenderAll(o: seq<GfaLine>): (r: seq<string>)
    ensures |r| == |o| && forall i :: 0 <= i < |o| ==> r[i] == Render(o[i])
  {
    seq(|o|, i requires 0 <= i < |o| => Render(o[i]))
  }

  /** Yellow for a class on both kinds of sequence, green on chromosomes only, red on plasmids only. */
  function Colour(chrom: bool, plas: bool): Option<string> {
    if chrom then (if plas then Some("#aaaa00") else Some("#00aa00"))
    else if plas then Some("#aa0000")
    else None
  }

  /** The class of `a` is neither over the cutoff nor in the exclusion list. */
  predicate Included(job: Job, a: Atom) {
    !(CountOf(job.atoms, a.cls) > job.cutoff || a.cls in job.excluded)
  }

  /** `used_classes` once the first `k` atoms are done. */
  function UsedBefore(job: Job, k: int): set<string>
    requires 0 <= k <= |job.atoms|
  {
    set j | 0 <= j < k && Included(job, job.atoms[j]) :: job.atoms[j].cls
  }

  /** The index of the last included atom of sequence `n` among the first `k`, or -1. */
  function LastIncluded(job: Job, k: int, n: string): (j: int)
    requires 0 <= k <= |job.atoms|
    ensures -1 <= j < k
  {
    if k == 0 then -1
    else if Included(job, job.atoms[k - 1]) && job.atoms[k - 1].name == n then k - 1
    else LastIncluded(job, k - 1, n)
  }

  /**
   * The segment of atom `a`'s class: its slice of its sequence, reverse-complemented on the `-`
   * strand, coloured by the flags of its class. None stands for the KeyError of a sequence the
   * FASTA file does not have.
   */
  function SegmentOf(job: Job, a: Atom): Option<GfaLine> {
    if a.name !in job.sequences then None
    else
      var sub := PySlice(job.sequences[a.name], a.start, a.end);
      var sequence := if a.strand == "-" then ReverseComplement(sub) else sub;
      Some(Segment(a.cls, sequence,
        Colour(OnFlagged(job.atoms, job.fachrom, a.cls), OnFlagged(job.atoms, job.faplas, a.cls))))
  }

  function LinkOf(prev: Atom, a: Atom): GfaLine {
    Link(prev.cls, prev.strand, a.cls, a.strand)
  }

  /** The `L` line of an included atom `k`: from the last included atom of its sequence, if any. */
  function Bridge(job: Job, k: int): seq<GfaLine>
    requires 0 <= k < |job.atoms|
  {
    var prev := LastIncluded(job, k, job.atoms[k].name);
    if prev >= 0 then [LinkOf(job.atoms[prev], job.atoms[k])] else []
  }

  /** What atom `k` writes, or None when writing it dies. */
  function Emit(job: Job, k: int): Option<seq<GfaLine>>
    requires 0 <= k < |job.atoms|
  {
    var a := job.atoms[k];
    if !Included(job, a) then Some([])
    else if a.cls in UsedBefore(job, k) then Some(Bridge(job, k))
    else match SegmentOf(job, a)
      case None => None
      case Some(s) => Some([s] + Bridge(job, k))
  }

  /** The lines the first `k` atoms write, or None when one of them dies. */
  function Output(job: Job, k: int): Option<seq<GfaLine>>
    requires 0 <= k <= |job.atoms|
  {
    if k == 0 then Some([])
    else match Output(job, k - 1)
      case None => None
      case Some(o) => (match Emit(job, k - 1)
        case None => None
        case Some(e) => Some(o + e))
  }

  // ---------------------------------------------------------------------------
  // the loop

  /** `used_classes` and `last_included_per_seq` once the first `k` atoms are done. */
  ghost predicate Written(job: Job, k: int, used: set<string>, last: map<string, Atom>) {
    0 <= k <= |job.atoms|
    && used == UsedBefore(job, k)
    && (forall n :: n in last <==> LastIncluded(job, k, n) >= 0)
    && (forall n :: n in last ==> last[n] == job.atoms[LastIncluded(job, k, n)])
  }

  /** Step 7 of `main`: the GFA lines, or None when one of them cannot be written. */
  method WriteGfa(job: Job, atomstats: map<string, nat>, atchrom: map<string, bool>, atplas: map<string, bool>)
    returns (r: Option<seq<GfaLine>>)
    requires StatsOf(job.atoms, job.fachrom, job.faplas, atomstats, atchrom, atplas)
    ensures r == Output(job, |job.atoms|)
  {
    var used: set<string> := {};
    var last: map<string, Atom> := map[];
    var out: seq<GfaLine> := [];
    for k := 0 to |job.atoms|
      invariant Written(job, k, used, last)
      invariant Output(job, k) == Some(out)
    {
      var lines;
      lines, used, last := WriteAtom(job, atomstats, atchrom, atplas, k, used, last);
      OutputStep(job, k, out);
      if lines.None? {
        OutputDies(job, k + 1, |job.atoms|);
        return None;
      }
      out := out + lines.value;
    }
    return Some(out);
  }

  /** The body of the output loop for atom `k`. */
  method WriteAtom(job: Job, atomstats: map<string, nat>, atchrom: map<string, bool>, atplas: map<string, bool>,
                   k: int, used0: set<string>, last0: map<string, Atom>)
    returns (lines: Option<seq<GfaLine>>, used: set<string>, last: map<string, Atom>)
    requires StatsOf(job.atoms, job.fachrom, job.faplas, atomstats, atchrom, atplas)
    requires 0 <= k < |job.atoms| && Written(job, k, used0, last0)
    ensures lines == Emit(job, k)
    ensures lines.Some? ==> Written(job, k + 1, used, last)
  {
    var atom := job.atoms[k];
    var cls, seqname := atom.cls, atom.name;
    WrittenStep(job, k, used0, last0);
    assert cls in Classes(job.atoms);
    assert atomstats[cls] == CountOf(job.atoms, cls);
    used, last := used0, last0;
    if atomstats[cls] > job.cutoff || cls in job.excluded {
      return Some([]), used, last;
    }
    var segment: seq<GfaLine> := [];
    if cls !in used {
      used := used + {cls};
      var s := NewSegment(job, atchrom, atplas, atom);
      if s.None? {
        return None, used, last;
      }
      segment := [s.value];
    }
    var link := NewLink(job, k, last);
    last := last[seqname := atom];
    if segment == [] {
      lines := Some(link);
    } else {
      lines := Some(segment + link);
    }
  }

  /** `if seqname in last_included_per_seq`: the `L` line of atom `k`. */
  method NewLink(job: Job, k: int, last: map<string, Atom>) returns (link: seq<GfaLine>)
    requires 0 <= k < |job.atoms| && Written(job, k, UsedBefore(job, k), last)
    ensures link == Bridge(job, k)
  {
    var atom := job.atoms[k];
    link := [];
    if atom.name in last {
      var prev := last[atom.name];
      link := [Link(prev.cls, prev.strand, atom.cls, atom.strand)];
    }
  }

  /** The `S` line of a class seen for the first time. */
  method NewSegment(job: Job, atchrom: map<string, bool>, atplas: map<string, bool>, atom: Atom)
    returns (segment: Option<GfaLine>)
    requires ClassFlags(job.atoms, job.fachrom, atchrom) && ClassFlags(job.atoms, job.faplas, atplas)
    requires atom.cls in Classes(job.atoms)
    ensures segment == SegmentOf(job, atom)
  {
    var cls, seqname := atom.cls, atom.name;
    if seqname !in job.sequences {
      return None;
    }
    var subseq := PySlice(job.sequences[seqname], atom.start, atom.end);
    if atom.strand == "-" {
      subseq := ReverseComplement(subseq);
    }
    var colour: Option<string> := None;
    if atchrom[cls] {
      if atplas[cls] {
        colour := Some("#aaaa00");
      } else {
        colour := Some("#00aa00");
      }
    } else if atplas[cls] {
      colour := Some("#aa0000");
    }
    segment := Some(Segment(cls, subseq, colour));
  }

  /** Atom `k` adds its class to `used_classes` when it is included. */
  lemma UsedBeforeStep(job: Job, k: int)
    requires 0 <= k < |job.atoms|
    ensures UsedBefore(job, k + 1) ==
      UsedBefore(job, k) + if Included(job, job.atoms[k]) then {job.atoms[k].cls} else {}
  {
    var a := job.atoms[k];
    if Included(job, a) {
      assert UsedBefore(job, k + 1) == UsedBefore(job, k) + {a.cls};
    } else {
      assert UsedBefore(job, k + 1) == UsedBefore(job, k);
    }
  }

  /** How `used_classes` and the last included atoms move on by one atom. */
  lemma WrittenStep(job: Job, k: int, used: set<string>, last: map<string, Atom>)
    requires 0 <= k < |job.atoms| && Written(job, k, used, last)
    ensures var a := job.atoms[k];
      if Included(job, a) then Written(job, k + 1, used + {a.cls}, last[a.name := a])
      else Written(job, k + 1, used, last)
  {
    var a := job.atoms[k];
    if Included(job, a) {
      assert UsedBefore(job, k + 1) == UsedBefore(job, k) + {a.cls};
    } else {
      assert UsedBefore(job, k + 1) == UsedBefore(job, k);
    }
  }

  /** The lines of one atom more. */
  lemma OutputStep(job: Job, k: int, out: seq<GfaLine>)
    requires 0 <= k < |job.atoms| && Output(job, k) == Some(out)
    ensures Output(job, k + 1) == match Emit(job, k) case None => None case Some(e) => Some(out + e)
  {
  }

  /** Once a line cannot be written, nothing more is. */
  lemma {:induction false} OutputDies(job: Job, k: int, m: int)
    requires 0 <= k <= m <= |job.atoms| && Output(job, k).None?
    ensures Output(job, m).None?
    decreases m - k
  {
    if k < m {
      OutputDies(job, k + 1, m);
    }
  }

  // ---------------------------------------------------------------------------
  // what the output holds

  /** Atom `j` is the first included atom of its class, and its sequence is not in the FASTA file. */
  predicate Missing(job: Job, j: int) {
    0 <= j < |job.atoms| && Included(job, job.atoms[j])
    && job.atoms[j].cls !in UsedBefore(job, j) && job.atoms[j].name !in job.sequences
  }

  /** The script dies exactly when the first included atom of some class names an unknown sequence. */
  lemma {:induction false} OutputAborts(job: Job, k: int)
    requires 0 <= k <= |job.atoms|
    ensures Output(job, k).None? <==> exists j :: 0 <= j < k && Missing(job, j)
  {
    if k > 0 {
      OutputAborts(job, k - 1);
      if Missing(job, k - 1) {
        assert Emit(job, k - 1).None?;
      } else if Output(job, k).None? {
        assert Output(job, k - 1).None? || Emit(job, k - 1).None?;
      }
    }
  }

  /** How many `S` lines of `o` are for class `c`. */
  function SegCount(o: seq<GfaLine>, c: string): nat {
    if o == [] then 0
    else SegCount(o[..|o| - 1], c) + (if o[|o| - 1].Segment? && o[|o| - 1].name == c then 1 else 0)
  }

  lemma {:induction false} SegCountAppend(o: seq<GfaLine>, e: seq<GfaLine>, c: string)
    ensures SegCount(o + e, c) == SegCount(o, c) + SegCount(e, c)
    decreases |e|
  {
    if e == [] {
      assert o + e == o;
    } else {
      SegCountAppend(o, e[..|e| - 1], c);
      assert (o + e)[..|o + e| - 1] == o + e[..|e| - 1];
    }
  }

  /** Every class used so far has exactly one `S` line, and no other class has one. */
  lemma {:induction false} SegmentsOnce(job: Job, k: int, c: string)
    requires 0 <= k <= |job.atoms| && Output(job, k).Some?
    ensures SegCount(Output(job, k).value, c) == if c in UsedBefore(job, k) then 1 else 0
  {
    if k > 0 {
      var o, e := Output(job, k - 1).value, Emit(job, k - 1).value;
      OutputStep(job, k - 1, o);
      SegmentsOnce(job, k - 1, c);
      SegCountAppend(o, e, c);
      EmitSegCount(job, k - 1, c);
      UsedBeforeStep(job, k - 1);
    }
  }

  /** Atom `k` writes an `S` line for `c` only when it is the first included atom of class `c`. */
  lemma EmitSegCount(job: Job, k: int, c: string)
    requires 0 <= k < |job.atoms| && Emit(job, k).Some?
    ensures SegCount(Emit(job, k).value, c) ==
      if Included(job, job.atoms[k]) && job.atoms[k].cls == c && c !in UsedBefore(job, k) then 1 else 0
  {
    var a := job.atoms[k];
    var b := Bridge(job, k);
    assert SegCount(b, c) == 0 by {
      if b != [] {
        assert b[..0] == [];
      }
    }
    if Included(job, a) && a.cls !in UsedBefore(job, k) {
      var sg := SegmentOf(job, a).value;
      SegCountAppend([sg], b, c);
      assert [sg][..0] == [];
    }
  }

  /** The classes that get an `S` line: those that occur, are not excluded and are within the cutoff. */
  lemma UsedClasses(job: Job, c: string)
    ensures c in UsedBefore(job, |job.atoms|) <==>
      c in Classes(job.atoms) && CountOf(job.atoms, c) <= job.cutoff && c !in job.excluded
  {
    if c in Classes(job.atoms) && CountOf(job.atoms, c) <= job.cutoff && c !in job.excluded {
      var j :| 0 <= j < |job.atoms| && job.atoms[j].cls == c;
      assert Included(job, job.atoms[j]);
    }
  }

  /** Each `S` line is the segment of the first included atom of its class. */
  lemma {:induction false} SegmentSource(job: Job, k: int, s: GfaLine) returns (j: int)
    requires 0 <= k <= |job.atoms| && Output(job, k).Some? && s in Output(job, k).value && s.Segment?
    ensures 0 <= j < k && Included(job, job.atoms[j]) && job.atoms[j].cls !in UsedBefore(job, j)
    ensures SegmentOf(job, job.atoms[j]) == Some(s)
  {
    var o, e := Output(job, k - 1).value, Emit(job, k - 1).value;
    OutputStep(job, k - 1, o);
    assert Output(job, k).value == o + e;
    if s in o {
      j := SegmentSource(job, k - 1, s);
    } else {
      assert s in e;
      j := k - 1;
      EmitSegment(job, j, s);
    }
  }

  /** The only `S` line an atom writes is the segment of the first included atom of its class. */
  lemma EmitSegment(job: Job, k: int, s: GfaLine)
    requires 0 <= k < |job.atoms| && Emit(job, k).Some? && s in Emit(job, k).value && s.Segment?
    ensures Included(job, job.atoms[k]) && job.atoms[k].cls !in UsedBefore(job, k)
    ensures SegmentOf(job, job.atoms[k]) == Some(s)
  {
    assert s !in Bridge(job, k);
  }

  /**
   * Atoms `i` and `j` are consecutive included atoms of one sequence: both included, `i` first,
   * and every atom of that sequence between them left out.
   */
  predicate Bridged(job: Job, i: int, j: int) {
    0 <= i < j < |job.atoms| && Included(job, job.atoms[i]) && Included(job, job.atoms[j])
    && job.atoms[i].name == job.atoms[j].name
    && forall m :: i < m < j ==> !(Included(job, job.atoms[m]) && job.atoms[m].name == job.atoms[j].name)
  }

  /** What `last_included_per_seq` holds: the last included atom of the sequence so far. */
  lemma {:induction false} LastIncludedMeans(job: Job, k: int, n: string)
    requires 0 <= k <= |job.atoms|
    ensures var i := LastIncluded(job, k, n);
      (i >= 0 ==> Included(job, job.atoms[i]) && job.atoms[i].name == n)
      && forall m :: i < m < k ==> !(Included(job, job.atoms[m]) && job.atoms[m].name == n)
  {
    if k > 0 {
      LastIncludedMeans(job, k - 1, n);
    }
  }

  lemma {:induction false} LastIncludedIs(job: Job, i: int, k: int)
    requires 0 <= i < k <= |job.atoms| && Included(job, job.atoms[i])
    requires forall m :: i < m < k ==> !(Included(job, job.atoms[m]) && job.atoms[m].name == job.atoms[i].name)
    ensures LastIncluded(job, k, job.atoms[i].name) == i
  {
    if k - 1 > i {
      LastIncludedIs(job, i, k - 1);
    }
  }

  /** Each `L` line joins two consecutive included atoms of one sequence. */
  lemma {:induction false} LinkSource(job: Job, k: int, l: GfaLine) returns (i: int, j: int)
    requires 0 <= k <= |job.atoms| && Output(job, k).Some? && l in Output(job, k).value && l.Link?
    ensures j < k && Bridged(job, i, j) && l == LinkOf(job.atoms[i], job.atoms[j])
  {
    var o, e := Output(job, k - 1).value, Emit(job, k - 1).value;
    OutputStep(job, k - 1, o);
    if l in o {
      i, j := LinkSource(job, k - 1, l);
    } else {
      j := k - 1;
      i := LastIncluded(job, j, job.atoms[j].name);
      assert l in Bridge(job, j);
      LastIncludedMeans(job, j, job.atoms[j].name);
    }
  }

  /** Two consecutive included atoms of one sequence are always joined by an `L` line. */
  lemma {:induction false} LinkWritten(job: Job, k: int, i: int, j: int)
    requires 0 <= k <= |job.atoms| && Output(job, k).Some? && Bridged(job, i, j) && j < k
    ensures LinkOf(job.atoms[i], job.atoms[j]) in Output(job, k).value
  {
    var o, e := Output(job, k - 1).value, Emit(job, k - 1).value;
    OutputStep(job, k - 1, o);
    if j < k - 1 {
      LinkWritten(job, k - 1, i, j);
    } else {
      LastIncludedIs(job, i, j);
      assert LinkOf(job.atoms[i], job.atoms[j]) in Bridge(job, j);
    }
  }

  // ---------------------------------------------------------------------------
  // main

  /** The default of `--cutoff`. */
  const DefaultCutoff := 10000000

  /** `atomstats` as a function of the atoms. */
  function CountMap(atoms: seq<Atom>): (m: map<string, nat>)
    ensures m.Keys == Classes(atoms)
  {
    map c | c in Classes(atoms) :: CountOf(atoms, c)
  }

  /** The counts the statistics loop gathers are `CountMap`. */
  lemma CountsMap(atoms: seq<Atom>, stats: map<string, nat>)
    requires Counts(atoms, stats)
    ensures stats == CountMap(atoms)
  {
  }

  /**
   * `main`: reads the exclusion list when there is one, the FASTA file and the atoms file, and
   * gives the histogram printed to stderr and the lines of the GFA file. The histogram is None
   * when a line of the atoms file does not parse; the GFA is None then too, and when a segment's
   * sequence is missing from the FASTA file.
   */
  method Run(atomLines: seq<string>, fastaLines: seq<string>, cutoff: int, exclude: Option<seq<string>>)
    returns (hist: Option<seq<nat>>, gfa: Option<seq<string>>, ghost job: Job)
    ensures job.excluded == (if exclude.Some? then Collect(RemoveSegments.StrippedName, exclude.value) else {})
    ensures job.cutoff == cutoff && FastaRead(fastaLines, job.sequences, job.fachrom, job.faplas)
    ensures hist.Some? <==> Readable(atomLines)
    ensures hist.None? ==> gfa.None?
    ensures hist.Some? ==> (job.atoms == FilterMap(AtomOfLine, atomLines)
      && HistOf(CountMap(job.atoms), Classes(job.atoms), hist.value)
      && gfa == (match Output(job, |job.atoms|) case None => None case Some(o) => Some(RenderAll(o))))
  {
    var excluded: set<string> := {};
    if exclude.Some? {
      excluded := RemoveSegments.LoadSegmentsToRemove(exclude.value);
    }
    var sequences, fachrom, faplas := ReadFasta(fastaLines);
    var segments := ReadAtoms(atomLines);
    if segments.None? {
      job := Job([], sequences, fachrom, faplas, cutoff, excluded);
      return None, None, job;
    }
    var atoms := segments.value;
    var atomstats, atchrom, atplas := ClassStats(atoms, fachrom, faplas);
    var h := Histogram(atomstats);
    CountsMap(atoms, atomstats);
    var inputs := Job(atoms, sequences, fachrom, faplas, cutoff, excluded);
    job := inputs;
    var out := WriteGfa(inputs, atomstats, atchrom, atplas);
    hist := Some(h);
    if out.Some? {
      gfa := Some(RenderAll(out.value));
    } else {
      gfa := None;
    }
  }
}
