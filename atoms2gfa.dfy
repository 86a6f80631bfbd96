/**
 * atoms2gfa.py: turn the atoms Geese reports on a set of FASTA sequences into a GFA graph. Each
 * atom class that is not excluded (by a list, or by occurring more often than a cutoff) becomes
 * one `S` segment carrying the sequence of its first included atom, coloured by whether the class
 * occurs on chromosomes, plasmids or both; consecutive included atoms of one sequence are
 * linked by `L` lines, bridging over the atoms left out between them.
 */
module AtomsToGfa {
  import opened Options
  import opened Text
  import opened Seqs

  /** One line of the atoms file: `name atom_nr class strand start end`. */
  datatype Atom = Atom(name: string, cls: string, strand: string, start: int, end: int)

  // ---------------------------------------------------------------------------
  // reverse_complement

  /** `str.upper()` on one ASCII character; other characters are left as they are. */
  function Upper(c: char): char {
    if 'a' <= c <= 'z' then (c as int - 32) as char else c
  }

  /** `complement.get(base, 'N')` on the upper-cased base. */
  function Complement(c: char): char {
    var u := Upper(c);
    if u == 'A' then 'T' else if u == 'C' then 'G' else if u == 'G' then 'C' else if u == 'T' then 'A' else 'N'
  }

  predicate IsBase(c: char) {
    c == 'A' || c == 'C' || c == 'G' || c == 'T' || c == 'N'
  }

  /** `reverse_complement`: the upper-cased sequence reversed, every base complemented. */
  function ReverseComplement(s: string): (r: string)
    ensures |r| == |s|
  {
    seq(|s|, i requires 0 <= i < |s| => Complement(s[|s| - 1 - i]))
  }

  /** Only `A`, `C`, `G`, `T` and `N` come out, and a character that is no base after upper-casing becomes `N`. */
  lemma ReverseComplementBases(s: string)
    ensures forall i :: 0 <= i < |s| ==> IsBase(ReverseComplement(s)[i])
    ensures forall i :: 0 <= i < |s| && !IsBase(Upper(s[i])) ==> ReverseComplement(s)[|s| - 1 - i] == 'N'
  {
    var r := ReverseComplement(s);
    forall i | 0 <= i < |s|
      ensures IsBase(r[i])
    {
      ComplementBase(s[|s| - 1 - i]);
    }
    forall i | 0 <= i < |s| && !IsBase(Upper(s[i]))
      ensures r[|s| - 1 - i] == 'N'
    {
      ComplementBase(s[i]);
    }
  }

  lemma ComplementBase(c: char)
    ensures IsBase(Complement(c))
    ensures !IsBase(Upper(c)) ==> Complement(c) == 'N'
    ensures IsBase(c) ==> Complement(Complement(c)) == c
  {
  }

  /** Applied twice to a sequence of upper-case bases it gives the sequence back. */
  lemma ReverseComplementInvolution(s: string)
    requires forall i :: 0 <= i < |s| ==> IsBase(s[i])
    ensures ReverseComplement(ReverseComplement(s)) == s
  {
    var r := ReverseComplement(s);
    forall i | 0 <= i < |s|
      ensures ReverseComplement(r)[i] == s[i]
    {
      assert r[|s| - 1 - i] == Complement(s[i]);
      ComplementBase(s[i]);
    }
  }

  /** Upper- and lower-case input give the same result. */
  lemma ReverseComplementCase(s: string, t: string)
    requires |s| == |t| && forall i :: 0 <= i < |s| ==> Upper(s[i]) == Upper(t[i])
    ensures ReverseComplement(s) == ReverseComplement(t)
  {
    forall i | 0 <= i < |s|
      ensures ReverseComplement(s)[i] == ReverseComplement(t)[i]
    {
      var k := |s| - 1 - i;
      assert Upper(s[k]) == Upper(t[k]);
      assert Complement(s[k]) == Complement(t[k]);
    }
  }

  // ---------------------------------------------------------------------------
  // s[a:b]

  /** Where Python puts a slice bound `i` of a sequence of length `n`. */
  function SliceBound(i: int, n: nat): (k: nat)
    ensures k <= n
  {
    if i < 0 then (if i + n < 0 then 0 else i + n) else if i > n then n else i
  }

  /** Python's `s[a:b]`: negative bounds count from the end, bounds past the ends are clamped. */
  function PySlice(s: string, a: int, b: int): (r: string)
    ensures |r| <= |s|
    ensures 0 <= a <= b <= |s| ==> r == s[a..b]
    ensures 0 <= b <= a ==> r == []
    ensures 0 <= a <= |s| + b && -|s| <= b < 0 ==> r == s[a..|s| + b]
  {
    var lo, hi := SliceBound(a, |s|), SliceBound(b, |s|);
    if lo < hi then s[lo..hi] else []
  }

  // ---------------------------------------------------------------------------
  // parse_atom_line, read_atoms

  /**
   * `parse_atom_line`: whitespace fields 0, 2, 3, 4 and 5, the last two read by `int`. None
   * stands for the IndexError or ValueError the script dies of on a malformed line.
   */
  function ParseAtomLine(line: string): Option<Atom> {
    var parts := SplitWs(line);
    if |parts| < 6 then None
    else
      match (ParseInt(parts[4]), ParseInt(parts[5]))
      case (Some(start), Some(end)) => Some(Atom(parts[0], parts[2], parts[3], start, end))
      case _ => None
  }

  predicate Word(s: string) {
    s != [] && NoSpace(s)
  }

  /** A line written from an atom's fields reads back as that atom. */
  lemma ParseAtomLineOf(a: Atom, nr: string, sep: char)
    requires Word(a.name) && Word(nr) && Word(a.cls) && Word(a.strand) && IsSpace(sep)
    ensures ParseAtomLine(Join([a.name, nr, a.cls, a.strand, ShowInt(a.start), ShowInt(a.end)], sep)) == Some(a)
  {
    var fields := [a.name, nr, a.cls, a.strand, ShowInt(a.start), ShowInt(a.end)];
    ShowIntNoSpace(a.start);
    ShowIntNoSpace(a.end);
    SplitWsJoin(fields, sep);
    ParseShowInt(a.start);
    ParseShowInt(a.end);
  }

  /** What `read_atoms` makes of one line: nothing for a `#` comment, else the parsed atom. */
  function AtomOfLine(line: string): Option<Atom> {
    if StartsWith(line, "#") then None else ParseAtomLine(line)
  }

  /** Every line that is not a comment parses. */
  predicate Readable(lines: seq<string>) {
    forall i :: 0 <= i < |lines| && !StartsWith(lines[i], "#") ==> ParseAtomLine(lines[i]).Some?
  }

  /** `read_atoms`: the atoms of the non-comment lines in order, or None when one cannot be parsed. */
  method ReadAtoms(lines: seq<string>) returns (r: Option<seq<Atom>>)
    ensures r.Some? <==> Readable(lines)
    ensures r.Some? ==> r.value == FilterMap(AtomOfLine, lines)
  {
    var segments := [];
    for i := 0 to |lines|
      invariant Readable(lines[..i])
      invariant segments == FilterMap(AtomOfLine, lines[..i])
    {
      ReadStep(lines, i);
      if StartsWith(lines[i], "#") {
        continue;
      }
      var atom := ParseAtomLine(lines[i]);
      if atom.None? {
        return None;
      }
      segments := segments + [atom.value];
    }
    assert lines[..|lines|] == lines;
    return Some(segments);
  }

  /** What reading line `i` adds. */
  lemma ReadStep(lines: seq<string>, i: int)
    requires 0 <= i < |lines|
    ensures FilterMap(AtomOfLine, lines[..i + 1]) ==
      FilterMap(AtomOfLine, lines[..i]) + (match AtomOfLine(lines[i]) case Some(a) => [a] case None => [])
    ensures Readable(lines[..i + 1]) <==> Readable(lines[..i]) && (StartsWith(lines[i], "#") || ParseAtomLine(lines[i]).Some?)
  {
    assert lines[..i + 1] == lines[..i] + [lines[i]];
    FilterMapSnoc(AtomOfLine, lines[..i], lines[i]);
    if Readable(lines[..i + 1]) {
      assert lines[..i + 1][i] == lines[i];
      forall j | 0 <= j < i && !StartsWith(lines[..i][j], "#")
        ensures ParseAtomLine(lines[..i][j]).Some?
      {
        assert lines[..i][j] == lines[..i + 1][j];
      }
    }
  }

  function NotComment(): string -> bool {
    (line: string) => !StartsWith(line, "#")
  }

  /** A readable file gives one atom per non-comment line, in order. */
  lemma {:induction false} ReadAtomsCount(lines: seq<string>)
    requires Readable(lines)
    ensures |FilterMap(AtomOfLine, lines)| == |Filter(NotComment(), lines)|
    ensures forall k :: 0 <= k < |Filter(NotComment(), lines)| ==>
      Some(FilterMap(AtomOfLine, lines)[k]) == ParseAtomLine(Filter(NotComment(), lines)[k])
  {
    if lines != [] {
      var init, last := lines[..|lines| - 1], lines[|lines| - 1];
      assert Readable(init) by {
        forall i | 0 <= i < |init| && !StartsWith(init[i], "#")
          ensures ParseAtomLine(init[i]).Some?
        {
          assert init[i] == lines[i];
        }
      }
      ReadAtomsCount(init);
      assert lines == init + [last];
      FilterSnoc(NotComment(), init, last);
    }
  }

  // ---------------------------------------------------------------------------
  // read_fasta

  predicate IsHeader(line: string) {
    StartsWith(line, ">")
  }

  /** `line.split()[0][1:]` on a header line: its first word without the `>`. */
  function HeaderName(line: string): string {
    var w := TakeWord(line);
    if w == [] then [] else w[1..]
  }

  /** The name comes from the first field of `split()`. */
  lemma HeaderNameField(line: string)
    requires IsHeader(line)
    ensures SplitWs(line) != [] && HeaderName(line) == SplitWs(line)[0][1..]
  {
    assert line[0] == '>';
  }

  /** The header line of `n` among the first `k` lines that comes last, or -1. */
  function LastHeader(lines: seq<string>, k: int, n: string): (h: int)
    requires 0 <= k <= |lines|
    ensures -1 <= h < k
    ensures h >= 0 ==> IsHeader(lines[h]) && HeaderName(lines[h]) == n
  {
    if k == 0 then -1
    else if IsHeader(lines[k - 1]) && HeaderName(lines[k - 1]) == n then k - 1
    else LastHeader(lines, k - 1, n)
  }

  /** The first header line at or after `j`, or `|lines|`. */
  function NextHeader(lines: seq<string>, j: int): (h: int)
    requires 0 <= j <= |lines|
    ensures j <= h <= |lines|
    decreases |lines| - j
  {
    if j == |lines| then j else if IsHeader(lines[j]) then j else NextHeader(lines, j + 1)
  }

  /** Lines `a` to `b`, each stripped. */
  function Body(lines: seq<string>, a: int, b: int): seq<string>
    requires 0 <= a <= b <= |lines|
  {
    seq(b - a, k requires 0 <= k < b - a => Strip(lines[a + k]))
  }

  /** The sequence the header at `h` introduces: its stripped lines up to the next header, joined. */
  function Block(lines: seq<string>, h: int): string
    requires 0 <= h < |lines|
  {
    Concat(Body(lines, h + 1, NextHeader(lines, h + 1)))
  }

  /** `'chromosome=true' in line` */
  predicate ChromHeader(line: string) {
    Contains(line, "chromosome=true")
  }

  /** `'plasmid=true' in line` */
  predicate PlasHeader(line: string) {
    Contains(line, "plasmid=true")
  }

  /** The blocks stored for the names with a header among the first `k` lines, from the last such header. */
  ghost predicate Stored(lines: seq<string>, k: int, sequences: map<string, string>)
    requires 0 <= k <= |lines|
  {
    (forall n :: n in sequences <==> LastHeader(lines, k, n) >= 0)
    && (forall n :: n in sequences ==> sequences[n] == Block(lines, LastHeader(lines, k, n)))
  }

  /** The flags of the names with a header among the first `k` lines, from the last such header. */
  ghost predicate Flags(lines: seq<string>, k: int, ischrom: map<string, bool>, isplas: map<string, bool>)
    requires 0 <= k <= |lines|
  {
    ischrom.Keys == isplas.Keys
    && (forall n :: n in ischrom <==> LastHeader(lines, k, n) >= 0)
    && (forall n :: n in ischrom ==> ischrom[n] == ChromHeader(lines[LastHeader(lines, k, n)]))
    && (forall n :: n in isplas ==> isplas[n] == PlasHeader(lines[LastHeader(lines, k, n)]))
  }

  /**
   * What `read_fasta` leaves behind: a sequence, a chromosome flag and a plasmid flag for every
   * name a header gives, all three taken from the last header of that name; text before the first
   * header belongs to no sequence.
   */
  ghost predicate FastaRead(lines: seq<string>, sequences: map<string, string>, ischrom: map<string, bool>, isplas: map<string, bool>) {
    Stored(lines, |lines|, sequences) && Flags(lines, |lines|, ischrom, isplas) && ischrom.Keys == sequences.Keys
  }

  /** Lines without a header of `n` do not move its last header. */
  lemma {:induction false} LastHeaderSkip(lines: seq<string>, a: int, k: int, n: string)
    requires 0 <= a <= k <= |lines|
    requires forall j :: a <= j < k ==> !IsHeader(lines[j]) || HeaderName(lines[j]) != n
    ensures LastHeader(lines, k, n) == LastHeader(lines, a, n)
    decreases k
  {
    if k > a {
      LastHeaderSkip(lines, a, k - 1, n);
    }
  }

  /** Over lines without a header, the next header is where they end. */
  lemma {:induction false} NextHeaderSkip(lines: seq<string>, a: int, k: int)
    requires 0 <= a <= k <= |lines|
    requires forall j :: a <= j < k ==> !IsHeader(lines[j])
    requires k == |lines| || IsHeader(lines[k])
    ensures NextHeader(lines, a) == k
    decreases k - a
  {
    if a < k {
      NextHeaderSkip(lines, a + 1, k);
    }
  }

  function Start(cur: int): nat {
    if cur < 0 then 0 else cur
  }

  /** `cur` is the last header among the first `i` lines, or -1 when there is none. */
  ghost predicate Position(lines: seq<string>, i: int, cur: int) {
    0 <= i <= |lines| && -1 <= cur < i && (cur >= 0 ==> IsHeader(lines[cur]))
    && (forall j :: cur < j < i ==> !IsHeader(lines[j]))
  }

  /** The state of `read_fasta` after `i` lines, with `cur` the line of the open header or -1. */
  ghost predicate FastaInv(lines: seq<string>, i: int, cur: int, currentSeqLines: seq<string>, currentName: Option<string>,
                           sequences: map<string, string>, ischrom: map<string, bool>, isplas: map<string, bool>) {
    Position(lines, i, cur)
    && currentSeqLines == Body(lines, cur + 1, i)
    && Stored(lines, Start(cur), sequences)
    && Flags(lines, i, ischrom, isplas)
    && currentName == if cur >= 0 then Some(HeaderName(lines[cur])) else None
  }

  /** `read_fasta`: every sequence and its two flags, from the last header of each name. */
  method ReadFasta(lines: seq<string>) returns (sequences: map<string, string>, ischrom: map<string, bool>, isplas: map<string, bool>)
    ensures FastaRead(lines, sequences, ischrom, isplas)
  {
    sequences, ischrom, isplas := map[], map[], map[];
    var currentSeqLines: seq<string> := [];
    var currentName: Option<string> := None;
    ghost var cur := -1;
    for i := 0 to |lines|
      invariant FastaInv(lines, i, cur, currentSeqLines, currentName, sequences, ischrom, isplas)
    {
      cur, currentSeqLines, currentName, sequences, ischrom, isplas :=
        FastaLine(lines, i, cur, currentSeqLines, currentName, sequences, ischrom, isplas);
    }
    assert Position(lines, |lines|, cur) && currentSeqLines == Body(lines, cur + 1, |lines|);
    StoredStep(lines, |lines|, cur, currentSeqLines, sequences);
    if currentName.Some? {
      sequences := sequences[currentName.value := Concat(currentSeqLines)];
    }
    FastaKeys(lines, sequences, ischrom, isplas);
  }

  /** The body of `read_fasta`'s loop for line `i`. */
  method FastaLine(lines: seq<string>, i: int, ghost cur0: int, currentSeqLines0: seq<string>, currentName0: Option<string>,
                   sequences0: map<string, string>, ischrom0: map<string, bool>, isplas0: map<string, bool>)
    returns (ghost cur: int, currentSeqLines: seq<string>, currentName: Option<string>,
             sequences: map<string, string>, ischrom: map<string, bool>, isplas: map<string, bool>)
    requires 0 <= i < |lines|
    requires FastaInv(lines, i, cur0, currentSeqLines0, currentName0, sequences0, ischrom0, isplas0)
    ensures FastaInv(lines, i + 1, cur, currentSeqLines, currentName, sequences, ischrom, isplas)
  {
    cur, currentSeqLines, currentName, sequences, ischrom, isplas := cur0, currentSeqLines0, currentName0, sequences0, ischrom0, isplas0;
    var line := lines[i];
    if StartsWith(line, ">") {
      StoredStep(lines, i, cur, currentSeqLines, sequences);
      FlagsStep(lines, i, ischrom, isplas);
      if currentName.Some? {
        sequences := sequences[currentName.value := Concat(currentSeqLines)];
      }
      currentSeqLines := [];
      var name;
      name, ischrom, isplas := ReadHeader(line, ischrom, isplas);
      currentName := Some(name);
      cur := i;
      assert Body(lines, i + 1, i + 1) == [];
    } else {
      BodySnoc(lines, cur + 1, i);
      FlagsSkip(lines, i, ischrom, isplas);
      currentSeqLines := currentSeqLines + [Strip(line)];
    }
  }

  /** The header branch of `read_fasta`: the name, and both flags set from the line. */
  method ReadHeader(line: string, ischrom0: map<string, bool>, isplas0: map<string, bool>)
    returns (name: string, ischrom: map<string, bool>, isplas: map<string, bool>)
    ensures name == HeaderName(line)
    ensures ischrom == ischrom0[name := ChromHeader(line)] && isplas == isplas0[name := PlasHeader(line)]
  {
    name := HeaderName(line);
    if Contains(line, "chromosome=true") {
      ischrom := ischrom0[name := true];
    } else {
      ischrom := ischrom0[name := false];
    }
    if Contains(line, "plasmid=true") {
      isplas := isplas0[name := true];
    } else {
      isplas := isplas0[name := false];
    }
  }

  lemma BodySnoc(lines: seq<string>, a: int, i: int)
    requires 0 <= a <= i < |lines|
    ensures Body(lines, a, i + 1) == Body(lines, a, i) + [Strip(lines[i])]
  {
  }

  /** A header line, or the end of the file, closes the current block; it is the last one of its name so far. */
  lemma StoredStep(lines: seq<string>, i: int, cur: int, curLines: seq<string>, sequences: map<string, string>)
    requires Position(lines, i, cur) && (i == |lines| || IsHeader(lines[i]))
    requires curLines == Body(lines, cur + 1, i) && Stored(lines, Start(cur), sequences)
    ensures Stored(lines, i, if cur >= 0 then sequences[HeaderName(lines[cur]) := Concat(curLines)] else sequences)
  {
    var seqs := if cur >= 0 then sequences[HeaderName(lines[cur]) := Concat(curLines)] else sequences;
    forall n
      ensures n in seqs <==> LastHeader(lines, i, n) >= 0
      ensures n in seqs ==> seqs[n] == Block(lines, LastHeader(lines, i, n))
    {
      if cur >= 0 && n == HeaderName(lines[cur]) {
        StoredClosed(lines, i, cur, curLines);
      } else {
        LastHeaderSkip(lines, Start(cur), i, n);
      }
    }
  }

  /** The block just closed is the one of the last header of its name. */
  lemma StoredClosed(lines: seq<string>, i: int, cur: int, curLines: seq<string>)
    requires Position(lines, i, cur) && (i == |lines| || IsHeader(lines[i])) && cur >= 0
    requires curLines == Body(lines, cur + 1, i)
    ensures LastHeader(lines, i, HeaderName(lines[cur])) == cur
    ensures Block(lines, cur) == Concat(curLines)
  {
    NextHeaderSkip(lines, cur + 1, i);
    LastHeaderSkip(lines, cur + 1, i, HeaderName(lines[cur]));
  }

  /** A header sets the flags of its name. */
  lemma FlagsStep(lines: seq<string>, i: int, ischrom: map<string, bool>, isplas: map<string, bool>)
    requires 0 <= i < |lines| && IsHeader(lines[i]) && Flags(lines, i, ischrom, isplas)
    ensures var name := HeaderName(lines[i]);
      Flags(lines, i + 1, ischrom[name := ChromHeader(lines[i])], isplas[name := PlasHeader(lines[i])])
  {
  }

  /** A body line leaves the flags alone. */
  lemma FlagsSkip(lines: seq<string>, i: int, ischrom: map<string, bool>, isplas: map<string, bool>)
    requires 0 <= i < |lines| && !IsHeader(lines[i]) && Flags(lines, i, ischrom, isplas)
    ensures Flags(lines, i + 1, ischrom, isplas)
  {
  }

  /** The three maps end up with the same names. */
  lemma FastaKeys(lines: seq<string>, sequences: map<string, string>, ischrom: map<string, bool>, isplas: map<string, bool>)
    requires Stored(lines, |lines|, sequences) && Flags(lines, |lines|, ischrom, isplas)
    ensures FastaRead(lines, sequences, ischrom, isplas)
  {
    assert forall n :: n in ischrom <==> n in sequences;
  }

  // ---------------------------------------------------------------------------
  // main, steps 4 and 5: per-class statistics and the histogram

  /** How many atoms have class `c`. */
  function CountOf(atoms: seq<Atom>, c: string): nat {
    if atoms == [] then 0
    else CountOf(atoms[..|atoms| - 1], c) + (if atoms[|atoms| - 1].cls == c then 1 else 0)
  }

  function Classes(atoms: seq<Atom>): set<string> {
    set i | 0 <= i < |atoms| :: atoms[i].cls
  }

  /** `m.get(n, False)` */
  predicate Flag(m: map<string, bool>, n: string) {
    n in m && m[n]
  }

  /** Some atom of class `c` lies on a sequence that `m` flags. */
  predicate OnFlagged(atoms: seq<Atom>, m: map<string, bool>, c: string) {
    exists i :: 0 <= i < |atoms| && atoms[i].cls == c && Flag(m, atoms[i].name)
  }

  /** Every class of `atoms` has its number of atoms in `stats`, and no other key is there. */
  ghost predicate Counts(atoms: seq<Atom>, stats: map<string, nat>) {
    stats.Keys == Classes(atoms) && forall c :: c in stats ==> stats[c] == CountOf(atoms, c)
  }

  /** Every class of `atoms` is a key of `at`, true exactly when one of its atoms lies on a sequence `m` flags. */
  ghost predicate ClassFlags(atoms: seq<Atom>, m: map<string, bool>, at: map<string, bool>) {
    at.Keys == Classes(atoms) && forall c :: c in at ==> (at[c] <==> OnFlagged(atoms, m, c))
  }

  /** What the statistics loop has gathered after the atoms `atoms`. */
  ghost predicate StatsOf(atoms: seq<Atom>, fachrom: map<string, bool>, faplas: map<string, bool>,
                          stats: map<string, nat>, atchrom: map<string, bool>, atplas: map<string, bool>) {
    Counts(atoms, stats) && ClassFlags(atoms, fachrom, atchrom) && ClassFlags(atoms, faplas, atplas)
  }

  /**
   * Step 4 of `main`: the number of atoms of every class, and whether a class has an atom on a
   * chromosome and on a plasmid sequence.
   */
  method ClassStats(atoms: seq<Atom>, fachrom: map<string, bool>, faplas: map<string, bool>)
    returns (atomstats: map<string, nat>, atchrom: map<string, bool>, atplas: map<string, bool>)
    ensures StatsOf(atoms, fachrom, faplas, atomstats, atchrom, atplas)
  {
    atomstats, atchrom, atplas := map[], map[], map[];
    for i := 0 to |atoms|
      invariant StatsOf(atoms[..i], fachrom, faplas, atomstats, atchrom, atplas)
    {
      assert atoms[..i + 1] == atoms[..i] + [atoms[i]];
      StatsStep(atoms[..i], atoms[i], fachrom, faplas, atomstats, atchrom, atplas);
      atomstats, atchrom, atplas := CountAtom(atoms[i], fachrom, faplas, atomstats, atchrom, atplas);
    }
    assert atoms[..|atoms|] == atoms;
  }

  /** The body of the statistics loop for one atom. */
  method CountAtom(seg: Atom, fachrom: map<string, bool>, faplas: map<string, bool>,
                   atomstats0: map<string, nat>, atchrom0: map<string, bool>, atplas0: map<string, bool>)
    returns (atomstats: map<string, nat>, atchrom: map<string, bool>, atplas: map<string, bool>)
    ensures atomstats == atomstats0[seg.cls := (if seg.cls in atomstats0 then atomstats0[seg.cls] else 0) + 1]
    ensures atchrom == atchrom0[seg.cls := (seg.cls in atchrom0 && atchrom0[seg.cls]) || Flag(fachrom, seg.name)]
    ensures atplas == atplas0[seg.cls := (seg.cls in atplas0 && atplas0[seg.cls]) || Flag(faplas, seg.name)]
  {
    var cls := seg.cls;
    atomstats := atomstats0[cls := (if cls in atomstats0 then atomstats0[cls] else 0) + 1];
    atchrom, atplas := atchrom0, atplas0;
    if cls !in atchrom {
      atchrom := atchrom[cls := false];
    }
    if cls !in atplas {
      atplas := atplas[cls := false];
    }
    if Flag(fachrom, seg.name) {
      atchrom := atchrom[cls := true];
    }
    if Flag(faplas, seg.name) {
      atplas := atplas[cls := true];
    }
  }

  /** One atom more: its class counted once more, and flagged if its sequence is. */
  lemma StatsStep(atoms: seq<Atom>, a: Atom, fachrom: map<string, bool>, faplas: map<string, bool>,
                  stats: map<string, nat>, atchrom: map<string, bool>, atplas: map<string, bool>)
    requires StatsOf(atoms, fachrom, faplas, stats, atchrom, atplas)
    ensures StatsOf(atoms + [a], fachrom, faplas,
        stats[a.cls := (if a.cls in stats then stats[a.cls] else 0) + 1],
        atchrom[a.cls := (a.cls in atchrom && atchrom[a.cls]) || Flag(fachrom, a.name)],
        atplas[a.cls := (a.cls in atplas && atplas[a.cls]) || Flag(faplas, a.name)])
  {
    ClassesSnoc(atoms, a);
    CountsStep(atoms, a, stats);
    ClassFlagsStep(atoms, a, fachrom, atchrom);
    ClassFlagsStep(atoms, a, faplas, atplas);
  }

  lemma ClassesSnoc(atoms: seq<Atom>, a: Atom)
    ensures Classes(atoms + [a]) == Classes(atoms) + {a.cls}
  {
    var post := atoms + [a];
    forall c | c in Classes(post)
      ensures c in Classes(atoms) + {a.cls}
    {
      var j :| 0 <= j < |post| && post[j].cls == c;
      if j < |atoms| {
        assert atoms[j] == post[j];
      }
    }
    forall c | c in Classes(atoms)
      ensures c in Classes(post)
    {
      var j :| 0 <= j < |atoms| && atoms[j].cls == c;
      assert post[j] == atoms[j];
    }
    assert post[|atoms|] == a;
  }

  lemma CountsStep(atoms: seq<Atom>, a: Atom, stats: map<string, nat>)
    requires Counts(atoms, stats) && Classes(atoms + [a]) == Classes(atoms) + {a.cls}
    ensures Counts(atoms + [a], stats[a.cls := (if a.cls in stats then stats[a.cls] else 0) + 1])
  {
    assert (atoms + [a])[..|atoms|] == atoms;
    if a.cls !in stats {
      CountAbsent(atoms, a.cls);
    }
  }

  /** A class with no atom is counted zero times. */
  lemma {:induction false} CountAbsent(atoms: seq<Atom>, c: string)
    requires c !in Classes(atoms)
    ensures CountOf(atoms, c) == 0
  {
    if atoms != [] {
      var init := atoms[..|atoms| - 1];
      assert forall j :: 0 <= j < |init| ==> init[j] == atoms[j];
      CountAbsent(init, c);
      assert atoms[|atoms| - 1].cls in Classes(atoms);
    }
  }

  lemma ClassFlagsStep(atoms: seq<Atom>, a: Atom, m: map<string, bool>, at: map<string, bool>)
    requires ClassFlags(atoms, m, at) && Classes(atoms + [a]) == Classes(atoms) + {a.cls}
    ensures ClassFlags(atoms + [a], m, at[a.cls := (a.cls in at && at[a.cls]) || Flag(m, a.name)])
  {
    OnFlaggedSnoc(atoms, a, m);
  }

  lemma OnFlaggedSnoc(atoms: seq<Atom>, a: Atom, m: map<string, bool>)
    ensures forall c :: OnFlagged(atoms + [a], m, c) <==> OnFlagged(atoms, m, c) || (a.cls == c && Flag(m, a.name))
  {
    var post := atoms + [a];
    forall c
      ensures OnFlagged(post, m, c) <==> OnFlagged(atoms, m, c) || (a.cls == c && Flag(m, a.name))
    {
      if OnFlagged(atoms, m, c) {
        var j :| 0 <= j < |atoms| && atoms[j].cls == c && Flag(m, atoms[j].name);
        assert post[j] == atoms[j];
      }
      if a.cls == c && Flag(m, a.name) {
        assert post[|atoms|] == a;
      }
      if OnFlagged(post, m, c) {
        var j :| 0 <= j < |post| && post[j].cls == c && Flag(m, post[j].name);
        if j < |atoms| {
          assert atoms[j] == post[j];
        }
      }
    }
  }

  function Sum(s: seq<nat>): nat {
    if s == [] then 0 else Sum(s[..|s| - 1]) + s[|s| - 1]
  }

  /** The classes among `done` that occur exactly `c` times. */
  function WithCount(stats: map<string, nat>, done: set<string>, c: nat): set<string> {
    set k | k in done && k in stats && stats[k] == c
  }

  /** The histogram of the counts of the classes in `done`. */
  ghost predicate HistOf(stats: map<string, nat>, done: set<string>, hist: seq<nat>) {
    (forall c :: 0 <= c < |hist| ==> hist[c] == |WithCount(stats, done, c)|)
    && (forall k :: k in done && k in stats ==> stats[k] < |hist|)
    && (|hist| > 0 ==> exists k :: k in done && k in stats && stats[k] == |hist| - 1)
  }

  /**
   * Step 5 of `main`: `hist[c]` is the number of classes that occur exactly `c` times, the list
   * is one longer than the largest count (empty when there are no classes), and its entries add
   * up to the number of classes.
   */
  method Histogram(atomstats: map<string, nat>) returns (hist: seq<nat>)
    ensures HistOf(atomstats, atomstats.Keys, hist)
    ensures atomstats == map[] <==> hist == []
    ensures Sum(hist) == |atomstats.Keys|
  {
    hist := [];
    var rest := atomstats.Keys;
    ghost var done: set<string> := {};
    while rest != {}
      invariant rest <= atomstats.Keys && done == atomstats.Keys - rest
      invariant HistOf(atomstats, done, hist)
      decreases rest
    {
      var cls :| cls in rest;
      hist := CountClass(atomstats, done, hist, cls);
      done := done + {cls};
      rest := rest - {cls};
    }
    assert done == atomstats.Keys;
    HistEmpty(atomstats, done, hist);
    HistSum(atomstats, done, hist);
  }

  /** The body of the histogram loop for the class `cls`. */
  method CountClass(atomstats: map<string, nat>, ghost done: set<string>, hist0: seq<nat>, cls: string)
    returns (hist: seq<nat>)
    requires HistOf(atomstats, done, hist0) && cls in atomstats && cls !in done
    ensures HistOf(atomstats, done + {cls}, hist)
  {
    var count := atomstats[cls];
    hist := Pad(hist0, count);
    HistGrow(atomstats, done, hist0, hist, cls);
    HistCount(atomstats, done, hist, cls);
    hist := hist[count := hist[count] + 1];
  }

  /** `while len(hist) <= count: hist.append(0)` */
  method Pad(short: seq<nat>, count: nat) returns (hist: seq<nat>)
    ensures |short| <= |hist| && hist[..|short|] == short && count < |hist|
    ensures forall c :: |short| <= c < |hist| ==> hist[c] == 0
    ensures |hist| > |short| ==> |hist| - 1 == count
  {
    hist := short;
    while |hist| <= count
      invariant |short| <= |hist| && hist[..|short|] == short
      invariant forall c :: |short| <= c < |hist| ==> hist[c] == 0
      invariant |hist| > |short| ==> |hist| - 1 <= count
      decreases count + 1 - |hist|
    {
      hist := hist + [0];
    }
  }

  /** Padding the histogram with zeros up to the new count keeps it the histogram of `done`. */
  lemma HistGrow(stats: map<string, nat>, done: set<string>, short: seq<nat>, hist: seq<nat>, k: string)
    requires HistOf(stats, done, short) && k in stats && k !in done
    requires |short| <= |hist| && hist[..|short|] == short && stats[k] < |hist|
    requires forall c :: |short| <= c < |hist| ==> hist[c] == 0
    requires |hist| > |short| ==> |hist| - 1 == stats[k]
    ensures forall c :: 0 <= c < |hist| ==> hist[c] == |WithCount(stats, done, c)|
    ensures forall j :: j in done && j in stats ==> stats[j] < |hist|
    ensures |hist| - 1 == stats[k] || exists j :: j in done && j in stats && stats[j] == |hist| - 1
  {
    forall c | |short| <= c < |hist|
      ensures WithCount(stats, done, c) == {}
    {
    }
    assert forall c :: 0 <= c < |short| ==> hist[c] == short[c];
  }

  /** Counting class `k` adds one to the entry of its count. */
  lemma HistCount(stats: map<string, nat>, done: set<string>, hist: seq<nat>, k: string)
    requires k in stats && k !in done && stats[k] < |hist|
    requires forall c :: 0 <= c < |hist| ==> hist[c] == |WithCount(stats, done, c)|
    requires forall j :: j in done && j in stats ==> stats[j] < |hist|
    requires |hist| - 1 == stats[k] || exists j :: j in done && j in stats && stats[j] == |hist| - 1
    ensures HistOf(stats, done + {k}, hist[stats[k] := hist[stats[k]] + 1])
  {
    var v := stats[k];
    var h := hist[v := hist[v] + 1];
    forall c | 0 <= c < |h|
      ensures h[c] == |WithCount(stats, done + {k}, c)|
    {
      if c == v {
        assert WithCount(stats, done + {k}, c) == WithCount(stats, done, c) + {k};
      } else {
        assert WithCount(stats, done + {k}, c) == WithCount(stats, done, c);
      }
    }
    if |hist| - 1 == v {
      assert k in done + {k} && stats[k] == |h| - 1;
    } else {
      var j :| j in done && j in stats && stats[j] == |hist| - 1;
      assert j in done + {k};
    }
  }

  /** The histogram is empty exactly when no class has been counted. */
  lemma HistEmpty(stats: map<string, nat>, done: set<string>, hist: seq<nat>)
    requires HistOf(stats, done, hist) && done <= stats.Keys
    ensures done == {} <==> hist == []
  {
    if hist != [] {
      var k :| k in done && k in stats && stats[k] == |hist| - 1;
    }
  }

  /** The classes among `done` whose count is below `n`. */
  function Below(stats: map<string, nat>, done: set<string>, n: nat): set<string> {
    set k | k in done && k in stats && stats[k] < n
  }

  /** Every class is in exactly one entry, so the entries add up to the number of classes. */
  lemma HistSum(stats: map<string, nat>, done: set<string>, hist: seq<nat>)
    requires HistOf(stats, done, hist) && done <= stats.Keys
    ensures Sum(hist) == |done|
  {
    SumBelow(stats, done, hist, |hist|);
    assert hist[..|hist|] == hist;
    assert Below(stats, done, |hist|) == done;
  }

  lemma {:induction false} SumBelow(stats: map<string, nat>, done: set<string>, hist: seq<nat>, n: nat)
    requires n <= |hist| && forall c :: 0 <= c < |hist| ==> hist[c] == |WithCount(stats, done, c)|
    ensures Sum(hist[..n]) == |Below(stats, done, n)|
  {
    if n == 0 {
      assert Below(stats, done, 0) == {};
    } else {
      SumBelow(stats, done, hist, n - 1);
      assert hist[..n][..n - 1] == hist[..n - 1];
      var lower, top := Below(stats, done, n - 1), WithCount(stats, done, n - 1);
      assert Below(stats, done, n) == lower + top;
      assert lower * top == {};
    }
  }
}
