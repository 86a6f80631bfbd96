/**
 * mark_atoms_with_both_loc.py: list the atom classes that occur both on a sequence the FASTA file
 * marks as a chromosome and on one it marks as a plasmid. The FASTA headers give each sequence a
 * type; the atoms file (`name atom_nr class strand start end`, after one header line) gives the
 * sequence of every atom.
 */
module MarkAtoms {
  import opened Options
  import opened Text
  import opened Seqs

  datatype SeqType = Chromosome | Plasmid

  // ---------------------------------------------------------------------------
  // parse_fasta

  /** `line.strip()[1:]` */
  function Header(line: string): string {
    var t := Strip(line);
    if t == [] then [] else t[1..]
  }

  /** The type a header marks; the chromosome marker wins over the plasmid one. */
  function HeaderType(header: string): Option<SeqType> {
    if Contains(header, "chromosome=true") then Some(Chromosome)
    else if Contains(header, "plasmid=true") then Some(Plasmid)
    else None
  }

  /** The first whitespace token of the header, or None for the IndexError of a blank header. */
  function HeaderId(line: string): Option<string> {
    var tokens := SplitWs(Header(line));
    if tokens == [] then None else Some(tokens[0])
  }

  /** `line` is a header line for the sequence `n`. */
  predicate HeaderFor(line: string, n: string) {
    StartsWith(line, ">") && HeaderId(line) == Some(n)
  }

  /** The last header line for `n`, or -1. */
  function LastFor(lines: seq<string>, n: string): (i: int)
    ensures -1 <= i < |lines|
  {
    if lines == [] then -1
    else if HeaderFor(lines[|lines| - 1], n) then |lines| - 1
    else LastFor(lines[..|lines| - 1], n)
  }

  /** Every header line has a token after its `>`. */
  predicate FastaOk(lines: seq<string>) {
    forall i :: 0 <= i < |lines| && StartsWith(lines[i], ">") ==> HeaderId(lines[i]).Some?
  }

  /** `seq_types` holds the sequences that have a header, each with the type of its last header. */
  ghost predicate Typed(lines: seq<string>, seqTypes: map<string, Option<SeqType>>) {
    (forall n :: n in seqTypes <==> LastFor(lines, n) >= 0)
    && forall n :: n in seqTypes ==> seqTypes[n] == HeaderType(Header(lines[LastFor(lines, n)]))
  }

  /** `parse_fasta`: the type of every sequence, or None when a header line is blank. */
  method ParseFasta(lines: seq<string>) returns (r: Option<map<string, Option<SeqType>>>)
    ensures r.Some? <==> FastaOk(lines)
    ensures r.Some? ==> Typed(lines, r.value)
  {
    var seqTypes: map<string, Option<SeqType>> := map[];
    for i := 0 to |lines|
      invariant FastaOk(lines[..i]) && Typed(lines[..i], seqTypes)
    {
      assert lines[..i + 1] == lines[..i] + [lines[i]];
      FastaStep(lines[..i], lines[i]);
      if StartsWith(lines[i], ">") {
        var next := HeaderLine(lines[i], seqTypes);
        if next.None? {
          return None;
        }
        seqTypes := next.value;
      }
    }
    assert lines[..|lines|] == lines;
    return Some(seqTypes);
  }

  /** The body of `parse_fasta`'s loop for a header line. */
  method HeaderLine(line: string, seqTypes0: map<string, Option<SeqType>>)
    returns (seqTypes: Option<map<string, Option<SeqType>>>)
    ensures match HeaderId(line)
      case None => seqTypes.None?
      case Some(id) => seqTypes == Some(seqTypes0[id := HeaderType(Header(line))])
  {
    var stripped := Strip(line);
    var header := if stripped == [] then [] else stripped[1..];
    var tokens := SplitWs(header);
    if tokens == [] {
      return None;
    }
    var seqId := tokens[0];
    if Contains(header, "chromosome=true") {
      seqTypes := Some(seqTypes0[seqId := Some(Chromosome)]);
    } else if Contains(header, "plasmid=true") {
      seqTypes := Some(seqTypes0[seqId := Some(Plasmid)]);
    } else {
      seqTypes := Some(seqTypes0[seqId := None]);
    }
  }

  /** What one more line changes. */
  lemma FastaStep(pre: seq<string>, line: string)
    ensures forall n :: LastFor(pre + [line], n) == if HeaderFor(line, n) then |pre| else LastFor(pre, n)
    ensures FastaOk(pre + [line]) <==> FastaOk(pre) && (StartsWith(line, ">") ==> HeaderId(line).Some?)
  {
    var post := pre + [line];
    assert post[..|pre|] == pre && post[|pre|] == line;
    FastaOkSnoc(pre, line);
  }

  lemma FastaOkSnoc(pre: seq<string>, line: string)
    ensures FastaOk(pre + [line]) <==> FastaOk(pre) && (StartsWith(line, ">") ==> HeaderId(line).Some?)
  {
    var post := pre + [line];
    assert post[|pre|] == line;
    forall j | 0 <= j < |pre|
      ensures post[j] == pre[j]
    {
    }
  }

  /** What `LastFor` finds: a header for `n`, with no later one. */
  lemma {:induction false} LastForMeans(lines: seq<string>, n: string)
    ensures var i := LastFor(lines, n);
      (i >= 0 ==> HeaderFor(lines[i], n)) && forall j :: i < j < |lines| ==> !HeaderFor(lines[j], n)
  {
    if lines != [] {
      var init := lines[..|lines| - 1];
      LastForMeans(init, n);
      assert forall j :: 0 <= j < |init| ==> init[j] == lines[j];
    }
  }

  /** A sequence is typed by the last of its headers. */
  lemma SeqTypeOf(lines: seq<string>, seqTypes: map<string, Option<SeqType>>, n: string) returns (i: int)
    requires Typed(lines, seqTypes) && n in seqTypes
    ensures 0 <= i < |lines| && HeaderFor(lines[i], n) && seqTypes[n] == HeaderType(Header(lines[i]))
    ensures forall j :: i < j < |lines| ==> !HeaderFor(lines[j], n)
  {
    i := LastFor(lines, n);
    LastForMeans(lines, n);
  }

  /** A sequence with no header line has no type. */
  lemma Untyped(lines: seq<string>, seqTypes: map<string, Option<SeqType>>, n: string)
    requires Typed(lines, seqTypes)
    requires forall j :: 0 <= j < |lines| ==> !HeaderFor(lines[j], n)
    ensures n !in seqTypes
  {
    LastForMeans(lines, n);
  }

  /** `>id rest` types the sequence `id`, whatever follows the first space. */
  lemma HeaderIdOf(id: string, rest: string)
    requires id != [] && NoSpace(id) && (rest == [] || IsSpace(rest[0]))
    requires Strip(">" + id + rest) == ">" + id + rest
    ensures HeaderId(">" + id + rest) == Some(id)
  {
    assert Header(">" + id + rest) == id + rest;
    SplitWsWord(id, rest);
  }

  // ---------------------------------------------------------------------------
  // parse_geese

  predicate Blank(line: string) {
    Strip(line) == []
  }

  /** `line.strip().split()` */
  function Fields(line: string): seq<string> {
    SplitWs(Strip(line))
  }

  /** A line `parse_geese` can read: blank, or with at least three fields. */
  predicate GeeseLineOk(line: string) {
    Blank(line) || |Fields(line)| >= 3
  }

  predicate BodyOk(body: seq<string>) {
    forall i :: 0 <= i < |body| ==> GeeseLineOk(body[i])
  }

  /** After the header line, every line that is not blank has at least three fields. */
  predicate GeeseOk(lines: seq<string>) {
    lines == [] || BodyOk(lines[1..])
  }

  /** `seq_types.get(seq_name)` */
  function TypeOf(seqTypes: map<string, Option<SeqType>>, n: string): Option<SeqType> {
    if n in seqTypes then seqTypes[n] else None
  }

  /** What one atoms line adds to `atom_dict`: its class and the type of its sequence, if any. */
  function Entry(seqTypes: map<string, Option<SeqType>>, line: string): Option<(string, SeqType)> {
    var fields := Fields(line);
    if Blank(line) || |fields| < 3 then None
    else match TypeOf(seqTypes, fields[0])
      case None => None
      case Some(t) => Some((fields[2], t))
  }

  function EntryOf(seqTypes: map<string, Option<SeqType>>): string -> Option<(string, SeqType)> {
    (line: string) => Entry(seqTypes, line)
  }

  /** The entries of the lines after the header line. */
  function Entries(seqTypes: map<string, Option<SeqType>>, lines: seq<string>): seq<(string, SeqType)> {
    if lines == [] then [] else FilterMap(EntryOf(seqTypes), lines[1..])
  }

  /** The classes of `entries` in the order they first occur: the key order of `atom_dict`. */
  function KeyOrder(entries: seq<(string, SeqType)>): seq<string> {
    if entries == [] then []
    else
      var keys := KeyOrder(entries[..|entries| - 1]);
      if entries[|entries| - 1].0 in keys then keys else keys + [entries[|entries| - 1].0]
  }

  /** `atom_dict` as built from `entries`: keys in first-occurrence order, each with its types. */
  ghost predicate DictOf(entries: seq<(string, SeqType)>, order: seq<string>, types: map<string, set<SeqType>>) {
    order == KeyOrder(entries)
    && (forall a :: a in types <==> a in order)
    && forall a :: a in types ==> types[a] == ValuesOf(entries, a)
  }

  /**
   * `parse_geese`: `atom_dict`, as its key order and its map, or None for the IndexError of a
   * line with fewer than three fields.
   */
  method ParseGeese(lines: seq<string>, seqTypes: map<string, Option<SeqType>>)
    returns (r: Option<(seq<string>, map<string, set<SeqType>>)>)
    ensures r.Some? <==> GeeseOk(lines)
    ensures r.Some? ==> DictOf(Entries(seqTypes, lines), r.value.0, r.value.1)
  {
    var order: seq<string> := [];
    var atomDict: map<string, set<SeqType>> := map[];
    if lines == [] {
      return Some((order, atomDict));
    }
    var body := lines[1..];
    for i := 0 to |body|
      invariant BodyOk(body[..i])
      invariant DictOf(FilterMap(EntryOf(seqTypes), body[..i]), order, atomDict)
    {
      assert body[..i + 1] == body[..i] + [body[i]];
      BodyOkSnoc(body[..i], body[i]);
      FilterMapSnoc(EntryOf(seqTypes), body[..i], body[i]);
      var ok;
      ok, order, atomDict := GeeseLine(body[i], seqTypes, FilterMap(EntryOf(seqTypes), body[..i]), order, atomDict);
      if !ok {
        return None;
      }
    }
    assert body[..|body|] == body;
    return Some((order, atomDict));
  }

  /** The body of `parse_geese`'s loop: false for a line too short to index. */
  method GeeseLine(line: string, seqTypes: map<string, Option<SeqType>>, ghost entries: seq<(string, SeqType)>,
                   order0: seq<string>, atomDict0: map<string, set<SeqType>>)
    returns (ok: bool, order: seq<string>, atomDict: map<string, set<SeqType>>)
    requires DictOf(entries, order0, atomDict0)
    ensures ok <==> GeeseLineOk(line)
    ensures ok ==> DictOf(entries + (match EntryOf(seqTypes)(line) case Some(e) => [e] case None => []), order, atomDict)
  {
    ok, order, atomDict := true, order0, atomDict0;
    assert EntryOf(seqTypes)(line) == Entry(seqTypes, line);
    if Strip(line) == [] {
      assert entries + [] == entries;
      return;
    }
    var fields := SplitWs(Strip(line));
    if |fields| < 3 {
      return false, order, atomDict;
    }
    var seqName, atomId := fields[0], fields[2];
    var seqType := if seqName in seqTypes then seqTypes[seqName] else None;
    if seqType.None? {
      assert entries + [] == entries;
      return;
    }
    DictStep(entries, order, atomDict, atomId, seqType.value);
    if atomId !in atomDict {
      atomDict := atomDict[atomId := {}];
      order := order + [atomId];
    }
    atomDict := atomDict[atomId := atomDict[atomId] + {seqType.value}];
  }

  lemma BodyOkSnoc(pre: seq<string>, line: string)
    ensures BodyOk(pre + [line]) <==> BodyOk(pre) && GeeseLineOk(line)
  {
    var post := pre + [line];
    assert post[|pre|] == line;
    forall j | 0 <= j < |pre|
      ensures post[j] == pre[j]
    {
    }
  }

  /** Adding one entry to `atom_dict`. */
  lemma DictStep(entries: seq<(string, SeqType)>, order: seq<string>, types: map<string, set<SeqType>>,
                 a: string, t: SeqType)
    requires DictOf(entries, order, types)
    ensures var types1 := if a in types then types else types[a := {}];
      var order1 := if a in types then order else order + [a];
      DictOf(entries + [(a, t)], order1, types1[a := types1[a] + {t}])
  {
    var post := entries + [(a, t)];
    assert post[..|entries|] == entries;
    forall b
      ensures ValuesOf(post, b) == ValuesOf(entries, b) + (if b == a then {t} else {})
    {
      ValuesOfSnoc(entries, a, t, b);
    }
    if a !in types {
      assert ValuesOf(entries, a) == {} by {
        if ValuesOf(entries, a) != {} {
          var u :| u in ValuesOf(entries, a);
          var j :| 0 <= j < |entries| && entries[j].0 == a && entries[j].1 == u;
          KeyOrderHas(entries, j);
        }
      }
    }
  }

  /** Every class of `entries` is in the key order. */
  lemma {:induction false} KeyOrderHas(entries: seq<(string, SeqType)>, j: int)
    requires 0 <= j < |entries|
    ensures entries[j].0 in KeyOrder(entries)
  {
    var init := entries[..|entries| - 1];
    if j < |init| {
      KeyOrderHas(init, j);
      assert init[j] == entries[j];
    }
  }

  /** The key order lists each class of `entries` once, and nothing else. */
  lemma {:induction false} KeyOrderSpec(entries: seq<(string, SeqType)>)
    ensures Distinct(KeyOrder(entries))
    ensures forall a :: a in KeyOrder(entries) <==> exists j :: 0 <= j < |entries| && entries[j].0 == a
  {
    if entries != [] {
      var init := entries[..|entries| - 1];
      KeyOrderSpec(init);
      forall j | 0 <= j < |entries|
        ensures entries[j].0 in KeyOrder(entries)
      {
        KeyOrderHas(entries, j);
      }
      forall a | a in KeyOrder(entries)
        ensures exists j :: 0 <= j < |entries| && entries[j].0 == a
      {
        if a in KeyOrder(init) {
          var j :| 0 <= j < |init| && init[j].0 == a;
          assert entries[j] == init[j];
        } else {
          assert entries[|entries| - 1].0 == a;
        }
      }
    }
  }

  /** Every key of `atom_dict` has an entry, and its set of types is not empty. */
  lemma DictValues(entries: seq<(string, SeqType)>, order: seq<string>, types: map<string, set<SeqType>>, a: string)
    requires DictOf(entries, order, types) && a in types
    ensures types[a] != {} && exists j :: 0 <= j < |entries| && entries[j].0 == a
  {
    KeyOrderSpec(entries);
    var j :| 0 <= j < |entries| && entries[j].0 == a;
    ValuesOfHas(entries, a, entries[j].1);
  }

  /**
   * An entry comes from a non-blank line after the header whose sequence name has a type: the
   * class of field 2 and the type of field 0.
   */
  lemma EntriesFrom(seqTypes: map<string, Option<SeqType>>, lines: seq<string>, e: (string, SeqType))
    ensures e in Entries(seqTypes, lines) <==> exists i :: 1 <= i < |lines| && Entry(seqTypes, lines[i]) == Some(e)
  {
    if lines != [] {
      var body := lines[1..];
      FilterMapHas(EntryOf(seqTypes), body);
      if e in Entries(seqTypes, lines) {
        var k :| 0 <= k < |body| && EntryOf(seqTypes)(body[k]) == Some(e);
        assert lines[k + 1] == body[k];
      }
      if exists i :: 1 <= i < |lines| && Entry(seqTypes, lines[i]) == Some(e) {
        var i :| 1 <= i < |lines| && Entry(seqTypes, lines[i]) == Some(e);
        assert EntryOf(seqTypes)(body[i - 1]) == Some(e);
      }
    }
  }

  // ---------------------------------------------------------------------------
  // main

  /** `'chromosome' in types and 'plasmid' in types` */
  predicate BothTypes(types: map<string, set<SeqType>>, a: string) {
    a in types && Chromosome in types[a] && Plasmid in types[a]
  }

  function Both(types: map<string, set<SeqType>>): string -> bool {
    (a: string) => BothTypes(types, a)
  }

  /** The output loop of `main`: the classes with both types, in `atom_dict` order. */
  method SelectBoth(order: seq<string>, types: map<string, set<SeqType>>) returns (out: seq<string>)
    requires forall i :: 0 <= i < |order| ==> order[i] in types
    ensures out == Filter(Both(types), order)
  {
    out := [];
    for i := 0 to |order|
      invariant out == Filter(Both(types), order[..i])
    {
      assert order[..i + 1] == order[..i] + [order[i]];
      FilterSnoc(Both(types), order[..i], order[i]);
      var atomId := order[i];
      assert Both(types)(atomId) <==> Chromosome in types[atomId] && Plasmid in types[atomId];
      if Chromosome in types[atomId] && Plasmid in types[atomId] {
        out := out + [atomId];
      }
    }
    assert order[..|order|] == order;
  }

  /**
   * `main`: the lines of the output file, or None when one of the two parsers dies.
   */
  method Run(fastaLines: seq<string>, geeseLines: seq<string>) returns (out: Option<seq<string>>, ghost seqTypes: map<string, Option<SeqType>>)
    ensures out.Some? <==> FastaOk(fastaLines) && GeeseOk(geeseLines)
    ensures FastaOk(fastaLines) ==> Typed(fastaLines, seqTypes)
    ensures out.Some? ==> Marked(Entries(seqTypes, geeseLines), out.value)
    ensures out.Some? ==>
      out.value == Filter(SeenOnBoth(Entries(seqTypes, geeseLines)), KeyOrder(Entries(seqTypes, geeseLines)))
  {
    var types := ParseFasta(fastaLines);
    if types.None? {
      return None, map[];
    }
    seqTypes := types.value;
    var atomDict := ParseGeese(geeseLines, types.value);
    if atomDict.None? {
      return None, seqTypes;
    }
    var selected := SelectBoth(atomDict.value.0, atomDict.value.1);
    MarkedBoth(Entries(types.value, geeseLines), atomDict.value.0, atomDict.value.1);
    MarkedOrder(Entries(types.value, geeseLines), atomDict.value.0, atomDict.value.1);
    out := Some(selected);
  }

  /** The test the output applies, read off the entries: seen with both a chromosome and a plasmid. */
  function SeenOnBoth(entries: seq<(string, SeqType)>): string -> bool {
    (a: string) => (a, Chromosome) in entries && (a, Plasmid) in entries
  }

  /** The output lines are the classes seen on both types, in first-seen order. */
  lemma MarkedOrder(entries: seq<(string, SeqType)>, order: seq<string>, types: map<string, set<SeqType>>)
    requires DictOf(entries, order, types)
    ensures Filter(Both(types), order) == Filter(SeenOnBoth(entries), KeyOrder(entries))
  {
    forall i | 0 <= i < |order|
      ensures Both(types)(order[i]) == SeenOnBoth(entries)(order[i])
    {
      ValuesOfHas(entries, order[i], Chromosome);
      ValuesOfHas(entries, order[i], Plasmid);
    }
    FilterAgree(Both(types), SeenOnBoth(entries), order);
  }

  /** `out` lists once each class with both a chromosome and a plasmid entry, and nothing else. */
  ghost predicate Marked(entries: seq<(string, SeqType)>, out: seq<string>) {
    Distinct(out)
    && forall a :: a in out <==> (a, Chromosome) in entries && (a, Plasmid) in entries
  }

  lemma MarkedBoth(entries: seq<(string, SeqType)>, order: seq<string>, types: map<string, set<SeqType>>)
    requires DictOf(entries, order, types)
    ensures Marked(entries, Filter(Both(types), order))
  {
    KeyOrderSpec(entries);
    var out := Filter(Both(types), order);
    FilterMembers(Both(types), order);
    FilterDistinct(Both(types), order);
    forall a
      ensures a in out <==> (a, Chromosome) in entries && (a, Plasmid) in entries
    {
      if a in out {
        var k :| 0 <= k < |out| && out[k] == a;
        assert Both(types)(a);
        ValuesOfHas(entries, a, Chromosome);
        ValuesOfHas(entries, a, Plasmid);
      }
      if (a, Chromosome) in entries && (a, Plasmid) in entries {
        ValuesOfHas(entries, a, Chromosome);
        ValuesOfHas(entries, a, Plasmid);
        var j :| 0 <= j < |entries| && entries[j] == (a, Chromosome);
        var k :| 0 <= k < |order| && order[k] == a;
        assert Both(types)(order[k]);
      }
    }
  }

  lemma {:induction false} FilterDistinct<T>(p: T -> bool, s: seq<T>)
    requires Distinct(s)
    ensures Distinct(Filter(p, s))
  {
    if s != [] {
      var init := s[..|s| - 1];
      FilterDistinct(p, init);
      FilterMembers(p, init);
      assert s[|s| - 1] !in init;
      assert s[|s| - 1] !in Filter(p, init);
    }
  }
}
