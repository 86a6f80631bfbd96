/**
 * gfa2json.py: the node and link records of a GFA graph, for drawing. Every segment named by an
 * `S` or `L` line becomes a node, listed in sorted order, with the number of genomes whose atoms
 * file mentions it and the colour of its `CL:z:` tag; every `L` line becomes a link, in file
 * order.
 */
module GfaToJson {
  import opened Options
  import opened Text
  import opened Seqs

  // ---------------------------------------------------------------------------
  // extract_color

  const ColourPrefix := "CL:z:"

  /** `s.split(sep)[0]`: the text before the first `sep`, or all of `s`. */
  function Before(s: string, sep: string): (r: string)
    requires sep != []
    ensures |r| <= |s| && r == s[..|r|]
    decreases |s|
  {
    if s == [] || StartsWith(s, sep) then [] else [s[0]] + Before(s[1..], sep)
  }

  /** Text without the separator comes back whole. */
  lemma {:induction false} BeforeAll(s: string, sep: string)
    requires sep != [] && !Contains(s, sep)
    ensures Before(s, sep) == s
    decreases |s|
  {
    if s != [] {
      BeforeAll(s[1..], sep);
    }
  }

  /**
   * `extract_color`: in the first tag that starts with `CL:z:`, the text after that prefix up to
   * any further `CL:z:`; None when no tag starts with it.
   */
  function ExtractColor(tags: seq<string>): Option<string> {
    if tags == [] then None
    else if StartsWith(tags[0], ColourPrefix) then Some(Before(tags[0][|ColourPrefix|..], ColourPrefix))
    else ExtractColor(tags[1..])
  }

  /** What the search finds: the first colour tag, or there is none. */
  lemma {:induction false} ExtractColorMeans(tags: seq<string>) returns (i: int)
    ensures ExtractColor(tags).None? <==> i == |tags|
    ensures 0 <= i <= |tags| && forall j :: 0 <= j < i ==> !StartsWith(tags[j], ColourPrefix)
    ensures i < |tags| ==> (StartsWith(tags[i], ColourPrefix)
      && ExtractColor(tags) == Some(Before(tags[i][|ColourPrefix|..], ColourPrefix)))
  {
    if tags == [] {
      i := 0;
    } else if StartsWith(tags[0], ColourPrefix) {
      i := 0;
    } else {
      var k := ExtractColorMeans(tags[1..]);
      i := k + 1;
      forall j | 0 <= j < i
        ensures !StartsWith(tags[j], ColourPrefix)
      {
        if j > 0 {
          assert tags[j] == tags[1..][j - 1];
        }
      }
    }
  }

  // ---------------------------------------------------------------------------
  // read_geese_for_usage

  /** The (atom, genome) a line of the atoms file adds, if it is not a comment and has six tab fields. */
  function UsageEntry(line: string): Option<(string, string)> {
    if StartsWith(line, "#") then None
    else
      var parts := Split(RStrip(line, '\n'), '\t');
      if |parts| < 6 then None else Some((parts[2], parts[0]))
  }

  function UsageOf(): string -> Option<(string, string)> {
    (line: string) => UsageEntry(line)
  }

  /** `node_to_genomes`: every atom that has an entry, with the set of its genomes. */
  ghost predicate Usage(entries: seq<(string, string)>, m: map<string, set<string>>) {
    (forall a :: a in m <==> ValuesOf(entries, a) != {})
    && forall a :: a in m ==> m[a] == ValuesOf(entries, a)
  }

  /** `read_geese_for_usage` */
  method ReadGeeseForUsage(lines: seq<string>) returns (nodeToGenomes: map<string, set<string>>)
    ensures Usage(FilterMap(UsageOf(), lines), nodeToGenomes)
  {
    nodeToGenomes := map[];
    for i := 0 to |lines|
      invariant Usage(FilterMap(UsageOf(), lines[..i]), nodeToGenomes)
    {
      assert lines[..i + 1] == lines[..i] + [lines[i]];
      FilterMapSnoc(UsageOf(), lines[..i], lines[i]);
      assert UsageOf()(lines[i]) == UsageEntry(lines[i]);
      nodeToGenomes := UsageLine(lines[i], FilterMap(UsageOf(), lines[..i]), nodeToGenomes);
    }
    assert lines[..|lines|] == lines;
  }

  /** The body of `read_geese_for_usage`'s loop. */
  method UsageLine(line: string, ghost entries: seq<(string, string)>, m0: map<string, set<string>>)
    returns (m: map<string, set<string>>)
    requires Usage(entries, m0)
    ensures Usage(entries + (match UsageEntry(line) case Some(e) => [e] case None => []), m)
  {
    m := m0;
    if StartsWith(line, "#") {
      assert entries + [] == entries;
      return;
    }
    var parts := Split(RStrip(line, '\n'), '\t');
    if |parts| < 6 {
      assert entries + [] == entries;
      return;
    }
    var genome, atom := parts[0], parts[2];
    UsageStep(entries, m0, atom, genome);
    m := m0[atom := (if atom in m0 then m0[atom] else {}) + {genome}];
  }

  lemma UsageStep(entries: seq<(string, string)>, m: map<string, set<string>>, a: string, g: string)
    requires Usage(entries, m)
    ensures Usage(entries + [(a, g)], m[a := (if a in m then m[a] else {}) + {g}])
  {
    forall b
      ensures ValuesOf(entries + [(a, g)], b) == ValuesOf(entries, b) + (if b == a then {g} else {})
    {
      ValuesOfSnoc(entries, a, g, b);
    }
  }

  /** A genome counts for an atom exactly when one of its six-field lines names the atom. */
  lemma UsageMeans(lines: seq<string>, a: string, g: string)
    ensures g in ValuesOf(FilterMap(UsageOf(), lines), a) <==>
      exists i :: 0 <= i < |lines| && UsageEntry(lines[i]) == Some((a, g))
  {
    ValuesOfHas(FilterMap(UsageOf(), lines), a, g);
    FilterMapHas(UsageOf(), lines);
    if exists i :: 0 <= i < |lines| && UsageEntry(lines[i]) == Some((a, g)) {
      var i :| 0 <= i < |lines| && UsageEntry(lines[i]) == Some((a, g));
      assert UsageOf()(lines[i]) == Some((a, g));
    }
    if (a, g) in FilterMap(UsageOf(), lines) {
      var i :| 0 <= i < |lines| && UsageOf()(lines[i]) == Some((a, g));
      assert UsageEntry(lines[i]) == Some((a, g));
    }
  }

  // ---------------------------------------------------------------------------
  // read_gfa

  datatype Edge = Edge(source: string, target: string)

  /** What `read_gfa` returns: `node_set`, `edges` and `color_map`. */
  datatype Graph = Graph(nodes: set<string>, edges: seq<Edge>, colours: map<string, string>)

  predicate IsS(line: string) {
    line != [] && StartsWith(line, "S")
  }

  predicate IsL(line: string) {
    line != [] && !StartsWith(line, "S") && StartsWith(line, "L")
  }

  /** A non-blank `S` line has a name field and an `L` line both end fields. */
  predicate GfaLineOk(line: string) {
    (IsS(line) ==> |Split(line, '\t')| >= 2) && (IsL(line) ==> |Split(line, '\t')| >= 4)
  }

  predicate GfaOk(lines: seq<string>) {
    forall i :: 0 <= i < |lines| ==> GfaLineOk(lines[i])
  }

  /** The segments one line adds to `node_set`. */
  function LineNodes(line: string): set<string> {
    var parts := Split(line, '\t');
    if IsS(line) && |parts| >= 2 then {parts[1]}
    else if IsL(line) && |parts| >= 4 then {parts[1], parts[3]}
    else {}
  }

  function NodesOf(lines: seq<string>): set<string> {
    if lines == [] then {} else NodesOf(lines[..|lines| - 1]) + LineNodes(lines[|lines| - 1])
  }

  /** The edge of an `L` line. */
  function EdgeOf(line: string): Option<Edge> {
    var parts := Split(line, '\t');
    if IsL(line) && |parts| >= 4 then Some(Edge(parts[1], parts[3])) else None
  }

  function Edges(): string -> Option<Edge> {
    (line: string) => EdgeOf(line)
  }

  /** The (segment, colour) an `S` line puts in `color_map`, when its colour is not empty. */
  function ColourOf(line: string): Option<(string, string)> {
    var parts := Split(line, '\t');
    if IsS(line) && |parts| >= 2 then
      match ExtractColor(if |parts| >= 3 then parts[3..] else [])
      case Some(c) => if c != [] then Some((parts[1], c)) else None
      case None => None
    else None
  }

  function Colours(): string -> Option<(string, string)> {
    (line: string) => ColourOf(line)
  }

  /** The value of the last pair with key `k`, if any: what repeated `d[k] = v` leaves. */
  function LastValue(pairs: seq<(string, string)>, k: string): Option<string> {
    if pairs == [] then None
    else if pairs[|pairs| - 1].0 == k then Some(pairs[|pairs| - 1].1)
    else LastValue(pairs[..|pairs| - 1], k)
  }

  /** `m` is the dictionary the assignments `pairs` build. */
  ghost predicate Assigned(pairs: seq<(string, string)>, m: map<string, string>) {
    forall k :: (k in m <==> LastValue(pairs, k).Some?) && (k in m ==> LastValue(pairs, k) == Some(m[k]))
  }

  /** The graph of the lines read so far. */
  ghost predicate GraphOf(lines: seq<string>, g: Graph) {
    g.nodes == NodesOf(lines) && g.edges == FilterMap(Edges(), lines) && Assigned(FilterMap(Colours(), lines), g.colours)
  }

  /** `read_gfa`: None for the IndexError of an `S` or `L` line with too few fields. */
  method ReadGfa(lines: seq<string>) returns (r: Option<Graph>)
    ensures r.Some? <==> GfaOk(Chomped(lines))
    ensures r.Some? ==> GraphOf(Chomped(lines), r.value)
  {
    var g := Graph({}, [], map[]);
    for i := 0 to |lines|
      invariant GfaOk(Chomped(lines)[..i]) && GraphOf(Chomped(lines)[..i], g)
    {
      var line := RStrip(lines[i], '\n');
      assert Chomped(lines)[..i + 1] == Chomped(lines)[..i] + [line];
      GfaStep(Chomped(lines)[..i], line, g);
      if line == [] {
        continue;
      }
      var next := GfaLine(line, g);
      if next.None? {
        return None;
      }
      g := next.value;
    }
    assert Chomped(lines)[..|lines|] == Chomped(lines);
    return Some(g);
  }

  /** The body of `read_gfa`'s loop for a non-blank line. */
  method GfaLine(line: string, g0: Graph) returns (g: Option<Graph>)
    requires line != []
    ensures g.Some? <==> GfaLineOk(line)
    ensures g.Some? ==> g.value == Graph(g0.nodes + LineNodes(line),
      g0.edges + (match EdgeOf(line) case Some(e) => [e] case None => []),
      match ColourOf(line) case Some(p) => g0.colours[p.0 := p.1] case None => g0.colours)
  {
    var parts := Split(line, '\t');
    g := Some(g0);
    if StartsWith(line, "S") {
      if |parts| < 2 {
        return None;
      }
      var seg := parts[1];
      var tags := if |parts| >= 3 then parts[3..] else [];
      var color := ExtractColor(tags);
      var colours := g0.colours;
      if color.Some? && color.value != [] {
        colours := colours[seg := color.value];
      }
      g := Some(Graph(g0.nodes + {seg}, g0.edges, colours));
    } else if StartsWith(line, "L") {
      if |parts| < 4 {
        return None;
      }
      var src, dst := parts[1], parts[3];
      g := Some(Graph(g0.nodes + {src, dst}, g0.edges + [Edge(src, dst)], g0.colours));
    }
  }

  /** One line more. */
  lemma GfaStep(lines: seq<string>, line: string, g: Graph)
    requires GfaOk(lines) && GraphOf(lines, g)
    ensures GfaOk(lines + [line]) <==> GfaLineOk(line)
    ensures NodesOf(lines + [line]) == g.nodes + LineNodes(line)
    ensures FilterMap(Edges(), lines + [line]) == g.edges + (match EdgeOf(line) case Some(e) => [e] case None => [])
    ensures match ColourOf(line)
      case Some(p) => Assigned(FilterMap(Colours(), lines + [line]), g.colours[p.0 := p.1])
      case None => Assigned(FilterMap(Colours(), lines + [line]), g.colours)
  {
    assert (lines + [line])[..|lines|] == lines;
    GfaOkSnoc(lines, line);
    FilterMapSnoc(Edges(), lines, line);
    assert Edges()(line) == EdgeOf(line);
    ColoursSnoc(lines, line, g.colours);
  }

  lemma GfaOkSnoc(lines: seq<string>, line: string)
    requires GfaOk(lines)
    ensures GfaOk(lines + [line]) <==> GfaLineOk(line)
  {
    var post := lines + [line];
    assert post[|lines|] == line;
    if GfaLineOk(line) {
      forall i | 0 <= i < |post|
        ensures GfaLineOk(post[i])
      {
        if i < |lines| {
          assert post[i] == lines[i];
        }
      }
    }
  }

  lemma ColoursSnoc(lines: seq<string>, line: string, m: map<string, string>)
    requires Assigned(FilterMap(Colours(), lines), m)
    ensures match ColourOf(line)
      case Some(p) => Assigned(FilterMap(Colours(), lines + [line]), m[p.0 := p.1])
      case None => Assigned(FilterMap(Colours(), lines + [line]), m)
  {
    var pre := FilterMap(Colours(), lines);
    FilterMapSnoc(Colours(), lines, line);
    assert Colours()(line) == ColourOf(line);
    match ColourOf(line) {
      case Some(p) =>
        LastValueSnoc(pre, p);
      case None =>
        assert pre + [] == pre;
    }
  }

  lemma LastValueSnoc(pairs: seq<(string, string)>, p: (string, string))
    ensures forall k :: LastValue(pairs + [p], k) == if k == p.0 then Some(p.1) else LastValue(pairs, k)
  {
    assert (pairs + [p])[..|pairs|] == pairs;
  }

  /** A key has a last value exactly when some pair has that key, and the value is one of its pairs'. */
  lemma {:induction false} LastValueMeans(pairs: seq<(string, string)>, k: string)
    ensures LastValue(pairs, k).Some? <==> exists v :: (k, v) in pairs
    ensures LastValue(pairs, k).Some? ==> (k, LastValue(pairs, k).value) in pairs
  {
    if pairs != [] {
      var init := pairs[..|pairs| - 1];
      assert pairs == init + [pairs[|pairs| - 1]];
      LastValueMeans(init, k);
      if exists v :: (k, v) in pairs {
        var v :| (k, v) in pairs;
        if pairs[|pairs| - 1] != (k, v) {
          assert (k, v) in init;
        }
      }
    }
  }

  /**
   * `color_map` has an entry exactly for the segments of `S` lines with a non-empty `CL:z:`
   * tag, and every colour in it is non-empty.
   */
  lemma ColourMapMeans(lines: seq<string>, k: string)
    ensures LastValue(FilterMap(Colours(), lines), k).Some? <==>
      exists i :: 0 <= i < |lines| && ColourOf(lines[i]).Some? && ColourOf(lines[i]).value.0 == k
    ensures LastValue(FilterMap(Colours(), lines), k).Some? ==> LastValue(FilterMap(Colours(), lines), k).value != []
  {
    var pairs := FilterMap(Colours(), lines);
    LastValueMeans(pairs, k);
    FilterMapHas(Colours(), lines);
    if LastValue(pairs, k).Some? {
      var i :| 0 <= i < |lines| && Colours()(lines[i]) == Some((k, LastValue(pairs, k).value));
      assert ColourOf(lines[i]) == Some((k, LastValue(pairs, k).value));
    }
    if exists i :: 0 <= i < |lines| && ColourOf(lines[i]).Some? && ColourOf(lines[i]).value.0 == k {
      var i :| 0 <= i < |lines| && ColourOf(lines[i]).Some? && ColourOf(lines[i]).value.0 == k;
      assert Colours()(lines[i]) == ColourOf(lines[i]);
      assert (k, ColourOf(lines[i]).value.1) in pairs;
    }
  }

  /** A segment is a node exactly when an `S` line names it or an `L` line ends at it. */
  lemma {:induction false} NodesOfMeans(lines: seq<string>, n: string)
    ensures n in NodesOf(lines) <==> exists i :: 0 <= i < |lines| && n in LineNodes(lines[i])
  {
    if lines != [] {
      var init := lines[..|lines| - 1];
      NodesOfMeans(init, n);
      if n in NodesOf(init) {
        var i :| 0 <= i < |init| && n in LineNodes(init[i]);
        assert lines[i] == init[i];
      }
      if exists i :: 0 <= i < |lines| && n in LineNodes(lines[i]) {
        var i :| 0 <= i < |lines| && n in LineNodes(lines[i]);
        if i < |init| {
          assert init[i] == lines[i];
        }
      }
    }
  }

  /** Both ends of every edge are nodes. */
  lemma {:induction false} EdgeEnds(lines: seq<string>, e: Edge)
    requires e in FilterMap(Edges(), lines)
    ensures e.source in NodesOf(lines) && e.target in NodesOf(lines)
  {
    FilterMapHas(Edges(), lines);
    var i :| 0 <= i < |lines| && Edges()(lines[i]) == Some(e);
    assert EdgeOf(lines[i]) == Some(e);
    assert e.source in LineNodes(lines[i]) && e.target in LineNodes(lines[i]);
    NodesOfMeans(lines, e.source);
    NodesOfMeans(lines, e.target);
  }

  // ---------------------------------------------------------------------------
  // build_json

  /** Strictly increasing, in the order of `Less`. */
  predicate Sorted(s: seq<string>) {
    forall i, j :: 0 <= i < j < |s| ==> Less(s[i], s[j])
  }

  /** The least element of a non-empty set. */
  method Least(s: set<string>) returns (m: string)
    requires s != {}
    ensures m in s && forall y :: y in s && y != m ==> Less(m, y)
  {
    m :| m in s;
    var rest := s - {m};
    while rest != {}
      invariant m in s && rest <= s
      invariant forall y :: y in s - rest && y != m ==> Less(m, y)
      decreases rest
    {
      var y :| y in rest;
      if Less(y, m) {
        forall z | z in s - rest && z != y
          ensures Less(y, z)
        {
          if z != m {
            LessTransitive(y, m, z);
          }
        }
        m := y;
      } else if y != m {
        LessTotal(y, m);
      }
      rest := rest - {y};
    }
  }

  /** `sorted(node_set)` */
  method SortedIds(s: set<string>) returns (r: seq<string>)
    ensures Sorted(r) && forall x :: x in r <==> x in s
  {
    r := [];
    var rest := s;
    while rest != {}
      invariant rest <= s && Sorted(r)
      invariant forall x :: x in r <==> x in s - rest
      invariant forall i, y :: 0 <= i < |r| && y in rest ==> Less(r[i], y)
      decreases rest
    {
      var m := Least(rest);
      forall i, y | 0 <= i < |r| && y in rest - {m}
        ensures Less(r[i], y)
      {
      }
      r := r + [m];
      rest := rest - {m};
    }
  }

  /** There is one sorted list of a set's members: the result does not depend on how it is sorted. */
  lemma {:induction false} SortedUnique(a: seq<string>, b: seq<string>)
    requires Sorted(a) && Sorted(b) && forall x :: x in a <==> x in b
    ensures a == b
    decreases |a|
  {
    assert a != [] ==> a[0] in a;
    assert b != [] ==> b[0] in b;
    if a != [] && b != [] {
      assert a[0] in a && b[0] in b;
      assert a[0] == b[0] by {
        if a[0] != b[0] {
          var i :| 0 <= i < |b| && b[i] == a[0];
          var j :| 0 <= j < |a| && a[j] == b[0];
          LessIrreflexive(a[0]);
          LessIrreflexive(b[0]);
          assert Less(b[0], a[0]) && Less(a[0], b[0]);
          LessTransitive(a[0], b[0], a[0]);
        }
      }
      forall x
        ensures x in a[1..] <==> x in b[1..]
      {
        SortedTail(a, x);
        SortedTail(b, x);
      }
      SortedUnique(a[1..], b[1..]);
    }
  }

  /** The members of a sorted list's tail are the others. */
  lemma SortedTail(a: seq<string>, x: string)
    requires Sorted(a) && a != []
    ensures x in a[1..] <==> x in a && x != a[0]
  {
    if x in a[1..] {
      var i :| 0 <= i < |a[1..]| && a[1..][i] == x;
      assert Less(a[0], a[i + 1]);
      LessIrreflexive(a[0]);
    }
    if x in a && x != a[0] {
      var i :| 0 <= i < |a| && a[i] == x;
      assert a[1..][i - 1] == x;
    }
  }

  /** One entry of `nodes`. */
  datatype Node = Node(id: string, usage: nat, colour: Option<string>)

  /** The record of node `n`: its number of genomes, and its colour when it has one. */
  function NodeOf(n: string, nodeToGenomes: map<string, set<string>>, colours: map<string, string>): Node {
    Node(n, if n in nodeToGenomes then |nodeToGenomes[n]| else 0, if n in colours then Some(colours[n]) else None)
  }

  /** The node loop of `build_json`. */
  method BuildNodes(g: Graph, nodeToGenomes: map<string, set<string>>) returns (nodes: seq<Node>)
    ensures Sorted(Ids(nodes)) && forall x :: x in Ids(nodes) <==> x in g.nodes
    ensures forall i :: 0 <= i < |nodes| ==> nodes[i] == NodeOf(nodes[i].id, nodeToGenomes, g.colours)
  {
    var ids := SortedIds(g.nodes);
    nodes := [];
    for i := 0 to |ids|
      invariant Ids(nodes) == ids[..i]
      invariant forall j :: 0 <= j < |nodes| ==> nodes[j] == NodeOf(nodes[j].id, nodeToGenomes, g.colours)
    {
      var n := ids[i];
      var usage := if n in nodeToGenomes then |nodeToGenomes[n]| else 0;
      var node := Node(n, usage, None);
      if n in g.colours {
        node := node.(colour := Some(g.colours[n]));
      }
      nodes := nodes + [node];
      assert Ids(nodes) == Ids(nodes[..i]) + [n];
    }
    assert ids[..|ids|] == ids;
  }

  function Ids(nodes: seq<Node>): (r: seq<string>)
    ensures |r| == |nodes| && forall i :: 0 <= i < |nodes| ==> r[i] == nodes[i].id
  {
    seq(|nodes|, i requires 0 <= i < |nodes| => nodes[i].id)
  }

  /**
   * `main` without the JSON writing: the node records and the links, or None when `read_gfa`
   * dies. The nodes are the segments in sorted order; the usage of a node is the number of
   * genomes naming it in the atoms file, and its colour the last non-empty colour tag of its
   * `S` lines.
   */
  method Run(gfaLines: seq<string>, geeseLines: seq<string>) returns (r: Option<(seq<Node>, seq<Edge>)>)
    ensures r.Some? <==> GfaOk(Chomped(gfaLines))
    ensures r.Some? ==> (
      var (nodes, links) := r.value;
      links == FilterMap(Edges(), Chomped(gfaLines))
      && Sorted(Ids(nodes)) && (forall x :: x in Ids(nodes) <==> x in NodesOf(Chomped(gfaLines)))
      && forall i :: 0 <= i < |nodes| ==> (
        nodes[i].usage == |ValuesOf(FilterMap(UsageOf(), geeseLines), nodes[i].id)|
        && nodes[i].colour == LastValue(FilterMap(Colours(), Chomped(gfaLines)), nodes[i].id)))
  {
    var nodeToGenomes := ReadGeeseForUsage(geeseLines);
    var g := ReadGfa(gfaLines);
    if g.None? {
      return None;
    }
    var nodes := BuildNodes(g.value, nodeToGenomes);
    r := Some((nodes, g.value.edges));
  }
}
