/**
 * The colours atoms2gfa.py writes are the colours gfa2json.py reads: the `CL:z:` tag of a
 * rendered segment line gives back its colour, and a segment without tags gives none.
 */
module ColourRoundTrip {
  import opened Options
  import opened Text
  import opened AtomsToGfaMain
  import opened GfaToJson

  /** The fields of a rendered segment line, when its name and sequence hold no tab. */
  lemma SegmentFields(name: string, sequence: string, colour: Option<string>)
    requires '\t' !in name && '\t' !in sequence
    requires colour.Some? ==> '\t' !in colour.value
    ensures Split(Render(Segment(name, sequence, colour)), '\t') == ["S", name, sequence] +
      match colour case Some(c) => [ColourPrefix + c, "C2:z:" + c] case None => []
  {
    var parts := ["S", name, sequence] +
      match colour case Some(c) => [ColourPrefix + c, "C2:z:" + c] case None => [];
    JoinFields(name, sequence, colour);
    SplitJoin(parts, '\t');
  }

  lemma JoinFields(name: string, sequence: string, colour: Option<string>)
    ensures Render(Segment(name, sequence, colour)) == Join(["S", name, sequence] +
      match colour case Some(c) => [ColourPrefix + c, "C2:z:" + c] case None => [], '\t')
  {
    var t := ColourTags(colour);
    var rest := match colour case Some(c) => [ColourPrefix + c, "C2:z:" + c] case None => [];
    JoinTags(sequence, colour);
    assert Join([sequence] + rest, '\t') == sequence + t;
    var parts := ["S", name, sequence] + rest;
    assert parts[1..] == [name] + ([sequence] + rest) && parts[1..][1..] == [sequence] + rest;
    assert Join(parts[1..], '\t') == name + "\t" + (sequence + t);
    assert Join(parts, '\t') == "S" + "\t" + (name + "\t" + (sequence + t));
  }

  lemma JoinTags(sequence: string, colour: Option<string>)
    ensures Join([sequence] + match colour case Some(c) => [ColourPrefix + c, "C2:z:" + c] case None => [], '\t')
      == sequence + ColourTags(colour)
  {
    match colour {
      case None =>
        assert [sequence] + [] == [sequence];
        assert sequence + "" == sequence;
      case Some(c) =>
        var parts := [sequence, ColourPrefix + c, "C2:z:" + c];
        assert parts[1..][1..] == ["C2:z:" + c];
        assert Join(parts[1..], '\t') == ColourPrefix + c + "\t" + "C2:z:" + c;
    }
  }

  /** The node and colour gfa2json.py reads from a rendered segment line. */
  lemma SegmentLineRead(name: string, sequence: string, colour: Option<string>)
    requires '\t' !in name && '\t' !in sequence
    requires colour.Some? ==> '\t' !in colour.value && 'C' !in colour.value && colour.value != []
    ensures LineNodes(Render(Segment(name, sequence, colour))) == {name}
    ensures ColourOf(Render(Segment(name, sequence, colour))) ==
      match colour case Some(c) => Some((name, c)) case None => None
  {
    var line := Render(Segment(name, sequence, colour));
    SegmentFields(name, sequence, colour);
    assert StartsWith(line, "S");
    if colour.Some? {
      var c := colour.value;
      NotContains(c, ColourPrefix);
      BeforeAll(c, ColourPrefix);
      assert (ColourPrefix + c)[|ColourPrefix|..] == c;
    }
  }

  /**
   * gfa2json.py reads back the colour atoms2gfa.py gave a segment: its line yields the node
   * `name` and, when the segment was coloured, the pair (name, colour) for `color_map`.
   */
  lemma SegmentColourRead(name: string, sequence: string, chrom: bool, plas: bool)
    requires '\t' !in name && '\t' !in sequence
    ensures LineNodes(Render(Segment(name, sequence, Colour(chrom, plas)))) == {name}
    ensures ColourOf(Render(Segment(name, sequence, Colour(chrom, plas)))) ==
      match Colour(chrom, plas) case Some(c) => Some((name, c)) case None => None
  {
    var colour := Colour(chrom, plas);
    if colour.Some? {
      var c := colour.value;
      assert c == "#aaaa00" || c == "#00aa00" || c == "#aa0000";
      assert '\t' !in c && 'C' !in c;
    }
    SegmentLineRead(name, sequence, colour);
  }
}
