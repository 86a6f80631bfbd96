# bc_senderak: a verified model of the atom-graph scripts

The repository is a set of Python scripts for pangenome graphs whose nodes are *atoms*, that is
conserved blocks of sequence. Two file formats are involved.

- A `.geese` file is a tab-separated table with one line per atom occurrence:
  `genome  atom_nr  atom  strand  start  end`.
- A GFA file is a tab-separated graph. Its `S` lines declare segments and its `L` lines link two
  segments.

This project models the parts of the scripts that decide what is kept, removed, linked or written,
and proves what those parts promise.

- **filter_geese_iter.py** (modules `GeeseRecords`, `GeeseNeighbours`, `GeeseStats`, `GeesePairs`,
  `GeeseContext`, `GeesePipeline`).
  - It parses the `.geese` lines into the per-atom hit lists (`occ`) and the per-genome orders
    (`genome_order`).
  - It computes depth, duplication, first-hit length and the greedy unique-context count for each
    atom.
  - It removes atoms globally, over several passes, until a pass removes nothing.
  - It builds strand-aware IN/OUT neighbour sets.
  - It scans atom pairs of bounded span, using a prefix sum that lets it stop a row early.
  - It keeps each atom only in the genomes that show it in its best-supported strand-normalised
    context.
  - It rewrites the original lines as a filtered subsequence.
- **remove_segments.py** (`RemoveSegments`): drops listed segments and the links that touch them.
- **remove_segments_geese.py** (`RemoveSegmentsGeese`, with `GeeseLinks`): drops listed segments
  and all links, then relinks the segments that remain from the `.geese` order.
- **iterative_flag_te_candidates_with_geese.py** (`IterativeFlag`, with `GeeseLinks`): the line
  partition, the `S`-line filter and the removal rounds. The nodes flagged in each round are given
  as parameters.
- **atoms2gfa.py** (`AtomsToGfa`, `AtomsToGfaMain`): the atoms and FASTA readers, the class
  statistics and histogram, reverse complement, and the GFA emitter. The emitter writes one `S`
  line per included class. Its `L` lines bridge over excluded atoms. Colour tags come from
  chromosome and plasmid flags.
- **mark_atoms_with_both_loc.py** (`MarkAtoms`): lists the atom classes found both on a
  chromosome and on a plasmid sequence.
- **gfa2json.py** (`GfaToJson`): turns a GFA file and a `.geese` file into sorted node records and
  a link list. `ColourRoundTrip` shows that the colour atoms2gfa.py writes is the colour gfa2json.py
  reads back.

How the model represents the scripts:

- **Inputs and outputs.** Every input file is a `seq<string>` of lines as Python yields them,
  newline included. Every output file is a returned sequence of lines.
- **Dictionaries.** A Python dictionary whose insertion order matters is a `seq<Group<T>>` with
  distinct keys (module `Grouping`). A dictionary whose order is irrelevant is a Dafny `map`.
- **Crashes.** An `IndexError`, `KeyError` or `ValueError` that ends a script becomes a `None`
  result, with an exact condition for when it happens.
- **String operations.** `strip`, `split`, `rstrip`, `startswith`, `in` and `int` are modelled in
  module `Text`. Whitespace is the `str.isspace` set.

Shared utilities:

- `Seqs` provides `Filter`, `FilterMap`, `Collect`, subsequences and `Distinct`.
- `Text` provides `Split`/`Join` and `Strip`, the whitespace split, integer parsing and display,
  and a strict total order on strings for `sorted`.

## Model

| member | source | states |
|---|---|---|
| GeeseRecords.ParseGeese | filter_geese_iter.py:51-74 | `raw_lines` is every line with its newline stripped. `occ` and `genome_order` group, in file order, one hit and one placement for each non-`#` line with at least six tab fields and integer start and end. Lookups return exactly those entries. |
| GeeseRecords.ParseRecordLine | filter_geese_iter.py:62-73 | A tab-joined six-field record line with tab-free fields that does not start with `#` parses back to that record. |
| GeeseRecords.RecordLineFields | filter_geese_iter.py:64-67 | Such a line is no comment, and stripping and splitting it gives back the six fields. |
| GeeseStats.UniqueContextCount | filter_geese_iter.py:89-96 | For any iteration order of the pair set, the count is the length of a greedy cover. The chosen pairs have pairwise different predecessors and successors, and every other pair is blocked by a chosen one. The count lies between 1 and the number of pairs when the set is non-empty. |
| GeeseStats.ExtendChosen | filter_geese_iter.py:93-95 | Adding a pair to the chosen ones adds exactly its predecessor and its successor to the seen sets, and keeps every earlier block. |
| GeeseStats.ComputeUniqueContexts | filter_geese_iter.py:77-97 | An atom gets a count exactly when some genome order holds it. The count is a greedy cover of its raw (strand-blind) contexts, between 1 and the number of those contexts. |
| GeeseStats.CountContexts | filter_geese_iter.py:88-96 | One greedy count per atom of `raw`, whatever order is chosen. |
| GeeseStats.OccursProduces | filter_geese_iter.py:82-87 | Every atom that occurs in some order adds a context to `raw`. |
| GeeseStats.RevCompInvolution | filter_geese_iter.py:100-101 | `revcomp` keeps the length and is its own inverse on every string. |
| GeeseStats.CountGenomeOnce | filter_geese_iter.py:113-115 | A genome's count is at least 1 exactly when some hit lies in it. |
| GeeseStats.CountGenomeTwice | filter_geese_iter.py:113-116 | A genome's count is at least 2 exactly when two different hits lie in it. |
| GeeseStats.Duplicated | filter_geese_iter.py:113-116 | `dup` holds exactly when two different hits share a genome. |
| GeeseStats.BuildSegments | filter_geese_iter.py:103-124 | One segment per atom, in `occ` order. Each has the atom's name, its number of hits as depth, its first hit's `end - start` as length, and the duplication flag. |
| GeeseStats.AttachUniqueContexts | filter_geese_iter.py:292-293 | Each segment gets its atom's count, or 0 when the atom has none. |
| GeeseStats.FilterAtoms | filter_geese_iter.py:127-138 | An atom is removed exactly when one of its segments is duplicated and duplicates are removed, or is no longer than `max_length` with depth below `min_depth` and unique count above `max_unique`. The result holds only segment names. |
| GeeseNeighbours.CollectByAtom | filter_geese_iter.py:82-87 | A `defaultdict(set)` filled over all orders: an atom is a key exactly when some position of it contributes, and a value is in its set exactly when some position contributes it. |
| GeeseNeighbours.AddOrder | filter_geese_iter.py:84-87 | Adding one genome's order adds exactly what its positions contribute. |
| GeesePairs.ComputeInOut | filter_geese_iter.py:141-152 | `b` is in `OUT[a]` exactly when `b` sits one step forward from some occurrence of `a`, and in `IN[a]` exactly when one step backward. Forward means to the right on a `+` or any other strand and to the left on `-`. |
| GeesePairs.NeighbourOffsets | filter_geese_iter.py:146-151 | The OUT neighbour is the atom at offset `+1` (`-1` on `-`) and exists exactly when that position is in the order. The IN neighbour is likewise at the opposite offset. |
| GeesePairs.PrefixSums | filter_geese_iter.py:170-172 | `ps[t]` is the summed length of the first `t` atoms, with a missing atom counting 0, so `ps[j+1] - ps[i]` is the span from `i` to `j`. |
| GeesePairs.SpanMonotone | filter_geese_iter.py:178-179 | With non-negative lengths, the span only grows as `j` moves right. |
| GeesePairs.BreakStopsRow | filter_geese_iter.py:177-179 | Once the span exceeds `max_span`, no later `j` of that row could be recorded. |
| GeesePairs.ScanGenome | filter_geese_iter.py:167-181 | After one genome, the map holds what it held before plus exactly the `(a, b, between, genome)` entries the row scan finds in that genome. |
| GeesePairs.FindPairs | filter_geese_iter.py:154-182 | `contexts_map[(a,b)][between]` contains `g` exactly when the scan, with its `break`, finds that entry in `g`'s order. |
| GeesePairs.BreakIsExact | filter_geese_iter.py:173-181 | With non-negative lengths, a pair is recorded by the breaking scan exactly when it passes all three tests. |
| GeesePairs.PairScanExact | filter_geese_iter.py:170-181 | Soundness: every recorded entry comes from positions `i < j` of that genome, with `between = order[i+1..j-1]`, `|OUT[a]| >= min_in`, `|IN[b]| >= min_out` and `ps[j+1] - ps[i] <= max_span`. Completeness: with non-negative lengths, every such pair is recorded. |
| GeeseContext.SupportShows | filter_geese_iter.py:205-217 | Genome `g` supports context `c` of atom `x` exactly when `g` shows `x` in the strand-normalised context `c`. |
| GeeseContext.ContextTableSpec | filter_geese_iter.py:205-217 | `atom_ctx2gen` has each context once, in first-seen order. Each holds exactly its non-empty set of supporting genomes, and every shown context is in it. |
| GeeseContext.AtomContexts | filter_geese_iter.py:205-217 | The loop builds exactly that table. |
| GeeseContext.TabulateOrder | filter_geese_iter.py:217 | Dictionary insertion order is the order in which contexts are first seen. |
| GeeseContext.BestIsMaximal | filter_geese_iter.py:223-226 | The best context has maximal support among all contexts, and a context with equal support was first seen later. |
| GeeseContext.MisplacedMeans | filter_geese_iter.py:228-233 | An atom is marked in genome `g` exactly when it has a context and `g` shows it in some context other than the best. |
| GeeseContext.RemoveAtom | filter_geese_iter.py:219-233 | Marking one atom adds it exactly to the genomes that show it outside its best context. |
| GeeseContext.ApplyRemovals | filter_geese_iter.py:236-240 | Each genome order keeps exactly its entries whose atom is not marked for that genome, in order. |
| GeeseContext.RemovalsApplied | filter_geese_iter.py:236-240 | After the rewrite no order holds a marked atom, every unmarked entry stays, and each order is a subsequence of the old one. |
| GeeseContext.ContextFilter | filter_geese_iter.py:185-242 | `per_genome_rm[g]` contains `x` exactly when `x` is in some between-tuple and is misplaced in `g`. The orders are then filtered, with all marks applied after all pairs. |
| GeeseContext.SurvivorsShowOnlyBest | filter_geese_iter.py:228-240 | An atom of a between-tuple that stays in genome `g` is shown there only in its best context. |
| GeesePipeline.RewriteFinal | filter_geese_iter.py:245-258 | The rewrite writes exactly the lines its test keeps, in order. |
| GeesePipeline.RewriteSpec | filter_geese_iter.py:245-258 | The output is a subsequence of the raw lines. A line is kept exactly when `KeepLine` holds. `#` lines and lines with fewer than three tab fields are always kept. With nothing removed, the output is the input. |
| GeesePipeline.DropAtoms | filter_geese_iter.py:311-312 | Each order loses exactly the globally removed atoms of that pass. |
| GeesePipeline.FilterOutsideTwice | filter_geese_iter.py:311-312 | Removing one set and then another is removing their union, so passes compose. |
| GeesePipeline.RebuildOcc | filter_geese_iter.py:315-318 | The rebuilt `occ` has zero coordinates everywhere and has exactly the atoms the orders still hold. |
| GeesePipeline.GlobalPass | filter_geese_iter.py:290-302 | One pass builds one segment per atom of `occ`, with the unique count of the current orders, and removes what the rule removes. |
| GeesePipeline.GlobalFilter | filter_geese_iter.py:284-318 | The filter does the following: <br>• It runs at most `iterations` passes. <br>• Every pass but the last removes something. <br>• It stops early only at a pass that removes nothing. <br>• The passes remove disjoint sets whose union is `global_rm`. <br>• No order holds an atom of `global_rm`. <br>• The first pass uses the parsed `occ` and `genome_order`; every later pass reads the orders without what the earlier passes removed and `occ` rebuilt from them (`LaterPassOn`), so it sees length 0. |
| GeesePipeline.FilterOutcome | filter_geese_iter.py:284-318 | Once the loop stops, its history and state give `GlobalFilter`'s promises: each pass removes what the rule picks from its segments, the passes are disjoint, the orders are the parsed ones without `global_rm`, the first pass reads the parsed data, and every later pass reads the orders without what the earlier passes removed and `occ` rebuilt from them (`LaterPassOn`), so it sees length 0. |
| GeesePipeline.LaterPass | filter_geese_iter.py:315-318 | A pass after the first sees only zero lengths and never removes an atom already removed. |
| GeesePipeline.AtomLengths | filter_geese_iter.py:321-322 | The pair-scan lengths come from a fresh parse of the original lines. The keys are exactly the atoms with a first hit that were not removed globally, and each value is that first hit's `end - start`. |
| GeesePipeline.LengthOfAtom | filter_geese_iter.py:117-118 | The lengths map built from the segments gives each kept atom the length of its first hit. |
| GeesePipeline.ParseAndFilter | filter_geese_iter.py:279-318 | The parse and the global loop, stated on the input lines. The history satisfies `GlobalPasses`: <br>• at most `iterations` passes; <br>• every pass but the last removes something; <br>• an early stop only at a pass that removes nothing; <br>• disjoint pass removals whose union is `global_rm`; <br>• a first pass on the parsed `occ` and `genome_order`; <br>• every later pass reads the orders without what the earlier passes removed and `occ` rebuilt from them (`LaterPassOn`), so it sees length 0. <br>The orders are the parsed ones without `global_rm`. |
| GeesePipeline.Run | filter_geese_iter.py:279-333 | The whole script: <br>• The global passes satisfy `GlobalPasses`, as above: each pass reads the state the earlier ones left, and `global_rm` is the union of the disjoint pass removals. <br>• The output is the kept raw lines, a subsequence. <br>• `orders`, the orders the pair scan reads, are the parsed ones without `global_rm`. <br>• The lengths come from the fresh parse. <br>• The pair map is exactly what the scan finds. <br>• `per_genome_rm` is exactly the context filter's marks. <br>• `filtered`, the `genome_order` after `context_filter` rewrites it in place, is each scanned order without its genome's `per_genome_rm` atoms, in order. |
| RemoveSegments.LoadSegmentsToRemove | remove_segments.py:4-15 | Exactly the stripped, non-empty lines of the list file. |
| RemoveSegments.NamesAreStripped | remove_segments.py:12-14 | No loaded name is empty or has surrounding whitespace. |
| RemoveSegments.ProcessGfa | remove_segments.py:17-49 | The kept lines, newline stripped, in file order. |
| RemoveSegments.KeepsLine | remove_segments.py:29-48 | An `S` line is dropped exactly when it has at least two fields and field 1 is removed. An `L` line is dropped exactly when it has at least six fields and field 1 or 3 is removed. Every other line is kept. |
| RemoveSegments.ProcessGfaSpec | remove_segments.py:25-49 | The output is an order-preserving subsequence. With nothing to remove it equals the input, and filtering it again changes nothing. |
| RemoveSegments.ProcessGfaKeeps | remove_segments.py:29-48 | An input line survives exactly when the keep test holds of it. |
| RemoveSegments.KeptLinesAvoidRemoved | remove_segments.py:29-45 | No kept `S` line names a removed segment, and no kept six-field `L` line touches one. |
| RemoveSegmentsGeese.ProcessGfa | remove_segments_geese.py:18-44 | `s_lines` holds the `S` lines not removed and `other_lines` the lines that are neither `S` nor `L`, both in order. |
| RemoveSegmentsGeese.Route | remove_segments_geese.py:31-43 | Where one line goes. |
| RemoveSegmentsGeese.ProcessGfaPartition | remove_segments_geese.py:27-44 | Kept `S` lines, other lines and dropped lines together are the input, as a multiset. |
| RemoveSegmentsGeese.ProcessGfaLines | remove_segments_geese.py:32-43 | Every `L` line is dropped. An `S` line is dropped exactly when it has at least two fields and field 1 is removed. All other lines are kept. |
| RemoveSegmentsGeese.ValidSegments | remove_segments_geese.py:118-122 | `valid_segments` is field 1 of every kept `S` line with at least two fields. |
| RemoveSegmentsGeese.ValidSegmentsMeans | remove_segments_geese.py:118-122 | A name is valid exactly when some kept `S` line names it, and no valid name is a removed one. |
| RemoveSegmentsGeese.RemoveAndRelink | remove_segments_geese.py:109-136 | The output is the other lines, then the kept `S` lines, then duplicate-free new links. Those links are exactly the links of the valid, non-removed entries. |
| RemoveSegmentsGeese.NewLinksValid | remove_segments_geese.py:61-95 | Every new link joins two rows of one sample, in `atom_nr` order. Neither class is removed, and both name a kept `S` line. |
| GeeseLinks.SampleOf | remove_segments_geese.py:62-64 | The sample is `#name` or else `name`, and it is absent exactly when both are missing or empty. |
| GeeseLinks.RowEntrySpec | remove_segments_geese.py:61-76 | A row gives an entry exactly when it has a sample, a readable `atom_nr` and an accepted class. The entry carries that row's number, class and strand. |
| GeeseLinks.CollectSamples | remove_segments_geese.py:57-76 | `sample_order` groups the rows' entries per sample, in file order. |
| GeeseLinks.SamplesSpec | remove_segments_geese.py:57-76 | The samples are distinct. An entry is under a sample exactly when some row gives it. |
| GeeseLinks.SortByNrSpec | remove_segments_geese.py:81 | `sorted(..., key=atom_nr)` is sorted, is a permutation, and is stable: entries with equal `atom_nr` keep their order. |
| GeeseLinks.InsertStable | remove_segments_geese.py:81 | Inserting into a sorted list keeps the relative order of equal keys. |
| GeeseLinks.LinkSamples | remove_segments_geese.py:78-94 | The link set is the union over samples of the links between consecutive filtered entries. |
| GeeseLinks.LinkChain | remove_segments_geese.py:88-94 | One sample adds exactly the links of its consecutive pairs. |
| GeeseLinks.AllLinksMeans | remove_segments_geese.py:80-94 | A line is a link exactly when it joins consecutive entries of some sample's sorted, filtered list. |
| GeeseLinks.LinkEnds | remove_segments_geese.py:83-94 | Every link joins two non-removed entries of one sample, in `atom_nr` order. |
| GeeseLinks.ChainSorted | remove_segments_geese.py:81-87 | The filtered list is still sorted by `atom_nr`. |
| GeeseLinks.LinkLineFields | remove_segments_geese.py:93 | A link line splits into `L`, the two classes with their strands, and `0M`. |
| GeeseLinks.ChainLinksBound | remove_segments_geese.py:88-94 | A sample with at most one entry left yields no link, and `n` entries yield at most `n - 1` links. |
| GeeseLinks.AllLinksBound | remove_segments_geese.py:78-95 | The total number of links is at most the sum of `n_s - 1` over the samples. |
| GeeseLinks.BuildLinksFromGeese | remove_segments_geese.py:46-95 | The returned list is duplicate-free and holds exactly the links. |
| GeeseLinks.ListOf | remove_segments_geese.py:95 | `list(set)`: duplicate-free, with the same members. |
| GeeseLinks.LinkRows | remove_segments_geese.py:61-94 | Every link comes from two rows of one sample, with readable `atom_nr` in order and accepted, non-removed classes. |
| IterativeFlag.ReadGfa | iterative_flag_te_candidates_with_geese.py:6-19 | The three lists are the `S` lines, the `L` lines and the others, newline stripped, in order. |
| IterativeFlag.ReadGfaPartition | iterative_flag_te_candidates_with_geese.py:10-18 | Every line lands in exactly one list: together they are the input, as a multiset. |
| IterativeFlag.ReadGfaKinds | iterative_flag_te_candidates_with_geese.py:13-18 | Each list is a subsequence of the input and holds a line exactly when the line is of its kind. |
| IterativeFlag.FilterSLines | iterative_flag_te_candidates_with_geese.py:21-29 | The lines whose field 1 exists and is not removed, in order. |
| IterativeFlag.FilterSLinesSpec | iterative_flag_te_candidates_with_geese.py:21-29 | A line is kept exactly when it has at least two fields and field 1 is not removed. Lines with fewer fields are dropped, order is kept, and filtering twice is filtering once. |
| IterativeFlag.FilterSLinesGrow | iterative_flag_te_candidates_with_geese.py:163-170 | Filtering by a growing removal set composes: the last filter alone gives the same lines. |
| IterativeFlag.Rounds | iterative_flag_te_candidates_with_geese.py:124-175 | The loop runs every round unless one leaves no `S` line, and then stops at the first such round: every earlier round left some `S` line (`SegmentsLeft`). Then the `S` lines are the original ones never flagged. The links are duplicate-free and are exactly the `.geese` links without the flagged classes. |
| IterativeFlag.Run | iterative_flag_te_candidates_with_geese.py:110-184 | The script dies (None) exactly when a round is due and the graph read has no node, since `max` of the empty centrality map raises `ValueError` before the output is opened. Otherwise the written GFA is the other lines, then the `S` lines, then the links. With no round run these are the input's `S` and `L` lines. After some round the `S` lines are the input's never-flagged ones, the links are the distinct `.geese` links without a flagged class, and the rounds stop at the first that leaves no `S` line. |
| IterativeFlag.SurvivorsGiveNode | iterative_flag_te_candidates_with_geese.py:30-43 | A round after the first whose `S` lines are not empty builds a graph with a node, so only the first round can meet an empty graph. |
| AtomsToGfa.ReverseComplement | atoms2gfa.py:132-136 | The length is kept. |
| AtomsToGfa.ReverseComplementBases | atoms2gfa.py:132-136 | Only `A`, `C`, `G`, `T` and `N` come out, and a character that is no base after upper-casing becomes `N`. |
| AtomsToGfa.ReverseComplementInvolution | atoms2gfa.py:132-136 | On upper-case `ACGTN` strings, reverse complement is its own inverse. |
| AtomsToGfa.ReverseComplementCase | atoms2gfa.py:135 | Strings equal up to case give the same result. |
| AtomsToGfa.PySlice | atoms2gfa.py:100 | Python slicing: within bounds it is `s[a..b]`, it is never longer than `s`, and it is empty when `0 <= b <= a`. A negative bound counts from the end: for `-len(s) <= b < 0` the slice is `s[a..len(s)+b]`. |
| AtomsToGfa.ParseAtomLineOf | atoms2gfa.py:139-153 | A line written from an atom's fields with a whitespace separator parses back to that atom. |
| AtomsToGfa.ReadAtoms | atoms2gfa.py:197-209 | The atoms of the non-comment lines, in order. The result is None exactly when some non-comment line cannot be parsed. |
| AtomsToGfa.ReadAtomsCount | atoms2gfa.py:203-208 | One atom per non-comment line, the `k`-th atom coming from the `k`-th such line. |
| AtomsToGfa.HeaderNameField | atoms2gfa.py:174-175 | The name is the first whitespace field without its `>`. |
| AtomsToGfa.ReadFasta | atoms2gfa.py:156-194 | Every header name gets a sequence, a chromosome flag and a plasmid flag, all from its last header. The sequence is the stripped body lines up to the next header, joined. The flags are `chromosome=true` and `plasmid=true` in that header line. Text before the first header belongs to no sequence. |
| AtomsToGfa.ReadHeader | atoms2gfa.py:174-185 | How a header sets the name and both flags. |
| AtomsToGfa.StoredClosed | atoms2gfa.py:168-170 | The block stored when a header arrives is the one of the last header of its name so far. |
| AtomsToGfa.FastaKeys | atoms2gfa.py:156-194 | The three maps end with the same names. |
| AtomsToGfa.ClassStats | atoms2gfa.py:51-63 | `atomstats` maps each class to its number of atoms. `atchrom[c]` and `atplas[c]` hold exactly when some atom of `c` lies on a chromosome or plasmid sequence. |
| AtomsToGfa.CountAtom | atoms2gfa.py:52-63 | One atom counts once more for its class and may flag it. |
| AtomsToGfa.Histogram | atoms2gfa.py:66-70 | `hist[c]` is the number of classes with exactly `c` atoms. `len(hist)` is the largest count plus one, or 0 with no class. The entries sum to the number of classes. |
| AtomsToGfa.Pad | atoms2gfa.py:68-69 | The `while` loop appends zeros until index `count` exists, and no further. |
| AtomsToGfa.HistSum | atoms2gfa.py:66-70 | The entries add up to the number of classes counted. |
| AtomsToGfaMain.WriteGfa | atoms2gfa.py:84-129 | The output loop writes exactly the lines of `Output`, or dies exactly where `Output` says. |
| AtomsToGfaMain.WriteAtom | atoms2gfa.py:85-129 | One atom writes its lines and updates `used_classes` and `last_included_per_seq`. |
| AtomsToGfaMain.NewSegment | atoms2gfa.py:98-114 | The `S` line of a class: the atom's slice of its sequence, reverse-complemented on `-`, with the class colour. |
| AtomsToGfaMain.NewLink | atoms2gfa.py:118-126 | The `L` line from the last included atom of the same sequence, if there is one. |
| AtomsToGfaMain.OutputAborts | atoms2gfa.py:100 | The script dies exactly when the first included atom of some class names a sequence the FASTA file lacks. |
| AtomsToGfaMain.OutputDies | atoms2gfa.py:84-129 | Once a line cannot be written, nothing more is. |
| AtomsToGfaMain.UsedClasses | atoms2gfa.py:92-99 | The classes that get an `S` line are exactly those that occur, are within the cutoff and are not excluded. |
| AtomsToGfaMain.SegmentsOnce | atoms2gfa.py:98-114 | Each used class has exactly one `S` line, and no other class has one. |
| AtomsToGfaMain.SegmentSource | atoms2gfa.py:98-114 | Each `S` line is the segment of the first included atom of its class. |
| AtomsToGfaMain.LastIncludedMeans | atoms2gfa.py:92-129 | `last_included_per_seq[n]` is the last included atom of sequence `n` so far, so skipped atoms never update it. |
| AtomsToGfaMain.LinkSource | atoms2gfa.py:118-126 | Each `L` line joins two consecutive included atoms of one sequence, bridging over the skipped ones. |
| AtomsToGfaMain.LinkWritten | atoms2gfa.py:118-126 | Two consecutive included atoms of one sequence are always joined by an `L` line, so only the first included atom of a sequence has none. |
| AtomsToGfaMain.RenderAll | atoms2gfa.py:114-126 | One text line per output record. |
| AtomsToGfaMain.CountMap | atoms2gfa.py:51-53 | The counts map has exactly the classes as keys. |
| AtomsToGfaMain.CountsMap | atoms2gfa.py:51-53 | The statistics loop's counts are that map. |
| AtomsToGfaMain.Run | atoms2gfa.py:29-129 | The whole script: <br>• The exclusion list is the stripped non-empty lines. <br>• The FASTA file is read as `ReadFasta` says. <br>• A histogram exists exactly when the atoms file parses. <br>• The histogram is the class-count histogram. <br>• The GFA lines are the rendered `Output`. |
| MarkAtoms.ParseFasta | mark_atoms_with_both_loc.py:4-25 | Every sequence with a header gets the type of its last header. `chromosome=true` wins over `plasmid=true`, and a header with neither gives no type. The result is None exactly when a header line has no token after `>`. |
| MarkAtoms.HeaderLine | mark_atoms_with_both_loc.py:13-24 | One header sets its first token's type. |
| MarkAtoms.LastForMeans | mark_atoms_with_both_loc.py:11-24 | The last header of a sequence is a header for it, and no later line is. |
| MarkAtoms.SeqTypeOf | mark_atoms_with_both_loc.py:15-24 | A typed sequence's type comes from a header whose first token is its id. |
| MarkAtoms.Untyped | mark_atoms_with_both_loc.py:11-12 | A sequence without a header has no entry. |
| MarkAtoms.HeaderIdOf | mark_atoms_with_both_loc.py:15-17 | The sequence id is the first whitespace token after `>`. |
| MarkAtoms.ParseGeese | mark_atoms_with_both_loc.py:27-49 | The first line is skipped and so are blank lines. The result is None exactly when another line has fewer than three fields. `atom_dict` records, in first-seen order, the set of types of the typed sequences each atom occurs on. |
| MarkAtoms.GeeseLine | mark_atoms_with_both_loc.py:36-48 | The body of the loop for one line. |
| MarkAtoms.DictValues | mark_atoms_with_both_loc.py:44-48 | Every key of `atom_dict` has a non-empty set of types and comes from some line of a typed sequence. |
| MarkAtoms.EntriesFrom | mark_atoms_with_both_loc.py:34-48 | An (atom, type) pair is recorded exactly when some line after the first gives it. |
| MarkAtoms.KeyOrderSpec | mark_atoms_with_both_loc.py:46-47 | The dictionary's keys are distinct and are exactly the atoms recorded. |
| MarkAtoms.SelectBoth | mark_atoms_with_both_loc.py:56-58 | The atoms written, in dictionary order: those with both types. |
| MarkAtoms.MarkedBoth | mark_atoms_with_both_loc.py:55-58 | Each atom is written at most once, and exactly when it occurs on some chromosome-typed and some plasmid-typed sequence. |
| MarkAtoms.Run | mark_atoms_with_both_loc.py:51-58 | The whole script. It dies exactly when either parser does. Otherwise it writes each atom at most once, exactly when it is seen on both a chromosome and a plasmid sequence, and in the first-seen key order of `atom_dict`. |
| MarkAtoms.MarkedOrder | mark_atoms_with_both_loc.py:55-58 | The output loop over `atom_dict` writes the atoms seen on both types, filtered from the first-seen key order of the entries. |
| GfaToJson.Before | gfa2json.py:14 | `split("CL:z:")[1]`: the text after the marker and before its next occurrence. It is a prefix. |
| GfaToJson.BeforeAll | gfa2json.py:14 | Text without the marker is taken whole. |
| GfaToJson.ExtractColorMeans | gfa2json.py:7-15 | The result is None exactly when no tag starts with `CL:z:`. Otherwise it is the value of the first such tag. |
| GfaToJson.ReadGeeseForUsage | gfa2json.py:17-31 | `node_to_genomes` maps each atom to exactly the genomes of its non-`#` lines with at least six tab fields. |
| GfaToJson.UsageMeans | gfa2json.py:22-30 | A genome is in an atom's set exactly when some such line names both. |
| GfaToJson.ReadGfa | gfa2json.py:33-62 | The result is None exactly when a non-blank `S` line has no field 1 or an `L` line has no field 3. Otherwise it gives the node set of `S` and `L` lines, the edges of the `L` lines in order with duplicates, and the colour map. |
| GfaToJson.GfaLine | gfa2json.py:45-61 | The body of the loop for one line, blank lines skipped. |
| GfaToJson.NodesOfMeans | gfa2json.py:49-61 | A name is a node exactly when some `S` line declares it or some `L` line mentions it. |
| GfaToJson.EdgeEnds | gfa2json.py:59-61 | Both ends of every edge are nodes. |
| GfaToJson.LastValueMeans | gfa2json.py:56 | In a dictionary filled by assignments, a key is present exactly when it was assigned, and its value is one of its assignments. |
| GfaToJson.ColourMapMeans | gfa2json.py:49-56 | An id has a colour exactly when some `S` line of that id has a non-empty `CL:z:` value among fields 3 and later. A colour is never empty. |
| GfaToJson.SortedIds | gfa2json.py:80 | `sorted(node_set)`: strictly increasing, with exactly the set's members. |
| GfaToJson.SortedUnique | gfa2json.py:80 | Two strictly sorted lists with the same members are equal, so `sorted` has one result. |
| GfaToJson.BuildNodes | gfa2json.py:79-88 | One node record per id, in sorted order. `usageValue` is the number of genomes of the id, 0 when absent. `color` is present exactly when the id is in `color_map`. |
| GfaToJson.Run | gfa2json.py:64-107 | The whole script: <br>• Output exists exactly when the GFA file reads. <br>• The links are the edges in file order. <br>• The node ids are the sorted node set. <br>• Usage is the number of distinct genomes. <br>• The colour is the one last assigned. |
| ColourRoundTrip.SegmentLineRead | gfa2json.py:49-56 | A segment line written by atoms2gfa.py declares exactly its class as a node in gfa2json.py, which reads back its colour, or none when no colour was written. |
| ColourRoundTrip.SegmentColourRead | atoms2gfa.py:104-114 | The colour atoms2gfa.py gives a class is the colour gfa2json.py reads from its `S` line: `#aaaa00` on both kinds, `#00aa00` on chromosomes only, `#aa0000` on plasmids only, none otherwise. |

## Left out

- **Program plumbing.**
  - Command-line parsing, logging and progress printing.
  - Stderr histogram printing and cumulative statistics.
  - Opening, reading and writing of files. Files are line sequences in and out.
- **Line reading.** Universal-newline translation is not modelled. A line is taken as Python hands
  it over, with its final `\n`.
- **Graph metrics.** networkx graph building, betweenness centrality and the thresholds of
  iterative_flag_te_candidates_with_geese.py (126-162) are library calls over floating point.
  `IterativeFlag.Rounds` takes the nodes each round flags as a parameter.
- **Other scripts.** The plotting and scoring scripts (score_graph.py, score_gfa.py,
  gfa_vertex_table.py, plot_destribution.py) are not part of this model.
- **JSON serialisation.** `json.dump` in gfa2json.py is left out. `GfaToJson.Run` returns the node
  records and links before serialisation.
- **Unused computation in gfa2json.py.** `usage_vals` at line 76 is computed and never used. Its
  only effect is key insertion into the defaultdict, which changes no output.
- **FASTA reading and sequence extraction in filter_geese_iter.py.** The code at 35-48 and
  119-122 and the `seq` field of `GfaSegment` are left out. The only decision they can affect is
  an abort: `read_fasta` runs before anything else (line 278), and a FASTA header with no name
  (a line `>` or `>` followed only by whitespace) raises `IndexError` at line 44, so
  filter_geese_iter.py writes nothing. GeesePipeline.Run does not model this abort: it has no
  FASTA input and always returns output. The extraction at 119-122 is guarded by `if g0 in seqs`
  and cannot crash. `GeeseStats.RevComp` is modelled on its own.
- **`csv.DictReader` and `int(float(...))`.**
  - The header handling and the float parsing in both `build_links_from_geese` become an abstract
    `Row` whose `atomNr` is an optional integer.
  - GeeseLinks.RowEntrySpec: a row lacking the `class` or `strand` column, which would raise
    `KeyError` in the source, is not modelled; `Row` always carries both.
- **Order of `list(set)`.** The order of `list(new_l_lines_set)` is unspecified. The model only
  states that the list is duplicate-free and has the set's members.
- **Python set iteration order.**
  - In `compute_unique_contexts` and `context_filter` it is modelled by arbitrary choice (`:|`), so
    every proved fact holds for every order.
  - GeeseStats.UniqueContextCount: the exact count depends on that order, as in the source. Only
    its bounds and its greedy-cover property are stated.
- **String functions restricted to ASCII.**
  - `int()` is modelled with optional surrounding whitespace, a sign and ASCII digits. Underscores
    and non-ASCII digits are not accepted.
  - AtomsToGfa.ReverseComplement: `str.upper()` is modelled on ASCII letters only. Unicode case
    mappings are left out.
- **Crashes.**
  - The script crashes are the `IndexError` on a short line; the `KeyError` on an unknown sequence
    in atoms2gfa.py; the `ValueError` of `int()` in atoms2gfa.py; and the missing fields in
    gfa2json.py and mark_atoms_with_both_loc.py.
  - A FASTA header with no name crashes filter_geese_iter.py before any output;
    GeesePipeline.Run does not model this abort (see the FASTA item above).
  - In iterative_flag_te_candidates_with_geese.py, a first round on a graph with no node finds no
    candidate, and `max(bc, key=bc.get)` at line 149 raises `ValueError` on the empty map before
    anything is written. IterativeFlag.Run returns None exactly then.
  - Each becomes a `None` result. None is also given where the real script would already have
    written part of its output.
- **Output records.** The atoms2gfa.py output is built as `GfaLine` records and rendered to text
  by `AtomsToGfaMain.RenderAll`.
- **`sorted()` in gfa2json.py.** `GfaToJson.SortedIds` is a selection sort on the strict code-point
  order of strings, which is Python's string order. It is specified by its unique result rather
  than by the algorithm Python uses.
- **Assumed invariant in mark_atoms_with_both_loc.py.** MarkAtoms.SelectBoth requires that every
  listed atom is a key of `atom_dict`. In the script this holds by construction. `MarkAtoms.Run`
  establishes it from `ParseGeese`.
- **Round-trip precondition.** ColourRoundTrip.SegmentLineRead requires tab-free names and
  sequences. A tab inside either would shift the fields, and atoms2gfa.py does not guard against
  it.
