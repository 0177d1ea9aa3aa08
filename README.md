# lcl-toolkit in Dafny

A model of the core of lcl-toolkit, a set of scripts for locally checkable
labelling problems on grids. The model covers four parts:

- **Tile generation** (`generate_tiles.py`). A *k-tile* of width w and
  height h is a set of anchor points in [0, w) x [0, h). Any two anchors are
  meant to be more than Manhattan distance k apart, and the tile must be
  completable outside its borders. The program does not always keep the
  first condition: a row forced by the lookahead wins over a row forbidden
  by a nearby anchor (`Extend.ForcedOverridesForbidden`).
  - `create_columns` builds every valid column.
  - `extend_valid` adds one admissible column to a partial tile.
  - A worklist in `main` grows tiles column by column.
  - `cnfsat_verify` asks a SAT solver whether phantom anchors outside the
    tile can dominate every exposed zero near its border without coming
    within k of each other or of the tile's anchors.
- **Tile codes** (`lcl_utils.py`). A tile of width `width` becomes an
  integer with bit `x + y * width` set for every point (x, y). The model
  covers decoding and transposition too.
- **Tile graph** (`tile2graph.py`). Each vertical tile yields an S edge and
  an N edge between the codes of its top and bottom halves. Each horizontal
  tile yields an E edge and a W edge between its west and east halves.
- **Labelling solver** (`solver.py`). It finds `bitcount`-bit labels for the
  nodes of such a graph so that no edge carries a banned pair of labels in
  its direction. It writes one clause per (edge, banned pair), calls the
  SAT solver, and decodes the model.

Modules:

- `Geometry`: points, Manhattan balls, areas.
- `Columns`: column generation.
- `Extend`: one-column extension; the row-eligibility array is a Dafny
  `array<int>`, as in the source.
- `Search`: the worklist.
- `Exposure`: exposed zeros, the exclusion set, neighbourhoods.
- `Cnf`: clauses and their meaning.
- `Completability`: `cnfsat_verify` and the filter of finished tiles.
- `Bits`, `Codec`: powers of two, bits, tile codes.
- `TileGraph`: edge emission.
- `Labeling`: the solver.
- `Sets`: finite-set sums and enumeration.

The SAT solver is a function parameter `solve: seq<seq<int>> -> SatAnswer`.
Correctness results are stated two ways:

- about satisfiability of the clause list itself (`Cnf.Satisfiable`);
- under the hypothesis `Decides(solve, cnf)`, i.e. the solver answers
  "UNSAT" exactly when nothing satisfies the list.

Iteration over Python sets and dicts has no fixed order. The model
enumerates such collections in an arbitrary order (`Sets.Enumerate`, or
`:|`), and every contract holds for every order.

Where the code and its description differ, the model follows the code.

- **Backward scan of `create_columns`** (`generate_tiles.py:79`). The test
  `i in col == 1` is a chained comparison and is always false. After the
  scan meets a marked row, the cooldown counter therefore goes negative and
  never returns to 0. As a result, only rows above every marked row are
  accepted. `Columns.BackwardRows` models this. The set of columns produced
  is still exactly the valid columns, because every valid column is its own
  lower part plus a new highest row (`Columns.ParentScans`).
- **`accepted_post.update(col, {i})`** (`generate_tiles.py:70`). This also
  adds the rows of `col` itself, and `Columns.ScanForward` states that.
- **Unused parameters.** `extend_valid`'s `max_width` is unused, and so is
  `nondominated_zero_neighborhoods`' `exclusionset`.

## Model

| member | source | states |
|---|---|---|
| Geometry.Manhattan | generate_tiles.py:157-158 | the distance is zero exactly for equal points and is the sum of the absolute coordinate differences |
| Geometry.GetManhattan | generate_tiles.py:153-155 | the points returned are exactly those within Manhattan distance k of the centre |
| Columns.ScanForward | generate_tiles.py:65-74 | the forward scan accepts exactly the unmarked rows more than k after every marked row before them, together with the whole column |
| Columns.ScanBackward | generate_tiles.py:75-82 | the backward scan, with the always-false test of line 79, accepts exactly the rows above every marked row, together with the whole column |
| Columns.ChildValid | generate_tiles.py:84 | adding a row both scans accept to a valid column gives a valid column |
| Columns.ParentScans | generate_tiles.py:63-84 | every non-empty valid column is a valid column one row shorter plus a highest row that both scans accept |
| Columns.ColumnSizeBound | generate_tiles.py:60 | a valid column has at most ceil(n / (k+1)) rows, so that many rounds suffice |
| Columns.GrowColumn | generate_tiles.py:63-84 | growing one column yields only valid columns and every valid column whose lower part is that column |
| Columns.GrowAll | generate_tiles.py:61-86 | one round yields only valid columns and every valid column one row longer than a column of the previous round |
| Columns.CreateColumns | generate_tiles.py:54-87 | the result is exactly the set of valid columns: rows in [0, n), pairwise more than k apart, the empty column included |
| Extend.Place | generate_tiles.py:90 | a placed column holds exactly the points (x, y) for y in the column |
| Extend.MarkCloseRows | generate_tiles.py:98-108 | the scan down the new column marks -1 exactly the rows within k of the anchor and leaves the other rows unchanged, even with the early break |
| Extend.MarkForbiddenRows | generate_tiles.py:95-108 | after the first pass a row holds -1 exactly when some anchor is within k of its cell in the new column, and 0 otherwise |
| Extend.CloseCandidates | generate_tiles.py:114-119 | the delete set is exactly the candidates within k of the anchor |
| Extend.ForcedCells | generate_tiles.py:109-122 | the surviving candidates are exactly the lookahead cells that no anchor covers: the rows that must be marked |
| Extend.MarkForcedRows | generate_tiles.py:109-124 | after the second pass the forced rows hold 1 and every other row keeps its value |
| Extend.UncoveredStep | generate_tiles.py:113-120 | one more anchor removes exactly the lookahead cells within k of it, and none when it lies left of column tilewidth-2k-1 |
| Extend.UncoveredAreForced | generate_tiles.py:112-122 | the cells left after the anchor loop are exactly the forced cells |
| Extend.UncoveredShrinks | generate_tiles.py:113-122 | more anchors never leave more cells uncovered |
| Extend.FarAnchorsCoverNothing | generate_tiles.py:116 | the x filter on anchors changes nothing: a far anchor covers no lookahead cell |
| Extend.FilterColumns | generate_tiles.py:125-135 | the kept columns are exactly the placed candidates that mark no -1 row and leave no 1 row unmarked |
| Extend.FitsIffAdmissible | generate_tiles.py:125-133 | the row test on the marked array holds exactly when the column's rows are admissible: no row within k of an anchor unless it is forced, every forced row marked |
| Extend.ForcedOverridesForbidden | generate_tiles.py:97-135 | the 1 written at line 124 overwrites the -1 of line 105, so an extension can hold two anchors within k: the anchor (5, 5) and the new (6, 3) for k = 3 |
| Extend.ExtensionColumn | generate_tiles.py:139 | each extension is the old tile plus one admissible candidate column at x = tilewidth-1 |
| Extend.ExtensionsShape | generate_tiles.py:136-140 | every extension keeps the old anchors and adds points only in the new column; there are none exactly when no candidate is admissible |
| Extend.ExtensionsBound | generate_tiles.py:139 | there are no more extensions than candidate columns |
| Extend.ExtendValid | generate_tiles.py:89-140 | the tiles returned are exactly the old tile joined with each admissible candidate column placed at x = tilewidth-1 |
| Search.CompletionsOfMembers | generate_tiles.py:41 | the completions of a list of partial tiles are those of its members |
| Search.PendingLift | generate_tiles.py:41 | pushing partial tiles adds exactly their completions to what the stack still has to deliver |
| Search.StartsPending | generate_tiles.py:27-30 | the initial stack of one-column tiles has to deliver every candidate tile |
| Search.PopStep | generate_tiles.py:35-41 | popping an entry and taking its extensions one column wider loses no completion and adds none |
| Search.WeightLift | generate_tiles.py:41 | pushing entries adds their weights to the termination measure |
| Search.PushLighter | generate_tiles.py:35-41 | replacing an entry by at most b-1 entries one column wider lowers the measure, so the loop ends |
| Search.CompletionsInBounds | generate_tiles.py:34-41 | every tile the search completes lies in [0, w) x [0, h) |
| Search.CompletionsColumns | generate_tiles.py:34-41 | every column of a completed tile is a candidate column |
| Search.FinishKeeps | generate_tiles.py:37-39 | collecting finished tiles keeps every tile accounted for and lightens the stack |
| Search.PushKeeps | generate_tiles.py:40-41 | pushing wider tiles keeps every tile accounted for and lightens the stack |
| Search.CandidatesShape | generate_tiles.py:27-41 | every candidate tile lies in the w x h box, and each of its w columns is a valid column |
| Search.ExtendEntry | generate_tiles.py:36 | one entry's extensions, listed, carry exactly the completions the entry stood for |
| Search.RunWorklist | generate_tiles.py:34-41 | the finished list holds exactly the completions of the initial stack |
| Search.GenerateCandidates | generate_tiles.py:27-41 | the finished tiles are exactly the w-column tiles built from admissible valid columns; they lie in the box, and every column is valid |
| Search.NeverFinishes | generate_tiles.py:37 | for w <= 1 the finish test never holds, because every entry has width at least 1 |
| Search.AlwaysExtends | generate_tiles.py:34-41 | for h <= 2k the empty column is a valid column admissible for every tile, so every popped entry is pushed back one column wider |
| Exposure.Box | generate_tiles.py:145 | the product of the two ranges is the cells of [0, width) x [0, height) |
| Exposure.Border | generate_tiles.py:145-146 | the filtered cells are those of the tile within k of its border, the right edge taken at max_width |
| Exposure.GetNondominatedZeroes | generate_tiles.py:142-151 | the result is exactly the border cells farther than k from every anchor, early break included |
| Exposure.NoAnchorExposed | generate_tiles.py:142-151 | no anchor is an exposed zero |
| Exposure.ExposedAntitone | generate_tiles.py:142-151 | more anchors leave fewer exposed zeros |
| Exposure.OuterBall | generate_tiles.py:168-169 | the cells kept are exactly those outside the tile within k of the point |
| Exposure.ExclusionAdd | generate_tiles.py:175-177 | one more anchor adds exactly its outer ball to the exclusion set |
| Exposure.GetExclusionSet | generate_tiles.py:173-178 | the loop computes the union of the anchors' outer balls |
| Exposure.ExclusionMembers | generate_tiles.py:173-178 | a cell is excluded exactly when it lies outside the tile and within k of an anchor |
| Exposure.NondominatedZeroNeighborhoods | generate_tiles.py:165-170 | the map has one entry per exposed zero, holding the cells outside the tile within k of it |
| Cnf.ClauseMeaning | generate_tiles.py:206-215 | a clause written for a reason is satisfied exactly when the cells set true meet the reason |
| Cnf.DecodeEncode | generate_tiles.py:196-200 | numbering cells and reading them back is the identity |
| Cnf.ListMeaning | generate_tiles.py:202-216 | a clause list is satisfied exactly when the cells set true meet every reason |
| Completability.NothingExposed | generate_tiles.py:186-187 | a tile without exposed zeros needs no outside anchor and is completable |
| Completability.StrandedZero | generate_tiles.py:193-195 | an exposed zero without candidate cells makes the tile not completable |
| Completability.DominatorIsCandidate | generate_tiles.py:188-192 | in any completion each exposed zero is dominated by one of its candidate cells |
| Completability.AssignIds | generate_tiles.py:196-200 | the cells get ids one-to-one into 1..N |
| Completability.ListIds | generate_tiles.py:206 | the clause lists exactly the ids of the zero's candidates |
| Completability.PairClauses | generate_tiles.py:212-215 | one handled cell gets one clause for every other close cell not handled yet, and no others |
| Completability.PairsOnceAppend | generate_tiles.py:207-216 | no unordered pair of cells gets two clauses |
| Completability.PairsStep | generate_tiles.py:207-216 | handling one more cell keeps every close pair among handled cells covered by a clause |
| Completability.HandleCells | generate_tiles.py:207-216 | after a zero's cells every one is handled, and the pair invariant holds |
| Completability.Covered | generate_tiles.py:198 | the union of the neighbourhoods is exactly the cells listed in them |
| Completability.BuildCnf | generate_tiles.py:202-216 | the list has one candidate clause per zero and a pair clause for every close pair of numbered cells |
| Completability.ZeroStep | generate_tiles.py:204-206 | appending a zero's candidate clause keeps the list written and the pair invariant |
| Completability.ZeroStepDone | generate_tiles.py:204-216 | after zero i the candidate clauses are those of the first i + 1 zeros |
| Completability.CnfMeaning | generate_tiles.py:196-216 | the clause list is satisfiable exactly when the tile is completable |
| Completability.PhantomOf | generate_tiles.py:198 | every numbered cell is a candidate of some exposed zero |
| Completability.SatisfiedCompletes | generate_tiles.py:202-216 | cells meeting every reason complete the tile |
| Completability.SatisfiedDominates | generate_tiles.py:206 | cells meeting every candidate clause dominate every exposed zero |
| Completability.SatisfiedApart | generate_tiles.py:212-215 | numbered cells meeting every pair clause are pairwise farther than k |
| Completability.PairClauseOf | generate_tiles.py:212-215 | two close numbered cells have a pair clause in one order or the other |
| Completability.CompletesMeetsReasons | generate_tiles.py:202-216 | the cells of a completion meet every reason |
| Completability.CnfsatVerify | generate_tiles.py:182-221 | returns the tile or None; the tile when nothing is exposed; None when a zero is stranded; otherwise the tile iff the solver does not say UNSAT, and then the clauses are satisfiable iff the tile is completable |
| Completability.CandidateCells | generate_tiles.py:188-192 | each exposed zero is paired with exactly its candidate cells |
| Completability.FirstStranded | generate_tiles.py:193-195 | the position found is the first zero without candidates, or the end |
| Completability.PhantomCnf | generate_tiles.py:196-216 | the clauses written are satisfiable exactly when the tile is completable |
| Completability.CoveredIsPhantoms | generate_tiles.py:198 | the cells listed are exactly the candidate cells of the exposed zeros |
| Completability.NoneStranded | generate_tiles.py:193-195 | when the loop finds no empty neighbourhood, no exposed zero is stranded |
| Completability.NeighborhoodsAre | generate_tiles.py:189-192 | the sorted list pairs each exposed zero with exactly its candidate cells |
| Completability.KeepCompletable | generate_tiles.py:43-46 | the valid tiles are finished tiles, and with a correct solver they are exactly the completable ones |
| Codec.TileToInt | lcl_utils.py:4-5 | the reduction computes the sum of 2**(x + y*width) over the tile |
| Codec.IntToTile | lcl_utils.py:8-15 | the loop returns the point (i % width, i // width) for every set bit i of the code |
| Codec.TileBelowDone | lcl_utils.py:11 | once 2**index exceeds the code no set bit is left |
| Codec.TileOfMembers | lcl_utils.py:8-15 | a decoded point lies within the width, and it is in the tile exactly when its bit is set |
| Codec.SlotsDistinct | lcl_utils.py:5 | within the width no two points share a bit |
| Codec.CodeBits | lcl_utils.py:4-5 | bit x + y*width of a tile's code is set exactly when (x, y) is in the tile |
| Codec.DecodeEncode | lcl_utils.py:4-15 | decoding the code of a tile within the width gives the tile back |
| Codec.EncodeDecode | lcl_utils.py:4-15 | encoding the tile decoded from a natural gives the natural back |
| Codec.CodeInjective | lcl_utils.py:4-5 | tiles within the width with equal codes are equal |
| Codec.EmptyCodes | lcl_utils.py:4-15 | the empty tile is code 0 and code 0 is the empty tile |
| Codec.Transpose | lcl_utils.py:17-18 | (x, y) is in the result exactly when (y, x) is in the tile |
| Codec.TransposeInvolution | lcl_utils.py:17-18 | transposing twice gives the tile back |
| Codec.TransposeCard | lcl_utils.py:17-18 | transposing keeps the number of points |
| TileGraph.TopHalf | tile2graph.py:47 | the top half holds exactly the points with y < height |
| TileGraph.BottomHalf | tile2graph.py:48 | the bottom half holds exactly the points with y > 0, moved up one row |
| TileGraph.WestHalf | tile2graph.py:54 | the west half holds exactly the points with x < width |
| TileGraph.EastHalf | tile2graph.py:55 | the east half holds exactly the points with x > 0, moved left one column |
| TileGraph.VerticalOverlap | tile2graph.py:47-48 | on the rows they share, the two halves of a vertical tile agree |
| TileGraph.HorizontalOverlap | tile2graph.py:54-55 | on the columns they share, the two halves of a horizontal tile agree |
| TileGraph.EmitEdges | tile2graph.py:44-57 | the edge list is the vertical tiles' pairs followed by the horizontal tiles' pairs |
| TileGraph.EmitVertical | tile2graph.py:46-50 | each vertical tile appends its S edge and then its N edge |
| TileGraph.EmitHorizontal | tile2graph.py:53-57 | each horizontal tile appends its E edge and then its W edge |
| TileGraph.EdgeCount | tile2graph.py:46-57 | there are two edges per tile |
| TileGraph.VerticalReverseClosed | tile2graph.py:49-50 | every vertical edge comes with its reverse in the opposite direction |
| TileGraph.HorizontalReverseClosed | tile2graph.py:56-57 | every horizontal edge comes with its reverse in the opposite direction |
| TileGraph.EdgesReverseClosed | tile2graph.py:46-57 | every edge comes with its reverse, so every target is also a source |
| TileGraph.VerticalPairDecodes | tile2graph.py:47-50 | the codes of a vertical pair decode to the two halves, and the second edge is the first reversed |
| TileGraph.HorizontalPairDecodes | tile2graph.py:54-57 | the codes of a horizontal pair decode to the two halves, and the second edge is the first reversed |
| Labeling.InvertConstraints | solver.py:92-97 | under N and E, a pair is banned exactly when it is a pair of labels and is not allowed |
| Labeling.InvertTwice | solver.py:92-97 | inverting twice keeps exactly the allowed pairs of labels under N and E |
| Labeling.AssignKeys | solver.py:61-66 | each node gets a key, and the i-th node gets 1 + i*bitcount |
| Labeling.KeysOwnRanges | solver.py:61-66 | each node owns bitcount positive variables, and no two nodes share one |
| Labeling.BanClauseMeaning | solver.py:74-75 | a ban clause has 2*bitcount literals and is falsified exactly when the two nodes' variables spell the banned pair |
| Labeling.LabelInSpelled | solver.py:84-89 | the decoded label is below 2**bitcount, and the variables spell it |
| Labeling.SpelledLabelIn | solver.py:84-89 | variables spelling a label decode to that label |
| Labeling.BanClauseDecoded | solver.py:74-89 | a ban clause is falsified exactly when the two decoded labels are the banned pair |
| Labeling.GraphOf | solver.py:55-59 | the graph's sources are exactly the edges' sources, and each source's arcs are exactly its edges |
| Labeling.ClosedGraphTargets | solver.py:55-75 | when every target in the edge list is a source, every target in the graph is a source, so line 75 finds its key |
| Labeling.TileGraphTargets | tile2graph.py:44-57 | the edges tile2graph.py writes give a graph in which every target is a source |
| Labeling.EdgeClauses | solver.py:73-76 | one edge gets exactly one clause per banned pair of its direction |
| Labeling.NodeStep | solver.py:70-76 | appending one edge's clauses keeps the list written, distinct and accounted for |
| Labeling.NodeClauses | solver.py:70-76 | a source node gets the clauses of exactly its constrained edges; edges with no entry are skipped |
| Labeling.GraphStep | solver.py:69-76 | appending one node's clauses keeps the list written, distinct and accounted for |
| Labeling.BuildClauses | solver.py:68-76 | one distinct clause per constrained edge and banned pair, no others, and their total count |
| Labeling.ClausesMeaning | solver.py:68-76 | an assignment satisfies the list exactly when no constrained edge spells one of its banned pairs |
| Labeling.DecodeAll | solver.py:82-89 | every keyed node gets the label its variables spell |
| Labeling.DecodedProper | solver.py:68-89 | with banned pairs that are labels, an assignment satisfies the list exactly when its decoded labelling is proper |
| Labeling.SpelledPair | solver.py:74-89 | two spelled values are the two decoded labels |
| Labeling.EncodeSpells | solver.py:84-89 | the variables a labelling sets true spell each node's label |
| Labeling.DecodeEncodeLabels | solver.py:84-89 | encoding a labelling and decoding it gives it back |
| Labeling.SatisfiableIffLabelable | solver.py:68-78 | the clause list is satisfiable exactly when a proper labelling exists |
| Labeling.TrueVars | solver.py:87 | variable v is true exactly when position v-1 of the model holds v |
| Labeling.DecodeLabel | solver.py:84-89 | the loop computes the label the node's variables spell |
| Labeling.DecodeLabels | solver.py:82-89 | the labelling holds every node's decoded label |
| Labeling.KeysWithin | solver.py:61-66 | every node's last variable is at most the number of nodes times bitcount |
| Labeling.KeysAndClauses | solver.py:61-76 | the keys own disjoint ranges within the variables, and the clauses are exactly the ban clauses |
| Labeling.Solve | solver.py:45-89 | UNSAT exactly when the solver says so; a decoded labelling covers every node, lies in range, and is proper when the model satisfies the clauses; with a correct solver, UNSAT exactly when no proper labelling exists |
| Labeling.DecodedInRange | solver.py:84-89 | every decoded label is below 2**bitcount |

## Left out

- Command-line parsing, file reading and writing, `literal_eval`, `str` formatting and printing are left out in all four scripts. Tiles, edges and constraints are values.
- `pycosat.solve` is a function parameter. Its results are "UNSAT", "UNKNOWN" or a model.
- Iteration order of sets and dicts, and the order from `sorted` at `generate_tiles.py:191-192`, is arbitrary. The model states every result for every order. `Completability.NeighborhoodsAre` takes the sorted list as any listing.
- Integers are unbounded in both Python and Dafny, so no wrap-around needs modelling.
- The `-p` flag of `solver.py` (lines 35-36, 79-80) only prints "SAT" in place of the labelling, so it is not modelled.
- `transpose_tile` on the v_file when no h_file is given (`tile2graph.py:31-34`) is not modelled as a step. `Codec.Transpose` models the function itself.
- Codec.TileToInt: requires every point to have non-negative coordinates (`Codec.Natural`). Python also encodes points such as (-1, 1) at width 2, whose exponent x + y * width is still non-negative, and produces a float when some exponent is negative. Neither case is modelled. Every tile the other scripts pass in has non-negative coordinates.
- Codec.IntToTile: requires `width >= 1`. For width 0 Python returns the empty set when the code is at most 0, and raises ZeroDivisionError otherwise. Neither case is modelled.
- Codec.DecodeEncode: needs every point within [0, width). Points beyond the width alias other points' bits, as in the source.
- Labeling.Solve: the decoded labelling is shown proper only when the banned pairs are pairs of labels (`BannedInRange`). With `-i`, a pair outside [0, 2**bitcount) is written with its low bits only, as `>> i & 1` does, and so aliases another pair.
- Labeling.Solve: when the model is "UNKNOWN" or shorter than `|nodes| * bitcount`, the outcome is `Undecoded`. The source indexes into such a value, which raises IndexError or yields meaningless labels.
- Labeling.Solve: requires that the target of every edge with at least one banned pair in its direction is a source node (`Labeling.TargetsAreSources`). Otherwise line 75 raises KeyError. `Labeling.TileGraphTargets` shows that graphs from tile2graph.py always meet this.
- Search.GenerateCandidates: requires `w >= 2`. For w <= 1 every stack entry has width at least 1, so the finish test of line 37 never holds (`Search.NeverFinishes`) and no tile is ever finished. When moreover h <= 2k, every entry has an extension (`Search.AlwaysExtends`) and the loop never ends. Runs with w <= 1, which finish no tile, are not modelled.
- Finished tiles may hold two anchors within distance k of each other, when a forced row overrides a forbidden one (`Extend.ForcedOverridesForbidden`). The model keeps this behaviour of the source. `Completability.Completable` checks only the separation of the phantom anchors, as `cnfsat_verify` does, so such tiles can reach the output.
- Directions are N, E, S, W (`TileGraph.Dir`). A constraint file with another direction string is not modelled.
- Completability.AssignIds: states the ids as one-to-one into 1..N rather than spelling out the increasing counter of lines 196-200. Only distinctness and positivity matter to the clauses.
