# Verified model of the Franken code browser's analysis core

A Dafny model of the parts of the code browser whose results are claims about
bytes: the bounded diff, the streaming line reader, the outline extractors and
their navigation view, the reference scanner, the dependency-graph checkers and
the wire codecs. Each is modelled in the form the program has (loops over mutable
state are methods and classes, expression code is functions) and proved against a
description that does not mention the algorithm: the least cost of any edit
script, the unique window of lines, reachability along walks, the closest earlier
heading of lower level, maximal token runs, readers that undo the writers.

`dafny verify dfyconfig.toml` checks everything.

## How the files fit together

| files | component |
|---|---|
| `EditDistance`, `EditTrace`, `EditWork`, `Correspondences`, `Comparison` | `comparison.rs`: edit scripts and their least cost; the triangular trace and its invariants; what its cells are and cost; spans; the comparison itself |
| `LineWindow`, `LineReader` | `window.rs` and `lines.rs`: where lines start, the resumable scanner, the bounded reader around it |
| `Graph`, `PlanGraph`, `ClosureProbe` | `check_plan_graph.py` and `closure_probe.py`: walks, cycles, reachability and the verdicts built on them |
| `Outline`, `LineIndex`, `Utf8`, `LineText` | `outline.rs`, the line index of `extractor.rs`, decoding with replacement characters, and how lines of the text correspond to lines of the bytes |
| `Nesting`, `Markdown`, `Python` | the stack machine both line-oriented extractors share, and the two extractors |
| `RustTokens`, `RustItems`, `RustLimit`, `Symbols` | the token scanner, the recursive item parser, what the item limit means for it, and the bounded navigation view of `symbols.rs` |
| `References` | `references.rs` |
| `Wire` | `output.rs` and the number and hex parsers of `args.rs` |
| `Basics` | bytes, options, and the cancellation callback |

## What stands in for the outside

Cancellation is an arbitrary fixed answer to each poll; a result of Canceled is
proved to follow a poll that said so, and a success to follow none. Readers and
writers are arbitrary fixed answers to each call, short, interrupted, failing or
lying. The extractors decode their bytes themselves; the decoder of `symbols.rs` and
`references.rs`, with its mapping of decoded ranges to original bytes, Cargo metadata
and git receipts are parameters, the decoder bound to slice its own text.

## The diff

The search drops candidates that leave the grid, so the usual invariant (the
furthest point of every diagonal is recorded) does not hold of it. What does hold,
and is proved, is weaker and enough: in every complete row before the goal some
recorded endpoint lies on a shortest path (`EditTrace.NoGoalMeansFar`, row by row
`EditTrace.RowContinues`), and no recorded endpoint undercuts the true distance
(`EditTrace.SnakeIsSound`).

## What the proofs found

- A comparison can be Exact beyond `max_edit_distance`: exactly when the longest
  common prefix and suffix use up the shorter capture and the work limit covers
  finding that (`Comparison.ExactBeyondTheLimit`, over captures and limits only);
  `Comparison.ExactBeyondTheLimitHappens` gives an input.
- The report is a function of captures and limits (`Comparison.ReportIsDetermined`), and
  so is the work it needs: WorkLimit is reported exactly when the limit is below that
  (`Comparison.WorkLimitMeansTooLittle`).
- A stated budget, computed from the shorter length, what the longest common ends
  leave of it, and the smaller of the distance and the edit limit, rules out
  WorkLimit; under it the quality is a function of the captures and the edit limit
  (`Comparison.EnoughWorkDecides`).
- The range error inside `retain` and the missing-predecessor error of the diff
  cannot occur: `LineReader.ReachIsHeld`, `Comparison.RecordedSnake`.
- A reader that fills the room it is offered cannot run into the limit on read calls in
  the first two gibibytes (`LineReader.ScanLines`).
- The plan check's reports break every cycle: without the edges that close the reported
  ones the graph is acyclic (`PlanGraph.CyclesAreMet`).
- A refusal of a line window for its size is right for every way the stream could
  go on (`LineReader.SizeRefusalIsHonest`).
- The Rust scanner never yields a pound sign, so the parser's attribute skipping
  has nothing to skip (`RustTokens.ScannedTokensOk`); an attribute's brackets and
  words are ordinary tokens.
- The recursion limit of the symbol view cannot be what refuses a Rust file: the
  brace limit already bounds the depth (`Symbols.BuildRust`).
- `max_items` is documented as the maximum number of items of an outline
  (`extractor.rs:16`) and does not bound it in any of the three languages.
  - Markdown compares it with top-level and open items. `Markdown.LimitBounds` is the
    exact condition; a title with k subheadings under a limit of three has k + 1 items
    (`Markdown.SubheadingsEscapeTheLimit`).
  - Python ignores it. The outline is bounded exactly when the number of definition
    lines is (`Python.LimitBounds`); k function lines give k items under any limit
    (`Python.FunctionsEscapeTheLimit`).
  - Rust compares it with top-level items. The outline is bounded exactly when a count
    over the tokens is (`RustLimit.LimitBounds`); `impl{fn b;}` has two items under a
    limit of one (`RustLimit.MembersEscapeTheLimit`), and without `impl` the limit
    always holds (`RustLimit.LimitBoundsWithoutImpls`).
- A Rust item is never refused by the symbol view for what the text says at its
  range: only missing original bytes can refuse it (`Symbols.OnlyUnmapped`).
- Hex bytes round-trip except when there are none, because the parser refuses the
  empty string its encoder writes (`Wire.HexRoundTrip`).

## Model

| member | source | states |
|---|---|---|
| Comparison.Build | crates/fcb-analysis/src/comparison.rs:92-200 | For any captures, limits and cancellation: an over-large request is refused and nothing else is; a result partitions both captures canonically with every equal span byte-verified; Exact carries the true minimum insert/delete distance and spans that cost exactly it; EditLimit means every script is longer than the limit; Identical exactly when exact and equal, Different only when they differ, Undetermined exactly when the result is not exact and neither the lengths nor the ends, compared under the work limit, show a difference; the ends are the longest common ones as far as the work reaches; the work spent is exactly that of the ends, plus one unit per cell begun, one per byte compared on its run and four per level of one reconstruction, cut off by the limit, and WorkLimit is reported exactly when the interior's search needs more than is left; every unit of work but the reconstruction's is preceded by a poll; the spans are those of the ends and of the path the search found; frontier cells and spans stay within bounds set by the edits the captures need or the limit allows |
| Comparison.ReportIsDetermined | crates/fcb-analysis/src/comparison.rs:92-200 | Captures and limits decide the whole report, spans, quality, relation and every statistic: cancellation aside, there is only one |
| Comparison.QualityIsDecided | crates/fcb-analysis/src/comparison.rs:116-191 | With the work needed for the ends, the cells and the reconstruction computed from the captures and the edit limit: WorkLimit exactly when the work limit is less, Exact exactly when it is not and the distance is within the edit limit or the common ends meet, EditLimit otherwise |
| Comparison.WorkLimitMeansTooLittle | crates/fcb-analysis/src/comparison.rs:139-157 | A comparison gives up for lack of work exactly when its ends, its cells and its reconstruction need more than the limit |
| Comparison.WorkIsAccounted | crates/fcb-analysis/src/comparison.rs:114-192 | The work reported is within its limit and covers every stripped byte and every cell begun; where it ran out, less than one reconstruction is left of it |
| Comparison.NeededIsBounded | crates/fcb-analysis/src/comparison.rs:108-160 | The work needed is at most the shorter length and two, the cells of the edits considered times the interior's length and two, and one reconstruction |
| Comparison.AdmittedExactly | crates/fcb-analysis/src/comparison.rs:100-102 | Sixteen mebibytes, 512 edits and 64 Mi units of work are the most that may be asked for, and captures may be as long as the size asked for |
| Comparison.ExactIsAShortestScript | crates/fcb-analysis/src/comparison.rs:134-183 | The spans of an exact report are an edit script between the captures that no script undercuts |
| Comparison.EditLimitRefusesOnlyLongerScripts | crates/fcb-analysis/src/comparison.rs:139-187 | A refusal for the edit limit never hides a script within the limit |
| Comparison.ExactBeyondTheLimit | crates/fcb-analysis/src/comparison.rs:116-140 | Beyond the edit limit a result is exact if and only if the longest common prefix and suffix of the captures use up the shorter one and the work limit covers finding them: a condition on captures and limits alone |
| Comparison.ExactBeyondTheLimitHappens | crates/fcb-analysis/src/comparison.rs:134-137 | A concrete exact result past an edit limit of zero |
| Comparison.EnoughWorkDecides | crates/fcb-analysis/src/comparison.rs:100-200 | With work enough for as many edits as the captures need or the limit allows, whichever is fewer, the quality is decided by the captures and the edit limit: exact exactly when the distance is within the limit or the common ends meet, EditLimit otherwise, never WorkLimit |
| Comparison.StripsMeet | crates/fcb-analysis/src/comparison.rs:117-130 | The ends found under a work limit use up the shorter capture exactly when the true ones do and the work covers finding them |
| Comparison.SpansRebuildAfter | crates/fcb-analysis/src/comparison.rs:131-189 | Equal bytes of the old capture and all other bytes of the new one rebuild the new capture, whatever the quality |
| Comparison.Search | crates/fcb-analysis/src/comparison.rs:139-160 | The greedy search meets the end exactly at the true distance and runs out of edits only when the distance is larger; what it spends, how many cells it begins and whether the work suffices are functions of the captures, the edit limit and the work left: one unit per cell, one per byte compared on its run, and the reconstruction; the trace it returns is that of all cells up to the goal |
| Comparison.VisitCell | crates/fcb-analysis/src/comparison.rs:144-158 | One cell: a hole where nothing arrives, else the end of the run from the furthest arrival, keeping every recorded cell sound; the work it spends beyond its own unit is exactly the bytes compared on that run, and it is cut short exactly when less than that is left; the row in which a cell meets the goal is the true distance, the cell the one on the diagonal between the ends |
| Comparison.Reconstruct | crates/fcb-analysis/src/comparison.rs:160-172 | Walking back through the trace never misses a predecessor, ends at the origin, polls once a level, and yields exactly the pieces the predecessors give: a gap-free backward path of verified pieces that cost the distance, at most two per level |
| Comparison.AppendReversed | crates/fcb-analysis/src/comparison.rs:173-177 | Appending the backward path extends the alignment to the end of the interior and adds exactly its cost, each piece as the canonical list takes it |
| Comparison.RecordedSnake | crates/fcb-analysis/src/comparison.rs:161-172 | Every recorded endpoint has a predecessor: its snake starts there, and the endpoint it came from is recorded one row earlier and one edit away |
| Comparison.CommonPrefix | crates/fcb-analysis/src/comparison.rs:117-122 | The result is the longest common prefix as far as the work reaches, with a difference noticed exactly when the mismatch behind it could be paid for; the work spent is every matched byte and that mismatch |
| Comparison.CommonSuffix | crates/fcb-analysis/src/comparison.rs:123-128 | The same from the other end, within what the prefix left: the longest common suffix as far as the work reaches, its mismatch, and exactly their work |
| Comparison.StripEnds | crates/fcb-analysis/src/comparison.rs:116-130 | Stripping sets aside exactly the longest common ends the work reaches and keeps the edit distance; a difference is noticed exactly when the lengths or a reached mismatch show one; without one, bytes left on both sides mean that all the work is spent |
| Comparison.StripKeepsDistance | crates/fcb-analysis/src/comparison.rs:117-133 | The distance of the captures is the distance of what is left between the stripped ends |
| Comparison.RefineInterior | crates/fcb-analysis/src/comparison.rs:132-188 | One empty side is exact at once; otherwise the search decides, and the interior is left unresolved exactly when the result is not exact; the work, the cells and the spans are those of that search |
| Comparison.FollowSnake | crates/fcb-analysis/src/comparison.rs:146-151 | The run from a start ends at the first mismatch or at the edge of the grid; the work spent is exactly its matching bytes and the mismatch, if it ends inside, and it is exhausted exactly when less than that is left |
| Comparison.Work.Spend | crates/fcb-analysis/src/comparison.rs:235-242 | Grants one unit exactly while any is left, after one poll; a cancellation takes precedence and costs nothing |
| EditDistance.DistanceIsLeast | crates/fcb-analysis/src/comparison.rs:74-75 | The recursive distance is the least cost of any insert/delete script, and some script has it |
| EditDistance.NoCheaperScript | crates/fcb-analysis/src/comparison.rs:74-75 | No script between two captures costs less than their distance |
| EditDistance.DropBoth | crates/fcb-analysis/src/comparison.rs:147-151 | Advancing along a diagonal never makes the rest harder |
| EditDistance.SharedPrefix | crates/fcb-analysis/src/comparison.rs:117-122 | A common prefix does not change the distance |
| EditDistance.SharedSuffix | crates/fcb-analysis/src/comparison.rs:123-128 | A common suffix does not change the distance |
| EditDistance.ZeroMeansEqual | crates/fcb-analysis/src/comparison.rs:194-195 | Distance zero means equal captures, and the other way round |
| EditTrace.RowClosedForm | crates/fcb-analysis/src/comparison.rs:243 | The row offset is d(d+1)/2 |
| EditTrace.LayoutIsInjective | crates/fcb-analysis/src/comparison.rs:243-247 | A flat trace index determines its row and place, so no two cells collide |
| EditTrace.PredecessorIsRecorded | crates/fcb-analysis/src/comparison.rs:249-265 | A predecessor is an in-grid recorded endpoint of the row before, exactly one edit away |
| EditTrace.FurthestStep | crates/fcb-analysis/src/comparison.rs:249-265 | No eligible edit from the row before leads further along its diagonal than the predecessor, and where an insertion leads just as far it is the one taken |
| EditTrace.PredecessorIsStable | crates/fcb-analysis/src/comparison.rs:144-152 | Pushing cells never changes a predecessor taken from complete rows, so backtracking recomputes what the forward pass used |
| EditTrace.SnakeIsSound | crates/fcb-analysis/src/comparison.rs:145-152 | A pushed endpoint never undercuts the distance: r edits plus the rest of the way are at least the total |
| EditTrace.HoleIsSound | crates/fcb-analysis/src/comparison.rs:145 | A hole is pushed only where no in-grid edit from the row before arrives |
| EditTrace.ShortestContinues | crates/fcb-analysis/src/comparison.rs:249-265 | If an edit leads one step closer to the end, the cell of the next row on that diagonal still lies on a shortest path, even where candidates leaving the grid are dropped |
| EditTrace.CompleteRowIsShort | crates/fcb-analysis/src/comparison.rs:140-182 | A complete row that misses the goal and has a cell on a shortest path lies below the distance |
| EditTrace.RowContinues | crates/fcb-analysis/src/comparison.rs:140-182 | If a complete row that misses the goal has a cell on a shortest path, so does the next complete row |
| EditTrace.NoGoalMeansFar | crates/fcb-analysis/src/comparison.rs:140-187 | If rows 0..r are complete without the goal, row r has a cell on a shortest path and every script needs more than r edits |
| EditTrace.GoalIsShortest | crates/fcb-analysis/src/comparison.rs:153-179 | The row in which the goal is first met is the true distance |
| EditWork.RunIsSnake | crates/fcb-analysis/src/comparison.rs:146-151 | The count of matching bytes from a start is the maximal run, which costs at most one more than the shorter length |
| EditWork.TraceIsOk | crates/fcb-analysis/src/comparison.rs:139-152 | The trace of the first i cells, a function of the captures, keeps what every recorded cell says |
| EditWork.TraceGrows | crates/fcb-analysis/src/comparison.rs:139-152 | More cells change none recorded before and cost at least one unit each |
| EditWork.GoalIsMet | crates/fcb-analysis/src/comparison.rs:153 | The search meets the goal in the row of the distance, at the cell on the diagonal between the two ends |
| EditWork.BeforeGoal | crates/fcb-analysis/src/comparison.rs:140-153 | A search that has not met the goal is not past that cell |
| EditWork.BegunIsDetermined | crates/fcb-analysis/src/comparison.rs:141-157 | How many cells a work allowance begins is determined |
| EditWork.SearchIsBounded | crates/fcb-analysis/src/comparison.rs:108-111 | No search takes more cells, or work, than the edits it considers and the shorter capture allow |
| Comparison.AppendPiece | crates/fcb-analysis/src/comparison.rs:271-280 | After a gap-free, verified, canonical list of spans, one more verified piece leaves such a list that ends where the piece does; unresolved bytes are never dropped or invented, the edited bytes add up, and at most one span is added |
| Correspondences.AppendedAligned | crates/fcb-analysis/src/comparison.rs:271-280 | Appending the next verified piece keeps a canonical, gap-free, verified alignment and adds exactly its edited bytes and at most one span |
| Correspondences.AlignmentIsScript | crates/fcb-analysis/src/comparison.rs:131-189 | The spans of an alignment are an edit script between the captures costing exactly the bytes of the non-equal spans |
| Correspondences.AlignmentRebuilds | crates/fcb-analysis/src/comparison.rs:131-189 | An alignment up to a point rebuilds exactly the new bytes up to it |
| Correspondences.SpansOrdered | crates/fcb-analysis/src/comparison.rs:173-189 | Spans come in order in both captures and never overlap |
| Correspondences.MappingIsSound | crates/fcb-analysis/src/comparison.rs:226-232 | A range maps exactly when it is nonempty and lies in one equal span, to a range of the same length with identical bytes |
| Correspondences.CoveringIsUnique | crates/fcb-analysis/src/comparison.rs:227-229 | At most one equal span covers a nonempty range, so the first found is the only one |
| Correspondences.MappingKeepsOrder | crates/fcb-analysis/src/comparison.rs:226-232 | The mapping is strictly order-preserving on positions, hence injective on ranges |
| LineWindow.WindowIsUnique | crates/fcb-source/src/line_index/window.rs:3-10 | There is at most one window for the lines asked for |
| LineWindow.WindowOfIsUnique | crates/fcb-source/src/line_index/window.rs:3-10 | The byte range of the requested lines is unique, trailing half unit included |
| LineWindow.LinesAdd | crates/fcb-source/src/line_index/window.rs:3-10 | Behind a line feed, or a carriage return that no line feed follows, lines are counted anew |
| LineWindow.OneLine | crates/fcb-source/src/line_index/window.rs:3-10 | Units with a terminator at their end only, CRLF counting as one, are one line |
| LineWindow.UnitsReadBack | crates/fcb-source/src/line_index/window.rs:136-148 | Code units written in either byte order, or as bytes, read back as those units |
| LineWindow.StrayByte | crates/fcb-source/src/line_index/window.rs:177-186 | A stray last byte starts a line exactly at the beginning or behind a terminator, a lone carriage return included |
| LineWindow.SettledForEveryContinuation | crates/fcb-source/src/line_index/window.rs:152-174 | Once the end is settled, the window is the same in every continuation of the stream |
| LineWindow.LineWindowScanner.Unit | crates/fcb-source/src/line_index/window.rs:152-172 | One code unit keeps the scanner's state true of the units so far: CR, LF and CRLF end lines, and a CR stays undecided until the next unit |
| LineWindow.LineWindowScanner.Feed | crates/fcb-source/src/line_index/window.rs:136-148 | One byte extends the stream seen by exactly that byte; a UTF-16 unit is judged when its second byte arrives |
| LineWindow.LineWindowScanner.Step | crates/fcb-source/src/line_index/window.rs:129-150 | Noncontiguous input is refused without change; otherwise a prefix within the byte budget is consumed, all of it unless the window settled; a known start never changes and a new one precedes the input by at most one byte |
| LineWindow.LineWindowScanner.Finish | crates/fcb-source/src/line_index/window.rs:177-186 | End of input always finishes the scan and keeps a status already reached |
| LineWindow.StatusIsTrue | crates/fcb-source/src/line_index/window.rs:112-123 | A finished status is true of the stream: Resolved names the unique window and the last line actually present, in every continuation when it settled early; Missing means the first line does not exist |
| LineWindow.OpenWindowEndsLater | crates/fcb-source/src/line_index/window.rs:125-128 | While the window is open it cannot end before the last complete unit read, and a known start is the start of any window |
| LineWindow.OffsetsAreInside | crates/fcb-source/src/line_index/window.rs:108-110 | A known start lies in the bytes read and a settled end at most one unit before the last of them |
| LineReader.ReadOnce | crates/fcb-app/src/lines.rs:200-209 | The result is the reader's own answer to a call with exactly the room asked for, after one poll: an interrupted call yields nothing, bytes that fit are returned and counted, a failure or an over-long answer is an I/O error; a cancellation reads nothing |
| LineReader.MarkIsRead | crates/fcb-source/src/encoding.rs:73-83 | A UTF-16 encoding is detected exactly when the first unit reads as U+FEFF under it |
| LineReader.ReadPrefix | crates/fcb-app/src/lines.rs:243-254 | Up to three bytes are collected through short and interrupted reads; fewer only at end of input, the scan limit or the call limit; a reader that fills its room is called once for them; an I/O error means that the last answer was a failure or over-long |
| LineReader.Scan.Retain | crates/fcb-app/src/lines.rs:215-231 | The selection stays one contiguous slice of the stream from four bytes before the start; it is extended to what is wanted and available, refused exactly when that exceeds the capacity, and in error exactly when bytes in between are gone |
| LineReader.Roll | crates/fcb-app/src/lines.rs:305-306 | The history becomes the last min(8, bytes read) bytes of the stream |
| LineReader.Keep | crates/fcb-app/src/lines.rs:211-231 | Extending the selection to what is wanted either covers it or proves that it exceeds the capacity, when nothing wanted lies before the bytes at hand |
| LineReader.StepScan | crates/fcb-app/src/lines.rs:297-304 | Showing the scanner one read leaves what the selection still needs within the eight bytes held |
| LineReader.ReachIsHeld | crates/fcb-app/src/lines.rs:211-226 | Eight bytes of history always reach back to what the selection still needs, so the gap error cannot happen |
| LineReader.Advance | crates/fcb-app/src/lines.rs:297-306 | One successful read keeps scanner, history and selection true of the longer stream, or the wanted bytes provably exceed the capacity |
| LineReader.AtEndOfInput | crates/fcb-app/src/lines.rs:272-278 | End of input finishes the scanner and still takes a last line revealed only then from the history |
| LineReader.MissingIsHonest | crates/fcb-app/src/lines.rs:288 | Missing is reported only at real end of input and only if the stream has too few lines |
| LineReader.ResolvedIsHonest | crates/fcb-app/src/lines.rs:282-287 | Resolved means the selection is exactly the window with its four bytes of context on either side, for every continuation unless the stream has ended |
| LineReader.SizeRefusalIsHonest | crates/fcb-app/src/lines.rs:279-283 | A refusal for size is never wrong: in every continuation the requested window is longer than the allowance |
| LineReader.DecideIsHonest | crates/fcb-app/src/lines.rs:279-292 | Whichever reason to stop is chosen, what it claims about the stream and its continuations is true |
| LineReader.LimitIsHonest | crates/fcb-app/src/lines.rs:288-292 | A scan or call limit stops the scan only while the stream is open, the requested lines with their context reach beyond what was read in every continuation, and everything read from four bytes before the first requested line is selected |
| LineReader.MoreIsWanted | crates/fcb-app/src/lines.rs:279-306 | While a pass goes on, the requested lines with their context reach beyond what was read, in every continuation |
| LineReader.StartIsALine | crates/fcb-app/src/lines.rs:279-282 | A refusal for size is only given when the first requested line exists |
| LineReader.EndDecides | crates/fcb-app/src/lines.rs:272-292 | At end of input some reason to stop always applies, so the loop ends |
| LineReader.Open | crates/fcb-app/src/lines.rs:240-269 | The prefix read, the encoding chosen from it and the first selection establish the loop's invariant; a bad line count is the only range error, a broken reader the only I/O error |
| LineReader.ReadPass | crates/fcb-app/src/lines.rs:293-306 | One pass offers exactly the least of a buffer, what the scan limit leaves and what a resolved window's context still needs, and keeps the loop's invariant, its pace included, through short, interrupted and final reads; an I/O error means that the reader broke |
| LineReader.StaysBrisk | crates/fcb-app/src/lines.rs:280-306 | One read of that room keeps a filling reader at one buffer a call, unless the scan limit or the end of the context was nearer |
| LineReader.Judge | crates/fcb-app/src/lines.rs:271-292 | The decision before each read is honest, or more bytes are wanted and allowed |
| LineReader.Run | crates/fcb-app/src/lines.rs:271-310 | The loop ends: a cancellation follows a poll that said so, an I/O error a reader that broke, and any other end reports a reason that is true of the stream, a limit only with the window unsettled and its bytes kept; nothing is read after the reader's end |
| LineReader.ScanLines | crates/fcb-app/src/lines.rs:233-310 | For every reader, request and cancellation: the scan ends; the bytes and calls stay within limits, no more calls than polls, less than one buffer is read beyond the lines asked for and their context, and no call follows the reader's end; a reader that fills the room it is offered never meets the call limit within the first 131,070 buffers of 16 KiB; the encoding is the one requested or announced by the first three bytes; the selection is a true slice of the stream within capacity; Resolved means the window with its context, Missing that the stream ended with too few lines, a size refusal that the first line exists and the window is too long however the stream goes on, a scan or call limit that the stream is open, the window with its context reaches beyond what was read, and what was read of it is selected; a range error means a bad line count, an I/O error that the reader's last answer was a failure or over-long |
| PlanGraph.CheckPlan | scripts/check_plan_graph.py:37-91 | No issue is raised if and only if rows are distinct, dependencies known and not reflexive, the graph is acyclic, the release needs everything, and no headless package needs a native one; every issue raised is true of the plan, with its exact packages, and every such issue is raised; of cycles, every one in the graph runs through an edge that closes a reported one |
| PlanGraph.PlanChecker.Dfs | scripts/check_plan_graph.py:57-64 | The search blackens its node, keeps the gray nodes on the current path, ranks finished nodes below their callers unless the edge closes a reported cycle, and reports only real closing walks |
| PlanGraph.PlanChecker.Report | scripts/check_plan_graph.py:60-61 | A gray successor yields a real walk whose last node occurs earlier in it, and closes with the edge that met it |
| PlanGraph.PlanChecker.CheckCycles | scripts/check_plan_graph.py:55-68 | Starting from every package, a cycle is reported exactly when the graph has one, and every cycle of the graph runs through an edge that closes a reported one |
| PlanGraph.PlanChecker.Closure | scripts/check_plan_graph.py:70-76 | The shared accumulator grows by reachable nodes only, holds all successors, and is closed for everything added, cyclic graphs included |
| PlanGraph.PlanChecker.ReachableFrom | scripts/check_plan_graph.py:70-76 | The closure is exactly the nodes reachable by one or more edges |
| PlanGraph.PlanChecker.CheckTable | scripts/check_plan_graph.py:48-53 | Every unknown and every reflexive dependency gets its report, each report names a real one, and there are none exactly when the table is clean |
| PlanGraph.PlanChecker.CheckRow | scripts/check_plan_graph.py:48-53 | The same for one row, keeping the reports of the rows before it |
| PlanGraph.PlanChecker.CheckRelease | scripts/check_plan_graph.py:78-83 | Reports exactly the packages the release does not need, or that it is missing |
| PlanGraph.PlanChecker.CheckHeadless | scripts/check_plan_graph.py:85-91 | Reports exactly the native packages a headless one needs, or that it is missing |
| PlanGraph.TableHasRows | scripts/check_plan_graph.py:41-47 | The dependency table has exactly the ids of the rows |
| PlanGraph.LastRowCounts | scripts/check_plan_graph.py:47 | Under each id the table has the dependencies of its last row |
| PlanGraph.DistinctByCount | scripts/check_plan_graph.py:41-43 | There are as many names as rows exactly when no name comes twice |
| PlanGraph.CyclesAreMet | scripts/check_plan_graph.py:55-68 | Every cycle runs through an edge that closes a reported one, so without those edges there is none |
| Graph.ClosedWalkIsCycle | scripts/check_plan_graph.py:60-61 | A walk that returns to a visited node shows a cycle |
| Graph.RankedIsAcyclic | scripts/check_plan_graph.py:55-64 | If every edge descends in some ranking there is no cycle |
| Graph.ClosedSetHoldsReachable | scripts/check_plan_graph.py:70-76 | A set that holds a node's successors and is closed under edges holds all it reaches |
| ClosureProbe.InspectRoots | scripts/closure_probe.py:283-350 | Qualified if and only if every root resolves cleanly and no violation exists; noncompliant if and only if a shipped package is forbidden, of a foreign origin or without its license file, a root has no manifest, or more than one runtime or runtime version ships; the lists of violations and of unresolved entries hold exactly those of the roots |
| ClosureProbe.InspectMetadataRoot | scripts/closure_probe.py:158-280 | Per root, the violations are exactly the faults of the present shipped packages, and the unresolved entries exactly those of the selection, the receipt and the shipped packages, absent ones included; the count is the number of packages shipped and present; the root is counted and clean exactly when everything is in order; the runtimes are those shipped |
| ClosureProbe.WalkShipped | scripts/closure_probe.py:200-214 | The breadth-first search marks exactly the packages that are reachable along shipping edges and present, and records as absent exactly those reachable but not present |
| ClosureProbe.SearchDone | scripts/closure_probe.py:202-214 | When the queue is empty the marked and absent packages are exactly what is shipped |
| ClosureProbe.SelectRoots | scripts/closure_probe.py:174-190 | The roots are exactly the packages the selection names, and something is unresolved exactly when the selection is not settled |
| ClosureProbe.InspectPackages | scripts/closure_probe.py:231-278 | Violations, unresolved entries and runtimes are, entry by entry, exactly those of the reachable packages, and there are none exactly when every one complies and is documented |
| ClosureProbe.NoAbsentDependencies | scripts/closure_probe.py:271-277 | A package lacks no dependency exactly when each shipping one is named and reachable |
| ClosureProbe.DocumentedWhenPresent | scripts/closure_probe.py:263-277 | When everything shipped is present, the only dependency left to report is one without a package |
| ClosureProbe.CheckRuntimes | scripts/closure_probe.py:343-348 | No clash is reported exactly when all runtimes found are one family at one version |
| ClosureProbe.ManyMeansTwo | scripts/closure_probe.py:343-348 | More than one version or family means two different ones |
| ClosureProbe.OnlyOthersStay | scripts/closure_probe.py:97-103 | Only a dependency whose listed kinds are all neither normal nor build does not ship |
| ClosureProbe.TargetsAre | scripts/closure_probe.py:212-214 | The shipping edges are the packages that shipping dependencies name |
| ClosureProbe.ForbiddenNames | scripts/closure_probe.py:90-94 | A name is forbidden exactly when, in lower case, it is one of the listed or starts with one of the prefixes |
| ClosureProbe.LowerLetters | scripts/closure_probe.py:91 | Upper-case letters are compared as their lower-case ones |
| ClosureProbe.LowerStays | scripts/closure_probe.py:91 | Lower-casing keeps everything else and is done once and for all |
| ClosureProbe.OriginsAskedFor | scripts/closure_probe.py:35-48 | Twelve origins are allowed by default, and only those asked for otherwise |
| ClosureProbe.OriginIsBase | scripts/closure_probe.py:78-79 | However a repository's address is decorated, with a scheme prefix, a suffix, slashes or a query, it comes to the same base |
| ClosureProbe.AllowedOrigins | scripts/closure_probe.py:82-87 | A package from elsewhere is allowed exactly when some allowed address, decorated or not, is of the same repository; one without an origin exactly when it is the root's own |
| ClosureProbe.NameOrId | scripts/closure_probe.py:177-180 | A selector names a package by its name or its id, and no other |
| Outline.NewEvidence | crates/fcb-analysis/src/outline.rs:126-162 | Evidence exists exactly when its byte and line ranges are not reversed and the name lies inside |
| Outline.CollectFlat | crates/fcb-analysis/src/outline.rs:284-289 | Collecting appends exactly the item's preorder |
| Outline.CountIsFlatLength | crates/fcb-analysis/src/outline.rs:185-188 | The subtree counts add up to the length of the flat view |
| Outline.EntriesFollowPreorder | crates/fcb-analysis/src/outline.rs:275-282 | The view with parents lists the same items in the same order as the flat view |
| Outline.FindIsDeepest | crates/fcb-analysis/src/outline.rs:197-207 | An offset is found exactly when a top item holds it, in an item of the tree that holds it and has no child that does |
| Outline.FindTakesFirst | crates/fcb-analysis/src/outline.rs:197-207 | Of several items that hold the offset the first is searched, and no other |
| LineIndex.NewIndex | crates/fcb-analysis/src/extractor.rs:1206-1217 | The line starts are zero and one past every newline, in order |
| LineIndex.LineOfByte | crates/fcb-analysis/src/extractor.rs:1231-1236 | A byte's line is one more than the newlines before it |
| LineIndex.LineOfOffset | crates/fcb-analysis/src/extractor.rs:1231-1236 | Offsets past the end are on the last line |
| LineIndex.LinesAscend | crates/fcb-analysis/src/extractor.rs:1231-1236 | Later bytes are never on earlier lines |
| LineIndex.LineSpan | crates/fcb-analysis/src/extractor.rs:1238-1254 | A line starts no later than any later line ends |
| LineIndex.LineCountIs | crates/fcb-analysis/src/extractor.rs:1219-1229 | The line count is the newlines plus one, except that a final newline opens no line |
| LineIndex.LastLineEnds | crates/fcb-analysis/src/extractor.rs:1247-1254 | A line ends where the next one starts; the last ends the file |
| LineIndex.ExtractLineBlocks | crates/fcb-analysis/src/extractor.rs:107-168 | Blocks number themselves from one and tile the file without gap or overlap, all but the last of full size, unless the item limit cuts them short; each starts where its first line does, stops where its last line does, and is named after them |
| LineIndex.BlockNames | crates/fcb-analysis/src/extractor.rs:107-168 | A block of one line is named after it, a longer one after its first and last with a dash between |
| LineText.LineEvidence | crates/fcb-analysis/src/extractor.rs:215-227 | A one-line item always has evidence, and it covers exactly the bytes of its line, terminator included |
| LineText.EvidenceDecodes | crates/fcb-analysis/src/extractor.rs:180-215 | Decoding only the bytes that the evidence of line n covers gives exactly line n of the decoded file, malformed bytes included |
| LineText.LinesAreFew | crates/fcb-analysis/src/extractor.rs:180-190 | The decoded text has at most one line more than the bytes have newlines, so every line has its bytes |
| LineText.LineCounts | crates/fcb-analysis/src/extractor.rs:180-190 | Bytes that end in a newline decode to exactly as many lines as they hold newlines |
| LineText.LinesJoin | crates/fcb-analysis/src/extractor.rs:180-190 | A text that ends its last line has that text's lines before those of whatever follows |
| LineText.TrimStartSplits | crates/fcb-analysis/src/extractor.rs:191 | Trimming removes exactly the whitespace in front |
| LineText.TrimEndSplits | crates/fcb-analysis/src/extractor.rs:206-213 | And exactly the whitespace behind |
| LineText.WhitespaceIsListed | crates/fcb-analysis/src/extractor.rs:191 | Whitespace is the twenty-five characters of the Unicode property |
| LineText.LinesReadBack | crates/fcb-analysis/src/extractor.rs:180-190 | Lines written out with either terminator are the lines of the text; of a carriage return before the line feed just one is taken away |
| Utf8.Utf8RoundTrip | crates/fcb-analysis/src/extractor.rs:308 | Valid UTF-8 decodes and encodes back to itself, so the scanned text of a valid file is the file |
| Utf8.LossyJoins | crates/fcb-analysis/src/extractor.rs:180 | Decoding splits behind every one-byte character, whatever malformed bytes surround it |
| Utf8.StepRoundTrip | crates/fcb-analysis/src/extractor.rs:308 | A well-formed character encodes to the very bytes it was decoded from |
| Utf8.TextReadsBack | crates/fcb-analysis/src/extractor.rs:180 | Every text, written as UTF-8, is valid and decodes to itself |
| Utf8.CharacterReads | crates/fcb-analysis/src/extractor.rs:180 | A whole character is read as that character wherever it stands and whatever follows |
| Utf8.MaximalSubpart | crates/fcb-analysis/src/extractor.rs:180 | A malformed stretch is replaced by one U+FFFD and is as long as it can be: more than one byte of it begin some character, one more byte would not, and no whole character is ever replaced |
| Utf8.CharactersMeet | crates/fcb-analysis/src/symbols.rs:222-226 | Cut where a character starts, and only there, valid text stays valid |
| Nesting.NestingStack.CloseTo | crates/fcb-analysis/src/extractor.rs:243-255 | Closing for a level leaves open exactly the items that the new line does not end, and changes no entry of the flat view |
| Nesting.NestingStack.Push | crates/fcb-analysis/src/extractor.rs:257 | The new item is entered once, under the innermost item still open |
| Nesting.NestingStack.Pop | crates/fcb-analysis/src/extractor.rs:246-251 | Hanging a closed item under the one around it, or at top level, changes no entry of the flat view |
| Nesting.NestingStack.Drain | crates/fcb-analysis/src/extractor.rs:267-274 | At the end the finished forest flattens to the entries in source order |
| Nesting.LogGrows | crates/fcb-analysis/src/extractor.rs:243-257 | Numbered entries under their nearest open predecessors stay so when an item is added |
| Nesting.LogSurvives | crates/fcb-analysis/src/extractor.rs:368-420 | A line that opens nothing changes no earlier parent |
| Nesting.CloseKeeps | crates/fcb-analysis/src/extractor.rs:243-255 | Dropping stack entries of the level or deeper leaves exactly the surviving items |
| Nesting.StackPop | crates/fcb-analysis/src/extractor.rs:246-251 | Moving the top entry into its parent's children keeps the flat view |
| Nesting.DepthIsBounded | crates/fcb-analysis/src/extractor.rs:243-257 | A nesting by levels has no more generations than there are levels |
| Markdown.ExtractMarkdown | crates/fcb-analysis/src/extractor.rs:174-296 | For any bytes, decoded with replacement: the flat outline is a prefix of the headings outside fences, numbered from one, each under the closest earlier heading of strictly lower level and covering the bytes of its own line; it ends at the first heading at which the top-level and open headings reach the item limit, else takes all; line blocks replace it exactly when a nonempty file has no heading |
| Markdown.LimitBounds | crates/fcb-analysis/src/extractor.rs:259-261 | For every file and every item limit, zero included: it bounds the items of the outline if and only if there are no more headings, or the top-level and open ones among the first that many reach it |
| Markdown.SubheadingsEscapeTheLimit | crates/fcb-analysis/src/extractor.rs:259-261 | Under a limit of three, the file of one title line and k subheading lines yields an outline of k + 1 items, for every k |
| Markdown.SubheadingLines | crates/fcb-analysis/src/extractor.rs:180-216 | The bytes of that file decode to those lines |
| Markdown.TallyMatches | crates/fcb-analysis/src/extractor.rs:243-261 | What the code compares with the limit is the number of headings that are top-level or still open |
| Markdown.TallyIsSmall | crates/fcb-analysis/src/extractor.rs:259-261 | At most one top-level heading is open, so that number never exceeds the headings taken |
| Markdown.AddHeading | crates/fcb-analysis/src/extractor.rs:215-257 | One heading extends the forest by itself |
| Markdown.ParentIsClosestLower | crates/fcb-analysis/src/extractor.rs:243-257 | Among headings, the innermost open one is the closest earlier heading of strictly lower level |
| Markdown.LowerStaysOpen | crates/fcb-analysis/src/extractor.rs:243-257 | If any earlier heading is lower, one of them is still open |
| Markdown.TitleRoundTrip | crates/fcb-analysis/src/extractor.rs:203-216 | A printed heading reads back with its level and text |
| Markdown.TitleExactly | crates/fcb-analysis/src/extractor.rs:193-213 | Any line, as whitespace, some number of # and a rest: it is a heading exactly when there are one to six and a space or nothing follows; its name is the trimmed rest, or its level when that is empty |
| Markdown.FencesOpen | crates/fcb-analysis/src/extractor.rs:191-198 | A line is a fence exactly when three backquotes or tildes follow its whitespace |
| Markdown.PrintedHeadings | crates/fcb-analysis/src/extractor.rs:174-216 | A file of printed headings, whatever their characters and terminators, has exactly them as its headings, line by line |
| Markdown.MarkdownDepth | crates/fcb-analysis/src/extractor.rs:203-257 | A Markdown outline has at most six generations |
| Python.ExtractPython | crates/fcb-analysis/src/extractor.rs:347-470 | For any bytes, decoded with replacement: the flat outline lists exactly the definitions in source order, numbered from one, each under the innermost earlier definition every code line since is indented under and covering the bytes of its own line; a definition is a method exactly when it has a parent; the item limit plays no part; line blocks, at most as many as the limit, replace it only if a nonempty file defines nothing |
| Python.LimitBounds | crates/fcb-analysis/src/extractor.rs:347-470 | The outline has as many items as there are definition lines, so the item limit bounds it if and only if it bounds those |
| Python.FunctionsEscapeTheLimit | crates/fcb-analysis/src/extractor.rs:347-470 | A file of k function lines has an outline of k items under every limit |
| Python.ItemsAreDefinitions | crates/fcb-analysis/src/extractor.rs:405-441 | The nesting machine's items are as many as the definition lines |
| Python.AddStatement | crates/fcb-analysis/src/extractor.rs:359-441 | Every code line closes what it is not indented under; only a named definition opens an item |
| Python.IndentIsPad | crates/fcb-analysis/src/extractor.rs:361 | The indentation is the bytes of the whitespace in front |
| Python.CodeIsNoComment | crates/fcb-analysis/src/extractor.rs:362-366 | However it is indented, a line is code exactly when it is neither blank nor a comment |
| Python.FunctionReadsBack | crates/fcb-analysis/src/extractor.rs:382-395 | Either function keyword, a name with whitespace around it, then nothing or a parenthesis: the function of that name, or nothing without one |
| Python.ClassReadsBack | crates/fcb-analysis/src/extractor.rs:400-412 | The class keyword, a name, then nothing, a parenthesis or a colon: the class of that name, or nothing without one |
| Python.OnlyDefinitions | crates/fcb-analysis/src/extractor.rs:382-416 | No other line defines anything |
| Python.MethodsAreIndented | crates/fcb-analysis/src/extractor.rs:361-441 | For any names and indentation: a class line and a function line below make the function a method of the class exactly when it is indented, else a function beside it |
| Python.PythonDepth | crates/fcb-analysis/src/symbols.rs:12-16 | Indentation of at most a given number of bytes bounds the depth of the outline |
| RustTokens.ScanTokens | crates/fcb-analysis/src/extractor.rs:771-884 | The tokens are exactly the punctuation and maximal words left once whitespace, comments, nested block comments, quoted and raw literals and other bytes are skipped; every byte belongs to exactly one piece |
| RustTokens.ScanIsUnique | crates/fcb-analysis/src/extractor.rs:771-884 | That description admits only one token list for a source |
| RustTokens.PieceIsDetermined | crates/fcb-analysis/src/extractor.rs:776-881 | What starts at a byte, and where it ends, is determined |
| RustTokens.ScannedTokensOk | crates/fcb-analysis/src/extractor.rs:771-884 | Tokens are nonempty, in order and disjoint, and none is the pound sign that would introduce an attribute |
| RustTokens.SkipBlockComment | crates/fcb-analysis/src/extractor.rs:794-810 | A block comment ends where its nesting closes, or before the last byte if it never does |
| RustTokens.SkipQuoted | crates/fcb-analysis/src/extractor.rs:812-826 | A literal ends at its first quote after an even run of backslashes; the cursor passes the end by at most one |
| RustTokens.SkipRaw | crates/fcb-analysis/src/extractor.rs:828-853 | A raw literal ends at its first quote followed by enough pounds |
| RustTokens.WordCharacters | crates/fcb-analysis/src/extractor.rs:869 | Words are made of letters, digits and the underscore |
| RustTokens.MarkCharacters | crates/fcb-analysis/src/extractor.rs:780-865 | Eleven marks are tokens by themselves, and five characters are blank |
| RustItems.FindBlockEnd | crates/fcb-analysis/src/extractor.rs:1170-1196 | A declaration ends at its first semicolon, at the least position that balances its first brace, or with the input |
| RustItems.BlockEndIsUnique | crates/fcb-analysis/src/extractor.rs:1170-1196 | There is only one such end |
| RustItems.SkipModifiers | crates/fcb-analysis/src/extractor.rs:893-932 | The keyword follows visibility and qualifiers, a const counting as one only directly before fn or at the end |
| RustItems.ParseItem | crates/fcb-analysis/src/extractor.rs:886-1123 | For any text and code: parsing ends and strictly advances; an item is returned exactly where one starts, it is the item the grammar describes, and ids are drawn from the consumed counter interval, children before parents and ascending; with code as long as the text exactly as many ids as items are used |
| RustItems.ParseImpl | crates/fcb-analysis/src/extractor.rs:986-1055 | An impl has the items found between its braces as children, functions renamed to methods, the name of its header and the span of its block; nothing is returned exactly when no valid declaration starts |
| RustItems.ParseFlat | crates/fcb-analysis/src/extractor.rs:942-1168 | Any other declaration is named by the next token, spans its block and is of its keyword's kind; nothing is returned exactly when no valid declaration starts |
| RustItems.ParseBody | crates/fcb-analysis/src/extractor.rs:1008-1022 | Scanning an impl's body up to its closing brace takes every item where one starts and moves one token on where none does |
| RustItems.FittingEvidence | crates/fcb-analysis/src/extractor.rs:955-964 | With code as long as the text, the evidence of every declaration is valid |
| RustItems.BlockIsUnique | crates/fcb-analysis/src/extractor.rs:886-1196 | Where a declaration starts determines its keyword, its last byte and the token behind it |
| RustItems.EvidenceLines | crates/fcb-analysis/src/extractor.rs:952-964 | The lines of a declaration are those of its first and last byte, by newlines before them, except that a mod without a body ends on the line of the byte behind it; its name is the token after the keyword, and an impl has none |
| RustItems.KeywordKinds | crates/fcb-analysis/src/extractor.rs:942-985 | Each keyword declares its own kind of item, and no other word does |
| RustItems.JoinedBySpaces | crates/fcb-analysis/src/extractor.rs:995-1001 | An impl's header is its token texts joined by single spaces |
| RustItems.AllocatedAll | crates/fcb-analysis/src/extractor.rs:966-967 | As many ascending ids as the counter moved are all of them, in order |
| RustItems.DepthBound | crates/fcb-analysis/src/symbols.rs:12-16 | An item is at most one deeper than the opening braces from its start on |
| RustItems.OutlineDepth | crates/fcb-analysis/src/symbols.rs:150-152 | A text with at most n brace bytes has an outline at most n + 1 deep |
| RustItems.ItemsArePlaced | crates/fcb-analysis/src/extractor.rs:886-1123 | Only an impl has children, they start behind its start, none is a free function, and no two siblings overlap, at every depth |
| RustItems.SiblingsArePlaced | crates/fcb-analysis/src/extractor.rs:316-323 | Items found in one scan come in order without overlap |
| RustItems.ExtractRust | crates/fcb-analysis/src/extractor.rs:302-344 | For any bytes, decoded with replacement: the top-level items are exactly those found from the first token to the last, or to the item limit, at every depth as the grammar describes them; ids ascend in postorder, and are 1..n when the text is no longer than the bytes, as for valid UTF-8; line blocks replace the outline exactly when the file is nonempty and its outline under the limit is empty |
| RustItems.OnlyOutline | crates/fcb-analysis/src/extractor.rs:302-344 | A file with a nonempty outline has no empty one, so whether it falls back is determined |
| RustLimit.LimitBounds | crates/fcb-analysis/src/extractor.rs:314-323 | The outline has exactly the items that scanning the tokens counts, members of every impl taken under the limit included, so the item limit bounds it if and only if it bounds that count |
| RustLimit.LimitBoundsWithoutImpls | crates/fcb-analysis/src/extractor.rs:314-323 | A file without an impl token has no more items than the limit |
| RustLimit.CountItems | crates/fcb-analysis/src/extractor.rs:314-323 | Scanning from one token to another takes as many items as the tokens between them count |
| RustLimit.MembersEscapeTheLimit | crates/fcb-analysis/src/extractor.rs:314-323 | A file of one impl with one function has an outline of two items under a limit of one |
| Symbols.SymbolList.Append | crates/fcb-analysis/src/symbols.rs:233-257 | Success adds exactly the first candidates of the item's view that fit, all of them accepted, and reports whether any did not fit; bad evidence is reported only of an item that would have been added, and each error has its own cause; an item is polled for once |
| Symbols.SymbolList.AppendAll | crates/fcb-analysis/src/symbols.rs:173-175 | The same for a list of items, in order |
| Symbols.FullIsEligible | crates/fcb-analysis/src/symbols.rs:233-257 | Candidate k shows eligible item k and is numbered by its position |
| Symbols.ParentsAreClosest | crates/fcb-analysis/src/symbols.rs:233-257 | Each candidate's parent is the closest earlier candidate that is shallower, one level up |
| Symbols.EligibleIsPreorder | crates/fcb-analysis/src/symbols.rs:233-257 | Without line blocks and headings, the view is the outline's flat preorder |
| Symbols.ViewIsClosed | crates/fcb-analysis/src/symbols.rs:169-178 | A cut view is the first min(limit, total) eligible items; cutting loses no parent; limited exactly when something was cut |
| Symbols.CutStep | crates/fcb-analysis/src/symbols.rs:173-175 | Adding part by part and cutting each time is adding everything and cutting once |
| Symbols.Navigate | crates/fcb-analysis/src/symbols.rs:169-178 | From any outline to its bounded view: complexity is refused only beyond depth 128, evidence only if an item that would be delivered has it bad, and every delivered item is accepted |
| Symbols.BuildRust | crates/fcb-analysis/src/symbols.rs:123-179 | The Rust route: sizes, limits, undecodable text and too many lines or braces are refused, in that order, and a cancellation only after the first two; otherwise the result is the view of the file's outline, or of nothing when it declares nothing, exactly when every item to be delivered has original bytes for its range and name, and a refusal of evidence names one that has not; the view's recursion limit never refuses |
| Symbols.ItemsAreSliceable | crates/fcb-analysis/src/symbols.rs:233-253 | Every item of a Rust outline of valid text starts and ends between characters, and the text at its name range spells its name |
| Symbols.OnlyUnmapped | crates/fcb-analysis/src/symbols.rs:219-253 | Such an item is accepted exactly when its range and its name have original bytes |
| Symbols.CandidateLine | crates/fcb-analysis/src/symbols.rs:153-155 | A candidate's line is one more than the newlines before its item |
| Symbols.CandidateRanges | crates/fcb-analysis/src/symbols.rs:222-251 | The ranges of an accepted item's candidate are the original bytes of the item and of its name |
| Symbols.AcceptedExactly | crates/fcb-analysis/src/symbols.rs:222-251 | An item is accepted exactly when it and its name are not empty, lie in one another, are slices of the text with original bytes, and the name is what the text says there |
| Symbols.ForeignKinds | crates/fcb-analysis/src/symbols.rs:238 | Line blocks and headings, and nothing else, are left to other views |
| Symbols.BytesAreCounted | crates/fcb-analysis/src/symbols.rs:149-152 | The lines and braces compared with the limits are counted one by one |
| Symbols.BoundariesAreBetweenCharacters | crates/fcb-analysis/src/symbols.rs:222-226 | In valid text a slice may begin or end exactly where what precedes is valid text |
| References.Build | crates/fcb-analysis/src/references.rs:88-155 | Sizes, limits, bad names and undecodable text are refused, in that order; otherwise the candidates are exactly the first occurrences up to the limit, with positions, ranges and line numbers, unless one of those has no original range, which is refused; counted is min(total, limit + 1); limited exactly when the total exceeds the limit; cancellation is polled at most once per 4096 bytes plus three times |
| References.Scan.Pass | crates/fcb-analysis/src/references.rs:122-151 | One pass over the scalars finds them, judging a token only at its end, and polls about every 4096 bytes |
| References.OccurrencesAreAll | crates/fcb-analysis/src/references.rs:122-151 | The list of occurrences misses none, holds nothing else and ascends |
| References.TokenEnds | crates/fcb-analysis/src/references.rs:138-141 | A token that ends is an occurrence exactly when it spells the name, and where none ends there is none |
| References.TokenScalars | crates/fcb-analysis/src/references.rs:195-198 | Below U+0080 tokens are made of letters, digits, underscore and dollar; above, of everything but controls and whitespace |
| References.NamesAllowed | crates/fcb-analysis/src/references.rs:200-206 | A name is one token of at most 1024 bytes that does not begin with a digit |
| References.CountsSoFar | crates/fcb-analysis/src/references.rs:131-150 | Offsets count the bytes written so far, and lines the line feeds |
| Wire.ParseDecimal | crates/fcb-app/src/args.rs:244-252 | Accepts exactly the canonical notations of 64-bit numbers and yields their value |
| Wire.DigitsDenote | crates/fcb-app/src/output.rs:83-91 | The printed digits are canonical and denote the number |
| Wire.CanonicalIsPrinted | crates/fcb-app/src/args.rs:244-252 | Every canonical string is what its value prints as |
| Wire.DecimalRoundTrip | crates/fcb-app/src/args.rs:244-252 | A printed number parses back to itself exactly when it fits 64 bits |
| Wire.TwentyDigits | crates/fcb-app/src/output.rs:84-89 | Every 64-bit number fits the twenty-byte buffer |
| Wire.ParseHex | crates/fcb-app/src/args.rs:253-263 | Accepts exactly nonempty strings of hex digit pairs; printing the result gives the input in lower case |
| Wire.HexCharacters | crates/fcb-app/src/args.rs:257-260 | Digits and the letters a to f of either case are hexadecimal digits, of the value they print as |
| Wire.HexIsInjective | crates/fcb-app/src/output.rs:95-99 | Different bytes print differently |
| Wire.HexRoundTrip | crates/fcb-app/src/output.rs:95-99 | Printed bytes parse back to themselves if and only if there are any; the parser refuses the empty string |
| Wire.QuotedReadsBack | crates/fcb-app/src/output.rs:69-82 | A quoted string followed by anything reads back as itself and that |
| Wire.QuotedIsInjective | crates/fcb-app/src/output.rs:69-82 | No two strings, whatever follows them, are written alike |
| Wire.QuotedIsPrintable | crates/fcb-app/src/output.rs:72-79 | No control byte is written raw |
| Wire.EscapesWritten | crates/fcb-app/src/output.rs:69-82 | The quotes, the two-character escapes and the numeric form of the other controls |
| Wire.EscapeIsShortest | crates/fcb-app/src/output.rs:72-79 | No byte is written longer than any form that reads as it |
| Wire.Output.Append | crates/fcb-app/src/output.rs:64-68 | Adds all of the bytes or, when they do not fit, nothing |
| Wire.Output.WriteQuoted | crates/fcb-app/src/output.rs:69-82 | Succeeds exactly when the whole quoted form fits; a failure leaves a proper prefix of it |
| Wire.Output.WriteInteger | crates/fcb-app/src/output.rs:83-91 | The digits filled backwards into the buffer are those of the number; a failure leaves a proper prefix |
| Wire.FillDigits | crates/fcb-app/src/output.rs:84-89 | Filling the twenty-byte buffer from its end leaves exactly the number's digits |
| Wire.Output.WriteHex | crates/fcb-app/src/output.rs:95-99 | Succeeds exactly when the whole encoding fits; a failure leaves a proper prefix of it |
| Wire.Output.Restore | crates/fcb-app/src/output.rs:55-62 | Returns to an earlier length exactly when that leaves valid UTF-8, else changes nothing |
| Wire.Output.QuotedOrRestored | crates/fcb-app/src/output.rs:50-82 | After any failed write of a string the checkpoint before it can be restored: the document is as it was, and with valid strings it is valid UTF-8 whether or not the write succeeds |
| Wire.QuotedIsText | crates/fcb-app/src/output.rs:69-82 | A valid string is written as valid UTF-8 |
| Wire.Deliver | crates/fcb-app/src/output.rs:137-158 | For every writer: what it accepted is a prefix of the response, all of it exactly on success; no more calls than allowed, never an empty or over-long offer; each call offers a chunk or all that is left, so what is accepted is a function of the replies; each failure names what the writer last answered, an invalid count being one larger than the offer |
| Wire.WholeWriterIsServed | crates/fcb-app/src/output.rs:137-158 | A writer that takes every offer whole is served in exactly as many calls as there are chunks of 16 KiB, when that many are allowed and nothing is canceled |

## Left out

- Resource budgets, leases, allocation failures and owner checks: they come from other crates; only the capacities they would reserve are proved as bounds.
- Files, metadata comparison, git, subprocesses, JSON loading, command-line option tables and help text.
- UTF-16 decoding and the mapping of decoded ranges back to original bytes: parameters of the model. Where the symbol view asks for original bytes, whether they exist is the decoder's answer.
- 32- and 64-bit widths where they are not the point (line numbers, offsets, ids, `start_line + block_size - 1`): unbounded integers. The line-number overflow of a request, the 64-bit limit of `decimal` and the work limits are modelled.
- The binary search behind `byte_to_line`: stated as the number of line starts up to the offset.
- JavaScript, Go and C outlines: per-line prefix tests without nesting state. The extractor's language dispatch and its work-budget fallback, outline capability levels and `SourceOutline` identity fields.
- `LineWindowScanner.retarget`: not used by the reader modelled here.
- Symbol search by name, delivery validation and byte access of published results in `symbols.rs` and `references.rs`.
- In `check_plan_graph.py`: the regular expressions that read rows, contiguity of package numbers, citations, anchors and links; the order of the issues.
- In `closure_probe.py`: the published edge list, digests and reports; the runtime sources beside the versions; malformed metadata entries that are not dictionaries; lower-casing beyond ASCII. Iteration in sorted order is iteration in any order here, so the order and multiplicity inside the violation and unresolved lists are not stated.
- In `output.rs`: `path`, `range`, `human_text` and `boolean`, which compose the writers modelled.
- The bridge, the atlas, sessions, layout, rendering and archives.
- `ExtractorLimits.max_depth`: no modelled extractor reads it.
