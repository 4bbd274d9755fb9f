# LinestringsSplitter — a verified model of the splitter core

LinestringsSplitter reads line and multi-line features and writes each line
back as one or more shorter lines. It walks the vertices of a line and adds
up the edge lengths since the last cut. When that sum goes strictly above the
maximum length, it writes the vertices gathered so far as one output feature.
The next piece then starts at that vertex, so neighbouring pieces share
their boundary vertex. Short lines are dropped unless they are closed rings
of more than 5 points. Writes are grouped into transactions by a
process-wide counter.

The model has these modules:

- `Geo` (`geo.dfy`): points, the distance formula of `Output::distance` in
  planar and geographic mode, and the constants `PI` and
  `EARTH_RADIUS_IN_METERS`.
- `SplitWalk` (`split_walk.dfy`): the pure specification of the two
  per-line decisions: whether `skip_ring` drops a line, and where the vertex
  walk of `split_linestring` cuts it. `Walk` gives the state of the loop
  after a prefix of the vertices. `Emitted` adds the trailing write.
- `Transactions` (`transactions.dfy`): the calls made into the output layer,
  recorded as a log of `Write`, `Start`, `Commit` and `Sync` events, and the
  counter `m_transaction_count` with its commit-and-restart rule.
- `OutputLayer` (`output.dfy`): the `Options` record with its defaults and
  the class `Output`. The class holds the counter as a mutable field and the
  event log as a ghost field. The methods `SkipRing`, `WriteSplitParts`,
  `SplitLines` and `Run` carry the source's loops. `SkipRing` is proved
  against `PathLength`. `WriteSplitParts` is proved against `Walk` and
  `SplitWrites`. `SplitLinestring`, `SplitLines`, `SplitAndWriteFeature` and
  `Run` are proved against a function of the old state (`LineOutcome`,
  `LinesOutcome`, `FeatureOutcome`, `RunOutcome`). `WritePart`,
  `CountSplitWrite` and `Finalize` have no loop and state their new state
  directly.
- `OutputProperties` (`output_properties.dfy`): what those outcome functions
  promise over a line, a multi-line and a whole run.
- `CommandLine` (`commandline.dfy`): `get_directory`, `get_filename` and the
  comma splitter `get_options_vector`.
- `Seqs` (`seqs.dfy`): small sequence helpers.

Distances are exact reals. The square root is a parameter `sqrt` that must
be the non-negative root (`IsSqrt`). The walk only relies on the distance
being non-negative, symmetric and zero between equal points (`IsMetric`).
`DistanceIsMetric` proves the concrete formula has those properties.

## Model

| member | source | states |
|---|---|---|
| Geo.SquaredDistance | src/output.cpp:67-76 | the quantity under the square root is never negative, in either mode |
| Geo.DistanceIsMetric | src/output.cpp:63-76 | with a true square root, the distance is non-negative, symmetric and zero between equal points, in both modes |
| Geo.OneDegreeOfLongitude | src/output.cpp:68-72 | in geographic mode one degree of longitude on the equator is EARTH_RADIUS_IN_METERS·PI/180 metres |
| Geo.PlanarThreeFourFive | src/output.cpp:74-75 | in planar mode the distance is Euclidean (a 3-4-5 triangle has hypotenuse 5) |
| SplitWalk.WalkSnoc | src/output.cpp:109-125 | one iteration of the vertex loop is one `Step`: add the edge from the previous vertex (none for vertex 0), push the vertex, cut when over the maximum |
| SplitWalk.WalkTracksBuffer | src/output.cpp:106-125 | the accumulated length is always the length of the buffer; the buffer is empty only before the first vertex and ends with the last vertex consumed |
| SplitWalk.PartsExceedMax | src/output.cpp:115-116 | every split-triggered piece is strictly longer than the maximum |
| SplitWalk.WalkWithinMax | src/output.cpp:109-125 | with a non-negative maximum, the length between iterations is at most the maximum; every split-triggered piece has 2 or more points, and without its last edge it is at most the maximum long |
| SplitWalk.WalkCovers | src/output.cpp:109-125 | with a non-negative maximum, the pieces and the buffer are chained at shared vertices and glue back to exactly the vertices consumed |
| SplitWalk.SegmentLengthBounds | src/output.cpp:106-129 | split-triggered pieces are longer than the maximum; with a non-negative maximum the trailing buffer is at most the maximum long, and each split-triggered piece is at most the maximum long without its last edge |
| SplitWalk.LongLineIsCut | src/output.cpp:115-116 | with a non-negative maximum, a line longer than the maximum is cut at least once, closed rings included |
| SplitWalk.EmittedReconstructsLine | src/output.cpp:109-129 | for 2 or more points and a non-negative maximum, the written pieces are non-empty, have 2 or more points each, each starts at the last vertex of the one before, and glued together they are the input line |
| SplitWalk.TrailingSingletonDropped | src/output.cpp:127-129 | a trailing buffer of one point is not written |
| SplitWalk.NoSplitWhenShort | src/output.cpp:109-125 | a line no longer than the maximum goes through the loop without any cut |
| SplitWalk.ShortLineIsOneSegment | src/output.cpp:106-129 | a line of 2 or more points no longer than the maximum is written once, whole |
| SplitWalk.ResplitIsIdentity | src/output.cpp:106-129 | the walk is idempotent: walking any piece the walk emits again emits that piece unchanged (the minimum-length test of `skip_ring` is not part of this; see `ResplitDropsShortPiece`) |
| SplitWalk.WorkedExample | src/output.cpp:109-129 | edges of 1000, 1100 and 400 with a maximum of 2000 give the pieces [v0,v1,v2] and then [v2,v3] |
| Transactions.SplitWritesWriteParts | src/output.cpp:115-124 | the split-triggered writes are the pieces in order, each with the feature's fields, and commits and starts come in adjacent pairs |
| Transactions.CounterClosedForm | src/output.cpp:119-124 | with size ≥ 0 and the counter in 0..size, after k split writes the counter is in 0..size again, and (counter + k) = (size + 1)·commits + new counter: a commit follows every (size + 1)-th write |
| Transactions.NonPositiveSizeCommitsEveryWrite | src/output.cpp:119-124 | with size ≤ 0, every split write is followed by a commit, and the counter is 0 after any write |
| Transactions.SplitWritesKeepRange | src/output.cpp:119-124 | the counter stays in 0..size (or at 0 for a negative size) over any number of split writes |
| Transactions.FiveWritesWithSizeTwo | src/output.cpp:115-124 | with size 2 and a fresh counter, five split writes commit and restart once, right after the third, and leave the counter at 2 |
| OutputLayer.DefaultOptions | src/output.hpp:32-48 | the defaults: format "ESRI Shapefile", transaction size 1000, not geographic, minimum 200, maximum 2000, no creation options |
| OutputLayer.Output.constructor | src/output.cpp:25-29 | geographic mode is the input's geographic flag OR the option; the distance is the formula for that mode and is a metric; the counter starts at 0 and nothing has been written |
| OutputLayer.Output.SkipRing | src/output.cpp:148-157 | a closed line of more than 5 points is never skipped; any other line is skipped exactly when its total length is strictly below the minimum |
| OutputLayer.Output.WritePart | src/output.cpp:78-97 | the buffer is written with the feature's fields and then holds only its last point |
| OutputLayer.Output.CountSplitWrite | src/output.cpp:119-124 | the counter goes up by one; once it exceeds the transaction size, exactly one Commit and then one Start are issued and it goes back to 0 |
| OutputLayer.Output.WriteSplitParts | src/output.cpp:106-126 | the loop ends with the buffer of `Walk`; it writes exactly the split-triggered pieces of `Walk`, each followed by its counter update |
| OutputLayer.Output.SplitLinestring | src/output.cpp:99-130 | the new counter and log are those of `LineOutcome`; the counter stays in range; a skipped line changes neither the log nor the counter |
| OutputLayer.Output.SplitLines | src/output.cpp:137-142 | the components of a multi-line are split in index order: the new counter and log are those of `LinesOutcome`; the counter stays in range |
| OutputLayer.Output.SplitAndWriteFeature | src/output.cpp:132-146 | the new counter and log are those of `FeatureOutcome` (components of a multi-line in index order); the counter stays in range |
| OutputLayer.Output.Run | src/output.cpp:159-166 | the new counter and log are those of `RunOutcome` (features in reading order); the counter stays in range |
| OutputLayer.Output.Finalize | src/output.cpp:168-171 | exactly a Commit and then a Sync are appended |
| OutputProperties.LineWrites | src/output.cpp:99-130 | a skipped line writes nothing; otherwise the written pieces are exactly those of the walk, split-triggered ones first and then a trailing buffer of 2 or more points, each with the feature's fields |
| OutputProperties.LineSegmentsReconstructLine | src/output.cpp:106-129 | for a kept line of 2 or more points and a non-negative maximum, the written pieces have 2 or more points each, are chained, and glue back to the line |
| OutputProperties.LineWritesAreLines | src/output.cpp:109-129 | with a non-negative maximum every write of a line has 2 or more points |
| OutputProperties.LineKeepsRange | src/output.cpp:99-130 | a line leaves the counter in range |
| OutputProperties.UnbatchedLine | src/output.cpp:103-124 | with size 0, a kept line's events begin with a Start, each split write is followed by a commit, and the counter is 0 after any split write |
| OutputProperties.BatchedLinePaired | src/output.cpp:103-124 | with a size other than 0, a line issues no Start except right after a Commit, and no Commit without a Start after it |
| OutputProperties.NothingWrittenForOtherGeometry | src/output.cpp:132-146 | an empty geometry, or one that is neither a line nor a multi-line, writes nothing and leaves the counter unchanged |
| OutputProperties.SingleComponentMulti | src/output.cpp:137-145 | a multi-line with one component is processed exactly like that line alone |
| OutputProperties.LinesConcat | src/output.cpp:137-142 | the components are processed strictly one after the other: the components a + b give the outcome of a followed by the outcome of b |
| OutputProperties.LinesKeepRange | src/output.cpp:137-142 | the components of a multi-line leave the counter in range |
| OutputProperties.LinesWritesAreLines | src/output.cpp:137-142 | with a non-negative maximum every write of a multi-line has 2 or more points |
| OutputProperties.BatchedLinesPaired | src/output.cpp:137-142 | with a size other than 0, commits and starts stay in adjacent pairs over a multi-line |
| OutputProperties.FeatureKeepsRange | src/output.cpp:132-146 | a feature leaves the counter in range |
| OutputProperties.FeatureWritesAreLines | src/output.cpp:132-146 | with a non-negative maximum every write of a feature has 2 or more points |
| OutputProperties.BatchedFeaturePaired | src/output.cpp:132-146 | with a size other than 0, commits and starts stay in adjacent pairs over a feature |
| OutputProperties.RunConcat | src/output.cpp:159-166 | features are processed strictly in order: features a + b give the outcome of a followed by the outcome of b |
| OutputProperties.RunKeepsRange | src/output.cpp:159-166 | the counter stays in range over a whole run |
| OutputProperties.RunWritesAreLines | src/output.cpp:159-166 | with a non-negative maximum no write of a run has fewer than 2 points |
| OutputProperties.BatchedRunPaired | src/output.cpp:159-166 | with a size other than 0, the run never starts a transaction except right after committing one, and never ends on a commit |
| OutputProperties.ResplitDropsShortPiece | src/output.cpp:99-129 | `skip_ring` runs before the walk, so a written piece can be dropped when split again: with the default options, edges of 1000, 1100 and 100 give a kept line whose trailing piece [v2,v3] of 100 metres is skipped on its own |
| CommandLine.LastIndexOf | src/linestringssplitter.cpp:47 | the index of the last '/', with no '/' after it, or -1 when there is none |
| CommandLine.RFind | src/linestringssplitter.cpp:59 | the start of the last occurrence of ".shp", with none after it, or -1 when there is none |
| CommandLine.GetDirectory | src/linestringssplitter.cpp:46-53 | "." when the path has no '/'; otherwise a prefix of the path that ends with '/' and leaves no '/' in the rest |
| CommandLine.DirectoryOfJoinedPath | src/linestringssplitter.cpp:46-53 | the directory of dir + "/" + name, with no '/' in name, is dir + "/" |
| CommandLine.GetFilename | src/linestringssplitter.cpp:56-66 | fails exactly when the path has no '/'; otherwise a prefix of the text after the last '/' whose length is the index of the last ".shp" capped at that text's length (all of it without ".shp") |
| CommandLine.GetFilenameKeepsSuffix | src/linestringssplitter.cpp:56-66 | as written, dir/base.shp gives base.shp, suffix kept, whenever dir has 3 or more characters |
| CommandLine.GetFilenameTruncates | src/linestringssplitter.cpp:64 | as written, "a/b.shp" gives "b.s"; the corrected `FileStem` gives "b" |
| CommandLine.FileStem | src/linestringssplitter.cpp:56-66 | corrected: fails exactly when the path has no '/'; otherwise a prefix of the text after the last '/' |
| CommandLine.FileStemOfShapefile | src/linestringssplitter.cpp:56-66 | corrected: dir + "/" + base + ".shp", with no '/' in base, gives base |
| CommandLine.NextComma | src/linestringssplitter.cpp:74-77 | the first comma at or after the start index, or the end of the string when there is none |
| CommandLine.GetOptionsVector | src/linestringssplitter.cpp:68-86 | the pointer walk returns the items of `OptionsOf` |
| CommandLine.OptionsRoundTrip | src/linestringssplitter.cpp:68-86 | joining the items with "," gives back the input exactly ("" gives no items) |
| CommandLine.OptionsShape | src/linestringssplitter.cpp:68-86 | "" gives no items; otherwise there is one item more than there are commas at index 1 or later, no item but the first holds a comma, and the first holds none after index 0 |
| CommandLine.OptionsUnique | src/linestringssplitter.cpp:68-86 | for non-empty input, the result is the only such split that joins back to the input |
| CommandLine.OptionsTwoItems | src/linestringssplitter.cpp:68-86 | "a=1,b=2" gives the two items "a=1" and "b=2" |
| CommandLine.OptionsEmptyItems | src/linestringssplitter.cpp:81 | "a,,b" gives "a", "" and "b"; a trailing comma as in "a," gives a last empty item |
| CommandLine.OptionsLeadingComma | src/linestringssplitter.cpp:74-79 | a comma at index 0 stays inside the first item: ",a" gives the one item ",a" |

## Behaviour of the code worth knowing

The model follows the code in each case. Where the program's help text
(src/linestringssplitter.cpp:29-42) states an intent, it is cited.

- The help text calls `--max-length` the "maximum length of a linestring"
  (src/linestringssplitter.cpp:42). The code cuts only after the vertex
  that takes the length over the maximum, so every split-triggered piece is
  strictly longer than the maximum (`PartsExceedMax`). Only without its
  last edge is it at most the maximum (`WalkWithinMax`).
- The help text says `--gt` groups NUMBER features per transaction
  (src/linestringssplitter.cpp:39). The code bumps the counter only after
  split-triggered writes (src/output.cpp:119); the trailing write at line
  128 is not counted. It commits once the counter exceeds the size, that is
  after every (size + 1)-th counted write (`CounterClosedForm`).
- The help text says `--min-length` is the "minimum length in meter for
  circular linestrings with 5 points" (src/linestringssplitter.cpp:41).
  `skip_ring` applies the minimum to every line except a closed ring of
  more than 5 points (src/output.cpp:149-156), so short open lines are
  dropped too (`SkipRing`, `ShouldSkip`).
- The help text gives SQlite as the default output format
  (src/linestringssplitter.cpp:33). `Options::output_format` defaults to
  "ESRI Shapefile" (src/output.hpp:35), as `DefaultOptions` states.
- `skip_ring` exempts a closed ring of more than 5 points from the minimum
  length (src/output.cpp:149-151). The exemption does not reach the split:
  `split_linestring` still walks such a ring and cuts it when it is longer
  than the maximum (`LongLineIsCut`).
- A transaction size of 0 does not give one transaction for the whole run.
  The code calls StartTransaction at the head of every kept line
  (src/output.cpp:103-105). Every split write then commits and restarts,
  because the counter 1 exceeds 0 (`UnbatchedLine`).
- With a size other than 0, nothing opens a transaction before the first
  write: neither the constructor (src/output.cpp:25-57) nor `main` calls
  StartTransaction. The code issues no Start before its first commit
  (`BatchedRunPaired`). The model does not open one either.
- Splitting a written piece again need not give it back. The walk alone
  does (`ResplitIsIdentity`). But `split_linestring` first asks `skip_ring`
  (src/output.cpp:100), so a piece shorter than the minimum length is
  dropped when split on its own (`ResplitDropsShortPiece`).

## Left out

- `main`, `getopt_long` option parsing, `atoi`, `print_help` and the
  `exit(1)` plumbing of the command line (src/linestringssplitter.cpp:29-43,
  98-201). `get_filename`'s `exit(1)` is modelled as a `Failure` result.
- `options_list` (src/linestringssplitter.cpp:88-95) builds a raw C pointer
  array. The creation options are kept as a `seq<string>`.
- The GDAL/OGR calls: driver lookup, data source, layer and field creation
  in the constructor (src/output.cpp:31-56), the destructor, and the
  feature construction and field copying in `write_part`
  (src/output.cpp:79-88). A write is the `Write(fields, points)` event.
  `StartTransaction`, `CommitTransaction` and `SyncToDisk` are events too.
  Their results are not checked by the code and are not modelled.
- The `exit(1)` paths of the constructor and of `write_part` when the
  output layer fails are not modelled; every call is taken to succeed.
- Floating point: `sqrt` is a parameter, and `deg_to_rad`, the distance and
  the accumulated length are computed over exact reals. IEEE rounding is not
  modelled.
- The reading loop of `run` (`ResetReading`, `GetNextFeature`,
  `DestroyFeature`) is a sequence of features.
- The progress dot written to stderr for each multi-line component
  (src/output.cpp:140).
- `distance` is declared static (src/output.hpp:70) yet reads
  `m_geographic_mode`. The mode is an ordinary `const` field, fixed by the
  constructor.
- The parallel `x_coords`/`y_coords` vectors are one buffer of points.
- Attribute values are an abstract `Field` list copied to every write.
- OutputLayer.Output.SplitLinestring: requires at least one point, because
  `skip_ring` has no defined result on a line with no points: its loop
  starts at 1 and stops only at 0, and its first pass already reads the
  coordinates of points 0 and 1 of an empty point array. A feature must
  therefore not be a non-empty multi-line with an empty component
  (`Processable`). Empty features return before reaching `skip_ring`.
- OutputLayer.Output.CountSplitWrite: the counter is an unbounded integer.
  The signed overflow of `++m_transaction_count` when the transaction size is
  INT_MAX is not modelled.
- The transaction-size and length options are taken as given. Their parsing
  with `atoi`, which truncates the lengths to integers, belongs to `main`.
- Only linestrings, multi-linestrings and "other" geometries are
  distinguished. The null geometry pointer the code would dereference is
  not modelled.
- OutputLayer.Output.constructor: takes the input's geographic flag as a
  `bool` and always constructs. The code calls `IsGeographic()` on the
  result of `GetSpatialRef()` without testing it for NULL
  (src/output.cpp:28-29), so an input layer without a spatial reference
  (a shapefile without a .prj file, say) dereferences a null pointer.
  `main` itself allows for a NULL spatial reference
  (src/linestringssplitter.cpp:190). That crash is not modelled.
- CommandLine: each `char` of a modelled path stands for one byte, as
  `std::string` indices count bytes. A character that takes several bytes in
  UTF-8 is several `char`s in the model, so `GetFilename` agrees with the
  code only when the path is given byte by byte. Applied to Dafny's Unicode
  `string` of "é/b.shp" it gives "b.s", while the code gives "b.sh".

## Findings

| source | as written | input that shows it | evidently intended | confidence | as-written member | corrected member |
|---|---|---|---|---|---|---|
| src/linestringssplitter.cpp:64 | `path.substr(begin+1, end)` passes the index of ".shp" as a character count | "a/b.shp" gives "b.s"; "dir/base.shp" gives "base.shp" with the suffix kept | `path.substr(begin+1, end-begin-1)`: the file name without ".shp" | high; not executed | CommandLine.GetFilenameTruncates | CommandLine.FileStemOfShapefile |

`get_filename` has no caller in the program, so the discrepancy does not
reach the output.
