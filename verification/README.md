# Verification of biology

biology captures the bios that go through a block device into per-cpu dump files (`kernel/biology-proxy`),
replays such files against another device (`kernel/biology-gen`), converts them to JSON
(`uspace/util/to-json`) and scores how alike two captures are (`uspace/util/distance`). This project models
its core in three parts, and then joins the last two.

**The assignment problem.** `HungarianSpec` gives `hungarian_algorithm` as a machine on values: the two
reductions, the greedy matching, and one turn of the inner loop (a walk, then an augmentation or a dual
adjustment). `Hungarian` is the function itself, with loops that update a matrix in place, proved to follow that
machine. `HungarianStart` says what the reductions and the greedy matching come to. `HungarianSteps` has the
facts about walks, marks and flipped paths; `HungarianOptimality` the primal-dual invariant, weak duality and
optimality in the original matrix; `HungarianTermination` says when the function returns at all, on every real
matrix: exactly when none of the first u(2^n + 1) turns is a failed walk that shifts by zero. `Distance` and
`Similarity` are the matrix it is meant for and the score computed from an assignment.

**The dump file.** `Record` and `Stream` define the byte format, schema header included, and `Format` says where
each byte of a file is; `Serial` has the serializer's loops over byte buffers, `Dumping` and `DumpSet` the
buffered writers, `Parsing` the reader with its sliding window, `WholeFile` the JSON converter's reader.
`DumpLog` is the writer on values, also when file writes fail. `Pipeline` joins writer and reader: whatever the
schema, the records and the buffer sizes, what is read back is what was dumped.

**The two protocols.** `Capture` is the proxy as a step relation: submission, completion, dump work, enabling
and disabling, with all bios and cpus interleaved; `CaptureInvariant`, `CaptureSession` and `CaptureFlush` prove
what every step keeps, what a session leaves behind, and that flushing the work queue gets there; `CaptureTimes`
what the recorded times are. `Replay` is the generator's group of self-rescheduling workers, and `ReplayTiming`
the moments at which they submit. `Capturing` and `Replaying` are the same code as objects with fields, whose
callbacks are proved to be runs of these protocols. `EndToEnd` composes the protocols: each replay worker
submits, in order, a prefix of the very requests that its cpu captured. `RecordAndReplay` composes the objects:
a proxy writes real files and a reader reads one of them.

Three things the proofs show about the code rather than assume of it:

- `hungarian_algorithm` need not return. The walk never backtracks, so a failed walk can shift by 0 and change
  nothing; then the same turn repeats for ever. `HungarianTermination.ReturnsIffNeverStuck` says that this is
  the only way not to return, and within how many turns it shows; `HungarianTermination.ExampleNeverReturns`
  gives a 3 by 3 input.
- The amount it returns is summed over the reduced matrix, so it is always 0 in exact arithmetic, and is the
  cost of the assignment only when that is 0 too (`HungarianOptimality.ReturnedAmountIsCostIffFree`); on the
  matrix of a single 1 it is wrong (`HungarianTermination.AmountIsWrongOnOne`).
- Bio ids of a session are distinct exactly as long as no more than 2^32 bios are traced
  (`CaptureSession.IdsDistinctIffFew`), and longer sessions exist (`CaptureSession.RepeatedIdReachable`).

Assumptions. Numbers of the distance program are exact reals, and its square root is a parameter. The bounds use
only that it is zero at zero and strictly increasing; what the distances are is stated for the real one.
Integers of the kernel code have their C widths where bytes are involved, in little-endian order with a `size_t`
of eight bytes. Files start empty; allocation succeeds; a read returns as many bytes as asked for or as there
are left; a failing write leaves the file as it was. The header fits the first buffers, whose sizes are
parameters. The segments of a bio add up to its size. `memcpy` within the reader's buffer, where source and
target may overlap, copies upwards. One event of a protocol is one action that is atomic in the source or done
under a lock; clocks, cpu numbers, completion status and timer lateness are parameters of the events.

## Model

| member | source | states |
|---|---|---|
| HungarianOptimality.InitialInv | uspace/util/distance/distance.py:98-111 | after both reductions and the greedy matching there are duals u, v such that the reduced matrix is the original less u and v, is nowhere negative, is zero on every matched cell, and the two match lists are mutually inverse |
| HungarianStart.ReductionIsByMinima | uspace/util/distance/distance.py:98-102 | the amounts taken off are the least entry of each row and then the least entry left in each column, and no others |
| HungarianStart.GreedyTakesFirst | uspace/util/distance/distance.py:104-111 | the greedy loop gives every row, in order, the first free column that holds one of its zeros; a row it leaves out had no such column |
| HungarianSteps.VisitsDistinct | uspace/util/distance/distance.py:124-136 | a walk never stands on a row twice and never takes a column twice, although it moves on inside the loop over the columns |
| HungarianSpec.WalkFacts | uspace/util/distance/distance.py:118-136 | every walk is an alternating path: strictly increasing columns, each edge a zero of the matrix, each next row the partner of the column before, successful exactly when it ends on a free column |
| HungarianSpec.WalkTakesEveryZero | uspace/util/distance/distance.py:124-136 | on no row it stands on does a walk pass over a zero: every column between where it came from and the column it takes, or the end of the row when it fails, holds a non-zero entry |
| HungarianSteps.VisitsFollowMatching | uspace/util/distance/distance.py:127-136 | a matched row is marked exactly when its column is, so matched zeros survive the adjustment |
| HungarianSteps.FailedWalkMarks | uspace/util/distance/distance.py:116-144 | a failed walk marks exactly one more row than columns, hence some column stays unmarked and the minimum is taken over a non-empty set |
| HungarianSteps.ScanIsLeast | uspace/util/distance/distance.py:139-143 | the double loop finds the least entry over marked rows and unmarked columns, and finds one whenever there is one |
| HungarianSteps.MinValIsLeast | uspace/util/distance/distance.py:139-143 | after a failed walk the minimum is finite, attained at an uncovered cell and not above any other |
| HungarianOptimality.AdjustKeeps | uspace/util/distance/distance.py:145-150 | the dual adjustment keeps the matrix non-negative and zero on every matched cell, and shifts by a non-negative amount |
| HungarianSteps.AugmentKeepsMatching | uspace/util/distance/distance.py:158-161 | flipping the even entries of the path leaves the two match lists mutually inverse |
| HungarianSteps.AugmentAssignsOneRow | uspace/util/distance/distance.py:115-163 | an augmentation assigns exactly the row it started from and exactly one free column; no other row or column becomes matched or free |
| HungarianOptimality.TurnKeepsInv | uspace/util/distance/distance.py:123-161 | every turn of the inner loop keeps the primal-dual invariant |
| HungarianOptimality.FailedWalkRaisesDuals | uspace/util/distance/distance.py:138-150 | a failed walk raises the dual total by exactly the amount it shifts by |
| HungarianOptimality.DualsBelowEveryPermutation | uspace/util/distance/distance.py:98-102 | weak duality: the dual total never exceeds the original cost of any permutation |
| HungarianOptimality.DoneIsCheapest | uspace/util/distance/distance.py:115-169 | when no row is unassigned the match list is a permutation of least cost in the original matrix, equal to the dual total |
| HungarianOptimality.RunKeepsInv | uspace/util/distance/distance.py:115-163 | the invariant holds after any number of turns |
| HungarianOptimality.EndedRunIsCheapest | uspace/util/distance/distance.py:90-169 | if the run ends, it ends on a cheapest permutation of the original matrix, and the reduced matrix sums to zero over it |
| HungarianOptimality.ReturnedAmountIsCostIffFree | uspace/util/distance/distance.py:166-169 | the returned amount is the cost of the assignment exactly when there is an assignment of cost zero |
| HungarianTermination.UnchangedIffStuck | uspace/util/distance/distance.py:138-156 | a turn leaves the state unchanged exactly when the walk fails and the minimum is zero |
| HungarianTermination.StuckNeverEnds | uspace/util/distance/distance.py:123-156 | after one such turn the function never returns |
| HungarianTermination.WalkClimbs | uspace/util/distance/distance.py:123-136 | if the zeros of a failed walk are all still zeros, the next walk from the same row is the same one or comes later in the order of the columns taken |
| HungarianTermination.FailedTurnClimbs | uspace/util/distance/distance.py:138-156 | a failed walk keeps its own zeros, so after it the walk comes later in that order, or the run is stuck |
| HungarianTermination.EndsOrSticksWithin | uspace/util/distance/distance.py:115-163 | on every square matrix the function has returned or is stuck after at most u(2^n + 1) turns, where u rows are left by the greedy matching; the bound does not depend on the entries |
| HungarianTermination.ReturnsIffNeverStuck | uspace/util/distance/distance.py:115-163 | on every square matrix the function returns if and only if none of the turns within that bound is a failed walk that shifts by zero |
| HungarianTermination.ReturnsByBound | uspace/util/distance/distance.py:115-163 | a run that ever returns has returned by the bound |
| HungarianTermination.ExampleIsFree | uspace/util/distance/distance.py:90-169 | the example matrix has an assignment of cost zero |
| HungarianTermination.ExampleNeverReturns | uspace/util/distance/distance.py:123-156 | and the function never returns on it |
| HungarianTermination.AmountIsWrongOnOne | uspace/util/distance/distance.py:166-169 | on the matrix of a single 1 the function returns at once, with the amount 0 for an assignment of cost 1 |
| HungarianTermination.WalkDisplaces | uspace/util/distance/distance.py:132-136 | going on over a matched column matters: on a 2 by 2 matrix the second row displaces the first from the only column in which it has a zero |
| Hungarian.SubtractRowMinima | uspace/util/distance/distance.py:98-99 | the in-place loop leaves the row-reduced matrix |
| Hungarian.SubtractColumnMinima | uspace/util/distance/distance.py:101-102 | the in-place loop leaves the column-reduced matrix |
| Hungarian.MatchGreedily | uspace/util/distance/distance.py:104-111 | the nested loops with break compute the greedy matching |
| Hungarian.UnassignedRows | uspace/util/distance/distance.py:113 | the list holds exactly the unmatched rows, in order; it is empty exactly when all rows are matched, and starts with the first unmatched one |
| Hungarian.WalkOnce | uspace/util/distance/distance.py:116-136 | the loop over the columns takes the specified walk, which passes over no zero; the even entries of its path list are the walk's edges, its marks are the walk's rows and columns |
| Hungarian.LeastUncovered | uspace/util/distance/distance.py:139-143 | the double loop from infinity computes the least uncovered entry |
| Hungarian.AdjustInPlace | uspace/util/distance/distance.py:145-150 | the in-place double loop lowers marked rows and raises marked columns by the given amount |
| Hungarian.FlipPath | uspace/util/distance/distance.py:158-161 | stepping through the path by two stores exactly the walk's edges in both lists |
| Hungarian.TakeTurn | uspace/util/distance/distance.py:123-161 | walk, adjustment and augmentation together are one turn of the machine |
| Hungarian.FindAugmentation | uspace/util/distance/distance.py:115-156 | the inner loop goes through the machine's states one after the other, up to the cut-off |
| Hungarian.HungarianAlgorithm | uspace/util/distance/distance.py:90-169 | a non-square matrix is refused; otherwise the function is said never to return exactly when no number of turns ends its run, and returns exactly when no turn within the bound is stuck; what it returns is a cheapest permutation of the given matrix, with amount zero |
| Distance.MaxDeltaKeyCovers | uspace/util/distance/distance.py:36-37 | no request of one trace differs from one of the other by more than the delta of the key |
| Distance.MaxDeltaKeyReached | uspace/util/distance/distance.py:36-37 | and some request of one trace differs from some request of the other by exactly that much |
| Distance.GenericBound | uspace/util/distance/distance.py:48-55 | a scaled difference lies between 0 and its scale and is 0 only for equal values, also when the delta is 0 |
| Distance.DistanceBound | uspace/util/distance/distance.py:62-73 | a distance lies in [0, 1] and is 0 exactly between requests that agree on all five keys |
| Distance.DistanceByCpu | uspace/util/distance/distance.py:57-73 | requests that differ in cpu only are 1 apart, in units of the largest distance |
| Distance.DistanceByOp | uspace/util/distance/distance.py:57-73 | requests that differ in op only are 5 apart in those units |
| Distance.DistanceBySector | uspace/util/distance/distance.py:48-73 | requests that differ in sector only are 3 times the difference over the delta apart, the delta counting as 1 when it is 0 |
| Distance.DistanceBySize | uspace/util/distance/distance.py:48-73 | likewise for size, with the scale 2 |
| Distance.DistanceByStartTs | uspace/util/distance/distance.py:48-73 | likewise for start_ts, with the scale 2 |
| Distance.DistanceByKeys | uspace/util/distance/distance.py:62-73 | the squared distance of any two requests is the sum over the five keys of the squared distances of requests that differ in that key alone |
| Distance.SquareRootIncreases | uspace/util/distance/distance.py:72-73 | a square root is zero at zero and strictly increasing, which is all that the bounds below use of it |
| Similarity.DistanceMatrix | uspace/util/distance/distance.py:75-87 | the shorter second trace is padded in place and the filled array is the matrix of distances; an empty trace is an error |
| Similarity.RowsArranged | uspace/util/distance/distance.py:78-80 | rows are the first trace and columns the second, unless the first is longer; then the other way round, with empty rows behind |
| Similarity.MatrixCells | uspace/util/distance/distance.py:75-87 | every entry is the distance of its row and its column, scaled by the largest differences of the two traces as they were given |
| Similarity.DistanceMatrixIsFaithful | uspace/util/distance/distance.py:62-87 | all entries lie in [0, 1], are 0 exactly between equal requests, and are 1 in padding rows |
| Similarity.ScoreEquation | uspace/util/distance/distance.py:197 | the score is what is left of 1 after the cost of the assignment, per row |
| Similarity.ScoreBound | uspace/util/distance/distance.py:197 | the score of any assignment of non-empty traces lies in [0, 1] |
| Similarity.PerfectScore | uspace/util/distance/distance.py:75-87 | an assignment scores exactly 1 if and only if it embeds the first trace into the second; a longer first trace never scores 1 |
| Similarity.ReorderingScoresOne | uspace/util/distance/distance.py:75-197 | every cheapest assignment of a trace and a reordering of it scores exactly 1 and matches equal requests |
| Record.FieldId | shared/biology-proxy-bio-serial.c:3-124 | the ids of the nine fields are their places in the table of all fields |
| Record.SerialSizeIsLength | shared/biology-proxy-bio-serial.c:245-276 | serial_size predicts exactly how far serialize advances |
| Record.FieldRoundTrip | shared/biology-proxy-bio-serial.h:86-108 | reading a written field, in either reading build, takes over its value and leaves the reader behind its bytes |
| Record.PayloadRoundTrip | shared/biology-proxy-bio-serial.c:67-106 | a payload written segment by segment is read back as its size and the joined segments |
| Record.FieldsRoundTrip | shared/biology-proxy-bio-serial.c:258-302 | deserialize after serialize, for any schema: all fields are taken over and exactly the record's bytes are consumed, although the payload's width is known only once its size has been read |
| Record.ReceivedIsRestored | shared/biology-proxy-bio-serial.c:93-106 | the generator gets the written value of every listed field and keeps its own value of every other |
| Record.ConvertedIsRestored | shared/biology-proxy-bio-serial.c:108-116 | the converter gets the same scalars and, of the payload, only the size |
| Record.HeaderRoundTrip | shared/biology-proxy-bio-serial.c:164-243 | the schema read from a header is the schema that was written, for any schema |
| Format.ByteAt | shared/biology-proxy-bio-serial.c:198-205 | numbers are little-endian: the byte at place k is the k-th least significant one |
| Format.FieldCodes | shared/biology-proxy-bio-serial.c:3-162 | the ids of the nine fields, and which fields the two schemas list |
| Format.HeaderCount | shared/biology-proxy-bio-serial.c:187-208 | a header starts with the number of fields in four bytes |
| Format.HeaderLayout | shared/biology-proxy-bio-serial.c:201-205 | behind it are the ids of the fields, four bytes each, in order |
| Format.RecordLayout | shared/biology-proxy-bio-serial.c:258-276 | for any schema a record is its length in eight bytes, not counting itself, and then every field where those before it end |
| Format.PayloadRecordScalars | shared/biology-proxy-bio-serial.h:86-105 | id at 8, start_ts at 12, end_ts at 20, sector at 28, size at 36, op at 40, cpu at 44 and status at 48, signed ones in two's complement |
| Format.PayloadRecordEnds | shared/biology-proxy-bio-serial.c:67-91 | the length says 49 plus the payload; the payload's size is at 49 and its content at 57 |
| Format.DefaultRecordScalars | shared/biology-proxy-bio-serial.c:126-136 | a record without payload has the same scalars at the same places |
| Format.DefaultRecordEnds | shared/biology-proxy-bio-serial.c:258-276 | and is 49 bytes long, its length saying 41 |
| Serial.CopyIn | shared/biology-proxy-bio-serial.h:98-99 | copying bytes in changes those places of the buffer and no others |
| Serial.MoveToFront | kernel/biology-gen/src/biology-gen-parser.c:77-81 | moving the unread bytes to the front keeps them even when source and target overlap |
| Serial.SerializePayload | shared/biology-proxy-bio-serial.c:72-88 | the segment loop writes size and content, and nothing but the size for an empty payload |
| Serial.SerialSizeOf | shared/biology-proxy-bio-serial.c:245-256 | the loop adds up the widths of the listed fields |
| Serial.Serialize | shared/biology-proxy-bio-serial.c:258-276 | the record's bytes are written at the given place and the rest of the buffer is untouched |
| Serial.SerializeSchema | shared/biology-proxy-bio-serial.c:177-208 | the header's bytes are written at the given place and the rest of the buffer is untouched |
| Serial.GetFieldById | shared/biology-proxy-bio-serial.c:164-175 | the search finds the field with the given id, or nothing when no field has it |
| Serial.DeserializeSchema | shared/biology-proxy-bio-serial.c:210-243 | the loop returns the schema of the header, or the error of an unknown id |
| Serial.Deserialize | shared/biology-proxy-bio-serial.c:285-302 | the loop reads the record's fields into info and returns how far it got |
| Stream.ParseNext | kernel/biology-gen/src/biology-gen-parser.c:94-120 | a delivered record consumes at least a prefix and at most what its prefix says, which is never more than there is |
| Stream.ParseOutcomes | kernel/biology-gen/src/biology-gen-parser.c:100-113 | read_next answers empty exactly when fewer than eight bytes are left, and an error exactly when less is left than the length says |
| Stream.ParseFollowsFields | kernel/biology-gen/src/biology-gen-parser.c:115-117 | the stream advances to where the fields end and not to where the length says: of a record that claims more than its fields need, the rest is taken for the next record |
| Stream.ParseCut | kernel/biology-gen/src/biology-gen-parser.c:100-113 | a record cut short reads as empty when its length is not whole and as an error otherwise |
| Stream.ParseTruncated | kernel/biology-gen/src/biology-gen-parser.c:94-120 | a file cut after any byte of its records delivers exactly the records that are whole, then empty if fewer than eight bytes are left over and an error otherwise |
| Stream.ParseWritten | kernel/biology-gen/src/biology-gen-parser.c:94-120 | reading all written records back delivers them all, in order, then empty |
| DumpLog.AppendKeepsLog | kernel/biology-proxy/src/biology-proxy-dump.c:86-130 | one dump adds exactly the record to file and buffer together, fits the buffer, and grows it only to the record's size |
| DumpLog.AppendCases | kernel/biology-proxy/src/biology-proxy-dump.c:116-130 | a record that there is room for is only buffered, whatever would become of a file write; otherwise the buffer is written out and the record takes its place, the buffer growing only to its size; if that write fails both are lost |
| DumpLog.AppendAllKeepsLog | kernel/biology-proxy/src/biology-proxy-dump.c:214-242 | file and buffer together are always everything written so far, in order, and the buffer is as large as the larger of its first size and the longest record |
| DumpLog.RunKeepsAccounts | kernel/biology-proxy/src/biology-proxy-dump.c:86-130 | over any run with failing file writes, file and buffer hold whole records as the ledger lists them |
| DumpLog.RunKeepsOrder | kernel/biology-proxy/src/biology-proxy-dump.c:214-242 | what such a run keeps is an in-order selection of what was dumped |
| DumpLog.RunConserves | kernel/biology-proxy/src/biology-proxy-dump.c:86-130 | every dumped record is in the file, in the buffer, or among those that a failing drain held or was made to have room for, and in only one of these |
| DumpLog.NothingLostThatFits | kernel/biology-proxy/src/biology-proxy-dump.c:120-121 | while everything written fits the first buffer nothing is written out and nothing lost, whatever would become of file writes |
| DumpLog.HeaderFollowsFirstWrite | kernel/biology-proxy/src/biology-proxy-dump.c:86-96 | the header is saved exactly when the first file write succeeds, and lost for good when it fails |
| Dumping.Dump.constructor | kernel/biology-proxy/src/biology-proxy-dump.c:59-84 | a new dump has an empty file and the header in its buffer |
| Dumping.Dump.Drain | kernel/biology-proxy/src/biology-proxy-dump.c:86-96 | the buffer is empty afterwards whether or not the write succeeds, and the file has grown by it only if it did |
| Dumping.Dump.Resize | kernel/biology-proxy/src/biology-proxy-dump.c:107-114 | the buffer has the new size and its old content |
| Dumping.Dump.Prepare | kernel/biology-proxy/src/biology-proxy-dump.c:116-130 | a record that fits finds its room without a file write; otherwise there is room afterwards unless the drain failed, and growing happens only when it does not fit the empty buffer |
| Dumping.Dump.Append | kernel/biology-proxy/src/biology-proxy-dump.c:214-242 | a record that fits is added behind the buffer's bytes and the file stays as it is; otherwise the buffer's old bytes go to the file and the record is all there is in the buffer, or both are lost when that write fails |
| Dumping.Dump.Destroy | kernel/biology-proxy/src/biology-proxy-dump.c:98-105 | the last drain completes the file |
| DumpSet.Dumps.constructor | kernel/biology-proxy/src/biology-proxy-dump.c:174-198 | every cpu gets a dump of its own, header in the buffer, sharing nothing with the others |
| DumpSet.Dumps.Append | kernel/biology-proxy/src/biology-proxy-dump.c:214-242 | dumping on one cpu, whether or not its file write succeeds, does to that dump what the log specification says and leaves the dumps of all others as they are |
| DumpSet.Dumps.Destroy | kernel/biology-proxy/src/biology-proxy-dump.c:207-209 | every file ends up with its dump's buffer drained into it, as far as the last writes succeed |
| Parsing.Parser.ReadFile | kernel/biology-gen/src/biology-gen-parser.c:31-46 | a read copies as much as asked for or as there is to the given place and advances the file position by it |
| Parsing.Parser.Init | kernel/biology-gen/src/biology-gen-parser.c:48-71 | an empty file is an error; otherwise the schema is the written one and the reader stands behind the header |
| Parsing.Parser.RefillBuf | kernel/biology-gen/src/biology-gen-parser.c:73-92 | a refill keeps the unread bytes, grows the buffer only when asked for more than its size, and fills it as far as the file goes |
| Parsing.Parser.ReadNext | kernel/biology-gen/src/biology-gen-parser.c:94-120 | wherever the window lies over the file, read_next delivers what the specification says about the unread bytes and skips or repeats none; the buffer grows only to what was asked for |
| WholeFile.ParseDumpFile | uspace/util/to-json/src/info.c:39-63 | the whole-file loop ends on every well-formed file and prints every record, converted into the info the one before it left behind |
| WholeFile.ConvertOne | uspace/util/to-json/src/info.c:51-57 | one turn advances by exactly one record although it never looks at the length prefix |
| WholeFile.ReadersAgree | uspace/util/to-json/src/info.c:39-63 | on every file of every schema the converter prints, field by field, what the generator replays, up to the operation mask |
| Pipeline.WrittenFile | kernel/biology-proxy/src/biology-proxy-dump.c:86-130 | dumping records and closing leaves header and records, whatever the first buffer size |
| Pipeline.FileReadsBack | kernel/biology-gen/src/biology-gen-parser.c:48-120 | such a file has the right header and reads back as exactly these records, then empty |
| Pipeline.DumpAll | kernel/biology-proxy/src/biology-proxy-dump.c:214-242 | the writer object, called on a list of records and closed, leaves that file |
| Pipeline.ReplayRest | kernel/biology-gen/src/biology-gen-parser.c:94-120 | read_next called until it delivers no more refines reading the whole rest at once, on any bytes in which no record overruns its length |
| Pipeline.ReplayFile | kernel/biology-gen/src/biology-gen-parser.c:94-120 | read_next called on the reader object until it delivers no more yields all records in order, then empty; the buffer ends up as the largest of its first size, the longest record and eight bytes |
| Pipeline.ReplayCutFile | kernel/biology-gen/src/biology-gen-parser.c:94-120 | on a file that breaks off after any byte of its records the reader object yields exactly the whole ones, then empty or an error as a length is left over or not |
| Pipeline.CaptureThenReplay | kernel/biology-gen/src/biology-gen-parser.c:48-120 | writer, file and reader together are the identity on record lists, for any schema and any two buffer sizes that hold the header |
| Pipeline.FailedDrainsLoseWholeRecords | kernel/biology-proxy/src/biology-proxy-dump.c:86-130 | whatever file writes fail, the file is an in-order selection of whole records, behind the header unless the first write failed |
| Pipeline.FailedDrainsLoseNothingElse | kernel/biology-proxy/src/biology-proxy-dump.c:86-130 | what is missing from that selection is exactly what failing drains held and the records they were made for |
| Pipeline.FittingRecordsSurvive | kernel/biology-proxy/src/biology-proxy-dump.c:116-130 | records that fit the first buffer together with the header are all in the file once it is closed, whatever writes would have failed before |
| Pipeline.FailedDrainsLeaveReadableFile | kernel/biology-gen/src/biology-gen-parser.c:48-120 | as long as the first write succeeds, the file left by any such run reads back as exactly that selection, then empty |
| CaptureInvariant.StepMovesOne | kernel/biology-proxy/src/biology-proxy-bio.c:45-124 | each step of a bio moves that bio one stage on and touches no other bio; only the dump step touches a log, that of its cpu |
| CaptureInvariant.StepKeepsInv | kernel/biology-proxy/src/biology-proxy-bio.c:45-130 | every step of every bio, cpu and session keeps the invariant: clock, records, ids, in-flight count, per-cpu lists and logs |
| CaptureSession.RunKeepsInv | kernel/biology-proxy/src/biology-proxy-dev.c:13-75 | so the invariant holds after every run, whatever the interleaving |
| Capture.WriteByLowByte | kernel/biology-proxy/src/biology-proxy-bio.c:104-107 | whether a bio's payload is recorded depends on the low byte of its operation only, not on its flags |
| CaptureTimes.SubmitTracesIffEnabled | kernel/biology-proxy/src/biology-proxy-dev.c:13-24 | a bio is traced exactly when the device is enabled; otherwise nothing changes |
| CaptureTimes.FillStampsStart | kernel/biology-proxy/src/biology-proxy-bio.c:101-102 | the recorded start is the clock less the start of the session, and the cpu the current one |
| CaptureTimes.EndStampsEnd | kernel/biology-proxy/src/biology-proxy-bio.c:72-84 | the recorded end is the clock less the start of the session, and the status that of the clone |
| CaptureTimes.EnableBeginsSession | kernel/biology-proxy/src/biology-proxy-dev.c:30-61 | enabling an attached device changes nothing; otherwise a session begins at this moment, with no bios, ids from 0 and the schema asked for |
| CaptureTimes.EnableOpensDumps | kernel/biology-proxy/src/biology-proxy-dev.c:48 | and every cpu has a dump with nothing dumped |
| CaptureTimes.StartIsSinceEnabled | kernel/biology-proxy/src/biology-proxy-bio.c:102 | anywhere in a session, the start on a record is the time that has passed since the device was enabled, and stays so |
| CaptureTimes.StartsApart | kernel/biology-proxy/src/biology-proxy-bio.c:102 | the start times of two bios of a session differ by exactly the clock between their submissions |
| CaptureTimes.EnabledUntilDisabled | kernel/biology-proxy/src/biology-proxy-dev.c:63-65 | between two enables the device is enabled exactly until it is disabled |
| CaptureSession.InFlightIsCounted | kernel/biology-proxy/src/biology-proxy-bio.c:56-61 | bio_inflight is at any moment the number of bios counted in and not yet counted out |
| CaptureSession.EndedOnceAfterLogged | kernel/biology-proxy/src/biology-proxy-bio.c:45-62 | an original bio is ended at most once, and its record is in its cpu's log by then |
| CaptureSession.IdsDistinctIffFew | kernel/biology-proxy/src/biology-proxy-dev.h:31-35 | ids count up from 0 modulo 2^32 in every session; they are distinct if and only if at most 2^32 bios have been traced |
| CaptureSession.RepeatedIdReachable | kernel/biology-proxy/src/biology-proxy-dev.h:31-35 | some run of the device does hand out one id twice, to its first and its (2^32 + 1)-th bio |
| CaptureSession.QueuedCanBeDumped | kernel/biology-proxy/src/biology-proxy-bio.c:64-70 | when dump work runs, the dumps exist, its cpu has one and the record fits the format |
| CaptureSession.SessionComplete | kernel/biology-proxy/src/biology-proxy-dump.c:200-212 | when all dump work is done and the dumps are closed, every traced bio is in the list of exactly its cpu, once, with its clone's status and ordered time stamps, and each cpu's file decodes to exactly its list |
| CaptureFlush.WorkCountsDown | kernel/biology-proxy/src/biology-proxy-bio.c:45-62 | once every clone has completed, dump work in any order brings the end nearer by one with every action and changes no bio, record or id |
| CaptureFlush.FlushExists | kernel/biology-proxy/src/biology-proxy-dump.c:204-205 | flushing the work queue can always be done to the end |
| CaptureFlush.SessionCompleteAfterFlush | kernel/biology-proxy/src/biology-proxy-dev.c:63-75 | disabling as a whole: from the moment all clones have completed, every order of the remaining dump work ends with nothing left to do, after which the session is complete |
| Capturing.Proxy.NextBioId | kernel/biology-proxy/src/biology-proxy-dev.h:31-35 | ids are handed out from the counter, which wraps at 2^32 |
| Capturing.Proxy.ProcessBio | kernel/biology-proxy/src/biology-proxy-bio.c:86-124 | the straight-line code is the run of creating, describing, counting and sending that bio; its start is the clock less the start of the session |
| Capturing.Proxy.SubmitBio | kernel/biology-proxy/src/biology-proxy-dev.c:13-24 | a bio submitted to an enabled device is traced as sent, with the time since enabling and its cpu on record, and all others stay as they are; one submitted to a disabled device changes nothing |
| Capturing.Proxy.EndIo | kernel/biology-proxy/src/biology-proxy-bio.c:72-84 | completion is the step that queues the dump work and records the time since enabling and the given status; all other bios stay as they are |
| Capturing.Proxy.DumpWork | kernel/biology-proxy/src/biology-proxy-bio.c:45-62 | for any queued bio the work dumps the record into the real buffer of its cpu, then ends the original bio, then counts it out, in this order; every other bio stays as it is |
| Capturing.Proxy.Enable | kernel/biology-proxy/src/biology-proxy-dev.c:30-61 | an attached device is left alone; otherwise dumps are opened, one a cpu, counters are reset and the session starts at this moment |
| Capturing.Proxy.Flush | kernel/biology-proxy/src/biology-proxy-dump.c:204 | whatever the order in which queued bios are taken up, all of them are dumped, ended and counted out |
| Capturing.Proxy.Disable | kernel/biology-proxy/src/biology-proxy-dev.c:63-75 | when every clone has completed, disabling flushes the queued work and closes the dumps; then every bio is captured once, with its record as it was, and the real file of every cpu reads as exactly its cpu's records |
| Replay.ReadTakesFirst | kernel/biology-gen/src/biology-gen-worker.c:103-118 | a worker that reads takes exactly the first unread record of its file onto its timer and leaves the others unread, or dies exactly when there is none; it submits nothing by that |
| Replay.StepKeepsInv | kernel/biology-gen/src/biology-gen-worker.c:16-174 | every step of creator, stopper and workers keeps the reference count equal to the references held and every worker's submissions and unread records equal to its file |
| Replay.DestroyedOnceAfterLastWorker | kernel/biology-gen/src/biology-gen-worker.c:66-186 | the count is the number of live workers, plus one during creation; the group is destroyed at most once, and exactly when creation is over and the last worker has died |
| Replay.SubmissionsArePrefix | kernel/biology-gen/src/biology-gen-worker.c:80-133 | a worker has submitted a prefix of its file's bios at any moment, and all of them if it died without a stop |
| Replay.AtMostOneAfterStop | kernel/biology-gen/src/biology-gen-worker.c:92-138 | after any run that contains a stop, however long the group runs on, each worker submits at most one more bio |
| Replay.ActiveUntilStop | kernel/biology-gen/src/biology-gen-worker.c:135-138 | the group is active exactly as long as no stop has happened, whatever else happens |
| Replay.StoppedCheckDies | kernel/biology-gen/src/biology-gen-worker.c:98-101 | a worker that has not yet tested the flag when the group is stopped dies at the test and submits nothing more |
| Replay.ActCountsDown | kernel/biology-gen/src/biology-gen-worker.c:80-133 | and every action of a worker brings its end nearer, so it comes to one |
| Replay.LiveWorkerCanAct | kernel/biology-gen/src/biology-gen-worker.c:80-133 | a live worker can always go on, unless a record of its file overruns its own length |
| Replaying.Group.Put | kernel/biology-gen/src/biology-gen-worker.c:176-186 | the last reference, and no other, destroys the group |
| Replaying.Group.Stop | kernel/biology-gen/src/biology-gen-worker.c:135-138 | group_stop is the stop of the protocol, whatever the workers are doing |
| Replaying.Worker.constructor | kernel/biology-gen/src/biology-gen-worker.c:16-55 | a worker takes a reference and starts at the first record behind the header |
| Replaying.Worker.Destroy | kernel/biology-gen/src/biology-gen-worker.c:66-78 | a dying worker drops its reference to the group |
| Replaying.Worker.WorkSubmit | kernel/biology-gen/src/biology-gen-worker.c:92-133 | through the windowed reader: dies when stopped or at the end of its file, otherwise holds the next bio on a timer of the jiffies left until its recorded moment |
| Replaying.Worker.Work | kernel/biology-gen/src/biology-gen-worker.c:80-90 | when its timer has fired, the worker submits the bio it holds, goes on with the next, and its submissions so far are a timeline |
| Replaying.Worker.TimedOverFile | kernel/biology-gen/src/biology-gen-worker.c:80-133 | the times at which a worker object submits are a timeline over the bios of its file, so everything below applies to it |
| Replaying.WorkIsRun | kernel/biology-gen/src/biology-gen-worker.c:80-133 | what a worker's timer callback does is a run of the group's protocol |
| ReplayTiming.Wait | kernel/biology-gen/src/biology-gen-worker.c:129-130 | rounding to jiffies loses less than one jiffy and never adds |
| ReplayTiming.NeverEarly | kernel/biology-gen/src/biology-gen-worker.c:122-130 | no bio is submitted a whole jiffy before its recorded moment |
| ReplayTiming.DeadlineIsLargest | kernel/biology-gen/src/biology-gen-worker.c:80-130 | the deadline of the i-th bio is the largest of (i + 1)(P + L) and, over k up to i, the recorded moment of k plus (i - k)(P + L) + L |
| ReplayTiming.SubmittedInTime | kernel/biology-gen/src/biology-gen-worker.c:80-130 | with overhead P and timer lateness L, every bio is submitted by its deadline |
| ReplayTiming.DeadlineIsReached | kernel/biology-gen/src/biology-gen-worker.c:80-130 | a run that is as late as it can be meets every deadline exactly when all its delays are whole jiffies, as they are with a jiffy of one nanosecond |
| ReplayTiming.NoDrift | kernel/biology-gen/src/biology-gen-worker.c:122-130 | bios recorded at least P + L apart are each submitted less than a jiffy early and at most L late, however many came before |
| EndToEnd.SessionFileOpens | kernel/biology-gen/src/biology-gen-worker.c:159-167 | a worker can be created on every file a session leaves behind |
| EndToEnd.SpawnedStaysOn | kernel/biology-gen/src/biology-gen-worker.c:16-55 | the worker created on a file keeps that file, its schema and its place in the group in every further run |
| EndToEnd.ReplaySubmitsTheSession | kernel/biology-gen/src/biology-gen-worker.c:80-133 | the worker on cpu c's file has submitted, at any moment, a prefix of the requests that cpu c captured, in order, with id, sector, size, operation, both times, cpu and status, and with the data of every write, and of nothing else, if the session was captured with the payload schema, and no data otherwise; all of them if it died without a stop |
| RecordAndReplay.RecordSession | kernel/biology-proxy/src/biology-proxy-dev.c:13-75 | a proxy object that is enabled, given bios, completed and disabled leaves real files that hold exactly these bios, each once, in the file of its cpu, with start and end as the clock at submission and completion less the clock at enabling, and with the status given |
| RecordAndReplay.RecordThenReplay | kernel/biology-gen/src/biology-gen-parser.c:48-120 | the reader object on one of these files delivers exactly the requests submitted on that cpu, each once, with those times and that status, and with the data of every write, and of nothing else, if captured with payload |

## Left out

- Hungarian.HungarianAlgorithm: where the function in the source turns for ever, the method's loops are cut off
  and it answers that the function never returns.
- Stream.ParseNext: a record whose fields reach past its own length prefix is marked as such and otherwise not
  described; the C code would read on beyond it, into whatever the window holds there.
- Parsing.Parser.ReadNext: asks for the same reason that the next record does not overrun its length prefix.
- Replaying.Worker.WorkSubmit: asks the same of the file. The object is one worker and its group; the group as a
  whole, with all workers interleaved, is the step relation in `Replay`.
- Serial.Deserialize: asks its caller that the record's fields lie within the bytes given, which the source
  takes for granted.
- Serial.DeserializeSchema: asks its caller that the header lies within the buffer, which the source takes for
  granted.
- Parsing.Parser.Init: asks that a non-empty file starts with a header that the first buffer can hold. On an
  unknown field id the source adds a negative size to its offset; this is not modelled.
- WholeFile.ParseDumpFile: asks for a well-formed file; on any other the source reads past the end of its map.
- Capturing.Proxy.DumpWork: keeps bios as values under tokens instead of as linked objects, and takes the
  file write to succeed; failing writes are treated in `DumpLog`, `Dumping`, `DumpSet` and `Pipeline`.
- Capturing.Proxy.Disable: asks that every clone has completed, since flushing the work queue waits for queued
  dump work only.
- Similarity.ScoreBound: requests are the five keys that the distance looks at; other keys of the JSON objects
  are not part of the model.
- Short file writes, and a file that is longer than what is written to it.
- Failing allocations and the partly built objects they leave behind.
- The addressing of pages and segments; a bio's data is a list of byte sequences.
- What a replayed bio carries when its record has no data: the generator then gives it a buffer of its own, whose
  bytes are not defined.
- Floating-point rounding, the solver that the script uses instead of `hungarian_algorithm`, and the script's
  flag test, which never selects that function.
- The score's lack of symmetry for traces of different lengths: only a longer first trace is padded.
- Work queues, kobjects, sysfs, disks, modules, the command-line tools, JSON printing and the statistics
  program: wrappers around foreign calls, or easy folds.
