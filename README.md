# cawlr core, modelled in Dafny

cawlr detects modified bases from nanopore signal. This project models the
core of five of its parts and proves properties about them:

- **Scoring** (`src/score.rs`, modelled in `score.dfy`, `context.dfy`,
  `context_examples.dfy`):
  - builds a read's reference context;
  - for every position from `start_ob` to `stop_ob` with a 6-mer that
    matches a motif, computes:
    - a *signal score*: the best-ranked signal in a six-position look-back
      window, scored against the two control mixtures;
    - a *skipping score*: the median of the surrounding 6-mers' skip-rate
      shares;
    - their fusion, the larger of the two.
  - `run` collects the scored reads of a batch.
- **Training** (`src/npsmlr/train.rs`, modelled in `train.dfy`):
  - the options and their builders;
  - the enumeration of all 4096 6-mers;
  - the sample store: `Db::open`, `add_reads` with its motif and range
    filter in one transaction, and `get_kmer_samples`;
  - `train_gmm` and `train_gmms`: a best-effort mixture per 6-mer.
- **Motifs** (`src/motif.rs`, modelled in `motif.dfy`):
  - `pos:motif` parsing with its ordered error checks, and display;
  - the 0-based position, `within_kmer`, `surrounding_idxs`, `all_bases`.
- **Strand map** (`src/strand_map.rs`, modelled in `strand_map.dfy`): the
  strand each read name's alignment records agree on.
- **Detection conversion** (`src/bin/convert_detection.rs`, modelled in
  `convert_detection.dfy`):
  - groups consecutive detection lines of one read;
  - converts each group to a scored read and assigns its strand.

Shared record types are in `records.dfy`:
- IEEE doubles as `F64`, with NaN and the infinities;
- signals, read metadata, scores, mixtures and models.

`wrappers.dfy` holds `Option` and `Result`.

Code that the source runs as loops or updates in place is modelled as
methods proved against specification functions:
- the loops are `score_eventalign`, `pos_with_data`, `Context::surrounding`,
  `all_kmers`, `train_gmms`, `from_bam_file` and the loop of the conversion;
- the store is a class whose `rows` field the methods update.

## Model

| member | source | states |
|---|---|---|
| Records.FMax | src/score.rs:116 | `f64::max`: a NaN operand yields the other one; otherwise the result is one of the operands and at least both |
| Records.Share | src/score.rs:150-154 | `a / (a + b)` for non-negative operands is NaN exactly when both are zero, and otherwise a probability `r` with `r * (a + b) == a` |
| Records.LookBack | src/score.rs:182-185 | the window from `pos - 5` (clamped at 0) to `pos`: it has `min(pos, 5) + 1` elements, ascending, ending at `pos`, and contains exactly the positions in `[pos - 5, pos]` |
| Scoring.PosData | src/score.rs:243-249 | every key maps to a signal at that position, and the keys are exactly the positions of the read's signals |
| Scoring.PosDataKeepsLast | src/score.rs:245-247 | a position maps to the last signal inserted under it |
| Scoring.PosWithData | src/score.rs:243-249 | the insertion loop builds exactly `PosData` of the signals |
| Scoring.LookBackAscending | src/score.rs:182-185 | the window positions are strictly ascending |
| Scoring.SurroundHasData | src/score.rs:187-193 | one flag per window position, true exactly when that position has a signal |
| Scoring.WithData | src/score.rs:202-206 | keeps exactly the window positions that have a signal, no more positions than the window has |
| Scoring.WithDataAscending | src/score.rs:202-206 | filtering keeps ascending order |
| Scoring.SurroundingSignal | src/score.rs:195-212 | None exactly when no window position has a signal; otherwise the signals of the window positions that have one |
| Scoring.SurroundingSignalOrder | src/score.rs:195-212 | the window's signals come in strictly ascending position order, each at its own position |
| Scoring.BestAfterUnranked | src/score.rs:222-227 | when the best so far has no rank, the newcomer becomes the best |
| Scoring.BestKept | src/score.rs:227-232 | a ranked best stays best against an unranked or strictly lower-ranked newcomer |
| Scoring.BestTaken | src/score.rs:228-233 | a newcomer ranked at least as high as the ranked best takes its place |
| Scoring.ReduceIsBest | src/score.rs:221-237 | the reduction returns a best candidate: of maximal rank and the last of that rank when any candidate is ranked, the last candidate otherwise |
| Scoring.BestSignalExamples | src/score.rs:225-234 | equal ranks: the later signal wins; a ranked signal beats an unranked one on either side |
| Scoring.BestSurroundingSignal | src/score.rs:214-238 | None exactly when there is no candidate; otherwise a best candidate |
| Scoring.ScoreSignal | src/score.rs:305-322 | withheld exactly when both chosen components' log-densities exceed `-cutoff`; otherwise the positive component's density share, a score |
| Scoring.CalcSignalScore | src/score.rs:165-179 | both directions: a score only when the window has a signal and both controls have a mixture for the best signal's kmer, and whenever both do, exactly that signal's `ScoreSignal` against the two mixtures |
| Scoring.KmerSkip | src/score.rs:145-158 | defined exactly when both controls have a skip rate: `p/(p+n)` with data, `(1-p)/((1-p)+(1-n))` without, always a score |
| Scoring.SkipScores | src/score.rs:140-160 | the scores of the zipped (kmer, flag) pairs whose kmer both controls know, no more than either list, all scores; order and multiplicity follow from the three lemmas below |
| Scoring.SkipScoresSingle | src/score.rs:142-158 | one (kmer, flag) pair gives its `KmerSkip` when both controls know the kmer and nothing otherwise |
| Scoring.SkipScoresAppend | src/score.rs:140-160 | the scores of concatenated pair lists are the concatenated scores, so the result lists each pair's score once, in zip order |
| Scoring.SkipScoresZipShorter | src/score.rs:140-142 | `zip` stops at the shorter list: surplus flags change nothing |
| Scoring.KmerSkipExample | src/score.rs:152-154 | rates 0.2 and 0.8 without data give 0.8 |
| Scoring.CalcSkippingScore | src/score.rs:132-163 | None (the source's panic) exactly when no surrounding kmer has both skip rates; otherwise exactly the median of `SkipScores` of the surrounding kmers and their data flags, a score when the median keeps scores |
| Scoring.Fuse | src/score.rs:116 | the skipping score without a signal score; otherwise the larger one, NaN giving way to the other |
| Scoring.FuseExample | src/score.rs:116 | 0.3 and 0.8 fuse to 0.8; no signal score gives the skipping score |
| Scoring.FuseKeepsScores | src/score.rs:116 | fusing two scores gives a score |
| Scoring.KmerAt | src/score.rs:102-111 | the position's 6-mer exactly when it fits in the context and, with motifs, starts with one of them |
| Scoring.ScoreAt | src/score.rs:112-126 | nothing without a kept 6-mer; a panic exactly when there are no skipping scores; otherwise a Score of that position and kmer, `skipped` iff no signal score, with the fused final score |
| Scoring.ScoresFromPanics | src/score.rs:100-127 | the loop panics exactly when some position in range panics |
| Scoring.ScoresFromSound | src/score.rs:100-127 | the scores are in strictly ascending position order inside the range, each the Score of its own position |
| Scoring.ScoresFromComplete | src/score.rs:100-127 | every position in range that emits a Score has it in the result |
| Scoring.StepsAtOwnPosition | src/score.rs:117-124 | each position's Score carries that position |
| Scoring.ReadResultMeaning | src/score.rs:96-130 | a scored read keeps the read's metadata; its scores are strictly ascending within `start_ob ..= stop_ob`, one for exactly each position with a kept 6-mer, each built from that position's kmer, signal and skipping scores |
| Scoring.ReadResultPanics | src/score.rs:96-130 | scoring panics for lack of skipping scores exactly when the context builds and some position in range has a kept 6-mer without skipping scores |
| Scoring.ScorePositions | src/score.rs:100-127 | the position loop returns exactly the specified scores, or None on the first panic |
| Scoring.ScoreEventalign | src/score.rs:96-130 | the method returns exactly the specified read outcome: a context failure, a panic, or the scored read |
| Scoring.ScoredOf | src/score.rs:83-86 | no more reads than outcomes; the reads kept by `flat_map`, characterised by the two lemmas below |
| Scoring.ScoredOfSingle | src/score.rs:83-86 | one outcome gives its read when it is scored and nothing otherwise |
| Scoring.ScoredOfAppend | src/score.rs:83-86 | the reads of concatenated outcome lists are the concatenated reads, so each scored outcome is kept once, in order |
| Scoring.CollectKeepsScored | src/score.rs:82-87 | a batch without a panic is exactly `ScoredOf` its outcomes: the scored reads in order and with multiplicity; failed reads are dropped |
| Scoring.CollectPanics | src/score.rs:82-87 | a batch panics exactly when one of its reads panics |
| Scoring.CollectStopsAtPanic | src/score.rs:82-87 | after a panic, later reads change nothing |
| Scoring.Outcomes | src/score.rs:83-85 | one outcome per read, in order, each the read's specified outcome |
| Scoring.ScoreBatch | src/score.rs:82-88 | scoring a batch collects the specified outcomes of its reads |
| Contexts.ComplementInvolution | src/score.rs:376-378 | complementing twice gives the base back |
| Contexts.RevComp | src/score.rs:376-378 | the reverse complement has the same length, with base `i` the complement of base `n-1-i` |
| Contexts.RevCompInvolution | src/score.rs:376-378 | reverse-complementing twice gives the bases back |
| Contexts.RevCompAppend | src/score.rs:376-378 | the reverse complement of a concatenation is the swapped concatenation of the reverse complements |
| Contexts.ContextWindow | src/score.rs:353-371 | the start steps back at most 5 bases, to 0 at the latest; the stop is one past `seq_stop_zb`, clamped to the chromosome; the end slop is the bases left after it, at most 5 |
| Contexts.WindowInsideChromosome | src/score.rs:353-371 | whenever the interval is not inverted, it lies inside the chromosome |
| Contexts.FromRead | src/score.rs:341-381 | ChromosomeMissing (the source's panic) exactly when the chromosome is absent; an invalid interval exactly when start > stop; otherwise the window's bases, reverse-complemented on the minus strand, with the read start and both slops |
| Contexts.SixmerAt | src/score.rs:401-405 | Some exactly when six bases remain at the position's index, and then those six bases |
| Contexts.SixmerOfChromosome | src/score.rs:401-405 | on a forward read, the 6-mer at a position is the chromosome's six bases at that 0-based index |
| Contexts.SurroundingKmers | src/score.rs:383-397 | at most six kmers, each of six bases |
| Contexts.SurroundingKmersMeaning | src/score.rs:383-397 | the k-th kmer is the six bases at k past the window start; kmers cover the window up to the position's index, or up to the last index with six bases left |
| Contexts.Surrounding | src/score.rs:383-397 | the loop collects exactly the surrounding 6-mers |
| ContextExamples.TruncatedStart | src/score.rs:430-444 | a read at the chromosome start: context of 15 bases, start slop 0, end slop 5 |
| ContextExamples.TruncatedStartSurrounding | src/score.rs:445-451 | its surrounding 6-mers at position 1 are ATGCAT, TGCATG |
| ContextExamples.RevCompOfFirst15 | src/score.rs:458-461 | the reverse complement of the first 15 bases is CATGCATGCATGCAT |
| ContextExamples.TruncatedStartMinus | src/score.rs:453-463 | on the minus strand: context CATGCATGCATGCAT, slops 0 and 5 |
| ContextExamples.PartialStart | src/score.rs:472-478 | a read at base 2: context of 17 bases, slops 2 and 5 |
| ContextExamples.TruncatedEnd | src/score.rs:480-488 | a read at the chromosome end: context CATGCATGCAT, slops 5 and 0 |
| ContextExamples.TruncatedEndSurrounding | src/score.rs:489-495 | its surrounding 6-mers at position 61 are the five listed |
| ContextExamples.PartialEnd | src/score.rs:497-502 | a read near the end: context of 16 bases, slops 5 and 2 |
| ContextExamples.Middle | src/score.rs:504-509 | a read in the middle: context of 20 bases, slops 5 and 5 |
| Motifs.ValidMotifBases | src/motif.rs:21-24 | true exactly for a non-empty string of A, C, G, T |
| Motifs.Split | src/motif.rs:48 | at least one piece, none containing the separator, joining back to the input |
| Motifs.ParseUsize | src/motif.rs:49-53 | accepts exactly an optional '+' then digits whose value fits in 64 bits, with that value |
| Motifs.ParseUsizeOfDisplay | src/motif.rs:49-53 | the decimal rendering of a `usize` parses back to it |
| Motifs.ParseFromStr | src/motif.rs:43-66 | a success is a valid motif (bases only, position in 1..=len) that the input spells as `pos:motif` |
| Motifs.ParseAccepts | src/motif.rs:43-66 | every input spelling a valid motif parses to it (the converse) |
| Motifs.ParseSpelled | src/motif.rs:43-66 | a position piece without ':' that parses, a ':' and a valid motif parse to that motif |
| Motifs.DisplayRoundTrip | src/motif.rs:109-113 | parsing a valid motif's display gives the motif back |
| Motifs.ParseWithoutColon | src/motif.rs:49-54 | without ':', the failure is the position parse or the missing piece |
| Motifs.ParseBadPosition | src/motif.rs:49-53 | an unparsable position piece is reported before anything else |
| Motifs.ParseCheckOrder | src/motif.rs:54-65 | after the position: base check, then 1-based, then bound, then trailing pieces, in that order |
| Motifs.Position0b | src/motif.rs:80-82 | one less than the 1-based position |
| Motifs.WithinKmer | src/motif.rs:85-87 | true exactly when the motif occurs at some index of the kmer |
| Motifs.SurroundingIdxs | src/motif.rs:89-99 | the window ending at `pos + position_0b`: its size, its last element, membership in `[pos + position - 6, pos + position)`, and element i is `pos + position - |r| + i`, so ascending by one without repeats |
| Motifs.AllBases | src/motif.rs:115-122 | four valid motifs: exactly the single bases at position 1 |
| Motifs.AllBasesMatchEveryKmer | src/motif.rs:115-122 | every kmer that starts with a base matches one of them (the default motifs of training, src/npsmlr/train.rs:40) |
| Motifs.ParsePositionOne | src/motif.rs:43-66 | position 1 followed by any valid motif parses to that motif at position 1 |
| Motifs.ParseAcceptsExample2GC | src/motif.rs:130-131 | "2:GC" parses |
| Motifs.ParseAcceptsExamples1 | src/motif.rs:133-137 | "1:AT" and "1:TA" parse |
| Motifs.ParseRejectsZeroPosition | src/motif.rs:139-140 | "0:TA" is refused as not 1-based |
| Motifs.ParsePositionExamples | src/motif.rs:142-143 | "TA:1" and "-1:TG" are refused for their position |
| Motifs.ParseNonBaseAfterOne | src/motif.rs:54-56 | position 1 followed by a colon-free piece whose first character is not a base is refused for its bases |
| Motifs.ParseRejectsBadBase | src/motif.rs:145-149 | "1:ZA" and "1:ZAhfd" are refused for their bases |
| Motifs.ParseRejectsOutsidePosition | src/motif.rs:151-152 | "3:TA" is refused as outside the motif |
| Motifs.ParseWithoutColonExamples | src/motif.rs:154-158 | "" and "T" are refused |
| Motifs.ParseWordPositionExamples | src/motif.rs:163-167 | "2.1:TG" and "quack:TG" are refused |
| Motifs.ParseRejectsExtraPiece | src/motif.rs:169-170 | "1:TA:" is refused for its extra piece |
| Motifs.SurroundingIdxsExamples | src/motif.rs:174-189 | the windows 499..=504 and 506..=511 |
| StrandMaps.FromRecords | src/strand_map.rs:22-44 | the map's names are exactly the records' names, each mapped to the strand its records agree on, or Unknown |
| StrandMaps.ConsensusStep | src/strand_map.rs:37-41 | a new name takes the record's strand; a known name turns Unknown on a strand swap; other names are unchanged |
| StrandMaps.ConsensusMeaning | src/strand_map.rs:31-41 | Plus iff all the name's records are forward; Minus iff all are reverse; Unknown iff two of them disagree |
| StrandMaps.UnknownIsFinal | src/strand_map.rs:38-40 | once Unknown, later records never change the entry |
| ConvertDetection.Deserialized | src/bin/convert_detection.rs:88 | no more lines than rows; a line is kept exactly when some row deserialised to it; order and multiplicity follow from the two lemmas below |
| ConvertDetection.DeserializedSingle | src/bin/convert_detection.rs:88 | one row gives its line when it deserialised and nothing otherwise |
| ConvertDetection.DeserializedAppend | src/bin/convert_detection.rs:88 | the lines of concatenated rows are the concatenated lines, so every deserialised row appears once, in order |
| ConvertDetection.MinPos | src/bin/convert_detection.rs:45 | a lower bound of the positions that one line attains |
| ConvertDetection.MaxPos | src/bin/convert_detection.rs:46 | an upper bound of the positions that one line attains |
| ConvertDetection.ConvertToRead | src/bin/convert_detection.rs:42-69 | name and chromosome of the first line, strand Unknown, one score per line |
| ConvertDetection.ConvertToReadMeaning | src/bin/convert_detection.rs:45-67 | the read spans exactly the smallest to the largest position; score i carries line i's position, kmer and score, unskipped, with skip score 0 |
| ConvertDetection.WithStrand | src/bin/convert_detection.rs:97-103 | true gives Plus, false Minus, an absent name keeps the strand; nothing else changes |
| ConvertDetection.Groups | src/bin/convert_detection.rs:89-107 | non-empty runs, and some run exactly when there is some line |
| ConvertDetection.GroupsConcat | src/bin/convert_detection.rs:89-107 | concatenated, the runs give the lines back |
| ConvertDetection.GroupsOneRead | src/bin/convert_detection.rs:93-94 | each run has a single read name |
| ConvertDetection.GroupsAdjacent | src/bin/convert_detection.rs:95-106 | neighbouring runs have different read names |
| ConvertDetection.Converted | src/bin/convert_detection.rs:96-104 | one read per run |
| ConvertDetection.Advance | src/bin/convert_detection.rs:93-107 | after a line the open run has that line's name |
| ConvertDetection.Replay | src/bin/convert_detection.rs:89-108 | the loop always holds an open run |
| ConvertDetection.ReplayGroups | src/bin/convert_detection.rs:89-108 | the loop holds the last run open and has written every earlier run, converted and stranded |
| ConvertDetection.CloseRuns | src/bin/convert_detection.rs:89-108 | the loop's written reads and open run are exactly the replayed ones |
| ConvertDetection.Run | src/bin/convert_detection.rs:71-111 | fails exactly when no line deserialised (the `unwrap` panic); otherwise writes every run except the last |
| ConvertDetection.RunAll | src/bin/convert_detection.rs:71-111 | corrected: fails exactly on empty input; otherwise writes every run |
| ConvertDetection.LineScores | src/bin/convert_detection.rs:55-67 | one score per line, in order |
| ConvertDetection.ReadScores | src/bin/convert_detection.rs:55-67 | a converted read's scores are its lines' scores, whatever the strand |
| ConvertDetection.ConvertedScores | src/bin/convert_detection.rs:96-104 | the converted runs' scores are the scores of their concatenated lines |
| ConvertDetection.EveryLineWritten | src/bin/convert_detection.rs:92-108 | with the last run written, every line becomes exactly one score, in order |
| ConvertDetection.FinalRunDropped | src/bin/convert_detection.rs:92-110 | as written, the output has as many scores as there are lines outside the last run, always fewer than the lines |
| ConvertDetection.SingleReadOneRun | src/bin/convert_detection.rs:92-94 | lines of one read form one run |
| ConvertDetection.SingleReadWritesNothing | src/bin/convert_detection.rs:92-110 | as written, input of one read writes nothing |
| Train.DefaultOptions | src/npsmlr/train.rs:34-44 | 50000 samples, two components, no DBSCAN, no path, motifs exactly the four single bases |
| Train.WithNSamples | src/npsmlr/train.rs:64-67 | sets the sample count and leaves the rest |
| Train.WithSingle | src/npsmlr/train.rs:69-72 | sets `single` and leaves the rest |
| Train.WithDbscan | src/npsmlr/train.rs:74-77 | sets `dbscan` and leaves the rest |
| Train.WithMotifs | src/npsmlr/train.rs:79-82 | sets the motifs and leaves the rest |
| Train.WithDbPath | src/npsmlr/train.rs:84-87 | sets the store path and leaves the rest |
| Train.Extend | src/npsmlr/train.rs:52-56 | each kmer with the base appended, in order |
| Train.ExtendAll | src/npsmlr/train.rs:50-58 | one extension per base and kmer |
| Train.ExtendAllMember | src/npsmlr/train.rs:50-58 | a member is exactly a kmer with one of the bases appended |
| Train.ExtendAllDistinct | src/npsmlr/train.rs:50-58 | distinct kmers and bases give distinct extensions |
| Train.KmersOfLengthMembers | src/npsmlr/train.rs:46-61 | the kmers of length n are exactly the DNA strings of length n |
| Train.KmersOfLengthDistinct | src/npsmlr/train.rs:46-61 | no kmer occurs twice |
| Train.AllKmersMeaning | src/npsmlr/train.rs:313-317 | 4096 distinct kmers, exactly the DNA 6-mers |
| Train.AppendBase | src/npsmlr/train.rs:52-56 | the inner loop appends the base to every kmer after the accumulator |
| Train.AllKmers | src/npsmlr/train.rs:46-61 | the loops build exactly the specified 6-mers |
| Train.SampleRows | src/npsmlr/train.rs:264-272 | no more rows than samples |
| Train.SampleRowsMembers | src/npsmlr/train.rs:264-272 | a row is exactly a finite in-range sample under the kmer |
| Train.SignalRowsMembers | src/npsmlr/train.rs:254-273 | a row comes exactly from a motif-matching signal's kept sample |
| Train.AcceptedMembers | src/npsmlr/train.rs:252-274 | a row comes exactly from some read's signal rows |
| Train.SampleRowsUniform | src/npsmlr/train.rs:264-272 | n equal samples store n rows when in range, none otherwise |
| Train.AcceptedMeaning | src/npsmlr/train.rs:252-274 | a row is accepted iff some read has a signal with that kmer matching a motif and that finite sample in [40, 170] |
| Train.AcceptedInRange | src/npsmlr/train.rs:265-268 | every accepted sample is in [40, 170] |
| Train.Db.Values | src/npsmlr/train.rs:284 | no more values than rows |
| Train.Db.Open | src/npsmlr/train.rs:212-225 | a fresh, empty, valid store with limit 50000 |
| Train.Db.AddReads | src/npsmlr/train.rs:249-279 | on success the accepted rows are appended; on failure nothing changes; failure exactly at a failing begin, a failing insert among the accepted rows, or a failing commit; stays valid |
| Train.Db.GetKmerSamples | src/npsmlr/train.rs:281-293 | on a valid store, `min(n, stored)` samples, a sub-multiset of the kmer's stored ones, each in [40, 170] |
| Train.DrawnPrefix | src/npsmlr/train.rs:281-293 | when the scan stops, the samples drawn are the first `min(n, stored)` values of the kmer, a sub-multiset of them, in range when the rows are |
| Train.DrawnInRange | src/npsmlr/train.rs:265-270 | samples drawn from a kmer's stored values lie in [40, 170] when every stored sample does (the range filter of `add_reads`) |
| Train.InsertSignals | src/npsmlr/train.rs:254-273 | fails exactly when the failing insert falls within the rows; otherwise appends the signal rows |
| Train.InsertSamples | src/npsmlr/train.rs:264-272 | fails exactly when the failing insert falls within the rows; otherwise appends the sample rows |
| Train.ValuesIn | src/npsmlr/train.rs:284 | no more values than rows |
| Train.ValuesInMember | src/npsmlr/train.rs:284 | a value is present exactly when its row is stored |
| Train.ValuesInPrefix | src/npsmlr/train.rs:284 | values of a prefix of rows are a prefix of the values |
| Train.AcceptedOneRead | src/npsmlr/train.rs:346-348 | a single read stores exactly its signals' rows |
| Train.SignalRowsOfThree | src/npsmlr/train.rs:403-407 | three signals' rows concatenate |
| Train.RepeatRows | src/npsmlr/train.rs:398-400 | `vec![x; n]` stores n rows when in range, none otherwise |
| Train.RangeFilterExample | src/npsmlr/train.rs:393-422 | only AAAAAA's three samples of 100.0 are stored; 20.0 and 300.0 are dropped |
| Train.MotifAAA | src/npsmlr/train.rs:348 | AACCCC does not match motif AAA; AAAAAA does |
| Train.MotifFilterExample | src/npsmlr/train.rs:332-360 | with motif AAA, AAAAAA's samples are stored and AACCCC's are not |
| Train.AbsentKmerValues | src/npsmlr/train.rs:284 | a kmer without rows has no values |
| Train.NoKmerExample | src/npsmlr/train.rs:319-331 | a fresh store with an empty read returns no samples for ABCDEF |
| Train.Components | src/npsmlr/train.rs:191 | one component iff single, otherwise two |
| Train.FitData | src/npsmlr/train.rs:151-189 | the clustered points with DBSCAN, all samples otherwise |
| Train.TrainGmm | src/npsmlr/train.rs:145-201 | the too-few-points error exactly when DBSCAN is on and keeps fewer than two points; a success is the fitter's mixture for the data and component count; a fit failure exactly when the fitter fails |
| Train.Trained | src/npsmlr/train.rs:126-135 | nothing when validation fails |
| Train.TrainedMeaning | src/npsmlr/train.rs:126-135 | trained exactly when validation and `train_gmm` succeed, with that mixture |
| Train.TrainEach | src/npsmlr/train.rs:122-137 | on a valid store, draws every given kmer as the store allows, every drawn sample in [40, 170], and keeps exactly the mixtures that trained |
| Train.TrainGmms | src/npsmlr/train.rs:120-143 | on a valid store, draws every DNA 6-mer, every drawn sample in [40, 170]; error exactly when none trained; otherwise the model's mixtures are exactly the trained ones, with no skip rates; an empty store fails whenever the empty draw does not train, whether validation or the fit refuses it (the empty-model test) |

## Left out

- Reading and writing: Arrow files, CSV parsing, BAM reading, FASTA fetching and the index of chromosome lengths. The genome is a map from chromosome name to bases.
- The output writer and `close`/`save`.
- Logging.
- The `main` functions and command-line parsing.
- `run_model`: the store path, the temporary directory and the batch loader.
- The SQLite schema, index and pragmas. The store is a sequence of rows, and `limit` and `counts` are set by `Db::open` but never read.
- The numerics are passed in as functions, not modelled. These are:
  - `choose_model`, `choose_pos_model`, the Gaussian density and log-density and the median;
  - sample validation, DBSCAN and the GMM fit.
- Floating point: the doubles are modelled as `F64` with real values.
  - Rounding is not modelled.
  - NaN and the infinities are modelled for samples, log-densities and scores, where the code compares or divides them.
  - Densities are finite non-negative reals and signal means are reals: an infinite or NaN density is not modelled.
  - Kmer ranks and the cutoff are finite reals: a NaN rank (with which the source's reduction picks the newcomer) and a non-finite cutoff are not modelled.
- Train.Db.GetKmerSamples: `ORDER BY RANDOM()` is abstracted to any sub-multiset of the right size. The method takes the first samples in insertion order, and its contract promises only the size and the sub-multiset, which hold for any order.
- Train.Db.GetKmerSamples: query errors are not modelled. `train_gmms` would propagate them with `?`, so TrainGmms never fails for that reason.
- Train.Db.Open: the failures of `remove_file`, `Connection::open`, `init` and `create_idx` are not modelled; opening always succeeds.
- Train.Db.AddReads: failures of `prepare` and `finalize` are folded into the begin and commit failures.
- Per-record read errors while loading reads or BAM records are not modelled.
- Scoring: `pos - read_start` is required to be non-negative, where the source would underflow.
- Records: `seq_stop_zb` is carried as a field of the read, because the read type that computes it is not part of this model.
- `pos_with_data` keeps the last signal per position. This follows the hash-map insertion order of the source.

Behaviour of the code worth noting (the model follows the code):
- `score_signal` withholds a score when BOTH log-densities are ABOVE `-cutoff`, i.e. when the signal is likely under both components.
- `best_surrounding_signal` lets a ranked signal beat an unranked one on either side. Among equal ranks the later one wins.
- `score_eventalign` passes 1-based positions (`start_ob ..= stop_ob`) to `sixmer_at`, which indexes the context 0-based from `read_start`. The model keeps this as written and makes no claim that it is wrong.

## Findings

| source | as written | input that shows it | evidently intended | confidence | as-written member | corrected member |
|---|---|---|---|---|---|---|
| src/bin/convert_detection.rs:92-110 | the loop writes a read only when a line of the next read arrives; after the loop the last accumulated run is never converted or written | any non-empty input, e.g. all lines of a single read: nothing is written (FinalRunDropped, SingleReadWritesNothing) | the final run is written after the loop too, so every line appears in the output (EveryLineWritten) | not executed | ConvertDetection.Run | ConvertDetection.RunAll |
