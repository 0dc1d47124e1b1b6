/**
 * Conversion of per-position detection lines (one line per scored position,
 * consecutive lines of one read together) into scored reads, with the strand
 * taken from a read-name map.
 */
module ConvertDetection {
  import opened Wrappers
  import opened Records

  /** One tab-separated detection line. */
  datatype DetectionLine = DetectionLine(
    chrom: string, pos: nat, kmer: string, readName: string,
    posLogProb: F64, negLogProb: F64, score: F64)

  /** Why a conversion run stopped. */
  datatype RunError = EmptyInput

  /** The lines that deserialised; rows that failed to deserialise are skipped. */
  function Deserialized(rows: seq<Option<DetectionLine>>): (lines: seq<DetectionLine>)
    ensures |lines| <= |rows|
    ensures forall l :: l in lines ==> Some(l) in rows
    ensures forall k :: 0 <= k < |rows| && rows[k].Some? ==> rows[k].value in lines
    decreases |rows|
  {
    if |rows| == 0 then []
    else
      var rest := Deserialized(rows[..|rows| - 1]);
      assert forall k :: 0 <= k < |rows| - 1 ==> rows[..|rows| - 1][k] == rows[k];
      match rows[|rows| - 1]
      case None => rest
      case Some(l) => rest + [l]
  }

  /** A single row gives its line when it deserialised, and nothing otherwise. */
  lemma DeserializedSingle(row: Option<DetectionLine>)
    ensures Deserialized([row]) == if row.Some? then [row.value] else []
  {
    assert [row][..0] == [];
  }

  /**
   * Rows are read one after the other: the lines of two runs of rows are the
   * lines of the first run followed by those of the second, each kept once,
   * in order.
   */
  lemma {:induction false} DeserializedAppend(a: seq<Option<DetectionLine>>, b: seq<Option<DetectionLine>>)
    ensures Deserialized(a + b) == Deserialized(a) + Deserialized(b)
    decreases |b|
  {
    if |b| == 0 {
      assert a + b == a;
    } else {
      assert (a + b)[..|a + b| - 1] == a + b[..|b| - 1];
      DeserializedAppend(a, b[..|b| - 1]);
    }
  }

  /** The smallest position among the lines. */
  function MinPos(lines: seq<DetectionLine>): (m: nat)
    requires |lines| > 0
    ensures forall i :: 0 <= i < |lines| ==> m <= lines[i].pos
    ensures exists i :: 0 <= i < |lines| && lines[i].pos == m
    decreases |lines|
  {
    if |lines| == 1 then lines[0].pos
    else
      var m := MinPos(lines[1..]);
      assert forall i :: 1 <= i < |lines| ==> lines[1..][i - 1] == lines[i];
      if lines[0].pos <= m then lines[0].pos else m
  }

  /** The largest position among the lines. */
  function MaxPos(lines: seq<DetectionLine>): (m: nat)
    requires |lines| > 0
    ensures forall i :: 0 <= i < |lines| ==> lines[i].pos <= m
    ensures exists i :: 0 <= i < |lines| && lines[i].pos == m
    decreases |lines|
  {
    if |lines| == 1 then lines[0].pos
    else
      var m := MaxPos(lines[1..]);
      assert forall i :: 1 <= i < |lines| ==> lines[1..][i - 1] == lines[i];
      if lines[0].pos >= m then lines[0].pos else m
  }

  /**
   * `convert_to_read`: name and chromosome from the first line, the span from
   * the smallest to the largest position, strand Unknown, and one Score per
   * line in input order.
   */
  function ConvertToRead(lines: seq<DetectionLine>): (r: ScoredRead)
    requires |lines| > 0
    ensures r.meta.name == lines[0].readName && r.meta.chrom == lines[0].chrom
    ensures r.meta.strand == Unknown
    ensures |r.scores| == |lines|
  {
    var start := MinPos(lines);
    var end := MaxPos(lines);
    var meta := Metadata(lines[0].readName, lines[0].chrom, start, end - start + 1, Unknown);
    ScoredRead(meta, seq(|lines|, i requires 0 <= i < |lines| =>
      Score(lines[i].pos, lines[i].kmer, false, Some(lines[i].score), Finite(0.0), lines[i].score)))
  }

  /**
   * The read spans exactly the smallest to the largest position of its lines,
   * and its i-th score carries the i-th line's position, kmer and score as an
   * unskipped signal with a zero skip score.
   */
  lemma ConvertToReadMeaning(lines: seq<DetectionLine>)
    requires |lines| > 0
    ensures var r := ConvertToRead(lines);
      && (forall i :: 0 <= i < |lines| ==> r.meta.start <= lines[i].pos < r.meta.start + r.meta.length)
      && (exists i :: 0 <= i < |lines| && lines[i].pos == r.meta.start)
      && (exists i :: 0 <= i < |lines| && lines[i].pos == r.meta.start + r.meta.length - 1)
      && (forall i :: 0 <= i < |lines| ==>
            && r.scores[i].pos == lines[i].pos && r.scores[i].kmer == lines[i].kmer
            && !r.scores[i].skipped && r.scores[i].signal == Some(lines[i].score)
            && r.scores[i].skip == Finite(0.0) && r.scores[i].final == lines[i].score)
  {
    var r := ConvertToRead(lines);
    assert r.meta.start == MinPos(lines) && r.meta.start + r.meta.length - 1 == MaxPos(lines);
  }

  /** The strand assignment of `run`: true is Plus, false is Minus, an absent name keeps the strand. */
  function WithStrand(read: ScoredRead, strandMap: map<string, bool>): (r: ScoredRead)
    ensures r.scores == read.scores
    ensures r.meta.(strand := read.meta.strand) == read.meta
    ensures read.meta.name in strandMap ==> r.meta.strand == if strandMap[read.meta.name] then Plus else Minus
    ensures read.meta.name !in strandMap ==> r.meta.strand == read.meta.strand
  {
    if read.meta.name in strandMap then
      read.(meta := read.meta.(strand := if strandMap[read.meta.name] then Plus else Minus))
    else read
  }

  /** Concatenation of a sequence of sequences. */
  function Concat<T>(xss: seq<seq<T>>): seq<T>
    decreases |xss|
  {
    if |xss| == 0 then [] else Concat(xss[..|xss| - 1]) + xss[|xss| - 1]
  }

  /**
   * The runs of consecutive lines with the same read name, built line by line
   * as `run` builds them: a line joins the open run when its name is the run's
   * name, and opens a new run otherwise.
   */
  function Groups(lines: seq<DetectionLine>): (gs: seq<seq<DetectionLine>>)
    ensures forall k :: 0 <= k < |gs| ==> |gs[k]| > 0
    ensures |lines| > 0 <==> |gs| > 0
    decreases |lines|
  {
    if |lines| == 0 then []
    else
      var gs := Groups(lines[..|lines| - 1]);
      var l := lines[|lines| - 1];
      if |gs| > 0 && gs[|gs| - 1][0].readName == l.readName then
        gs[..|gs| - 1] + [gs[|gs| - 1] + [l]]
      else
        gs + [[l]]
  }

  lemma ConcatSnoc<T>(xss: seq<seq<T>>, x: seq<T>)
    ensures Concat(xss + [x]) == Concat(xss) + x
  {
    assert (xss + [x])[..|xss|] == xss;
  }

  /** How the last line extends the runs of the lines before it. */
  lemma GroupsStep(lines: seq<DetectionLine>)
    requires |lines| > 0
    ensures var gs := Groups(lines[..|lines| - 1]);
      var l := lines[|lines| - 1];
      if |gs| > 0 && gs[|gs| - 1][0].readName == l.readName then
        Groups(lines) == gs[..|gs| - 1] + [gs[|gs| - 1] + [l]]
      else Groups(lines) == gs + [[l]]
  {
  }

  lemma ConcatJoin<T>(pre: seq<seq<T>>, last: seq<T>, x: T)
    ensures Concat(pre + [last + [x]]) == Concat(pre + [last]) + [x]
  {
    ConcatSnoc(pre, last);
    ConcatSnoc(pre, last + [x]);
  }

  /** Concatenated, the runs give the lines back. */
  lemma {:induction false} GroupsConcat(lines: seq<DetectionLine>)
    ensures Concat(Groups(lines)) == lines
    decreases |lines|
  {
    if |lines| > 0 {
      var init := lines[..|lines| - 1];
      var l := lines[|lines| - 1];
      var gs: seq<seq<DetectionLine>> := Groups(init);
      GroupsConcat(init);
      GroupsStep(lines);
      assert init + [l] == lines;
      if |gs| > 0 && gs[|gs| - 1][0].readName == l.readName {
        var n := |gs| - 1;
        assert gs[..n] + [gs[n]] == gs;
        ConcatJoin(gs[..n], gs[n], l);
      } else {
        ConcatSnoc(gs, [l]);
      }
    }
  }

  /** All lines of a run carry the run's read name. */
  predicate OneRead(g: seq<DetectionLine>)
    requires |g| > 0
  {
    forall j :: 0 <= j < |g| ==> g[j].readName == g[0].readName
  }

  /** Every run has a single read name. */
  ghost predicate AllOneRead(gs: seq<seq<DetectionLine>>) {
    forall k :: 0 <= k < |gs| ==> |gs[k]| > 0 && OneRead(gs[k])
  }

  lemma AllOneReadJoin(gs: seq<seq<DetectionLine>>, l: DetectionLine)
    requires |gs| > 0 && AllOneRead(gs) && gs[|gs| - 1][0].readName == l.readName
    ensures AllOneRead(gs[..|gs| - 1] + [gs[|gs| - 1] + [l]])
  {
    var n := |gs| - 1;
    var r := gs[..n] + [gs[n] + [l]];
    forall k | 0 <= k < |r| ensures |r[k]| > 0 && OneRead(r[k]) {
      if k < n {
        assert r[k] == gs[k];
      } else {
        assert OneRead(gs[n]);
        assert r[k] == gs[n] + [l];
      }
    }
  }

  lemma AllOneReadOpen(gs: seq<seq<DetectionLine>>, l: DetectionLine)
    requires AllOneRead(gs)
    ensures AllOneRead(gs + [[l]])
  {
    var r := gs + [[l]];
    forall k | 0 <= k < |r| ensures |r[k]| > 0 && OneRead(r[k]) {
      if k < |gs| {
        assert r[k] == gs[k];
      }
    }
  }

  /** Each run has a single read name. */
  lemma {:induction false} GroupsOneRead(lines: seq<DetectionLine>)
    ensures AllOneRead(Groups(lines))
    decreases |lines|
  {
    if |lines| > 0 {
      var init := lines[..|lines| - 1];
      var l := lines[|lines| - 1];
      var gs: seq<seq<DetectionLine>> := Groups(init);
      GroupsOneRead(init);
      GroupsStep(lines);
      if |gs| > 0 && gs[|gs| - 1][0].readName == l.readName {
        AllOneReadJoin(gs, l);
      } else {
        AllOneReadOpen(gs, l);
      }
    }
  }

  /** Neighbouring runs have different read names. */
  ghost predicate NamesChange(gs: seq<seq<DetectionLine>>)
    requires forall k :: 0 <= k < |gs| ==> |gs[k]| > 0
  {
    forall i, j :: 0 <= i < j < |gs| && j == i + 1 ==> gs[i][0].readName != gs[j][0].readName
  }

  lemma NamesChangeJoin(gs: seq<seq<DetectionLine>>, l: DetectionLine)
    requires forall k :: 0 <= k < |gs| ==> |gs[k]| > 0
    requires |gs| > 0 && NamesChange(gs)
    ensures NamesChange(gs[..|gs| - 1] + [gs[|gs| - 1] + [l]])
  {
    var r := gs[..|gs| - 1] + [gs[|gs| - 1] + [l]];
    assert forall k :: 0 <= k < |gs| ==> r[k][0] == gs[k][0];
  }

  lemma NamesChangeOpen(gs: seq<seq<DetectionLine>>, l: DetectionLine)
    requires forall k :: 0 <= k < |gs| ==> |gs[k]| > 0
    requires NamesChange(gs)
    requires |gs| > 0 ==> gs[|gs| - 1][0].readName != l.readName
    ensures NamesChange(gs + [[l]])
  {
  }

  /** Neighbouring runs have different read names. */
  lemma {:induction false} GroupsAdjacent(lines: seq<DetectionLine>)
    ensures NamesChange(Groups(lines))
    decreases |lines|
  {
    if |lines| > 0 {
      var init := lines[..|lines| - 1];
      var l := lines[|lines| - 1];
      var gs: seq<seq<DetectionLine>> := Groups(init);
      GroupsAdjacent(init);
      GroupsStep(lines);
      if |gs| > 0 && gs[|gs| - 1][0].readName == l.readName {
        NamesChangeJoin(gs, l);
      } else {
        NamesChangeOpen(gs, l);
      }
    }
  }

  /** Each run converted to a read and given its strand. */
  function Converted(gs: seq<seq<DetectionLine>>, strandMap: map<string, bool>): (rs: seq<ScoredRead>)
    requires forall k :: 0 <= k < |gs| ==> |gs[k]| > 0
    ensures |rs| == |gs|
    decreases |gs|
  {
    if |gs| == 0 then []
    else Converted(gs[..|gs| - 1], strandMap) + [WithStrand(ConvertToRead(gs[|gs| - 1]), strandMap)]
  }

  /** What the loop of `run` has written so far and the run it holds open. */
  datatype Progress = Progress(written: seq<ScoredRead>, acc: seq<DetectionLine>)

  /**
   * One turn of the loop of `run`: a line with the open run's name joins it;
   * a line with another name closes the open run, which is converted, given
   * its strand and written, and opens a new one.
   */
  function Advance(p: Progress, l: DetectionLine, strandMap: map<string, bool>): (q: Progress)
    requires |p.acc| > 0
    ensures |q.acc| > 0 && q.acc[0].readName == if l.readName == p.acc[0].readName then p.acc[0].readName else l.readName
  {
    if l.readName == p.acc[0].readName then Progress(p.written, p.acc + [l])
    else Progress(p.written + [WithStrand(ConvertToRead(p.acc), strandMap)], [l])
  }

  /** The loop of `run` replayed over a non-empty input, the first line opening the first run. */
  function Replay(lines: seq<DetectionLine>, strandMap: map<string, bool>): (p: Progress)
    requires |lines| > 0
    ensures |p.acc| > 0
    decreases |lines|
  {
    if |lines| == 1 then Progress([], [lines[0]])
    else Advance(Replay(lines[..|lines| - 1], strandMap), lines[|lines| - 1], strandMap)
  }

  lemma ReplayStep(lines: seq<DetectionLine>, i: nat, strandMap: map<string, bool>)
    requires 1 <= i < |lines|
    ensures Replay(lines[..i + 1], strandMap) == Advance(Replay(lines[..i], strandMap), lines[i], strandMap)
  {
    assert lines[..i + 1][..i] == lines[..i];
  }

  /** Replaying the loop holds the last run open and has written every run before it. */
  lemma {:induction false} ReplayGroups(lines: seq<DetectionLine>, strandMap: map<string, bool>)
    requires |lines| > 0
    ensures var gs := Groups(lines); var p := Replay(lines, strandMap);
      && p.acc == gs[|gs| - 1]
      && p.written == Converted(gs[..|gs| - 1], strandMap)
    decreases |lines|
  {
    if |lines| == 1 {
      assert lines[..0] == [];
    } else {
      var init := lines[..|lines| - 1];
      ReplayGroups(init, strandMap);
      var gs: seq<seq<DetectionLine>> := Groups(init);
      if gs[|gs| - 1][0].readName == lines[|lines| - 1].readName {
        JoinStep(lines, strandMap);
      } else {
        OpenStep(lines, strandMap);
      }
    }
  }

  /**
   * The loop of `run` over a non-empty input: the first line opens a run; a
   * line with the open run's name joins it; a line with another name closes
   * the open run, which is converted, given its strand and written, and opens
   * a new one. Returns what was written and the run still open at the end.
   */
  method CloseRuns(lines: seq<DetectionLine>, strandMap: map<string, bool>)
    returns (written: seq<ScoredRead>, acc: seq<DetectionLine>)
    requires |lines| > 0
    ensures Progress(written, acc) == Replay(lines, strandMap)
  {
    acc := [lines[0]];
    var currRead := lines[0].readName;
    written := [];
    assert lines[..1] == [lines[0]];
    var i := 1;
    while i < |lines|
      invariant 1 <= i <= |lines|
      invariant Progress(written, acc) == Replay(lines[..i], strandMap)
      invariant currRead == acc[0].readName
    {
      var dline := lines[i];
      ReplayStep(lines, i, strandMap);
      if dline.readName == currRead {
        acc := acc + [dline];
      } else {
        var read := WithStrand(ConvertToRead(acc), strandMap);
        written := written + [read];
        currRead := dline.readName;
        acc := [dline];
      }
      i := i + 1;
    }
    assert lines[..i] == lines;
  }

  /** A line with the open run's name joins that run; nothing more is written. */
  lemma JoinStep(lines: seq<DetectionLine>, strandMap: map<string, bool>)
    requires |lines| > 1
    requires var gs := Groups(lines[..|lines| - 1]); var p := Replay(lines[..|lines| - 1], strandMap);
      && p.acc == gs[|gs| - 1] && p.written == Converted(gs[..|gs| - 1], strandMap)
      && gs[|gs| - 1][0].readName == lines[|lines| - 1].readName
    ensures var gs := Groups(lines); var p := Replay(lines, strandMap);
      && p.acc == gs[|gs| - 1] && p.written == Converted(gs[..|gs| - 1], strandMap)
  {
    var i := |lines| - 1;
    var gs: seq<seq<DetectionLine>> := Groups(lines[..i]);
    GroupsStep(lines);
    var next := gs[..|gs| - 1] + [gs[|gs| - 1] + [lines[i]]];
    assert next[..|next| - 1] == gs[..|gs| - 1];
  }

  /** A line with another name closes the open run, which is written, and opens a new run. */
  lemma OpenStep(lines: seq<DetectionLine>, strandMap: map<string, bool>)
    requires |lines| > 1
    requires var gs := Groups(lines[..|lines| - 1]); var p := Replay(lines[..|lines| - 1], strandMap);
      && p.acc == gs[|gs| - 1] && p.written == Converted(gs[..|gs| - 1], strandMap)
      && gs[|gs| - 1][0].readName != lines[|lines| - 1].readName
    ensures var gs := Groups(lines); var p := Replay(lines, strandMap);
      && p.acc == gs[|gs| - 1] && p.written == Converted(gs[..|gs| - 1], strandMap)
  {
    var i := |lines| - 1;
    var gs: seq<seq<DetectionLine>> := Groups(lines[..i]);
    GroupsStep(lines);
    var n := |gs| - 1;
    ConvertedSnoc(gs[..n], gs[n], strandMap);
    assert gs[..n] + [gs[n]] == gs;
    var next := gs + [[lines[i]]];
    assert next[..|next| - 1] == gs;
  }

  /**
   * `run` as written: an input without any line panics on its first line;
   * otherwise the runs closed by the loop are written and the run still open
   * when the input ends is never written.
   */
  method Run(rows: seq<Option<DetectionLine>>, strandMap: map<string, bool>)
    returns (r: Result<seq<ScoredRead>, RunError>)
    ensures r.Failure? <==> |Deserialized(rows)| == 0
    ensures r.Success? ==>
      var gs := Groups(Deserialized(rows));
      r.value == Converted(gs[..|gs| - 1], strandMap)
  {
    var lines := Deserialized(rows);
    if |lines| == 0 {
      return Failure(EmptyInput);
    }
    var written, _ := CloseRuns(lines, strandMap);
    ReplayGroups(lines, strandMap);
    r := Success(written);
  }

  /** `run` with the final open run written after the loop, like every other run. */
  method RunAll(rows: seq<Option<DetectionLine>>, strandMap: map<string, bool>)
    returns (r: Result<seq<ScoredRead>, RunError>)
    ensures r.Failure? <==> |Deserialized(rows)| == 0
    ensures r.Success? ==> r.value == Converted(Groups(Deserialized(rows)), strandMap)
  {
    var lines := Deserialized(rows);
    if |lines| == 0 {
      return Failure(EmptyInput);
    }
    var written, acc := CloseRuns(lines, strandMap);
    ReplayGroups(lines, strandMap);
    ghost var gs := Groups(lines);
    ConvertedSnoc(gs[..|gs| - 1], acc, strandMap);
    assert gs[..|gs| - 1] + [acc] == gs;
    r := Success(written + [WithStrand(ConvertToRead(acc), strandMap)]);
  }

  lemma ConvertedSnoc(gs: seq<seq<DetectionLine>>, g: seq<DetectionLine>, strandMap: map<string, bool>)
    requires forall k :: 0 <= k < |gs| ==> |gs[k]| > 0
    requires |g| > 0
    ensures Converted(gs + [g], strandMap) == Converted(gs, strandMap) + [WithStrand(ConvertToRead(g), strandMap)]
  {
    assert (gs + [g])[..|gs|] == gs;
  }

  /** The scores of a sequence of reads, one read after the other. */
  function AllScores(rs: seq<ScoredRead>): seq<Score>
    decreases |rs|
  {
    if |rs| == 0 then [] else AllScores(rs[..|rs| - 1]) + rs[|rs| - 1].scores
  }

  /** The Score `convert_to_read` makes of one line. */
  function LineScore(l: DetectionLine): Score {
    Score(l.pos, l.kmer, false, Some(l.score), Finite(0.0), l.score)
  }

  /** The Scores of the lines, one per line in order. */
  function LineScores(lines: seq<DetectionLine>): (r: seq<Score>)
    ensures |r| == |lines|
    ensures forall i :: 0 <= i < |lines| ==> r[i] == LineScore(lines[i])
  {
    seq(|lines|, i requires 0 <= i < |lines| => LineScore(lines[i]))
  }

  lemma LineScoresAppend(a: seq<DetectionLine>, b: seq<DetectionLine>)
    ensures LineScores(a + b) == LineScores(a) + LineScores(b)
  {
  }

  lemma ReadScores(g: seq<DetectionLine>, strandMap: map<string, bool>)
    requires |g| > 0
    ensures WithStrand(ConvertToRead(g), strandMap).scores == LineScores(g)
  {
  }

  lemma {:induction false} ConvertedScores(gs: seq<seq<DetectionLine>>, strandMap: map<string, bool>)
    requires forall k :: 0 <= k < |gs| ==> |gs[k]| > 0
    ensures AllScores(Converted(gs, strandMap)) == LineScores(Concat(gs))
    decreases |gs|
  {
    if |gs| > 0 {
      var n := |gs| - 1;
      ConvertedScores(gs[..n], strandMap);
      var rs := Converted(gs, strandMap);
      assert rs[..n] == Converted(gs[..n], strandMap);
      ReadScores(gs[n], strandMap);
      LineScoresAppend(Concat(gs[..n]), gs[n]);
    }
  }

  /**
   * With the final run written, every deserialised line becomes exactly one
   * Score of the output, in input order.
   */
  lemma EveryLineWritten(lines: seq<DetectionLine>, strandMap: map<string, bool>)
    ensures AllScores(Converted(Groups(lines), strandMap)) == LineScores(lines)
  {
    GroupsConcat(lines);
    ConvertedScores(Groups(lines), strandMap);
  }

  /**
   * As written, the lines of the final run never reach the output: for any
   * input, the output holds fewer Scores than there are lines, and an input
   * of a single read yields no read at all.
   */
  lemma FinalRunDropped(lines: seq<DetectionLine>, strandMap: map<string, bool>)
    requires |lines| > 0
    ensures var gs := Groups(lines);
      |AllScores(Converted(gs[..|gs| - 1], strandMap))| == |lines| - |gs[|gs| - 1]| < |lines|
  {
    var gs := Groups(lines);
    var n := |gs| - 1;
    GroupsConcat(lines);
    ConvertedScores(gs[..n], strandMap);
    assert gs == gs[..n] + [gs[n]];
    ConcatSnoc(gs[..n], gs[n]);
  }

  /** An input whose lines all belong to one read forms a single run... */
  lemma SingleReadOneRun(lines: seq<DetectionLine>)
    requires |lines| > 0
    requires forall i :: 0 <= i < |lines| ==> lines[i].readName == lines[0].readName
    ensures |Groups(lines)| == 1
  {
    var gs := Groups(lines);
    GroupsConcat(lines);
    GroupsOneRead(lines);
    GroupsAdjacent(lines);
    if |gs| > 1 {
      ConcatContainsAll(gs);
      assert false;
    }
  }

  /** ...so, as written, it produces no read at all. */
  lemma SingleReadWritesNothing(lines: seq<DetectionLine>, strandMap: map<string, bool>)
    requires |lines| > 0
    requires forall i :: 0 <= i < |lines| ==> lines[i].readName == lines[0].readName
    ensures var gs := Groups(lines); Converted(gs[..|gs| - 1], strandMap) == []
  {
    SingleReadOneRun(lines);
  }

  lemma {:induction false} ConcatContainsAll<T>(xss: seq<seq<T>>)
    ensures forall k, j :: 0 <= k < |xss| && 0 <= j < |xss[k]| ==> xss[k][j] in Concat(xss)
    decreases |xss|
  {
    if |xss| > 0 {
      ConcatContainsAll(xss[..|xss| - 1]);
    }
  }
}
