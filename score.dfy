/**
 * Per-position scoring of a read: the signal score from the best-ranked signal
 * in a six-position look-back window, the skipping score from the surrounding
 * 6-mers' skip rates, and their fusion, for every position of the read.
 */
module Scoring {
  import opened Wrappers
  import opened Records
  import opened Contexts

  /**
   * The numerical routines the scorer calls into: the negative control's
   * chosen component, the positive control's component most unlike it, a
   * Gaussian's density and log-density at a value, and the median of a
   * non-empty list.
   */
  datatype Numerics = Numerics(
    chooseNeg: Mixture -> Gaussian,
    choosePos: (Gaussian, Mixture) -> Gaussian,
    density: (Gaussian, real) -> NonNeg,
    logDensity: (Gaussian, real) -> F64,
    median: seq<F64> -> F64)

  /** What scoring needs: the two control models, genome, kmer ranks, cutoff and optional motifs. */
  datatype ScoreOptions = ScoreOptions(
    posCtrl: Model, negCtrl: Model, genome: map<string, string>,
    rank: map<string, real>, cutoff: real, motifs: Option<seq<string>>,
    numerics: Numerics)

  /** Signals by position. */
  type DataMap = map<nat, Signal>

  // ---------------------------------------------------------------------
  // Signals by position

  /** The signals keyed by position; of several signals at one position the last one is kept. */
  function PosData(signals: seq<Signal>): (m: DataMap)
    ensures forall p :: p in m ==> m[p].pos == p
    ensures forall p :: p in m <==> exists i :: 0 <= i < |signals| && signals[i].pos == p
    decreases |signals|
  {
    if |signals| == 0 then map[]
    else
      var init := signals[..|signals| - 1];
      var last := signals[|signals| - 1];
      assert forall i :: 0 <= i < |init| ==> init[i] == signals[i];
      PosData(init)[last.pos := last]
  }

  /** A position maps to the last signal recorded at it. */
  lemma {:induction false} PosDataKeepsLast(signals: seq<Signal>, i: nat)
    requires i < |signals|
    requires forall j :: i < j < |signals| ==> signals[j].pos != signals[i].pos
    ensures PosData(signals)[signals[i].pos] == signals[i]
    decreases |signals|
  {
    if i < |signals| - 1 {
      var init := signals[..|signals| - 1];
      assert forall j :: i < j < |init| ==> init[j] == signals[j];
      PosDataKeepsLast(init, i);
    }
  }

  /** `pos_with_data`: inserts every signal under its position, in order. */
  method PosWithData(signals: seq<Signal>) returns (availPos: DataMap)
    ensures availPos == PosData(signals)
  {
    availPos := map[];
    var i := 0;
    while i < |signals|
      invariant 0 <= i <= |signals|
      invariant availPos == PosData(signals[..i])
    {
      assert signals[..i + 1][..i] == signals[..i];
      availPos := availPos[signals[i].pos := signals[i]];
      i := i + 1;
    }
    assert signals[..i] == signals;
  }

  // ---------------------------------------------------------------------
  // The look-back window

  /** Strictly increasing positions. */
  predicate Ascending(ps: seq<nat>) {
    forall i, j :: 0 <= i < j < |ps| ==> ps[i] < ps[j]
  }

  lemma LookBackAscending(e: nat)
    ensures Ascending(LookBack(e))
  {
  }

  /** `surround_has_data`: per window position, whether it has a signal. */
  function SurroundHasData(pos: nat, m: DataMap): (r: seq<bool>)
    ensures |r| == |LookBack(pos)|
    ensures forall i :: 0 <= i < |r| ==> (r[i] <==> LookBack(pos)[i] in m)
  {
    var ps := LookBack(pos);
    seq(|ps|, i requires 0 <= i < |ps| => ps[i] in m)
  }

  /** The positions among `ps` that have a signal, in the order of `ps`. */
  function WithData(ps: seq<nat>, m: DataMap): (r: seq<nat>)
    ensures |r| <= |ps|
    ensures forall p :: p in r <==> p in ps && p in m
    decreases |ps|
  {
    if |ps| == 0 then []
    else
      var init := ps[..|ps| - 1];
      var p := ps[|ps| - 1];
      assert ps == init + [p];
      if p in m then WithData(init, m) + [p] else WithData(init, m)
  }

  lemma {:induction false} WithDataAscending(ps: seq<nat>, m: DataMap)
    requires Ascending(ps)
    ensures Ascending(WithData(ps, m))
    decreases |ps|
  {
    if |ps| > 0 {
      var init := ps[..|ps| - 1];
      var last := ps[|ps| - 1];
      assert Ascending(init) by {
        assert forall i :: 0 <= i < |init| ==> init[i] == ps[i];
      }
      WithDataAscending(init, m);
      var r := WithData(init, m);
      assert forall q :: q in init ==> q < last by {
        forall q | q in init ensures q < last {
          var i :| 0 <= i < |init| && init[i] == q;
          assert ps[i] == q;
        }
      }
      assert forall i :: 0 <= i < |r| ==> r[i] < last by {
        forall i | 0 <= i < |r| ensures r[i] < last {
          assert r[i] in r;
        }
      }
    }
  }

  /**
   * `surrounding_signal`: the signals at the window positions that have one,
   * in ascending position order; None when no window position has a signal.
   */
  function SurroundingSignal(pos: nat, m: DataMap): (r: Option<seq<Signal>>)
    ensures r.None? <==> forall p :: p in LookBack(pos) ==> p !in m
    ensures r.Some? ==>
      var ps := WithData(LookBack(pos), m);
      && 0 < |r.value| == |ps| <= 6
      && forall i :: 0 <= i < |ps| ==> r.value[i] == m[ps[i]]
  {
    var ps := WithData(LookBack(pos), m);
    if |ps| == 0 then None
    else
      assert ps[0] in LookBack(pos);
      Some(seq(|ps|, i requires 0 <= i < |ps| => m[ps[i]]))
  }

  /** With signals keyed by their own positions, the window's signals come in strictly ascending position order. */
  lemma SurroundingSignalOrder(pos: nat, signals: seq<Signal>)
    ensures var r := SurroundingSignal(pos, PosData(signals));
      r.Some? ==> forall i, j :: 0 <= i < j < |r.value| ==> r.value[i].pos < r.value[j].pos
  {
    var m := PosData(signals);
    LookBackAscending(pos);
    WithDataAscending(LookBack(pos), m);
    var ps := WithData(LookBack(pos), m);
    assert forall i :: 0 <= i < |ps| ==> ps[i] in m;
  }

  // ---------------------------------------------------------------------
  // The best-ranked signal

  /** The reducer of `best_surrounding_signal`. */
  function Pick(x: Signal, y: Signal, ranks: map<string, real>): Signal {
    if x.kmer !in ranks then y
    else if y.kmer !in ranks then x
    else if ranks[x.kmer] > ranks[y.kmer] then x
    else y
  }

  /** The left fold of `Pick` over a non-empty list. */
  function Reduce(sigs: seq<Signal>, ranks: map<string, real>): Signal
    requires |sigs| > 0
    decreases |sigs|
  {
    if |sigs| == 1 then sigs[0]
    else Pick(Reduce(sigs[..|sigs| - 1], ranks), sigs[|sigs| - 1], ranks)
  }

  predicate Ranked(s: Signal, ranks: map<string, real>) {
    s.kmer in ranks
  }

  /**
   * `k` is the index the reduction picks: when some candidate is ranked, a
   * candidate of maximal rank with no candidate of the same rank after it;
   * when none is, the last candidate.
   */
  predicate IsBest(sigs: seq<Signal>, ranks: map<string, real>, k: int) {
    && 0 <= k < |sigs|
    && ((exists j :: 0 <= j < |sigs| && Ranked(sigs[j], ranks)) ==>
          && Ranked(sigs[k], ranks)
          && (forall j :: 0 <= j < |sigs| && Ranked(sigs[j], ranks) ==> ranks[sigs[j].kmer] <= ranks[sigs[k].kmer])
          && (forall j :: k < j < |sigs| && Ranked(sigs[j], ranks) ==> ranks[sigs[j].kmer] < ranks[sigs[k].kmer]))
    && ((forall j :: 0 <= j < |sigs| ==> !Ranked(sigs[j], ranks)) ==> k == |sigs| - 1)
  }

  /** When the best so far is unranked, the new last candidate becomes the best. */
  lemma BestAfterUnranked(sigs: seq<Signal>, ranks: map<string, real>, k0: nat)
    requires |sigs| >= 2 && IsBest(sigs[..|sigs| - 1], ranks, k0)
    requires !Ranked(sigs[k0], ranks)
    ensures IsBest(sigs, ranks, |sigs| - 1)
  {
    var init := sigs[..|sigs| - 1];
    assert forall j :: 0 <= j < |init| ==> init[j] == sigs[j];
    assert forall j :: 0 <= j < |init| ==> !Ranked(sigs[j], ranks);
  }

  /** A ranked best so far stays best against an unranked or lower-ranked newcomer. */
  lemma BestKept(sigs: seq<Signal>, ranks: map<string, real>, k0: nat)
    requires |sigs| >= 2 && IsBest(sigs[..|sigs| - 1], ranks, k0)
    requires Ranked(sigs[k0], ranks)
    requires Ranked(sigs[|sigs| - 1], ranks) ==> ranks[sigs[k0].kmer] > ranks[sigs[|sigs| - 1].kmer]
    ensures IsBest(sigs, ranks, k0)
  {
    var init := sigs[..|sigs| - 1];
    assert forall j :: 0 <= j < |init| ==> init[j] == sigs[j];
  }

  /** A newcomer ranked at least as high as a ranked best so far takes its place. */
  lemma BestTaken(sigs: seq<Signal>, ranks: map<string, real>, k0: nat)
    requires |sigs| >= 2 && IsBest(sigs[..|sigs| - 1], ranks, k0)
    requires Ranked(sigs[k0], ranks) && Ranked(sigs[|sigs| - 1], ranks)
    requires ranks[sigs[k0].kmer] <= ranks[sigs[|sigs| - 1].kmer]
    ensures IsBest(sigs, ranks, |sigs| - 1)
  {
    var init := sigs[..|sigs| - 1];
    assert forall j :: 0 <= j < |init| ==> init[j] == sigs[j];
  }

  lemma {:induction false} ReduceIsBest(sigs: seq<Signal>, ranks: map<string, real>)
    requires |sigs| > 0
    ensures exists k :: IsBest(sigs, ranks, k) && Reduce(sigs, ranks) == sigs[k]
    decreases |sigs|
  {
    var n := |sigs| - 1;
    if n == 0 {
      assert IsBest(sigs, ranks, 0);
    } else {
      var init := sigs[..n];
      ReduceIsBest(init, ranks);
      var k0 :| IsBest(init, ranks, k0) && Reduce(init, ranks) == init[k0];
      assert init[k0] == sigs[k0];
      var y := sigs[n];
      if !Ranked(sigs[k0], ranks) {
        BestAfterUnranked(sigs, ranks, k0);
      } else if !Ranked(y, ranks) || ranks[sigs[k0].kmer] > ranks[y.kmer] {
        BestKept(sigs, ranks, k0);
      } else {
        BestTaken(sigs, ranks, k0);
      }
    }
  }

  /** Of two equally ranked candidates the later one wins; a ranked one beats an unranked one after it. */
  lemma BestSignalExamples(a: Signal, b: Signal, c: Signal)
    requires a.kmer != c.kmer && b.kmer != c.kmer
    ensures Reduce([a, b], map[a.kmer := 1.0, b.kmer := 1.0]) == b
    ensures Reduce([a, c], map[a.kmer := 1.0]) == a
    ensures Reduce([c, a], map[a.kmer := 1.0]) == a
  {
    assert [a, b][..1] == [a];
    assert [a, c][..1] == [a];
    assert [c, a][..1] == [c];
  }

  /**
   * `best_surrounding_signal`: None when there is no candidate; otherwise the
   * candidate of highest rank, the later one among equal ranks, and the last
   * candidate when none is ranked.
   */
  function BestSurroundingSignal(surrounding: Option<seq<Signal>>, ranks: map<string, real>): (r: Option<Signal>)
    ensures r.None? <==> surrounding.None? || |surrounding.value| == 0
    ensures r.Some? ==> exists k :: IsBest(surrounding.value, ranks, k) && r.value == surrounding.value[k]
  {
    match surrounding
    case None => None
    case Some(sigs) =>
      if |sigs| == 0 then None
      else
        ReduceIsBest(sigs, ranks);
        Some(Reduce(sigs, ranks))
  }

  // ---------------------------------------------------------------------
  // The signal score

  /** `x > c` for a double `x`: false for NaN. */
  predicate Above(x: F64, c: real) {
    x.PosInf? || (x.Finite? && x.v > c)
  }

  /**
   * `score_signal`: withheld when the signal is likely under both chosen
   * components (both log-densities above `-cutoff`); otherwise the positive
   * component's share of the two densities.
   */
  function ScoreSignal(nm: Numerics, signal: real, posMix: Mixture, negMix: Mixture, cutoff: real): (r: Option<F64>)
    ensures var neg := nm.chooseNeg(negMix); var pos := nm.choosePos(neg, posMix);
      && (r.None? <==> Above(nm.logDensity(pos, signal), -cutoff) && Above(nm.logDensity(neg, signal), -cutoff))
      && (r.Some? ==> r.value == Share(nm.density(pos, signal), nm.density(neg, signal)))
    ensures r.Some? ==> IsScore(r.value)
  {
    var neg := nm.chooseNeg(negMix);
    var pos := nm.choosePos(neg, posMix);
    var score := Share(nm.density(pos, signal), nm.density(neg, signal));
    if Above(nm.logDensity(pos, signal), -cutoff) && Above(nm.logDensity(neg, signal), -cutoff) then None
    else Some(score)
  }

  /**
   * `calc_signal_score`: the best signal of the window scored against the
   * two controls' mixtures for its kmer; None when the window has no signal,
   * when either control lacks a mixture for that kmer, or when the score is
   * withheld.
   */
  function CalcSignalScore(opts: ScoreOptions, pos: nat, m: DataMap): (r: Option<F64>)
    ensures r.Some? ==> IsScore(r.value)
    ensures r.Some? ==> exists p :: p in LookBack(pos) && p in m
    ensures r.Some? ==>
      var best := BestSurroundingSignal(SurroundingSignal(pos, m), opts.rank);
      && best.Some?
      && best.value.kmer in opts.posCtrl.gmms && best.value.kmer in opts.negCtrl.gmms
      && r == ScoreSignal(opts.numerics, best.value.mean, opts.posCtrl.gmms[best.value.kmer],
                          opts.negCtrl.gmms[best.value.kmer], opts.cutoff)
    ensures var best := BestSurroundingSignal(SurroundingSignal(pos, m), opts.rank);
      best.Some? && best.value.kmer in opts.posCtrl.gmms && best.value.kmer in opts.negCtrl.gmms ==>
        r == ScoreSignal(opts.numerics, best.value.mean, opts.posCtrl.gmms[best.value.kmer],
                         opts.negCtrl.gmms[best.value.kmer], opts.cutoff)
  {
    var best := BestSurroundingSignal(SurroundingSignal(pos, m), opts.rank);
    match best
    case None => None
    case Some(sig) =>
      if sig.kmer in opts.posCtrl.gmms && sig.kmer in opts.negCtrl.gmms then
        ScoreSignal(opts.numerics, sig.mean, opts.posCtrl.gmms[sig.kmer], opts.negCtrl.gmms[sig.kmer], opts.cutoff)
      else None
  }

  // ---------------------------------------------------------------------
  // The skipping score

  /**
   * The skipping score of one kmer: with both controls' skip rates `p` and
   * `n`, the share `p / (p + n)` when its position has data, and
   * `(1 - p) / ((1 - p) + (1 - n))` when it has none.
   */
  function KmerSkip(kmer: string, hasData: bool, posSkips: map<string, Prob>, negSkips: map<string, Prob>): (r: Option<F64>)
    ensures r.Some? <==> kmer in posSkips && kmer in negSkips
    ensures r.Some? ==> IsScore(r.value)
    ensures r.Some? && hasData ==> r.value == Share(posSkips[kmer], negSkips[kmer])
    ensures r.Some? && !hasData ==> r.value == Share(1.0 - posSkips[kmer], 1.0 - negSkips[kmer])
  {
    if kmer in posSkips && kmer in negSkips then
      var p := posSkips[kmer];
      var n := negSkips[kmer];
      if hasData then Some(Share(p, n)) else Some(Share(1.0 - p, 1.0 - n))
    else None
  }

  /**
   * The per-kmer skipping scores of `calc_skipping_score`: kmers and presence
   * flags paired up to the shorter list, keeping the pairs whose kmer has a
   * skip rate in both controls.
   */
  function SkipScores(kmers: seq<string>, flags: seq<bool>, posSkips: map<string, Prob>, negSkips: map<string, Prob>): (r: seq<F64>)
    ensures |r| <= |kmers| && |r| <= |flags|
    ensures forall x :: x in r ==> IsScore(x)
    ensures forall x :: x in r <==>
      exists i :: 0 <= i < |kmers| && i < |flags| && KmerSkip(kmers[i], flags[i], posSkips, negSkips) == Some(x)
    decreases |kmers|
  {
    if |kmers| == 0 || |flags| == 0 then []
    else
      var rest := SkipScores(kmers[1..], flags[1..], posSkips, negSkips);
      assert forall i :: 1 <= i < |kmers| ==> kmers[1..][i - 1] == kmers[i];
      assert forall i :: 1 <= i < |flags| ==> flags[1..][i - 1] == flags[i];
      match KmerSkip(kmers[0], flags[0], posSkips, negSkips)
      case Some(x) => [x] + rest
      case None => rest
  }

  /** A single pair contributes its kmer's skipping score, or nothing when a control lacks the kmer. */
  lemma SkipScoresSingle(kmer: string, flag: bool, posSkips: map<string, Prob>, negSkips: map<string, Prob>)
    ensures SkipScores([kmer], [flag], posSkips, negSkips) ==
      match KmerSkip(kmer, flag, posSkips, negSkips)
      case Some(x) => [x]
      case None => []
  {
    assert SkipScores([], [], posSkips, negSkips) == [];
  }

  /**
   * Pairs are scored one after the other: the scores of two zipped runs of
   * pairs are the scores of the first run followed by those of the second,
   * each kept once per pair, in order.
   */
  lemma {:induction false} SkipScoresAppend(k1: seq<string>, f1: seq<bool>, k2: seq<string>, f2: seq<bool>,
                                            posSkips: map<string, Prob>, negSkips: map<string, Prob>)
    requires |k1| == |f1|
    ensures SkipScores(k1 + k2, f1 + f2, posSkips, negSkips) ==
      SkipScores(k1, f1, posSkips, negSkips) + SkipScores(k2, f2, posSkips, negSkips)
    decreases |k1|
  {
    if |k1| == 0 {
      assert k1 + k2 == k2 && f1 + f2 == f2;
    } else {
      assert (k1 + k2)[1..] == k1[1..] + k2 && (f1 + f2)[1..] == f1[1..] + f2;
      SkipScoresAppend(k1[1..], f1[1..], k2, f2, posSkips, negSkips);
    }
  }

  /** Pairs beyond the shorter list are ignored, as `zip` stops there. */
  lemma {:induction false} SkipScoresZipShorter(kmers: seq<string>, flags: seq<bool>,
                                                posSkips: map<string, Prob>, negSkips: map<string, Prob>)
    requires |kmers| <= |flags|
    ensures SkipScores(kmers, flags, posSkips, negSkips) == SkipScores(kmers, flags[..|kmers|], posSkips, negSkips)
    decreases |kmers|
  {
    if |kmers| > 0 {
      assert flags[..|kmers|][1..] == flags[1..][..|kmers| - 1];
      SkipScoresZipShorter(kmers[1..], flags[1..], posSkips, negSkips);
    }
  }

  /** With skip rates 0.2 and 0.8 and no data, the kmer's skipping score is 0.8 / 1.0. */
  lemma KmerSkipExample(kmer: string)
    ensures KmerSkip(kmer, false, map[kmer := 0.2], map[kmer := 0.8]) == Some(Finite(0.8))
  {
    assert Share(1.0 - 0.2, 1.0 - 0.8) == Finite(0.8);
  }

  /** The median keeps scores: a median of scores is a score. */
  ghost predicate MedianKeepsScores(nm: Numerics) {
    forall xs: seq<F64> :: |xs| > 0 && (forall x :: x in xs ==> IsScore(x)) ==> IsScore(nm.median(xs))
  }

  /**
   * `calc_skipping_score`: the median of the per-kmer skipping scores of the
   * surrounding 6-mers; None where the source panics because no surrounding
   * kmer has skip rates in both controls.
   */
  function CalcSkippingScore(opts: ScoreOptions, ctx: Context, pos: nat, m: DataMap): (r: Option<F64>)
    requires pos >= ctx.readStart
    ensures var kmers := SurroundingKmers(ctx, pos); var flags := SurroundHasData(pos, m);
      r.None? <==> forall i :: 0 <= i < |kmers| && i < |flags| ==>
        KmerSkip(kmers[i], flags[i], opts.posCtrl.skips, opts.negCtrl.skips).None?
    ensures r.Some? ==> r.value == opts.numerics.median(
      SkipScores(SurroundingKmers(ctx, pos), SurroundHasData(pos, m), opts.posCtrl.skips, opts.negCtrl.skips))
    ensures r.Some? && MedianKeepsScores(opts.numerics) ==> IsScore(r.value)
  {
    var kmers := SurroundingKmers(ctx, pos);
    var flags := SurroundHasData(pos, m);
    var scores := SkipScores(kmers, flags, opts.posCtrl.skips, opts.negCtrl.skips);
    if |scores| == 0 then
      None
    else
      assert scores[0] in scores;
      Some(opts.numerics.median(scores))
  }

  // ---------------------------------------------------------------------
  // Fusion and the per-position loop

  /**
   * The final score of a position: the skipping score when there is no
   * signal score, otherwise the larger of the two, a NaN on either side
   * giving way to the other.
   */
  function Fuse(signal: Option<F64>, skip: F64): (r: F64)
    ensures r == skip || (signal.Some? && r == signal.value)
    ensures signal.None? ==> r == skip
    ensures signal.Some? && signal.value.NaN? ==> r == skip
    ensures signal.Some? && skip.NaN? ==> r == signal.value
    ensures signal.Some? && !signal.value.NaN? && !skip.NaN? ==>
      LessEq(signal.value, r) && LessEq(skip, r)
  {
    match signal
    case None => skip
    case Some(x) => FMax(x, skip)
  }

  lemma FuseExample()
    ensures Fuse(Some(Finite(0.3)), Finite(0.8)) == Finite(0.8)
    ensures Fuse(None, Finite(0.8)) == Finite(0.8)
  {
  }

  lemma FuseKeepsScores(signal: Option<F64>, skip: F64)
    requires IsScore(skip) && (signal.Some? ==> IsScore(signal.value))
    ensures IsScore(Fuse(signal, skip))
  {
  }

  /** What one position contributes: nothing, a Score, or a panic. */
  datatype Step = Skip | Emit(score: Score) | Abort

  /** The 6-mer at a position if it resolves and, when motifs are given, starts with one of them. */
  function KmerAt(opts: ScoreOptions, ctx: Context, pos: nat): (r: Option<string>)
    requires pos >= ctx.readStart
    ensures r.Some? <==>
      && SixmerAt(ctx, pos).Some?
      && (opts.motifs.Some? ==> StartsWithAny(SixmerAt(ctx, pos).value, opts.motifs.value))
    ensures r.Some? ==> r == SixmerAt(ctx, pos) && |r.value| == 6
  {
    match SixmerAt(ctx, pos)
    case None => None
    case Some(k) =>
      if opts.motifs.Some? && !StartsWithAny(k, opts.motifs.value) then None else Some(k)
  }

  /** One iteration of the `score_eventalign` loop. */
  function ScoreAt(opts: ScoreOptions, ctx: Context, m: DataMap, pos: nat): (r: Step)
    requires pos >= ctx.readStart
    ensures r.Skip? <==> KmerAt(opts, ctx, pos).None?
    ensures r.Abort? <==> KmerAt(opts, ctx, pos).Some? && CalcSkippingScore(opts, ctx, pos, m).None?
    ensures r.Emit? ==>
      var s := r.score;
      && s.pos == pos && Some(s.kmer) == KmerAt(opts, ctx, pos)
      && s.signal == CalcSignalScore(opts, pos, m)
      && Some(s.skip) == CalcSkippingScore(opts, ctx, pos, m)
      && s.skipped == s.signal.None?
      && s.final == Fuse(s.signal, s.skip)
  {
    match KmerAt(opts, ctx, pos)
    case None => Skip
    case Some(kmer) =>
      var signal := CalcSignalScore(opts, pos, m);
      match CalcSkippingScore(opts, ctx, pos, m)
      case None => Abort
      case Some(skip) => Emit(Score(pos, kmer, signal.None?, signal, skip, Fuse(signal, skip)))
  }

  /** The steps of a read's positions; positions before the read start contribute nothing. */
  function Steps(opts: ScoreOptions, ctx: Context, m: DataMap): nat -> Step {
    p => if p >= ctx.readStart then ScoreAt(opts, ctx, m, p) else Skip
  }

  /** The Scores of positions `lo .. lo + n - 1`, or None if one of them panics. */
  function ScoresFrom(step: nat -> Step, lo: nat, n: nat): Option<seq<Score>>
    decreases n
  {
    if n == 0 then Some([])
    else
      match ScoresFrom(step, lo, n - 1)
      case None => None
      case Some(acc) =>
        match step(lo + n - 1)
        case Skip => Some(acc)
        case Abort => None
        case Emit(s) => Some(acc + [s])
  }

  /** One more position either keeps the scores so far or appends the one it emits. */
  lemma ScoresFromNext(step: nat -> Step, lo: nat, pos: nat, acc: seq<Score>, s: Step)
    requires lo <= pos && ScoresFrom(step, lo, pos - lo) == Some(acc) && step(pos) == s
    ensures s.Skip? ==> ScoresFrom(step, lo, pos - lo + 1) == Some(acc)
    ensures s.Emit? ==> ScoresFrom(step, lo, pos - lo + 1) == Some(acc + [s.score])
  {
  }

  /** The loop panics exactly when some position in range panics. */
  lemma {:induction false} ScoresFromPanics(step: nat -> Step, lo: nat, n: nat)
    ensures ScoresFrom(step, lo, n).None? <==> exists p :: lo <= p < lo + n && step(p).Abort?
    decreases n
  {
    if n > 0 {
      ScoresFromPanics(step, lo, n - 1);
    }
  }

  /**
   * The Scores come one per kept position, in strictly ascending position
   * order inside the range, each the Score of its own position.
   */
  lemma {:induction false} ScoresFromSound(step: nat -> Step, lo: nat, n: nat)
    requires forall p: nat :: step(p).Emit? ==> step(p).score.pos == p
    ensures var r := ScoresFrom(step, lo, n);
      r.Some? ==>
        && (forall i :: 0 <= i < |r.value| ==> lo <= r.value[i].pos < lo + n)
        && (forall i :: 0 <= i < |r.value| ==> step(r.value[i].pos) == Emit(r.value[i]))
        && (forall i, j :: 0 <= i < j < |r.value| ==> r.value[i].pos < r.value[j].pos)
    decreases n
  {
    if n > 0 {
      ScoresFromSound(step, lo, n - 1);
    }
  }

  /** Every position in range whose step emits a Score has it in the result. */
  lemma {:induction false} ScoresFromComplete(step: nat -> Step, lo: nat, n: nat)
    ensures var r := ScoresFrom(step, lo, n);
      r.Some? ==> forall p :: lo <= p < lo + n && step(p).Emit? ==> step(p).score in r.value
    decreases n
  {
    if n > 0 {
      ScoresFromComplete(step, lo, n - 1);
    }
  }

  /** Each step of a read emits its Score at its own position. */
  lemma StepsAtOwnPosition(opts: ScoreOptions, ctx: Context, m: DataMap)
    ensures forall p: nat :: Steps(opts, ctx, m)(p).Emit? ==> Steps(opts, ctx, m)(p).score.pos == p
  {
  }

  /** Why scoring a read aborts the program. */
  datatype PanicReason = MissingChromosome | NoSkippingScores

  /** The outcome of scoring one read: a scored read, an error, or a panic. */
  datatype ReadOutcome = Scored(read: ScoredRead) | Failed | Panicked(reason: PanicReason)

  /** The outcome `score_eventalign` is specified to have. */
  function ReadResult(opts: ScoreOptions, read: Eventalign): ReadOutcome {
    match FromRead(opts.genome, read)
    case Failure(ChromosomeMissing) => Panicked(MissingChromosome)
    case Failure(InvalidInterval) => Failed
    case Success(ctx) =>
      match ScoresFrom(Steps(opts, ctx, PosData(read.signals)), StartOb(read.meta), read.meta.length)
      case None => Panicked(NoSkippingScores)
      case Some(scores) => Scored(ScoredRead(read.meta, scores))
  }

  /**
   * A scored read keeps the read's metadata and has at most one Score per
   * position of `start_ob ..= stop_ob`, in ascending order: exactly the
   * positions whose 6-mer is kept, each Score built from that position's
   * 6-mer, signal score and skipping score.
   */
  lemma ReadResultMeaning(opts: ScoreOptions, read: Eventalign)
    requires ReadResult(opts, read).Scored?
    ensures FromRead(opts.genome, read).Success?
    ensures var scores := ReadResult(opts, read).read.scores;
      var ctx := FromRead(opts.genome, read).value;
      var m := PosData(read.signals);
      && ReadResult(opts, read).read.meta == read.meta
      && (forall i, j :: 0 <= i < j < |scores| ==> scores[i].pos < scores[j].pos)
      && (forall i :: 0 <= i < |scores| ==>
            && StartOb(read.meta) <= scores[i].pos <= StopOb(read.meta)
            && KmerAt(opts, ctx, scores[i].pos) == Some(scores[i].kmer)
            && scores[i].signal == CalcSignalScore(opts, scores[i].pos, m)
            && Some(scores[i].skip) == CalcSkippingScore(opts, ctx, scores[i].pos, m)
            && scores[i].skipped == scores[i].signal.None?
            && scores[i].final == Fuse(scores[i].signal, scores[i].skip))
      && (forall p: nat :: StartOb(read.meta) <= p <= StopOb(read.meta) && KmerAt(opts, ctx, p).Some? ==>
            exists i :: 0 <= i < |scores| && scores[i].pos == p)
  {
    var ctx := FromRead(opts.genome, read).value;
    var m := PosData(read.signals);
    var steps := Steps(opts, ctx, m);
    var lo, n := StartOb(read.meta), read.meta.length;
    var scores := ReadResult(opts, read).read.scores;
    assert ScoresFrom(steps, lo, n) == Some(scores);
    StepsAtOwnPosition(opts, ctx, m);
    ScoresFromSound(steps, lo, n);
    ScoresFromComplete(steps, lo, n);
    ScoresFromPanics(steps, lo, n);
    forall i | 0 <= i < |scores|
      ensures ScoreAt(opts, ctx, m, scores[i].pos) == Emit(scores[i])
    {
      assert steps(scores[i].pos) == Emit(scores[i]);
    }
    forall p: nat | lo <= p < lo + n && KmerAt(opts, ctx, p).Some?
      ensures exists i :: 0 <= i < |scores| && scores[i].pos == p
    {
      assert steps(p) == ScoreAt(opts, ctx, m, p);
      assert steps(p).Emit?;
      var i :| 0 <= i < |scores| && scores[i] == steps(p).score;
    }
  }

  /**
   * Scoring a read panics for lack of skipping scores exactly when its context
   * builds and some position of `start_ob ..= stop_ob` has a kept 6-mer but
   * no surrounding 6-mer with skip rates in both controls.
   */
  lemma ReadResultPanics(opts: ScoreOptions, read: Eventalign)
    ensures ReadResult(opts, read) == Panicked(NoSkippingScores) <==>
      && FromRead(opts.genome, read).Success?
      && exists p: nat :: StartOb(read.meta) <= p <= StopOb(read.meta)
           && KmerAt(opts, FromRead(opts.genome, read).value, p).Some?
           && CalcSkippingScore(opts, FromRead(opts.genome, read).value, p, PosData(read.signals)).None?
  {
    if FromRead(opts.genome, read).Success? {
      var ctx := FromRead(opts.genome, read).value;
      var m := PosData(read.signals);
      var steps := Steps(opts, ctx, m);
      var lo, n := StartOb(read.meta), read.meta.length;
      ScoresFromPanics(steps, lo, n);
      forall p: nat | lo <= p < lo + n
        ensures steps(p).Abort? <==> KmerAt(opts, ctx, p).Some? && CalcSkippingScore(opts, ctx, p, m).None?
      {
        assert steps(p) == ScoreAt(opts, ctx, m, p);
      }
    }
  }

  /**
   * The loop of `score_eventalign` over the positions `lo .. lo + n`, each
   * position's work given as `step`: stops at the first position that
   * aborts, otherwise pushes the Score of each position that emits one.
   */
  method ScorePositions(step: nat -> Step, lo: nat, n: nat) returns (r: Option<seq<Score>>)
    ensures r == ScoresFrom(step, lo, n)
  {
    var acc: seq<Score> := [];
    var pos := lo;
    while pos < lo + n
      invariant lo <= pos <= lo + n
      invariant ScoresFrom(step, lo, pos - lo) == Some(acc)
    {
      var s := step(pos);
      ScoresFromNext(step, lo, pos, acc, s);
      match s {
        case Abort =>
          ScoresFromPanics(step, lo, n);
          return None;
        case Skip =>
        case Emit(score) =>
          acc := acc + [score];
      }
      pos := pos + 1;
    }
    return Some(acc);
  }

  /**
   * `score_eventalign`: builds the context, indexes the signals by position,
   * then walks the positions `start_ob ..= stop_ob`.
   */
  method ScoreEventalign(opts: ScoreOptions, read: Eventalign) returns (r: ReadOutcome)
    ensures r == ReadResult(opts, read)
  {
    var context := FromRead(opts.genome, read);
    if context.Failure? {
      if context.error == ChromosomeMissing {
        return Panicked(MissingChromosome);
      }
      return Failed;
    }
    var ctx := context.value;
    var dataPos := PosWithData(read.signals);
    var scores := ScorePositions(Steps(opts, ctx, dataPos), StartOb(read.meta), read.meta.length);
    if scores.None? {
      return Panicked(NoSkippingScores);
    }
    r := Scored(ScoredRead(read.meta, scores.value));
  }

  /**
   * One batch of `run`, given each read's outcome in order: a panic aborts
   * the batch, a read that fails is dropped, and the scored reads are kept.
   */
  function Collect(outcomes: seq<ReadOutcome>): Result<seq<ScoredRead>, PanicReason>
    decreases |outcomes|
  {
    if |outcomes| == 0 then Success([])
    else
      match Collect(outcomes[..|outcomes| - 1])
      case Failure(e) => Failure(e)
      case Success(done) =>
        match outcomes[|outcomes| - 1]
        case Panicked(e) => Failure(e)
        case Failed => Success(done)
        case Scored(s) => Success(done + [s])
  }

  /** The scored reads among the outcomes, in order, one per scored outcome. */
  function ScoredOf(outcomes: seq<ReadOutcome>): (r: seq<ScoredRead>)
    ensures |r| <= |outcomes|
    decreases |outcomes|
  {
    if |outcomes| == 0 then []
    else
      var rest := ScoredOf(outcomes[..|outcomes| - 1]);
      match outcomes[|outcomes| - 1]
      case Scored(s) => rest + [s]
      case _ => rest
  }

  /** A single outcome contributes its read when it is scored, and nothing otherwise. */
  lemma ScoredOfSingle(o: ReadOutcome)
    ensures ScoredOf([o]) == if o.Scored? then [o.read] else []
  {
    assert [o][..0] == [];
  }

  /**
   * The scored reads of two consecutive parts of a batch are those of the
   * first part followed by those of the second, each kept once, in order.
   */
  lemma {:induction false} ScoredOfAppend(a: seq<ReadOutcome>, b: seq<ReadOutcome>)
    ensures ScoredOf(a + b) == ScoredOf(a) + ScoredOf(b)
    decreases |b|
  {
    if |b| == 0 {
      assert a + b == a;
    } else {
      assert (a + b)[..|a + b| - 1] == a + b[..|b| - 1];
      ScoredOfAppend(a, b[..|b| - 1]);
    }
  }

  /**
   * A batch without a panic keeps exactly the scored reads, in order and with
   * their multiplicity: the result is `ScoredOf` the outcomes, so each kept
   * read is a scored outcome, and every scored outcome is kept.
   */
  lemma {:induction false} CollectKeepsScored(outcomes: seq<ReadOutcome>)
    ensures var b := Collect(outcomes);
      b.Success? ==>
        && b.value == ScoredOf(outcomes)
        && |b.value| <= |outcomes|
        && (forall s :: s in b.value ==> Scored(s) in outcomes)
        && (forall o :: o in outcomes && o.Scored? ==> o.read in b.value)
    decreases |outcomes|
  {
    if |outcomes| > 0 {
      var init := outcomes[..|outcomes| - 1];
      CollectKeepsScored(init);
      assert outcomes == init + [outcomes[|outcomes| - 1]];
    }
  }

  /** A batch panics exactly when one of its reads panics. */
  lemma {:induction false} CollectPanics(outcomes: seq<ReadOutcome>)
    ensures Collect(outcomes).Failure? <==> exists o :: o in outcomes && o.Panicked?
    decreases |outcomes|
  {
    if |outcomes| > 0 {
      var init := outcomes[..|outcomes| - 1];
      CollectPanics(init);
      assert outcomes == init + [outcomes[|outcomes| - 1]];
    }
  }

  /** Once a prefix of the batch has panicked, the later reads change nothing. */
  lemma {:induction false} CollectStopsAtPanic(outcomes: seq<ReadOutcome>, k: nat)
    requires k <= |outcomes|
    requires Collect(outcomes[..k]).Failure?
    ensures Collect(outcomes) == Collect(outcomes[..k])
    decreases |outcomes|
  {
    if k < |outcomes| {
      var init := outcomes[..|outcomes| - 1];
      assert init[..k] == outcomes[..k];
      CollectStopsAtPanic(init, k);
    } else {
      assert outcomes[..k] == outcomes;
    }
  }

  /** The outcome of each read of a batch. */
  function Outcomes(opts: ScoreOptions, batch: seq<Eventalign>): (r: seq<ReadOutcome>)
    ensures |r| == |batch|
    ensures forall i :: 0 <= i < |batch| ==> r[i] == ReadResult(opts, batch[i])
  {
    seq(|batch|, i requires 0 <= i < |batch| => ReadResult(opts, batch[i]))
  }

  /** `run` over one batch: scores each read with `score_eventalign` and collects the outcomes. */
  method ScoreBatch(opts: ScoreOptions, batch: seq<Eventalign>) returns (r: Result<seq<ScoredRead>, PanicReason>)
    ensures r == Collect(Outcomes(opts, batch))
  {
    ghost var outcomes := Outcomes(opts, batch);
    var scored: seq<ScoredRead> := [];
    var i := 0;
    while i < |batch|
      invariant 0 <= i <= |batch|
      invariant Collect(outcomes[..i]) == Success(scored)
    {
      assert outcomes[..i + 1][..i] == outcomes[..i];
      var outcome := ScoreEventalign(opts, batch[i]);
      if outcome.Panicked? {
        CollectStopsAtPanic(outcomes, i + 1);
        return Failure(outcome.reason);
      }
      if outcome.Scored? {
        scored := scored + [outcome.read];
      }
      i := i + 1;
    }
    assert outcomes[..i] == outcomes;
    r := Success(scored);
  }
}
