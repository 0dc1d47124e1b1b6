/**
 * Training of per-kmer signal models: the options, the enumeration of all
 * 6-mers, the sample store filled from reads, and the best-effort training of
 * one Gaussian mixture per kmer.
 */
module Train {
  import opened Wrappers
  import opened Records
  import opened Motifs

  // ---------------------------------------------------------------------
  // Options

  /** Samples drawn per kmer, one or two components, DBSCAN filtering, motifs, store path. */
  datatype TrainOptions = TrainOptions(
    nSamples: Usize, single: bool, dbscan: bool, motifs: seq<Motif>, dbPath: Option<string>)

  /** The default options: 50000 samples, two components, no DBSCAN, the four single-base motifs, a temporary store. */
  function DefaultOptions(): (o: TrainOptions)
    ensures o.nSamples == 50000 && !o.single && !o.dbscan && o.dbPath.None?
    ensures |o.motifs| == 4 && forall c :: IsBase(c) <==> Motif([c], 1) in o.motifs
  {
    TrainOptions(50000, false, false, AllBases(), None)
  }

  /** Each builder sets its own field and leaves the others as they were. */
  function WithNSamples(o: TrainOptions, n: Usize): (r: TrainOptions)
    ensures r.nSamples == n && r.(nSamples := o.nSamples) == o
  {
    o.(nSamples := n)
  }

  function WithSingle(o: TrainOptions, single: bool): (r: TrainOptions)
    ensures r.single == single && r.(single := o.single) == o
  {
    o.(single := single)
  }

  function WithDbscan(o: TrainOptions, dbscan: bool): (r: TrainOptions)
    ensures r.dbscan == dbscan && r.(dbscan := o.dbscan) == o
  {
    o.(dbscan := dbscan)
  }

  function WithMotifs(o: TrainOptions, motifs: seq<Motif>): (r: TrainOptions)
    ensures r.motifs == motifs && r.(motifs := o.motifs) == o
  {
    o.(motifs := motifs)
  }

  function WithDbPath(o: TrainOptions, dbPath: Option<string>): (r: TrainOptions)
    ensures r.dbPath == dbPath && r.(dbPath := o.dbPath) == o
  {
    o.(dbPath := dbPath)
  }

  // ---------------------------------------------------------------------
  // All 6-mers

  /** The bases in the order the enumeration appends them. */
  const DNA: string := "ACGT"

  /** Every string of `ks` with `c` appended, in order. */
  function Extend(ks: seq<string>, c: char): (r: seq<string>)
    ensures |r| == |ks|
    ensures forall i :: 0 <= i < |ks| ==> r[i] == ks[i] + [c]
  {
    seq(|ks|, i requires 0 <= i < |ks| => ks[i] + [c])
  }

  /** `Extend` by each base of `bs` in turn, concatenated. */
  function ExtendAll(ks: seq<string>, bs: string): (r: seq<string>)
    ensures |r| == |bs| * |ks|
    decreases |bs|
  {
    if |bs| == 0 then []
    else ExtendAll(ks, bs[..|bs| - 1]) + Extend(ks, bs[|bs| - 1])
  }

  /** A string extended by a base of `bs` is one of `ks` with a base of `bs` appended. */
  lemma {:induction false} ExtendAllMember(ks: seq<string>, bs: string, x: string)
    ensures x in ExtendAll(ks, bs) <==> |x| > 0 && x[..|x| - 1] in ks && x[|x| - 1] in bs
    decreases |bs|
  {
    if |bs| > 0 {
      var init := bs[..|bs| - 1];
      var c := bs[|bs| - 1];
      ExtendAllMember(ks, init, x);
      assert bs == init + [c];
      if |x| > 0 && x[..|x| - 1] in ks && x[|x| - 1] == c {
        var i :| 0 <= i < |ks| && ks[i] == x[..|x| - 1];
        assert x == ks[i] + [c];
        assert Extend(ks, c)[i] == x;
      }
      if x in Extend(ks, c) {
        var i :| 0 <= i < |ks| && Extend(ks, c)[i] == x;
        assert x[..|x| - 1] == ks[i];
      }
    }
  }

  /** No string occurs twice. */
  predicate Distinct<T(==)>(xs: seq<T>) {
    forall i, j :: 0 <= i < j < |xs| ==> xs[i] != xs[j]
  }

  lemma {:induction false} ExtendAllDistinct(ks: seq<string>, bs: string)
    requires Distinct(ks) && Distinct(bs)
    ensures Distinct(ExtendAll(ks, bs))
    decreases |bs|
  {
    if |bs| > 0 {
      var init := bs[..|bs| - 1];
      var c := bs[|bs| - 1];
      assert Distinct(init) by {
        assert forall i :: 0 <= i < |init| ==> init[i] == bs[i];
      }
      ExtendAllDistinct(ks, init);
      var a := ExtendAll(ks, init);
      var b := Extend(ks, c);
      assert c !in init by {
        assert forall i :: 0 <= i < |init| ==> init[i] == bs[i];
      }
      assert Distinct(b) by {
        forall i, j | 0 <= i < j < |b| ensures b[i] != b[j] {
          assert b[i][..|b[i]| - 1] == ks[i];
          assert b[j][..|b[j]| - 1] == ks[j];
        }
      }
      forall i, j | 0 <= i < |a| && 0 <= j < |b| ensures a[i] != b[j] {
        ExtendAllMember(ks, init, a[i]);
      }
    }
  }

  /** The strings of length `n` over A, C, G, T in the order of `all_kmers`. */
  function KmersOfLength(n: nat): (r: seq<string>)
    decreases n
  {
    if n == 0 then [""] else ExtendAll(KmersOfLength(n - 1), DNA)
  }

  /** A string spelled with the four bases only. */
  predicate IsDna(s: string) {
    forall i :: 0 <= i < |s| ==> IsBase(s[i])
  }

  lemma IsDnaSnoc(s: string)
    requires |s| > 0
    ensures IsDna(s) <==> IsDna(s[..|s| - 1]) && s[|s| - 1] in DNA
  {
    assert forall i :: 0 <= i < |s| - 1 ==> s[..|s| - 1][i] == s[i];
  }

  /** The kmers of length `n` are exactly the strings of length `n` over the four bases. */
  lemma {:induction false} KmersOfLengthMembers(n: nat, s: string)
    ensures s in KmersOfLength(n) <==> |s| == n && IsDna(s)
    decreases n
  {
    if n > 0 {
      ExtendAllMember(KmersOfLength(n - 1), DNA, s);
      if |s| > 0 {
        KmersOfLengthMembers(n - 1, s[..|s| - 1]);
        IsDnaSnoc(s);
      }
    }
  }

  lemma {:induction false} KmersOfLengthDistinct(n: nat)
    ensures Distinct(KmersOfLength(n))
    decreases n
  {
    if n > 0 {
      KmersOfLengthDistinct(n - 1);
      ExtendAllDistinct(KmersOfLength(n - 1), DNA);
    }
  }

  /** `all_kmers`: 4096 distinct strings, and every 6-letter string over A, C, G, T is one of them. */
  lemma AllKmersMeaning()
    ensures |KmersOfLength(6)| == 4096
    ensures Distinct(KmersOfLength(6))
    ensures forall s :: s in KmersOfLength(6) <==> |s| == 6 && IsDna(s)
  {
    KmersOfLengthDistinct(6);
    forall s ensures s in KmersOfLength(6) <==> |s| == 6 && IsDna(s) {
      KmersOfLengthMembers(6, s);
    }
    assert |KmersOfLength(1)| == 4;
    assert |KmersOfLength(2)| == 16;
    assert |KmersOfLength(3)| == 64;
    assert |KmersOfLength(4)| == 256;
    assert |KmersOfLength(5)| == 1024;
  }

  lemma ExtendSnoc(ks: seq<string>, j: nat, c: char)
    requires j < |ks|
    ensures Extend(ks[..j + 1], c) == Extend(ks[..j], c) + [ks[j] + [c]]
  {
  }

  lemma ExtendAllSnoc(ks: seq<string>, bs: string, b: nat)
    requires b < |bs|
    ensures ExtendAll(ks, bs[..b + 1]) == ExtendAll(ks, bs[..b]) + Extend(ks, bs[b])
  {
    assert bs[..b + 1][..b] == bs[..b];
  }

  /** One pass of the innermost loop of `all_kmers`: `base` appended to every kmer, after `acc`. */
  method AppendBase(kmers: seq<string>, base: char, acc: seq<string>) returns (r: seq<string>)
    ensures r == acc + Extend(kmers, base)
  {
    r := acc;
    var j := 0;
    while j < |kmers|
      invariant 0 <= j <= |kmers|
      invariant r == acc + Extend(kmers[..j], base)
    {
      ExtendSnoc(kmers, j, base);
      r := r + [kmers[j] + [base]];
      j := j + 1;
    }
    assert kmers[..j] == kmers;
  }

  /** `all_kmers`: six rounds, each appending every base, in turn, to every kmer so far. */
  method AllKmers() returns (kmers: seq<string>)
    ensures kmers == KmersOfLength(6)
  {
    kmers := [""];
    var round := 0;
    while round < 6
      invariant 0 <= round <= 6
      invariant kmers == KmersOfLength(round)
    {
      var acc: seq<string> := [];
      var b := 0;
      while b < |DNA|
        invariant 0 <= b <= |DNA|
        invariant acc == ExtendAll(kmers, DNA[..b])
      {
        acc := AppendBase(kmers, DNA[b], acc);
        ExtendAllSnoc(kmers, DNA, b);
        b := b + 1;
      }
      assert DNA[..b] == DNA;
      kmers := acc;
      round := round + 1;
    }
  }

  // ---------------------------------------------------------------------
  // The sample store

  /** One stored sample: the kmer of its signal and the sample value. */
  datatype Row = Row(kmer: string, sample: real)

  /** `(40.0..=170.0).contains(x) && x.is_finite()`: NaN and the infinities are never in range. */
  predicate Keep(x: F64) {
    x.Finite? && 40.0 <= x.v <= 170.0
  }

  /** The rows of one signal's samples: the kept ones, in order. */
  function SampleRows(kmer: string, samples: seq<F64>): (r: seq<Row>)
    ensures |r| <= |samples|
    decreases |samples|
  {
    if |samples| == 0 then []
    else
      var x := samples[|samples| - 1];
      SampleRows(kmer, samples[..|samples| - 1]) + if Keep(x) then [Row(kmer, x.v)] else []
  }

  /** The rows of a read's signals: those of the signals whose kmer matches a motif, in order. */
  function SignalRows(signals: seq<Signal>, motifs: seq<Motif>): (r: seq<Row>)
    decreases |signals|
  {
    if |signals| == 0 then []
    else
      var s := signals[|signals| - 1];
      SignalRows(signals[..|signals| - 1], motifs) + if MatchesMotif(s.kmer, motifs) then SampleRows(s.kmer, s.samples) else []
  }

  /** The rows `add_reads` inserts for a batch of reads, in order. */
  function Accepted(es: seq<Eventalign>, motifs: seq<Motif>): (r: seq<Row>)
    decreases |es|
  {
    if |es| == 0 then []
    else Accepted(es[..|es| - 1], motifs) + SignalRows(es[|es| - 1].signals, motifs)
  }

  lemma {:induction false} SampleRowsMembers(kmer: string, samples: seq<F64>, row: Row)
    ensures row in SampleRows(kmer, samples) <==> row.kmer == kmer && Finite(row.sample) in samples && Keep(Finite(row.sample))
    decreases |samples|
  {
    if |samples| > 0 {
      var init := samples[..|samples| - 1];
      assert samples == init + [samples[|samples| - 1]];
      SampleRowsMembers(kmer, init, row);
    }
  }

  lemma {:induction false} SignalRowsMembers(signals: seq<Signal>, motifs: seq<Motif>, row: Row)
    ensures row in SignalRows(signals, motifs) <==>
      exists s :: s in signals && MatchesMotif(s.kmer, motifs) && row in SampleRows(s.kmer, s.samples)
    decreases |signals|
  {
    if |signals| > 0 {
      var init := signals[..|signals| - 1];
      assert signals == init + [signals[|signals| - 1]];
      SignalRowsMembers(init, motifs, row);
    }
  }

  lemma {:induction false} AcceptedMembers(es: seq<Eventalign>, motifs: seq<Motif>, row: Row)
    ensures row in Accepted(es, motifs) <==> exists e :: e in es && row in SignalRows(e.signals, motifs)
    decreases |es|
  {
    if |es| > 0 {
      var init := es[..|es| - 1];
      assert es == init + [es[|es| - 1]];
      AcceptedMembers(init, motifs, row);
    }
  }

  lemma SampleRowsSnoc(kmer: string, xs: seq<F64>, x: F64)
    ensures SampleRows(kmer, xs + [x]) == SampleRows(kmer, xs) + if Keep(x) then [Row(kmer, x.v)] else []
  {
    assert (xs + [x])[..|xs|] == xs;
  }

  lemma SignalRowsSnoc(signals: seq<Signal>, s: Signal, motifs: seq<Motif>)
    ensures SignalRows(signals + [s], motifs) ==
      SignalRows(signals, motifs) + if MatchesMotif(s.kmer, motifs) then SampleRows(s.kmer, s.samples) else []
  {
    assert (signals + [s])[..|signals|] == signals;
  }

  lemma AcceptedSnoc(es: seq<Eventalign>, e: Eventalign, motifs: seq<Motif>)
    ensures Accepted(es + [e], motifs) == Accepted(es, motifs) + SignalRows(e.signals, motifs)
  {
    assert (es + [e])[..|es|] == es;
  }

  /** A signal whose samples all have one value stores that value once per sample, or nothing. */
  lemma {:induction false} SampleRowsUniform(kmer: string, xs: seq<F64>, x: F64)
    requires forall i :: 0 <= i < |xs| ==> xs[i] == x
    ensures SampleRows(kmer, xs) == if Keep(x) then seq(|xs|, _ => Row(kmer, x.v)) else []
    decreases |xs|
  {
    if |xs| > 0 {
      var init := xs[..|xs| - 1];
      assert xs == init + [x];
      SampleRowsUniform(kmer, init, x);
      SampleRowsSnoc(kmer, init, x);
    }
  }

  /**
   * Exactly the samples whose signal kmer matches a motif and that are finite
   * and in `[40, 170]` are accepted, each under its signal's kmer.
   */
  lemma AcceptedMeaning(es: seq<Eventalign>, motifs: seq<Motif>, row: Row)
    ensures row in Accepted(es, motifs) <==>
      && 40.0 <= row.sample <= 170.0
      && exists e, s :: e in es && s in e.signals && s.kmer == row.kmer
           && MatchesMotif(s.kmer, motifs) && Finite(row.sample) in s.samples
  {
    AcceptedMembers(es, motifs, row);
    if row in Accepted(es, motifs) {
      var e :| e in es && row in SignalRows(e.signals, motifs);
      SignalRowsMembers(e.signals, motifs, row);
      var s :| s in e.signals && MatchesMotif(s.kmer, motifs) && row in SampleRows(s.kmer, s.samples);
      SampleRowsMembers(s.kmer, s.samples, row);
    }
    if && 40.0 <= row.sample <= 170.0
       && exists e, s :: e in es && s in e.signals && s.kmer == row.kmer
            && MatchesMotif(s.kmer, motifs) && Finite(row.sample) in s.samples
    {
      var e, s :| e in es && s in e.signals && s.kmer == row.kmer
        && MatchesMotif(s.kmer, motifs) && Finite(row.sample) in s.samples;
      SampleRowsMembers(s.kmer, s.samples, row);
      SignalRowsMembers(e.signals, motifs, row);
    }
  }

  /** Every accepted sample lies in `[40, 170]`. */
  lemma AcceptedInRange(es: seq<Eventalign>, motifs: seq<Motif>)
    ensures forall row :: row in Accepted(es, motifs) ==> 40.0 <= row.sample <= 170.0
  {
    forall row | row in Accepted(es, motifs) ensures 40.0 <= row.sample <= 170.0 {
      AcceptedMeaning(es, motifs, row);
    }
  }

  /** Where a failure can happen while adding a batch: opening the transaction, the k-th insert, or the commit. */
  datatype Fault = NoFault | BeginFails | InsertFails(k: nat) | CommitFails

  datatype DbError = DbError

  /**
   * The sample store: the rows of the `data` table in insertion order, the
   * per-kmer row limit and per-kmer counts it is created with.
   */
  class Db {
    var rows: seq<Row>
    var limit: nat
    var counts: map<string, nat>

    /** Every stored sample is in `[40, 170]`. */
    predicate Valid()
      reads this
    {
      forall row :: row in rows ==> 40.0 <= row.sample <= 170.0
    }

    /** The stored samples of a kmer, in insertion order. */
    function Values(kmer: string): (r: seq<real>)
      reads this
      ensures |r| <= |rows|
    {
      ValuesIn(rows, kmer)
    }

    /** `Db::open`: a fresh, empty store. */
    constructor Open()
      ensures rows == [] && limit == 50000 && counts == map[]
      ensures Valid()
    {
      rows := [];
      limit := 50000;
      counts := map[];
    }

    /**
     * `add_reads`: inside one transaction, inserts a row for every kept sample
     * of every signal whose kmer matches a motif; the rows become visible only
     * when the commit succeeds, and a failure leaves the store as it was.
     */
    method AddReads(es: seq<Eventalign>, motifs: seq<Motif>, fault: Fault) returns (r: Result<(), DbError>)
      requires Valid()
      modifies this
      ensures Valid()
      ensures r.Success? ==> rows == old(rows) + Accepted(es, motifs)
      ensures r.Failure? ==> rows == old(rows)
      ensures r.Failure? <==> (fault == BeginFails || fault == CommitFails ||
        (fault.InsertFails? && fault.k < |Accepted(es, motifs)|))
      ensures limit == old(limit) && counts == old(counts)
    {
      if fault == BeginFails {
        return Failure(DbError);
      }
      var pending: seq<Row> := [];
      var i := 0;
      while i < |es|
        invariant 0 <= i <= |es|
        invariant pending == Accepted(es[..i], motifs)
        invariant !(fault.InsertFails? && fault.k < |pending|)
        invariant unchanged(this)
      {
        assert es[..i + 1] == es[..i] + [es[i]];
        AcceptedSnoc(es[..i], es[i], motifs);
        var failed;
        pending, failed := InsertSignals(es[i].signals, motifs, pending, fault);
        if failed {
          AcceptedPrefix(es, motifs, i + 1);
          return Failure(DbError);
        }
        i := i + 1;
      }
      assert es[..i] == es;
      if fault == CommitFails {
        return Failure(DbError);
      }
      AcceptedInRange(es, motifs);
      rows := rows + pending;
      r := Success(());
    }

    /**
     * `get_kmer_samples`: at most `n` of the kmer's stored samples, as many as
     * there are up to `n`, each drawn from the stored ones. The store picks
     * them in random order; the contract holds for any order. Since only
     * samples in `[40, 170]` are ever stored, every drawn sample is in range.
     */
    method GetKmerSamples(kmer: string, n: nat) returns (samples: seq<real>)
      requires Valid()
      ensures |samples| == if n < |Values(kmer)| then n else |Values(kmer)|
      ensures multiset(samples) <= multiset(Values(kmer))
      ensures forall x :: x in samples ==> 40.0 <= x <= 170.0
    {
      samples := [];
      var i := 0;
      while i < |rows| && |samples| < n
        invariant 0 <= i <= |rows|
        invariant |samples| <= n
        invariant samples == ValuesIn(rows[..i], kmer)
      {
        ValuesInSnoc(rows[..i], rows[i], kmer);
        assert rows[..i + 1] == rows[..i] + [rows[i]];
        if rows[i].kmer == kmer {
          samples := samples + [rows[i].sample];
        }
        i := i + 1;
      }
      DrawnPrefix(rows, kmer, i, n, samples);
    }
  }

  /**
   * The middle loop of `add_reads` over one read's signals: the samples of the
   * signals whose kmer matches a motif are inserted after `pending`, unless an
   * insert fails on the way.
   */
  method InsertSignals(signals: seq<Signal>, motifs: seq<Motif>, pending: seq<Row>, fault: Fault)
    returns (r: seq<Row>, failed: bool)
    requires !(fault.InsertFails? && fault.k < |pending|)
    ensures failed <==> fault.InsertFails? && fault.k < |pending + SignalRows(signals, motifs)|
    ensures !failed ==> r == pending + SignalRows(signals, motifs)
  {
    r := pending;
    var j := 0;
    while j < |signals|
      invariant 0 <= j <= |signals|
      invariant r == pending + SignalRows(signals[..j], motifs)
      invariant !(fault.InsertFails? && fault.k < |r|)
    {
      var signal := signals[j];
      assert signals[..j + 1] == signals[..j] + [signal];
      SignalRowsSnoc(signals[..j], signal, motifs);
      if MatchesMotif(signal.kmer, motifs) {
        var failedHere;
        r, failedHere := InsertSamples(signal.kmer, signal.samples, r, fault);
        if failedHere {
          SignalRowsPrefix(signals, motifs, j + 1);
          return r, true;
        }
      }
      j := j + 1;
    }
    assert signals[..j] == signals;
    failed := false;
  }

  /**
   * The inner loop of `add_reads` over one signal's samples: each kept sample
   * is inserted after `pending`, unless an insert fails on the way.
   */
  method InsertSamples(kmer: string, samples: seq<F64>, pending: seq<Row>, fault: Fault)
    returns (r: seq<Row>, failed: bool)
    requires !(fault.InsertFails? && fault.k < |pending|)
    ensures failed <==> fault.InsertFails? && fault.k < |pending + SampleRows(kmer, samples)|
    ensures !failed ==> r == pending + SampleRows(kmer, samples)
  {
    r := pending;
    var l := 0;
    while l < |samples|
      invariant 0 <= l <= |samples|
      invariant r == pending + SampleRows(kmer, samples[..l])
      invariant !(fault.InsertFails? && fault.k < |r|)
    {
      var sample := samples[l];
      assert samples[..l + 1] == samples[..l] + [sample];
      SampleRowsSnoc(kmer, samples[..l], sample);
      if Keep(sample) {
        if fault == InsertFails(|r|) {
          SampleRowsPrefix(kmer, samples, l + 1);
          return r, true;
        }
        r := r + [Row(kmer, sample.v)];
      }
      l := l + 1;
    }
    assert samples[..l] == samples;
    failed := false;
  }

  /** The samples stored for a kmer among some rows, in order. */
  function ValuesIn(rows: seq<Row>, kmer: string): (r: seq<real>)
    ensures |r| <= |rows|
    decreases |rows|
  {
    if |rows| == 0 then []
    else ValuesIn(rows[..|rows| - 1], kmer) + if rows[|rows| - 1].kmer == kmer then [rows[|rows| - 1].sample] else []
  }

  lemma {:induction false} ValuesInMember(rows: seq<Row>, kmer: string, x: real)
    ensures x in ValuesIn(rows, kmer) <==> Row(kmer, x) in rows
    decreases |rows|
  {
    if |rows| > 0 {
      var init := rows[..|rows| - 1];
      assert rows == init + [rows[|rows| - 1]];
      ValuesInMember(init, kmer, x);
    }
  }

  lemma ValuesInSnoc(rows: seq<Row>, row: Row, kmer: string)
    ensures ValuesIn(rows + [row], kmer) == ValuesIn(rows, kmer) + if row.kmer == kmer then [row.sample] else []
  {
    assert (rows + [row])[..|rows|] == rows;
  }

  /** The values among a prefix of the rows are a prefix of the values among all of them. */
  lemma {:induction false} ValuesInPrefix(rows: seq<Row>, i: nat, kmer: string)
    requires i <= |rows|
    ensures |ValuesIn(rows[..i], kmer)| <= |ValuesIn(rows, kmer)|
    ensures ValuesIn(rows[..i], kmer) == ValuesIn(rows, kmer)[..|ValuesIn(rows[..i], kmer)|]
    decreases |rows|
  {
    if i < |rows| {
      var init := rows[..|rows| - 1];
      assert init[..i] == rows[..i];
      ValuesInPrefix(init, i, kmer);
    } else {
      assert rows[..i] == rows;
    }
  }

  /**
   * When the scan of `get_kmer_samples` stops, after the first `i` rows, the
   * samples it drew are the first `n` values of the kmer (or all of them), all
   * in range when the rows are.
   */
  lemma DrawnPrefix(rows: seq<Row>, kmer: string, i: nat, n: nat, samples: seq<real>)
    requires i <= |rows| && |samples| <= n
    requires samples == ValuesIn(rows[..i], kmer)
    requires i == |rows| || |samples| >= n
    requires forall row :: row in rows ==> 40.0 <= row.sample <= 170.0
    ensures |samples| == if n < |ValuesIn(rows, kmer)| then n else |ValuesIn(rows, kmer)|
    ensures samples == ValuesIn(rows, kmer)[..|samples|]
    ensures multiset(samples) <= multiset(ValuesIn(rows, kmer))
    ensures forall x :: x in samples ==> 40.0 <= x <= 170.0
  {
    ValuesInPrefix(rows, i, kmer);
    if i == |rows| {
      assert rows[..i] == rows;
    }
    PrefixSubMultiset(ValuesIn(rows, kmer), |samples|);
    DrawnInRange(rows, kmer, samples);
  }

  /** Samples drawn from the stored values of a kmer lie in the range every stored sample lies in. */
  lemma DrawnInRange(rows: seq<Row>, kmer: string, samples: seq<real>)
    requires forall row :: row in rows ==> 40.0 <= row.sample <= 170.0
    requires multiset(samples) <= multiset(ValuesIn(rows, kmer))
    ensures forall x :: x in samples ==> 40.0 <= x <= 170.0
  {
    forall x | x in samples ensures 40.0 <= x <= 170.0 {
      assert x in multiset(ValuesIn(rows, kmer));
      ValuesInMember(rows, kmer, x);
    }
  }

  lemma PrefixSubMultiset<T>(xs: seq<T>, k: nat)
    requires k <= |xs|
    ensures multiset(xs[..k]) <= multiset(xs)
  {
    assert xs == xs[..k] + xs[k..];
  }

  lemma {:induction false} SampleRowsPrefix(kmer: string, samples: seq<F64>, l: nat)
    requires l <= |samples|
    ensures |SampleRows(kmer, samples[..l])| <= |SampleRows(kmer, samples)|
    decreases |samples|
  {
    if l < |samples| {
      var init := samples[..|samples| - 1];
      assert init[..l] == samples[..l];
      SampleRowsPrefix(kmer, init, l);
    } else {
      assert samples[..l] == samples;
    }
  }

  lemma {:induction false} SignalRowsPrefix(signals: seq<Signal>, motifs: seq<Motif>, j: nat)
    requires j <= |signals|
    ensures |SignalRows(signals[..j], motifs)| <= |SignalRows(signals, motifs)|
    decreases |signals|
  {
    if j < |signals| {
      var init := signals[..|signals| - 1];
      assert init[..j] == signals[..j];
      SignalRowsPrefix(init, motifs, j);
    } else {
      assert signals[..j] == signals;
    }
  }

  lemma {:induction false} AcceptedPrefix(es: seq<Eventalign>, motifs: seq<Motif>, i: nat)
    requires i <= |es|
    ensures |Accepted(es[..i], motifs)| <= |Accepted(es, motifs)|
    decreases |es|
  {
    if i < |es| {
      var init := es[..|es| - 1];
      assert init[..i] == es[..i];
      AcceptedPrefix(init, motifs, i);
    } else {
      assert es[..i] == es;
    }
  }



  // ---------------------------------------------------------------------
  // Examples of the store's filter

  /** A read holding one signal per (kmer, samples) pair. */
  function ReadOf(signals: seq<Signal>): Eventalign {
    Eventalign(Metadata("read", "chrI", 0, 0, Unknown), 0, signals)
  }

  /** A read whose signals are `signals`, stored with `motifs`, adds exactly the signals' rows. */
  lemma AcceptedOneRead(signals: seq<Signal>, motifs: seq<Motif>)
    ensures Accepted([ReadOf(signals)], motifs) == SignalRows(signals, motifs)
  {
    AcceptedSnoc([], ReadOf(signals), motifs);
    assert [] + [ReadOf(signals)] == [ReadOf(signals)];
  }

  /** The rows of three signals, one after the other. */
  lemma SignalRowsOfThree(s0: Signal, s1: Signal, s2: Signal, motifs: seq<Motif>)
    ensures SignalRows([s0, s1, s2], motifs) ==
      (if MatchesMotif(s0.kmer, motifs) then SampleRows(s0.kmer, s0.samples) else [])
      + (if MatchesMotif(s1.kmer, motifs) then SampleRows(s1.kmer, s1.samples) else [])
      + (if MatchesMotif(s2.kmer, motifs) then SampleRows(s2.kmer, s2.samples) else [])
  {
    SignalRowsSnoc([], s0, motifs);
    SignalRowsSnoc([s0], s1, motifs);
    SignalRowsSnoc([s0, s1], s2, motifs);
    assert [] + [s0] == [s0] && [s0] + [s1] == [s0, s1] && [s0, s1] + [s2] == [s0, s1, s2];
  }

  /** `vec![x; n]`: `n` samples of value `x`. */
  function Repeat(x: real, n: nat): (r: seq<F64>)
    ensures |r| == n && forall i :: 0 <= i < n ==> r[i] == Finite(x)
  {
    seq(n, _ => Finite(x))
  }

  /** Samples that are all kept, or all dropped, by the range filter. */
  lemma RepeatRows(kmer: string, x: real, n: nat)
    ensures 40.0 <= x <= 170.0 ==> SampleRows(kmer, Repeat(x, n)) == seq(n, _ => Row(kmer, x))
    ensures !(40.0 <= x <= 170.0) ==> SampleRows(kmer, Repeat(x, n)) == []
  {
    SampleRowsUniform(kmer, Repeat(x, n), Finite(x));
  }

  /** With the default motifs, only the three in-range samples of AAAAAA are stored, not those at 20 or 300. */
  lemma RangeFilterExample()
    ensures
      var signals := [ Signal(0, "AAAAAA", 1.0, 0.5, Repeat(100.0, 3)),
                       Signal(1, "GGGGGG", 1.0, 0.5, Repeat(20.0, 4)),
                       Signal(2, "CCCCCC", 1.0, 0.5, Repeat(300.0, 2)) ];
      Accepted([ReadOf(signals)], AllBases()) == seq(3, _ => Row("AAAAAA", 100.0))
  {
    var s0 := Signal(0, "AAAAAA", 1.0, 0.5, Repeat(100.0, 3));
    var s1 := Signal(1, "GGGGGG", 1.0, 0.5, Repeat(20.0, 4));
    var s2 := Signal(2, "CCCCCC", 1.0, 0.5, Repeat(300.0, 2));
    RepeatRows("AAAAAA", 100.0, 3);
    RepeatRows("GGGGGG", 20.0, 4);
    RepeatRows("CCCCCC", 300.0, 2);
    AllBasesMatchEveryKmer("AAAAAA");
    SignalRowsOfThree(s0, s1, s2, AllBases());
    AcceptedOneRead([s0, s1, s2], AllBases());
  }

  /** AACCCC does not start with AAA; AAAAAA does. */
  lemma MotifAAA()
    ensures !MatchesMotif("AACCCC", [Motif("AAA", 2)])
    ensures MatchesMotif("AAAAAA", [Motif("AAA", 2)])
  {
    var m := Motif("AAA", 2);
    assert "AACCCC"[..3] != "AAA" by { assert "AACCCC"[..3][2] != "AAA"[2]; }
    assert StartsWith("AAAAAA", m.motif);
  }

  /** With the single motif AAA, the samples of AACCCC are not stored and those of AAAAAA are. */
  lemma MotifFilterExample()
    ensures
      var signals := [ Signal(0, "AAAAAA", 1.0, 0.5, Repeat(100.0, 3)),
                       Signal(1, "AACCCC", 1.0, 0.5, Repeat(100.0, 3)) ];
      Accepted([ReadOf(signals)], [Motif("AAA", 2)]) == seq(3, _ => Row("AAAAAA", 100.0))
  {
    var s0 := Signal(0, "AAAAAA", 1.0, 0.5, Repeat(100.0, 3));
    var s1 := Signal(1, "AACCCC", 1.0, 0.5, Repeat(100.0, 3));
    var motifs := [Motif("AAA", 2)];
    MotifAAA();
    RepeatRows("AAAAAA", 100.0, 3);
    SignalRowsSnoc([], s0, motifs);
    SignalRowsSnoc([s0], s1, motifs);
    assert [] + [s0] == [s0] && [s0] + [s1] == [s0, s1];
    AcceptedOneRead([s0, s1], motifs);
  }

  /** A kmer no row was stored under has no values. */
  lemma {:induction false} AbsentKmerValues(rows: seq<Row>, kmer: string)
    requires forall row :: row in rows ==> row.kmer != kmer
    ensures ValuesIn(rows, kmer) == []
    decreases |rows|
  {
    if |rows| > 0 {
      var init := rows[..|rows| - 1];
      assert forall row :: row in init ==> row in rows;
      AbsentKmerValues(init, kmer);
    }
  }

  /**
   * A read without signals stores nothing, so a fresh store asked for the
   * samples of a kmer that was never inserted returns none.
   */
  method NoKmerExample() returns (samples: seq<real>)
    ensures samples == []
  {
    var db := new Db.Open();
    var r := db.AddReads([ReadOf([])], AllBases(), NoFault);
    assert Accepted([ReadOf([])], AllBases()) == [] by {
      AcceptedOneRead([], AllBases());
    }
    AbsentKmerValues(db.rows, "ABCDEF");
    samples := db.GetKmerSamples("ABCDEF", 5000);
  }

  // ---------------------------------------------------------------------
  // Training

  /**
   * The numerical routines training relies on: sample validation, DBSCAN
   * outlier removal (keeping the clustered points), and the mixture fit for a
   * given number of components, which may fail.
   */
  datatype Fitting = Fitting(
    validate: seq<real> -> Option<seq<real>>,
    dbscanKeep: seq<real> -> seq<real>,
    fitGmm: (seq<real>, nat) -> Option<Mixture>)

  datatype TrainError = TooFewAfterFiltering | FitFailed | NothingTrained

  /** The number of mixture components: one for a single-component model, two otherwise. */
  function Components(opts: TrainOptions): (k: nat)
    ensures opts.single <==> k == 1
    ensures !opts.single <==> k == 2
  {
    if opts.single then 1 else 2
  }

  /** The data the mixture is fitted to: the clustered points with DBSCAN, all samples otherwise. */
  function FitData(opts: TrainOptions, fit: Fitting, samples: seq<real>): (data: seq<real>)
    ensures !opts.dbscan ==> data == samples
    ensures opts.dbscan ==> data == fit.dbscanKeep(samples)
  {
    if opts.dbscan then fit.dbscanKeep(samples) else samples
  }

  /**
   * `train_gmm`: with DBSCAN, fewer than two clustered points is an error
   * whatever the fitter would do; otherwise the mixture fitted to the data with
   * the configured number of components, or an error when the fit fails.
   */
  function TrainGmm(opts: TrainOptions, fit: Fitting, samples: seq<real>): (r: Result<Mixture, TrainError>)
    ensures r == Failure(TooFewAfterFiltering) <==> opts.dbscan && |fit.dbscanKeep(samples)| < 2
    ensures r.Success? ==> fit.fitGmm(FitData(opts, fit, samples), Components(opts)) == Some(r.value)
    ensures r == Failure(FitFailed) <==>
      (!opts.dbscan || |fit.dbscanKeep(samples)| >= 2) && fit.fitGmm(FitData(opts, fit, samples), Components(opts)).None?
    ensures r.Failure? ==> r.error != NothingTrained
  {
    if opts.dbscan && |fit.dbscanKeep(samples)| < 2 then Failure(TooFewAfterFiltering)
    else
      match fit.fitGmm(FitData(opts, fit, samples), Components(opts))
      case None => Failure(FitFailed)
      case Some(gmm) => Success(gmm)
  }

  /** The mixture a kmer gets from its drawn samples: validated, then trained; `None` when either step fails. */
  function Trained(opts: TrainOptions, fit: Fitting, samples: seq<real>): (r: Option<Mixture>)
    ensures fit.validate(samples).None? ==> r.None?
  {
    match fit.validate(samples)
    case None => None
    case Some(v) =>
      match TrainGmm(opts, fit, v)
      case Success(gmm) => Some(gmm)
      case Failure(_) => None
  }

  /** A kmer is trained exactly when validation succeeds and `train_gmm` succeeds on the validated samples. */
  lemma TrainedMeaning(opts: TrainOptions, fit: Fitting, samples: seq<real>)
    ensures Trained(opts, fit, samples).Some? <==>
      fit.validate(samples).Some? && TrainGmm(opts, fit, fit.validate(samples).value).Success?
    ensures Trained(opts, fit, samples).Some? ==>
      Trained(opts, fit, samples).value == TrainGmm(opts, fit, fit.validate(samples).value).value
  {
  }

  /** The samples drawn for a kmer: as many of its stored samples as there are, up to `n`. */
  ghost predicate Drawn(db: Db, kmer: string, n: nat, samples: seq<real>)
    reads db
  {
    && |samples| == (if n < |db.Values(kmer)| then n else |db.Values(kmer)|)
    && multiset(samples) <= multiset(db.Values(kmer))
  }

  /**
   * The mixtures kept so far agree with the draws so far: a drawn kmer has a
   * mixture exactly when its draw trained, and it is the trained one.
   */
  ghost predicate KeptTrained(opts: TrainOptions, fit: Fitting, gmms: map<string, Mixture>, drawn: map<string, seq<real>>) {
    && gmms.Keys <= drawn.Keys
    && (forall k :: k in drawn ==> (k in gmms <==> Trained(opts, fit, drawn[k]).Some?))
    && (forall k :: k in gmms ==> Trained(opts, fit, drawn[k]) == Some(gmms[k]))
  }

  /** Drawing a new kmer and keeping its mixture if it trained preserves the agreement. */
  lemma KeptTrainedStep(opts: TrainOptions, fit: Fitting, gmms: map<string, Mixture>, drawn: map<string, seq<real>>,
                        kmer: string, samples: seq<real>)
    requires KeptTrained(opts, fit, gmms, drawn) && kmer !in drawn
    ensures
      var t := Trained(opts, fit, samples);
      KeptTrained(opts, fit, if t.Some? then gmms[kmer := t.value] else gmms, drawn[kmer := samples])
  {
  }

  /**
   * The loop of `train_gmms` over a list of distinct kmers: draws each kmer's
   * samples and keeps the mixtures of the kmers that validated and trained.
   */
  method TrainEach(opts: TrainOptions, db: Db, fit: Fitting, kmers: seq<string>)
    returns (gmms: map<string, Mixture>, ghost drawn: map<string, seq<real>>)
    requires db.Valid() && Distinct(kmers)
    ensures forall k :: k in drawn <==> k in kmers
    ensures forall k :: k in drawn ==> Drawn(db, k, opts.nSamples, drawn[k])
    ensures forall k, x :: k in drawn && x in drawn[k] ==> 40.0 <= x <= 170.0
    ensures KeptTrained(opts, fit, gmms, drawn)
  {
    gmms := map[];
    drawn := map[];
    var i := 0;
    while i < |kmers|
      invariant 0 <= i <= |kmers|
      invariant forall k :: k in drawn <==> k in kmers[..i]
      invariant forall k :: k in drawn ==> Drawn(db, k, opts.nSamples, drawn[k])
      invariant forall k, x :: k in drawn && x in drawn[k] ==> 40.0 <= x <= 170.0
      invariant KeptTrained(opts, fit, gmms, drawn)
    {
      var kmer := kmers[i];
      assert kmer !in drawn by {
        assert forall j :: 0 <= j < i ==> kmers[j] != kmers[i];
      }
      var samples := db.GetKmerSamples(kmer, opts.nSamples);
      KeptTrainedStep(opts, fit, gmms, drawn, kmer, samples);
      drawn := drawn[kmer := samples];
      var validated := fit.validate(samples);
      if validated.Some? {
        var trained := TrainGmm(opts, fit, validated.value);
        if trained.Success? {
          gmms := gmms[kmer := trained.value];
        }
      }
      assert kmers[..i + 1] == kmers[..i] + [kmer];
      i := i + 1;
    }
    assert kmers[..i] == kmers;
  }

  /**
   * `train_gmms`: for every 6-mer, draws its samples and trains a mixture,
   * keeping only the kmers for which validation and training succeeded; an
   * error exactly when no kmer trained. The draw of each kmer is returned as
   * a ghost map, since the store picks the samples at random.
   */
  method TrainGmms(opts: TrainOptions, db: Db, fit: Fitting) returns (r: Result<Model, TrainError>, ghost drawn: map<string, seq<real>>)
    requires db.Valid()
    ensures forall k :: k in drawn <==> |k| == 6 && IsDna(k)
    ensures forall k :: k in drawn ==> Drawn(db, k, opts.nSamples, drawn[k])
    ensures forall k, x :: k in drawn && x in drawn[k] ==> 40.0 <= x <= 170.0
    ensures r.Failure? <==> forall k :: k in drawn ==> Trained(opts, fit, drawn[k]).None?
    ensures r.Failure? ==> r.error == NothingTrained
    ensures r.Success? ==> r.value.skips == map[] && r.value.gmms.Keys <= drawn.Keys
    ensures r.Success? ==> forall k :: k in drawn ==>
      (k in r.value.gmms <==> Trained(opts, fit, drawn[k]).Some?)
    ensures r.Success? ==> forall k :: k in r.value.gmms ==> Trained(opts, fit, drawn[k]) == Some(r.value.gmms[k])
    ensures db.rows == [] && Trained(opts, fit, []).None? ==> r.Failure?
  {
    var kmers := AllKmers();
    AllKmersMeaning();
    var gmms;
    gmms, drawn := TrainEach(opts, db, fit, kmers);
    if |gmms| == 0 {
      r := Failure(NothingTrained);
    } else {
      r := Success(Model(gmms, map[]));
    }
    if db.rows == [] && Trained(opts, fit, []).None? {
      forall k | k in drawn ensures Trained(opts, fit, drawn[k]).None? {
        assert |db.Values(k)| == 0;
        assert drawn[k] == [];
      }
    }
  }
}
