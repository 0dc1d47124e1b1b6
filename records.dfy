/**
 * Record types shared by the scoring, training and conversion code: strands,
 * IEEE doubles, signals, reads, scores and trained models.
 */
module Records {
  import opened Wrappers

  /** Strand of an aligned read. */
  datatype Strand = Plus | Minus | Unknown

  /** An IEEE-754 double: a finite value, NaN, or one of the two infinities. */
  datatype F64 = Finite(v: real) | NaN | PosInf | NegInf

  /** The order of doubles that are not NaN. */
  predicate LessEq(x: F64, y: F64)
    requires !x.NaN? && !y.NaN?
  {
    if x.NegInf? || y.PosInf? then true
    else if x.PosInf? || y.NegInf? then false
    else x.v <= y.v
  }

  /** `f64::max`: a NaN operand is ignored in favour of the other one. */
  function FMax(x: F64, y: F64): (r: F64)
    ensures x.NaN? ==> r == y
    ensures y.NaN? ==> r == x
    ensures !x.NaN? && !y.NaN? ==> (r == x || r == y) && LessEq(x, r) && LessEq(y, r)
  {
    if x.NaN? then y
    else if y.NaN? then x
    else if LessEq(x, y) then y
    else x
  }

  /** A double that is NaN or a probability. */
  predicate IsScore(x: F64) {
    x.NaN? || (x.Finite? && 0.0 <= x.v <= 1.0)
  }

  /**
   * The double `a / (a + b)` for two non-negative finite operands: NaN exactly
   * when both are zero (IEEE 0/0), otherwise the share of `a` in the sum.
   */
  function Share(a: real, b: real): (r: F64)
    requires a >= 0.0 && b >= 0.0
    ensures r.NaN? <==> a + b == 0.0
    ensures r.Finite? ==> 0.0 <= r.v <= 1.0 && r.v * (a + b) == a
    ensures IsScore(r)
  {
    if a + b == 0.0 then NaN else Finite(a / (a + b))
  }

  /** A probability, such as a trained skip rate. */
  type Prob = r: real | 0.0 <= r <= 1.0

  /** A non-negative real, such as a probability density. */
  type NonNeg = r: real | r >= 0.0

  /** One ionic-current event: its position, 6-mer, mean, spread and raw samples. */
  datatype Signal = Signal(pos: nat, kmer: string, mean: real, stdv: real, samples: seq<F64>)

  /** Read metadata: name, chromosome, 0-based start, length and strand. */
  datatype Metadata = Metadata(name: string, chrom: string, start: nat, length: nat, strand: Strand)

  /**
   * An aligned read with its signals. `seqStopZb` is the last 0-based reference
   * position the read's context must cover; the read type computes it from its own
   * fields and is not part of this model, so it is carried as a field.
   */
  datatype Eventalign = Eventalign(meta: Metadata, seqStopZb: nat, signals: seq<Signal>)

  /** First 1-based position of a read. */
  function StartOb(meta: Metadata): nat { meta.start + 1 }

  /** Last 1-based position of a read. */
  function StopOb(meta: Metadata): nat { meta.start + meta.length }

  /** One scored position of one read. */
  datatype Score = Score(pos: nat, kmer: string, skipped: bool, signal: Option<F64>, skip: F64, final: F64)

  /** A read's metadata with its scored positions. */
  datatype ScoredRead = ScoredRead(meta: Metadata, scores: seq<Score>)

  /** One Gaussian component: mean and standard deviation. */
  datatype Gaussian = Gaussian(mu: real, sigma: real)

  /** A Gaussian mixture: component weights and components. */
  datatype Mixture = Mixture(weights: seq<real>, components: seq<Gaussian>)

  /** A trained model: a mixture per 6-mer and a skip rate per 6-mer. */
  datatype Model = Model(gmms: map<string, Mixture>, skips: map<string, Prob>)

  /** `s.starts_with(prefix)`. */
  predicate StartsWith(s: string, prefix: string) {
    |prefix| <= |s| && s[..|prefix|] == prefix
  }

  /** True when `s` starts with at least one of the prefixes. */
  predicate StartsWithAny(s: string, prefixes: seq<string>) {
    exists m :: m in prefixes && StartsWith(s, m)
  }

  /**
   * The look-back window of a position: the inclusive range from `e - 5`
   * (clamped at 0) up to `e`, in ascending order.
   */
  function LookBack(e: nat): (r: seq<nat>)
    ensures |r| == (if e < 5 then e else 5) + 1
    ensures r[|r| - 1] == e
    ensures forall i :: 0 <= i < |r| ==> r[i] + |r| == e + 1 + i
    ensures forall p: nat :: p in r <==> e - 5 <= p <= e
  {
    var lo := if e < 5 then 0 else e - 5;
    var r := seq(e - lo + 1, i requires 0 <= i => lo + i);
    forall p: nat | e - 5 <= p <= e ensures p in r {
      assert r[p - lo] == p;
    }
    r
  }
}
