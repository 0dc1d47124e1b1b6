/**
 * The reference context of a read: the bases around the read fetched from the
 * genome (reverse-complemented for minus-strand reads), and the 6-mers read
 * off it by position.
 */
module Contexts {
  import opened Wrappers
  import opened Records

  /**
   * The fetched bases, the read's 0-based start, how many bases before the
   * read start were fetched, and how many bases of the chromosome remain
   * after the fetched interval (at most 5 each).
   */
  datatype Context = Context(context: string, readStart: nat, startSlop: nat, endSlop: nat)

  /**
   * Why a context could not be built. A chromosome absent from the genome index
   * is a panic in the source; an inverted interval is an error it returns.
   */
  datatype ContextError = ChromosomeMissing | InvalidInterval

  /** The IUPAC complement of a base, case preserved; any other byte is kept. */
  function Complement(c: char): char {
    match c
    case 'A' => 'T' case 'T' => 'A' case 'G' => 'C' case 'C' => 'G'
    case 'Y' => 'R' case 'R' => 'Y' case 'W' => 'W' case 'S' => 'S'
    case 'K' => 'M' case 'M' => 'K' case 'D' => 'H' case 'H' => 'D'
    case 'V' => 'B' case 'B' => 'V' case 'N' => 'N'
    case 'a' => 't' case 't' => 'a' case 'g' => 'c' case 'c' => 'g'
    case 'y' => 'r' case 'r' => 'y' case 'w' => 'w' case 's' => 's'
    case 'k' => 'm' case 'm' => 'k' case 'd' => 'h' case 'h' => 'd'
    case 'v' => 'b' case 'b' => 'v' case 'n' => 'n'
    case _ => c
  }

  lemma ComplementInvolution(c: char)
    ensures Complement(Complement(c)) == c
  {
  }

  /** The reverse complement: the bases read backwards, each complemented. */
  function RevComp(s: string): (r: string)
    ensures |r| == |s|
    ensures forall i :: 0 <= i < |s| ==> r[i] == Complement(s[|s| - 1 - i])
    decreases |s|
  {
    if |s| == 0 then []
    else
      var rest := RevComp(s[..|s| - 1]);
      assert forall j :: 0 <= j < |s| - 1 ==> s[..|s| - 1][j] == s[j];
      [Complement(s[|s| - 1])] + rest
  }

  /** Reverse-complementing twice gives the bases back. */
  lemma RevCompInvolution(s: string)
    ensures RevComp(RevComp(s)) == s
  {
    var r := RevComp(s);
    forall i | 0 <= i < |s| ensures RevComp(r)[i] == s[i] {
      ComplementInvolution(s[i]);
    }
  }

  /** Reverse-complementing a concatenation swaps the two parts. */
  lemma RevCompAppend(a: string, b: string)
    ensures RevComp(a + b) == RevComp(b) + RevComp(a)
  {
    var l := RevComp(a + b);
    var r := RevComp(b) + RevComp(a);
    forall i | 0 <= i < |a + b| ensures l[i] == r[i] {
      if i < |b| {
        assert (a + b)[|a + b| - 1 - i] == b[|b| - 1 - i];
      } else {
        assert (a + b)[|a + b| - 1 - i] == a[|a| - 1 - (i - |b|)];
      }
    }
  }

  /** The fetched interval `[start, stop)` and the two slops. */
  datatype Window = Window(start: nat, stop: nat, startSlop: nat, endSlop: nat)

  /**
   * The window of `Context::from_read` for a read starting at `startZb` whose
   * context must reach `seqStopZb`, on a chromosome of `chromLen` bases.
   * The start steps back up to 5 bases, stopping at 0; the stop is one past
   * `seqStopZb`, clamped to the chromosome's end; the end slop counts the
   * bases left after the stop, at most 5.
   */
  function ContextWindow(startZb: nat, seqStopZb: nat, chromLen: nat): (w: Window)
    ensures w.startSlop <= 5 && w.start + w.startSlop == startZb
    ensures w.startSlop == 5 || w.start == 0
    ensures w.stop <= chromLen && w.stop <= seqStopZb + 1
    ensures w.stop == seqStopZb + 1 || w.stop == chromLen
    ensures w.endSlop <= 5 && w.stop + w.endSlop <= chromLen
    ensures w.endSlop == 5 || w.stop + w.endSlop == chromLen
  {
    var startSlop := if startZb < 5 then startZb else 5;
    var start := if startZb < 5 then 0 else startZb - 5;
    var endSlop := if seqStopZb + 1 > chromLen then 0
      else if 5 < chromLen - (seqStopZb + 1) then 5 else chromLen - (seqStopZb + 1);
    var stop := if seqStopZb + 1 > chromLen then chromLen else seqStopZb + 1;
    Window(start, stop, startSlop, endSlop)
  }

  /** The fetched interval never leaves the chromosome. */
  lemma WindowInsideChromosome(startZb: nat, seqStopZb: nat, chromLen: nat)
    ensures var w := ContextWindow(startZb, seqStopZb, chromLen);
      w.start <= w.stop ==> 0 <= w.start <= w.stop <= chromLen
  {
  }

  /**
   * `Context::from_read` over a genome given as chromosome name to bases:
   * the window's bases, reverse-complemented when the read is on the minus
   * strand.
   */
  function FromRead(genome: map<string, string>, read: Eventalign): (r: Result<Context, ContextError>)
    ensures r == Failure(ChromosomeMissing) <==> read.meta.chrom !in genome
    ensures r.Success? ==>
      var chrom := genome[read.meta.chrom];
      var w := ContextWindow(read.meta.start, read.seqStopZb, |chrom|);
      && w.start <= w.stop <= |chrom|
      && r.value.readStart == read.meta.start
      && r.value.startSlop == w.startSlop && r.value.endSlop == w.endSlop
      && |r.value.context| == w.stop - w.start
      && (read.meta.strand != Minus ==> r.value.context == chrom[w.start..w.stop])
      && (read.meta.strand == Minus ==> RevComp(r.value.context) == chrom[w.start..w.stop])
    ensures r == Failure(InvalidInterval) <==>
      read.meta.chrom in genome &&
      var w := ContextWindow(read.meta.start, read.seqStopZb, |genome[read.meta.chrom]|);
      w.start > w.stop
  {
    if read.meta.chrom !in genome then Failure(ChromosomeMissing)
    else
      var chrom := genome[read.meta.chrom];
      var w := ContextWindow(read.meta.start, read.seqStopZb, |chrom|);
      if w.start > w.stop then Failure(InvalidInterval)
      else
        var fetched := chrom[w.start..w.stop];
        if read.meta.strand == Minus then
          RevCompInvolution(fetched);
          Success(Context(RevComp(fetched), read.meta.start, w.startSlop, w.endSlop))
        else
          Success(Context(fetched, read.meta.start, w.startSlop, w.endSlop))
  }

  /** Index into the context of a read position. */
  function TruePos(ctx: Context, pos: nat): nat
    requires pos >= ctx.readStart
  {
    pos - ctx.readStart + ctx.startSlop
  }

  /**
   * `sixmer_at`: the six bases of the context starting at the position's
   * index, or None when fewer than six bases remain there.
   */
  function SixmerAt(ctx: Context, pos: nat): (r: Option<string>)
    requires pos >= ctx.readStart
    ensures r.Some? <==> TruePos(ctx, pos) + 6 <= |ctx.context|
    ensures r.Some? ==> |r.value| == 6 && r.value == ctx.context[TruePos(ctx, pos)..TruePos(ctx, pos) + 6]
  {
    var t := TruePos(ctx, pos);
    if t + 6 <= |ctx.context| then Some(ctx.context[t..t + 6]) else None
  }

  /**
   * On a read that is not on the minus strand, the 6-mer at a position is
   * the chromosome's six bases starting at that 0-based index, whenever
   * they lie inside the fetched interval.
   */
  lemma SixmerOfChromosome(genome: map<string, string>, read: Eventalign, pos: nat)
    requires FromRead(genome, read).Success? && read.meta.strand != Minus
    requires pos >= read.meta.start
    ensures var chrom := genome[read.meta.chrom];
      var w := ContextWindow(read.meta.start, read.seqStopZb, |chrom|);
      pos + 6 <= w.stop ==> SixmerAt(FromRead(genome, read).value, pos) == Some(chrom[pos..pos + 6])
  {
    var chrom := genome[read.meta.chrom];
    var w := ContextWindow(read.meta.start, read.seqStopZb, |chrom|);
    var ctx := FromRead(genome, read).value;
    if pos + 6 <= w.stop {
      var t := TruePos(ctx, pos);
      assert w.start + t == pos;
      assert ctx.context == chrom[w.start..w.stop];
      assert t + 6 <= |ctx.context|;
      assert ctx.context[t..t + 6] == chrom[pos..pos + 6];
    }
  }

  /**
   * The 6-mers around a position: those starting at the context indices
   * from five before the position's index up to that index (clamped at 0),
   * in ascending order, leaving out those that would run past the end.
   */
  function SurroundingKmers(ctx: Context, pos: nat): (r: seq<string>)
    requires pos >= ctx.readStart
    ensures |r| <= 6
    ensures forall k :: 0 <= k < |r| ==> |r[k]| == 6
  {
    var t := TruePos(ctx, pos);
    var lo := if t < 5 then 0 else t - 5;
    var hi := if |ctx.context| < 6 then -1 else if t < |ctx.context| - 6 then t else |ctx.context| - 6;
    if hi < lo then []
    else seq(hi - lo + 1, k requires 0 <= k <= hi - lo => ctx.context[lo + k..lo + k + 6])
  }

  /**
   * The k-th surrounding 6-mer starts k bases after the start of the
   * look-back window, and every index of that window from which six bases
   * fit in the context contributes one, up to the position's own index.
   */
  lemma SurroundingKmersMeaning(ctx: Context, pos: nat)
    requires pos >= ctx.readStart
    ensures var t := TruePos(ctx, pos);
      var lo := if t < 5 then 0 else t - 5;
      var r := SurroundingKmers(ctx, pos);
      && (forall k :: 0 <= k < |r| ==>
            lo + k <= t && lo + k + 6 <= |ctx.context| && r[k] == ctx.context[lo + k..lo + k + 6])
      // the 6-mers run up to the position's index, or up to the last index
      // with six bases left when the context ends sooner
      && lo + |r| == (if t + 6 <= |ctx.context| then t + 1
                      else if lo + 6 <= |ctx.context| then |ctx.context| - 5 else lo)
  {
  }

  /** `Context::surrounding`: walks the look-back window, keeping each 6-mer that fits. */
  method Surrounding(ctx: Context, pos: nat) returns (acc: seq<string>)
    requires pos >= ctx.readStart
    ensures acc == SurroundingKmers(ctx, pos)
  {
    acc := [];
    var truePos := (pos - ctx.readStart) + ctx.startSlop;
    var trueStart := if truePos < 5 then 0 else truePos - 5;
    var ctxtLen := |ctx.context|;
    var lo := trueStart;
    var basePos := trueStart;
    while basePos <= truePos
      invariant trueStart <= basePos <= truePos + 1
      invariant |acc| == if basePos + 5 < ctxtLen then basePos - lo
        else if lo + 5 < ctxtLen then ctxtLen - 5 - lo else 0
      invariant forall k :: 0 <= k < |acc| ==> lo + k + 6 <= ctxtLen && acc[k] == ctx.context[lo + k..lo + k + 6]
    {
      if basePos + 5 < ctxtLen {
        acc := acc + [ctx.context[basePos..basePos + 6]];
      }
      basePos := basePos + 1;
    }
  }
}
