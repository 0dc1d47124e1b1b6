/**
 * Sequence motifs of the form "pos:motif" (a 1-based position inside a motif
 * over A, C, G and T): parsing, display and the index helpers.
 */
module Motifs {
  import opened Wrappers
  import opened Records

  /** Why a motif string was rejected. */
  datatype MotifError =
    | InvalidFormat
    | InvalidBase
    | PositionOutsideofMotif
    | PositionOneBased
    | PositionParseFailed
    | UnexpectedAdditionalFormat

  /** 2^64: one more than the largest `usize`. */
  const USIZE_LIMIT: nat := 0x1_0000_0000_0000_0000

  /** A 64-bit unsigned machine integer. */
  type Usize = n: nat | n < USIZE_LIMIT

  /** A motif and the 1-based position of the base of interest inside it. */
  datatype Motif = Motif(motif: string, position: Usize)

  /** The four accepted bases. */
  const BASES: set<char> := {'A', 'C', 'G', 'T'}

  predicate IsBase(c: char) {
    c in BASES
  }

  /** A motif string is non-empty and made of upper-case A, C, G and T only. */
  function ValidMotifBases(motif: string): (ok: bool)
    ensures ok <==> |motif| > 0 && forall i :: 0 <= i < |motif| ==> IsBase(motif[i])
  {
    var ok := |motif| > 0 && forall c :: c in motif ==> IsBase(c);
    assert ok ==> forall i :: 0 <= i < |motif| ==> IsBase(motif[i]) by {
      if ok {
        forall i | 0 <= i < |motif| ensures IsBase(motif[i]) {
          assert motif[i] in motif;
        }
      }
    }
    ok
  }

  /** What a successful parse guarantees of a motif. */
  predicate ValidMotif(m: Motif) {
    ValidMotifBases(m.motif) && 1 <= m.position <= |m.motif|
  }

  // ---------------------------------------------------------------------------
  // `str::split(':')`

  /** Concatenates pieces with `sep` between consecutive ones. */
  function Join(pieces: seq<string>, sep: char): string
    requires |pieces| >= 1
  {
    if |pieces| == 1 then pieces[0] else pieces[0] + [sep] + Join(pieces[1..], sep)
  }

  /**
   * The pieces of `s` between occurrences of `sep`, as `str::split` yields
   * them: always at least one piece, none containing `sep`, and joining them
   * back gives `s`.
   */
  function Split(s: string, sep: char): (r: seq<string>)
    ensures |r| >= 1
    ensures forall i :: 0 <= i < |r| ==> sep !in r[i]
    ensures Join(r, sep) == s
    decreases |s|
  {
    if |s| == 0 then [""]
    else if s[0] == sep then
      var rest := Split(s[1..], sep);
      assert s == [sep] + s[1..];
      [""] + rest
    else
      var rest := Split(s[1..], sep);
      var r := [[s[0]] + rest[0]] + rest[1..];
      assert r[1..] == rest[1..];
      assert s == [s[0]] + s[1..];
      r
  }

  lemma {:induction false} SplitWithoutSeparator(s: string, sep: char)
    requires sep !in s
    ensures Split(s, sep) == [s]
    decreases |s|
  {
    if |s| > 0 {
      SplitWithoutSeparator(s[1..], sep);
      assert [s[0]] + s[1..] == s;
    }
  }

  lemma {:induction false} SplitAtFirstSeparator(a: string, sep: char, b: string)
    requires sep !in a
    ensures Split(a + [sep] + b, sep) == [a] + Split(b, sep)
    decreases |a|
  {
    var s := a + [sep] + b;
    if |a| == 0 {
      assert s[1..] == b;
    } else {
      assert s[1..] == a[1..] + [sep] + b;
      SplitAtFirstSeparator(a[1..], sep, b);
      assert [a[0]] + a[1..] == a;
    }
  }

  // ---------------------------------------------------------------------------
  // `str::parse::<usize>` and `usize` display

  predicate IsDigit(c: char) {
    '0' <= c <= '9'
  }

  predicate AllDigits(s: string) {
    forall i :: 0 <= i < |s| ==> IsDigit(s[i])
  }

  function DigitValue(c: char): nat
    requires IsDigit(c)
  {
    c as int - '0' as int
  }

  function DigitChar(d: nat): (c: char)
    requires d < 10
    ensures IsDigit(c) && DigitValue(c) == d
  {
    ('0' as int + d) as char
  }

  /** The decimal value of a string of digits. */
  function DigitsValue(s: string): nat
    requires AllDigits(s)
    decreases |s|
  {
    if |s| == 0 then 0 else DigitsValue(s[..|s| - 1]) * 10 + DigitValue(s[|s| - 1])
  }

  /**
   * `usize::from_str`: an optional leading '+', then one or more decimal digits
   * (leading zeros allowed) whose value fits in 64 bits.
   */
  function ParseUsize(s: string): (r: Option<Usize>)
    ensures r.Some? <==>
      var ds := if |s| > 0 && s[0] == '+' then s[1..] else s;
      |ds| > 0 && AllDigits(ds) && DigitsValue(ds) < USIZE_LIMIT
    ensures r.Some? ==> r.value == DigitsValue(if s[0] == '+' then s[1..] else s)
  {
    if |s| == 0 then None
    else
      var digits := if s[0] == '+' then s[1..] else s;
      if |digits| == 0 || !AllDigits(digits) then None
      else
        var v := DigitsValue(digits);
        if v < USIZE_LIMIT then Some(v) else None
  }

  /** The decimal rendering of a number, without sign or leading zeros. */
  function NatToString(n: nat): (s: string)
    ensures |s| > 0 && AllDigits(s) && DigitsValue(s) == n
    ensures |s| > 1 ==> s[0] != '0'
    decreases n
  {
    if n < 10 then [DigitChar(n)]
    else
      var s := NatToString(n / 10) + [DigitChar(n % 10)];
      assert s[..|s| - 1] == NatToString(n / 10);
      s
  }

  lemma ParseUsizeOfDisplay(n: Usize)
    ensures ParseUsize(NatToString(n)) == Some(n)
  {
    var s := NatToString(n);
    assert s[0] != '+' by { assert IsDigit(s[0]); }
  }

  // ---------------------------------------------------------------------------
  // Motif parsing and display

  /**
   * `Motif::parse_from_str`: split on ':' and check, in this order, that the
   * first piece is a `usize`, that there is a second piece, that it is made of
   * bases, that the position is 1-based, that it lies inside the motif, and
   * that nothing follows.
   */
  function ParseFromStr(s: string): (r: Result<Motif, MotifError>)
    ensures r.Success? ==> ValidMotif(r.value) && Spells(s, r.value)
  {
    var pieces := Split(s, ':');
    match ParseUsize(pieces[0])
    case None => Failure(PositionParseFailed)
    case Some(pos) =>
      if |pieces| < 2 then Failure(InvalidFormat)
      else
        var motif := pieces[1];
        if !ValidMotifBases(motif) then Failure(InvalidBase)
        else if pos == 0 then Failure(PositionOneBased)
        else if pos > |motif| then Failure(PositionOutsideofMotif)
        else if |pieces| > 2 then Failure(UnexpectedAdditionalFormat)
        else
          assert pieces[1..] == [motif];
          assert Join(pieces[1..], ':') == motif;
          assert s == pieces[0] + ":" + motif;
          Success(Motif(motif, pos))
  }

  /**
   * `s` spells motif `m`: a run of characters without ':' that parses as
   * `m.position`, one ':', then exactly `m.motif`.
   */
  ghost predicate Spells(s: string, m: Motif) {
    exists d :: ':' !in d && ParseUsize(d) == Some(m.position) && s == d + ":" + m.motif
  }

  /** Every string that spells a valid motif parses to that motif. */
  lemma ParseAccepts(s: string, m: Motif)
    requires ValidMotif(m) && Spells(s, m)
    ensures ParseFromStr(s) == Success(m)
  {
    var d :| ':' !in d && ParseUsize(d) == Some(m.position) && s == d + ":" + m.motif;
    ParseSpelled(d, m);
  }

  lemma ParseSpelled(d: string, m: Motif)
    requires ValidMotif(m) && ':' !in d && ParseUsize(d) == Some(m.position)
    ensures ParseFromStr(d + ":" + m.motif) == Success(m)
  {
    assert ':' !in m.motif by { assert !IsBase(':'); }
    assert d + ":" + m.motif == d + ":" + m.motif + "";
    ParseCheckOrder(d, m.motif, None);
  }

  /** `Display for Motif`: "{position}:{motif}". */
  function Display(m: Motif): string {
    NatToString(m.position) + ":" + m.motif
  }

  /** Displaying a valid motif and parsing the text gives the motif back. */
  lemma DisplayRoundTrip(m: Motif)
    requires ValidMotif(m)
    ensures ParseFromStr(Display(m)) == Success(m)
  {
    var s := Display(m);
    var d := NatToString(m.position);
    var i := |d|;
    assert s[..i] == d && s[i] == ':' && s[i + 1..] == m.motif;
    assert ':' !in d by { assert forall k :: 0 <= k < |d| ==> IsDigit(d[k]); }
    ParseUsizeOfDisplay(m.position);
    ParseAccepts(s, m);
  }

  /** Without any ':', the only possible errors are the first two checks. */
  lemma ParseWithoutColon(s: string)
    requires ':' !in s
    ensures ParseFromStr(s) ==
      if ParseUsize(s).None? then Failure(PositionParseFailed) else Failure(InvalidFormat)
  {
    SplitWithoutSeparator(s, ':');
  }

  /** A first piece that is not a `usize` is reported before anything else. */
  lemma ParseBadPosition(d: string, rest: string)
    requires ':' !in d && ParseUsize(d).None?
    ensures ParseFromStr(d + ":" + rest) == Failure(PositionParseFailed)
  {
    SplitAtFirstSeparator(d, ':', rest);
  }

  /**
   * Once the position parses and a motif piece is present, the base check
   * comes first, then the 1-based check, then the bound, then trailing pieces.
   */
  lemma ParseCheckOrder(d: string, motif: string, tail: Option<string>)
    requires ':' !in d && ':' !in motif && ParseUsize(d).Some?
    ensures
      var s := d + ":" + motif + (if tail.Some? then ":" + tail.value else "");
      var p := ParseUsize(d).value;
      ParseFromStr(s) ==
        if !ValidMotifBases(motif) then Failure(InvalidBase)
        else if p == 0 then Failure(PositionOneBased)
        else if p > |motif| then Failure(PositionOutsideofMotif)
        else if tail.Some? then Failure(UnexpectedAdditionalFormat)
        else Success(Motif(motif, p))
  {
    var s := d + ":" + motif + (if tail.Some? then ":" + tail.value else "");
    if tail.Some? {
      var rest := motif + [':'] + tail.value;
      assert s == d + [':'] + rest;
      SplitAtFirstSeparator(d, ':', rest);
      SplitAtFirstSeparator(motif, ':', tail.value);
      var pieces := Split(s, ':');
      assert pieces == [d, motif] + Split(tail.value, ':');
      assert |pieces| > 2 && pieces[0] == d && pieces[1] == motif;
    } else {
      assert s == d + [':'] + motif;
      SplitAtFirstSeparator(d, ':', motif);
      SplitWithoutSeparator(motif, ':');
      var pieces := Split(s, ':');
      assert pieces == [d, motif];
    }
  }

  // ---------------------------------------------------------------------------
  // Index helpers

  /** `position_0b`: the 0-based position of the base of interest. */
  function Position0b(m: Motif): (p: nat)
    requires m.position >= 1
    ensures p + 1 == m.position
  {
    m.position - 1
  }

  /** `within_kmer`: the motif occurs somewhere inside the kmer. */
  function WithinKmer(m: Motif, kmer: string): (r: bool)
    ensures r <==> exists i :: 0 <= i && OccursAt(m.motif, kmer, i)
  {
    SubstringAt(m.motif, kmer);
    IsSubstring(m.motif, kmer)
  }

  /** `str::contains`: `sub` is a prefix of `s` or of one of its suffixes. */
  predicate IsSubstring(sub: string, s: string)
    decreases |s|
  {
    StartsWith(s, sub) || (|s| > 0 && IsSubstring(sub, s[1..]))
  }

  /** `sub` occurs in `s` starting at index `i`. */
  predicate OccursAt(sub: string, s: string, i: nat) {
    i + |sub| <= |s| && s[i..i + |sub|] == sub
  }

  lemma {:induction false} SubstringAt(sub: string, s: string)
    ensures IsSubstring(sub, s) <==> exists i :: 0 <= i && OccursAt(sub, s, i)
    decreases |s|
  {
    if StartsWith(s, sub) {
      assert OccursAt(sub, s, 0);
    }
    if |s| > 0 {
      SubstringAt(sub, s[1..]);
      if IsSubstring(sub, s[1..]) {
        var i :| 0 <= i && OccursAt(sub, s[1..], i);
        assert s[i + 1..i + 1 + |sub|] == s[1..][i..i + |sub|];
        assert OccursAt(sub, s, i + 1);
      }
      if i :| 0 <= i && OccursAt(sub, s, i) {
        if i > 0 {
          assert s[1..][i - 1..i - 1 + |sub|] == s[i..i + |sub|];
          assert OccursAt(sub, s[1..], i - 1);
        } else {
          assert StartsWith(s, sub);
        }
      }
    } else if i :| 0 <= i && OccursAt(sub, s, i) {
      assert i == 0 && StartsWith(s, sub);
    }
  }

  /**
   * `surrounding_idxs`: the positions of the six 6-mers that contain the base
   * of interest of a motif starting at `pos`.
   */
  function SurroundingIdxs(m: Motif, pos: nat): (r: seq<nat>)
    requires m.position >= 1
    ensures |r| == if pos + Position0b(m) < 5 then pos + m.position else 6
    ensures r[|r| - 1] == pos + Position0b(m)
    ensures forall p: nat :: p in r <==> pos + m.position - 6 <= p < pos + m.position
    ensures forall i :: 0 <= i < |r| ==> r[i] + |r| == pos + m.position + i
  {
    LookBack(pos + Position0b(m))
  }

  /** `all_bases`: the four single-base motifs, each at position 1. */
  function AllBases(): (r: seq<Motif>)
    ensures |r| == 4
    ensures forall m :: m in r ==> ValidMotif(m)
    ensures forall c :: IsBase(c) <==> Motif([c], 1) in r
  {
    [Motif("A", 1), Motif("C", 1), Motif("G", 1), Motif("T", 1)]
  }

  /** True when the kmer starts with the sequence of one of the motifs. */
  predicate MatchesMotif(kmer: string, motifs: seq<Motif>) {
    exists m :: m in motifs && StartsWith(kmer, m.motif)
  }

  /** With the default motifs, every kmer that starts with a base is accepted. */
  lemma AllBasesMatchEveryKmer(kmer: string)
    requires |kmer| > 0 && IsBase(kmer[0])
    ensures MatchesMotif(kmer, AllBases())
  {
    var m := Motif([kmer[0]], 1);
    assert m in AllBases();
    assert StartsWith(kmer, m.motif);
  }


  /** A piece of bases after the position 1 parses, whatever its bases. */
  lemma ParsePositionOne(motif: string)
    requires ValidMotifBases(motif)
    ensures ParseFromStr("1:" + motif) == Success(Motif(motif, 1))
  {
    assert ParseUsize("1") == Some(1);
    assert ':' !in motif by { assert !IsBase(':'); }
    assert "1:" + motif == "1" + ":" + motif + "";
    ParseCheckOrder("1", motif, None);
  }

  /** An accepted string of the module's unit tests, with a position past the first base. */
  lemma ParseAcceptsExample2GC()
    ensures ParseFromStr("2:GC") == Success(Motif("GC", 2))
  {
    assert ParseUsize("2") == Some(2);
    assert "2:GC" == "2" + ":" + "GC" + "";
    ParseCheckOrder("2", "GC", None);
  }

  /** The accepted strings of the module's unit tests with position 1. */
  lemma ParseAcceptsExamples1()
    ensures ParseFromStr("1:AT") == Success(Motif("AT", 1))
    ensures ParseFromStr("1:TA") == Success(Motif("TA", 1))
  {
    ParsePositionOne("AT");
    assert "1:" + "AT" == "1:AT";
    ParsePositionOne("TA");
    assert "1:" + "TA" == "1:TA";
  }

  /** A position of 0 is refused as not 1-based. */
  lemma ParseRejectsZeroPosition()
    ensures ParseFromStr("0:TA") == Failure(PositionOneBased)
  {
    assert ParseUsize("0") == Some(0);
    assert "0:TA" == "0" + ":" + "TA" + "";
    ParseCheckOrder("0", "TA", None);
  }

  /** A position past the motif's end is refused. */
  lemma ParseRejectsOutsidePosition()
    ensures ParseFromStr("3:TA") == Failure(PositionOutsideofMotif)
  {
    assert ParseUsize("3") == Some(3);
    assert "3:TA" == "3" + ":" + "TA" + "";
    ParseCheckOrder("3", "TA", None);
  }

  /** After the position 1, a piece that does not start with a base is refused for its bases. */
  lemma ParseNonBaseAfterOne(motif: string)
    requires |motif| > 0 && !IsBase(motif[0]) && ':' !in motif
    ensures ParseFromStr("1:" + motif) == Failure(InvalidBase)
  {
    assert ParseUsize("1") == Some(1);
    assert "1:" + motif == "1" + ":" + motif + "";
    ParseCheckOrder("1", motif, None);
  }

  /** Motif pieces with a character other than a base are refused, whatever follows it. */
  lemma ParseRejectsBadBase()
    ensures ParseFromStr("1:ZA") == Failure(InvalidBase)
    ensures ParseFromStr("1:ZAhfd") == Failure(InvalidBase)
  {
    ParseNonBaseAfterOne("ZA");
    assert "1:" + "ZA" == "1:ZA";
    ParseNonBaseAfterOne("ZAhfd");
    assert "1:" + "ZAhfd" == "1:ZAhfd";
  }

  /** A third piece, even an empty one, is refused. */
  lemma ParseRejectsExtraPiece()
    ensures ParseFromStr("1:TA:") == Failure(UnexpectedAdditionalFormat)
  {
    assert ParseUsize("1") == Some(1);
    assert "1:TA:" == "1" + ":" + "TA" + (":" + "");
    assert ValidMotifBases("TA");
    ParseCheckOrder("1", "TA", Some(""));
  }

  /** Strings without a ':' are refused for their position piece. */
  lemma ParseWithoutColonExamples()
    ensures ParseFromStr("") == Failure(PositionParseFailed)
    ensures ParseFromStr("T") == Failure(PositionParseFailed)
  {
    assert !IsDigit('T');
    ParseWithoutColon("");
    ParseWithoutColon("T");
  }

  /** Position pieces that are not unsigned decimal numbers are refused. */
  lemma ParsePositionExamples()
    ensures ParseFromStr("TA:1") == Failure(PositionParseFailed)
    ensures ParseFromStr("-1:TG") == Failure(PositionParseFailed)
  {
    assert !IsDigit('T') && !IsDigit('-');
    assert "TA:1" == "TA" + ":" + "1";
    ParseBadPosition("TA", "1");
    assert "-1:TG" == "-1" + ":" + "TG";
    ParseBadPosition("-1", "TG");
  }

  /** Position pieces that are not unsigned decimal numbers are refused. */
  lemma ParseWordPositionExamples()
    ensures ParseFromStr("2.1:TG") == Failure(PositionParseFailed)
    ensures ParseFromStr("quack:TG") == Failure(PositionParseFailed)
  {
    assert !IsDigit('.') && !IsDigit('q');
    assert "2.1:TG" == "2.1" + ":" + "TG";
    assert !AllDigits("2.1") by { assert !IsDigit("2.1"[1]); }
    ParseBadPosition("2.1", "TG");
    assert "quack:TG" == "quack" + ":" + "TG";
    ParseBadPosition("quack", "TG");
  }

  /** The index windows of the module's unit tests. */
  lemma SurroundingIdxsExamples()
    ensures SurroundingIdxs(Motif("CG", 1), 504) == [499, 500, 501, 502, 503, 504]
    ensures SurroundingIdxs(Motif("GC", 2), 510) == [506, 507, 508, 509, 510, 511]
  {
  }
}
