/**
 * The context test cases on the 66-base chromosome "one" (ATGC repeated):
 * window sizes and slops for reads at the start, near the start, at the end,
 * near the end and in the middle, the minus-strand bases, and surrounding
 * 6-mers.
 */
module ContextExamples {
  import opened Wrappers
  import opened Records
  import opened Contexts

  function One(): string {
    "ATGCATGCATGCATGCATGCATGCATGCAT" + "GCATGCATGCATGCATGCATGCATGCATGC" + "ATGCAT"
  }

  function Genome(): map<string, string> {
    map["one" := One()]
  }

  /** A read on "one" without signals; its context reaches four bases past its end. */
  function TestRead(start: nat, length: nat, strand: Strand): Eventalign {
    Eventalign(Metadata("", "one", start, length, strand), start + length + 4, [])
  }

  lemma TruncatedStart()
    ensures FromRead(Genome(), TestRead(0, 10, Plus)).Success?
    ensures var c := FromRead(Genome(), TestRead(0, 10, Plus)).value;
      c.context == "ATGCATGCATGCATG" && c.startSlop == 0 && c.endSlop == 5
  {
    assert One()[0..15] == "ATGCATGCATGCATG";
  }

  /** The surrounding 6-mers of the second base of a context that starts at the chromosome start. */
  lemma SurroundingNearStart(c: Context)
    requires c.context == "ATGCATGCATGCATG" && c.readStart == 0 && c.startSlop == 0
    ensures SurroundingKmers(c, 1) == ["ATGCAT", "TGCATG"]
  {
    var t: string := "ATGCATGCATGCATG";
    assert t[0..6] == "ATGCAT";
    assert t[1..7] == "TGCATG";
  }

  lemma TruncatedStartSurrounding()
    ensures var c := FromRead(Genome(), TestRead(0, 10, Plus)).value;
      SurroundingKmers(c, 1) == ["ATGCAT", "TGCATG"]
  {
    TruncatedStart();
    SurroundingNearStart(FromRead(Genome(), TestRead(0, 10, Plus)).value);
  }

  /** Two strands are reverse complements when each base pairs with its mirror. */
  lemma RevCompPointwise(s: string, t: string)
    requires |s| == |t|
    requires forall i :: 0 <= i < |s| ==> t[i] == Complement(s[|s| - 1 - i])
    ensures RevComp(s) == t
  {
  }

  lemma RevCompOfFirst15()
    ensures RevComp("ATGCATGCATGCATG") == "CATGCATGCATGCAT"
  {
    var s: string := "ATGCATGCATGCATG";
    var t: string := "CATGCATGCATGCAT";
    forall i | 0 <= i < 15
      ensures t[i] == Complement(s[14 - i])
    {
    }
    RevCompPointwise(s, t);
  }

  lemma TruncatedStartMinus()
    ensures FromRead(Genome(), TestRead(0, 10, Minus)).Success?
    ensures var c := FromRead(Genome(), TestRead(0, 10, Minus)).value;
      c.context == "CATGCATGCATGCAT" && c.startSlop == 0 && c.endSlop == 5
  {
    assert One()[0..15] == "ATGCATGCATGCATG";
    RevCompOfFirst15();
  }

  lemma PartialStart()
    ensures FromRead(Genome(), TestRead(2, 10, Minus)).Success?
    ensures var c := FromRead(Genome(), TestRead(2, 10, Minus)).value;
      |c.context| == 17 && c.startSlop == 2 && c.endSlop == 5
  {
  }

  lemma TruncatedEnd()
    ensures FromRead(Genome(), TestRead(60, 6, Plus)).Success?
    ensures var c := FromRead(Genome(), TestRead(60, 6, Plus)).value;
      c.context == "CATGCATGCAT" && c.startSlop == 5 && c.endSlop == 0
  {
    assert One()[55..66] == "CATGCATGCAT";
  }

  /** The surrounding 6-mers of the second-to-last base of a context cut short by the chromosome end. */
  lemma SurroundingNearEnd(c: Context)
    requires c.context == "CATGCATGCAT" && c.readStart == 60 && c.startSlop == 5
    ensures SurroundingKmers(c, 61) == ["ATGCAT", "TGCATG", "GCATGC", "CATGCA", "ATGCAT"]
  {
    var t: string := "CATGCATGCAT";
    assert t[1..7] == "ATGCAT";
    assert t[2..8] == "TGCATG";
    assert t[3..9] == "GCATGC";
    assert t[4..10] == "CATGCA";
    assert t[5..11] == "ATGCAT";
  }

  lemma TruncatedEndSurrounding()
    ensures var c := FromRead(Genome(), TestRead(60, 6, Plus)).value;
      SurroundingKmers(c, 61) == ["ATGCAT", "TGCATG", "GCATGC", "CATGCA", "ATGCAT"]
  {
    TruncatedEnd();
    SurroundingNearEnd(FromRead(Genome(), TestRead(60, 6, Plus)).value);
  }

  lemma PartialEnd()
    ensures FromRead(Genome(), TestRead(53, 6, Plus)).Success?
    ensures var c := FromRead(Genome(), TestRead(53, 6, Plus)).value;
      |c.context| == 16 && c.startSlop == 5 && c.endSlop == 2
  {
  }

  lemma Middle()
    ensures FromRead(Genome(), TestRead(30, 10, Plus)).Success?
    ensures var c := FromRead(Genome(), TestRead(30, 10, Plus)).value;
      |c.context| == 20 && c.startSlop == 5 && c.endSlop == 5
  {
  }
}
