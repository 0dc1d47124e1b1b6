/**
 * The strand map: for each read name, the strand its alignment records agree on,
 * or Unknown when a multi-mapped read has records on both strands.
 */
module StrandMaps {
  import opened Records

  /** One alignment record: the read name and whether it carries the reverse-strand flag. */
  datatype BamRecord = BamRecord(name: string, isReverse: bool)

  /** The strand a single record stands for. */
  function StrandOf(r: BamRecord): Strand {
    if r.isReverse then Minus else Plus
  }

  /** The read names that occur in the records. */
  function Names(records: seq<BamRecord>): set<string> {
    set i | 0 <= i < |records| :: records[i].name
  }

  /** Every record of `name` stands for strand `s`. */
  predicate AllAgree(records: seq<BamRecord>, name: string, s: Strand) {
    forall i :: 0 <= i < |records| && records[i].name == name ==> StrandOf(records[i]) == s
  }

  /** The strand all records of `name` agree on, or Unknown when they disagree. */
  function Consensus(records: seq<BamRecord>, name: string): Strand {
    if AllAgree(records, name, Plus) then Plus
    else if AllAgree(records, name, Minus) then Minus
    else Unknown
  }

  /**
   * `StrandMap::from_bam_file`, with the records given in file order: the first
   * record of a name inserts its strand, a later record on the other strand
   * turns the entry to Unknown.
   */
  method FromRecords(records: seq<BamRecord>) returns (m: map<string, Strand>)
    ensures m.Keys == Names(records)
    ensures forall name :: name in m ==> m[name] == Consensus(records, name)
  {
    m := map[];
    var i := 0;
    while i < |records|
      invariant 0 <= i <= |records|
      invariant m.Keys == Names(records[..i])
      invariant forall name :: name in m ==> m[name] == Consensus(records[..i], name)
    {
      var record := records[i];
      var strand := StrandOf(record);
      if record.name !in m {
        m := m[record.name := strand];
      }
      if m[record.name] != strand {
        m := m[record.name := Unknown];
      }
      ConsensusStep(records, i);
      i := i + 1;
    }
    assert records[..i] == records;
  }

  /** How one more record changes the names and the consensus of the records before it. */
  lemma ConsensusStep(records: seq<BamRecord>, i: nat)
    requires i < |records|
    ensures Names(records[..i + 1]) == Names(records[..i]) + {records[i].name}
    ensures forall name :: name != records[i].name ==>
      Consensus(records[..i + 1], name) == Consensus(records[..i], name)
    ensures records[i].name !in Names(records[..i]) ==>
      Consensus(records[..i + 1], records[i].name) == StrandOf(records[i])
    ensures records[i].name in Names(records[..i]) ==>
      Consensus(records[..i + 1], records[i].name) ==
        if Consensus(records[..i], records[i].name) == StrandOf(records[i]) then StrandOf(records[i]) else Unknown
  {
    var p, q, r := records[..i], records[..i + 1], records[i];
    assert q == p + [r];
    assert Names(q) == Names(p) + {r.name} by {
      forall name | name in Names(q) ensures name in Names(p) + {r.name} {
        var k :| 0 <= k < |q| && q[k].name == name;
        if k < i { assert p[k] == q[k]; }
      }
      forall name | name in Names(p) ensures name in Names(q) {
        var k :| 0 <= k < |p| && p[k].name == name;
        assert q[k] == p[k];
      }
    }
    forall name, s | name != r.name ensures AllAgree(q, name, s) == AllAgree(p, name, s) {
      if AllAgree(p, name, s) {
        forall k | 0 <= k < |q| && q[k].name == name ensures StrandOf(q[k]) == s {
          assert q[k] == p[k];
        }
      }
    }
    if r.name !in Names(p) {
      forall s ensures AllAgree(q, r.name, s) == (s == StrandOf(r)) {
        forall k | 0 <= k < |p| ensures p[k].name != r.name {
          assert p[k].name in Names(p);
        }
        assert q[i] == r;
      }
    } else {
      var k :| 0 <= k < |p| && p[k].name == r.name;
      assert q[k] == p[k] && q[i] == r;
      forall s ensures AllAgree(q, r.name, s) == (AllAgree(p, r.name, s) && StrandOf(r) == s) {
        if AllAgree(p, r.name, s) && StrandOf(r) == s {
          forall j | 0 <= j < |q| && q[j].name == r.name ensures StrandOf(q[j]) == s {
            if j < i { assert q[j] == p[j]; }
          }
        }
      }
    }
  }

  /**
   * A name's entry is Plus exactly when all its records are forward, Minus exactly
   * when all are reverse, and Unknown exactly when two of its records disagree.
   */
  lemma {:induction false} ConsensusMeaning(records: seq<BamRecord>, name: string)
    requires name in Names(records)
    ensures Consensus(records, name) == Plus <==> AllAgree(records, name, Plus)
    ensures Consensus(records, name) == Minus <==> AllAgree(records, name, Minus)
    ensures Consensus(records, name) == Unknown <==>
      exists j, k :: 0 <= j < |records| && 0 <= k < |records| && records[j].name == name
        && records[k].name == name && records[j].isReverse != records[k].isReverse
  {
    var j :| 0 <= j < |records| && records[j].name == name;
    if AllAgree(records, name, Plus) {
      assert StrandOf(records[j]) == Plus;
    } else if AllAgree(records, name, Minus) {
      assert StrandOf(records[j]) == Minus;
    } else {
      var a :| 0 <= a < |records| && records[a].name == name && StrandOf(records[a]) != Plus;
      var b :| 0 <= b < |records| && records[b].name == name && StrandOf(records[b]) != Minus;
      assert records[a].isReverse != records[b].isReverse;
    }
  }

  /** Once an entry is Unknown, no later record changes it. */
  lemma {:induction false} UnknownIsFinal(records: seq<BamRecord>, more: seq<BamRecord>, name: string)
    requires name in Names(records) && Consensus(records, name) == Unknown
    ensures Consensus(records + more, name) == Unknown
  {
    var all := records + more;
    assert !AllAgree(records, name, Plus) && !AllAgree(records, name, Minus);
    var a :| 0 <= a < |records| && records[a].name == name && StrandOf(records[a]) != Plus;
    var b :| 0 <= b < |records| && records[b].name == name && StrandOf(records[b]) != Minus;
    assert all[a] == records[a] && all[b] == records[b];
  }
}
