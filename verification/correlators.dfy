/**
 * The Correlators stage: walk the triplet enumeration of jet 0, appending for
 * each accepted triplet (i, j, k) the sum dR(i, j) + dR(i, k) + dR(j, k), and
 * stop all three loops once nTripelMax = 10 values have been appended. The
 * list is written as deltaR.
 */
module Correlators {
  import opened Events
  import opened TripletEnumeration

  const NTripelMax: nat := 10

  /** The three-body observable of one triplet. */
  function TripletValue(rec: EventRecord, t: Triplet): real {
    rec.consDeltaR(t.i, t.j) + rec.consDeltaR(t.i, t.k) + rec.consDeltaR(t.j, t.k)
  }

  /** The value of every triplet of ts, in order. */
  function Values(rec: EventRecord, ts: seq<Triplet>): (vs: seq<real>)
    ensures |vs| == |ts|
    ensures forall q :: 0 <= q < |ts| ==> vs[q] == TripletValue(rec, ts[q])
  {
    seq(|ts|, q requires 0 <= q < |ts| => TripletValue(rec, ts[q]))
  }

  /** The first nTripelMax triplets of ts, or all of them when there are fewer. */
  function Capped(ts: seq<Triplet>): seq<Triplet> {
    ts[..if |ts| <= NTripelMax then |ts| else NTripelMax]
  }

  /** What Correlators writes onto the event. */
  function CorrelatorValues(rec: EventRecord): seq<real> {
    Values(rec, Capped(OrderedTriplets(rec)))
  }

  /** Appending the value of one more triplet. */
  lemma ValuesAppend(rec: EventRecord, ts: seq<Triplet>, t: Triplet)
    ensures Values(rec, ts + [t]) == Values(rec, ts) + [TripletValue(rec, t)]
  {
  }

  /** The triplets the three loops have accepted when they stand at (i, j, k), in order. */
  function Visited(rec: EventRecord, i: nat, j: nat, k: nat): seq<Triplet> {
    OuterTriplets(rec, i) + MiddleTriplets(rec, i, j) + InnerTriplets(rec, i, j, k)
  }

  /** One pass of the inner loop body appends the value of (i, j, k) exactly when that triplet is accepted. */
  lemma InnerAdvance(rec: EventRecord, i: nat, j: nat, k: nat, deltaR: seq<real>)
    requires deltaR == Values(rec, Visited(rec, i, j, k))
    ensures Accepted(rec, Triplet(i, j, k)) ==>
      deltaR + [TripletValue(rec, Triplet(i, j, k))] == Values(rec, Visited(rec, i, j, k + 1))
    ensures !Accepted(rec, Triplet(i, j, k)) ==> deltaR == Values(rec, Visited(rec, i, j, k + 1))
  {
    InnerStep(rec, i, j, k);
    if Accepted(rec, Triplet(i, j, k)) {
      assert Visited(rec, i, j, k + 1) == Visited(rec, i, j, k) + [Triplet(i, j, k)];
      ValuesAppend(rec, Visited(rec, i, j, k), Triplet(i, j, k));
    }
  }

  /** The inner loop run to its end completes one pass of the middle loop. */
  lemma MiddleAdvance(rec: EventRecord, i: nat, j: nat)
    ensures Visited(rec, i, j, rec.NCons()) == Visited(rec, i, j + 1, 0)
  {
  }

  /** A pass of the middle loop that the inner loop does not enter leaves the list as it was. */
  lemma MiddlePass(rec: EventRecord, i: nat, j: nat)
    requires !(InJet(rec, i) && InJet(rec, j) && i != j)
    ensures Visited(rec, i, j + 1, 0) == Visited(rec, i, j, 0)
  {
    MiddleSkip(rec, i, j);
  }

  /** The middle loop run to its end completes one pass of the outer loop. */
  lemma OuterAdvance(rec: EventRecord, i: nat)
    ensures Visited(rec, i, rec.NCons(), 0) == Visited(rec, i + 1, 0, 0)
  {
    assert Visited(rec, i + 1, 0, 0) == OuterTriplets(rec, i + 1);
  }

  /** A pass of the outer loop for a constituent outside jet 0 leaves the list as it was. */
  lemma OuterPass(rec: EventRecord, i: nat)
    requires !InJet(rec, i)
    ensures Visited(rec, i + 1, 0, 0) == Visited(rec, i, 0, 0)
  {
    OuterSkip(rec, i);
    assert Visited(rec, i + 1, 0, 0) == OuterTriplets(rec, i + 1);
    assert Visited(rec, i, 0, 0) == OuterTriplets(rec, i);
  }

  /**
   * When the value of (i, j, k) brings the list to the cap, the list is the
   * values of the first nTripelMax triplets of the whole enumeration.
   */
  lemma CapReachedAt(rec: EventRecord, i: nat, j: nat, k: nat, deltaR: seq<real>)
    requires i < rec.NCons() && j < rec.NCons() && k < rec.NCons()
    requires deltaR == Values(rec, Visited(rec, i, j, k + 1)) && |deltaR| == NTripelMax
    ensures deltaR == CorrelatorValues(rec)
  {
    EnumerationPrefix(rec, i, j, k + 1);
    assert Capped(OrderedTriplets(rec)) == Visited(rec, i, j, k + 1);
  }

  /** Below the cap, the values of the whole enumeration are the whole list. */
  lemma EndBelowCap(rec: EventRecord, deltaR: seq<real>)
    requires deltaR == Values(rec, Visited(rec, rec.NCons(), 0, 0)) && |deltaR| < NTripelMax
    ensures deltaR == CorrelatorValues(rec)
  {
    assert Visited(rec, rec.NCons(), 0, 0) == OrderedTriplets(rec);
    assert OrderedTriplets(rec)[..|OrderedTriplets(rec)|] == OrderedTriplets(rec);
  }

  // The loops of Correlators as functions: each returns the list that its
  // loop leaves behind when it starts at the given index with the list acc,
  // stopping, like the loop, as soon as acc holds nTripelMax values. They
  // exist only to carry the loop invariants of the Correlators method.

  /** The inner loop, over the third constituent, from k on; a loop-invariant device. */
  function RunK(rec: EventRecord, i: nat, j: nat, k: nat, acc: seq<real>): seq<real>
    decreases rec.NCons() - k
  {
    if k >= rec.NCons() || |acc| >= NTripelMax then acc
    else if rec.consJetIndex[k] != CorrelatorJet || i == k || j == k then RunK(rec, i, j, k + 1, acc)
    else RunK(rec, i, j, k + 1, acc + [TripletValue(rec, Triplet(i, j, k))])
  }

  /** The middle loop, over the second constituent, from j on; a loop-invariant device. */
  function RunJ(rec: EventRecord, i: nat, j: nat, acc: seq<real>): seq<real>
    decreases rec.NCons() - j
  {
    if j >= rec.NCons() || |acc| >= NTripelMax then acc
    else if rec.consJetIndex[j] != CorrelatorJet || i == j then RunJ(rec, i, j + 1, acc)
    else RunJ(rec, i, j + 1, RunK(rec, i, j, 0, acc))
  }

  /** The outer loop, over the first constituent, from i on; a loop-invariant device. */
  function RunI(rec: EventRecord, i: nat, acc: seq<real>): seq<real>
    decreases rec.NCons() - i
  {
    if i >= rec.NCons() || |acc| >= NTripelMax then acc
    else if rec.consJetIndex[i] != CorrelatorJet then RunI(rec, i + 1, acc)
    else RunI(rec, i + 1, RunJ(rec, i, 0, acc))
  }

  /**
   * acc is what the loops hold once they have visited the triplets of pos:
   * the values of all of them while below the cap, the final list at the cap.
   */
  predicate Consistent(rec: EventRecord, acc: seq<real>, pos: seq<Triplet>) {
    && |acc| <= NTripelMax
    && (|acc| < NTripelMax ==> acc == Values(rec, pos))
    && (|acc| == NTripelMax ==> acc == CorrelatorValues(rec))
  }

  /** Finishing the inner loop for (i, j) from k keeps the list in step with the enumeration. */
  lemma {:induction false} RunKConsistent(rec: EventRecord, i: nat, j: nat, k: nat, acc: seq<real>)
    requires InJet(rec, i) && InJet(rec, j) && i != j && k <= rec.NCons()
    requires Consistent(rec, acc, Visited(rec, i, j, k))
    ensures Consistent(rec, RunK(rec, i, j, k, acc), Visited(rec, i, j + 1, 0))
    decreases rec.NCons() - k
  {
    if k == rec.NCons() {
      MiddleAdvance(rec, i, j);
    } else if |acc| < NTripelMax {
      InnerAdvance(rec, i, j, k, acc);
      var t := Triplet(i, j, k);
      if Accepted(rec, t) {
        var acc' := acc + [TripletValue(rec, t)];
        if |acc'| == NTripelMax {
          CapReachedAt(rec, i, j, k, acc');
        }
        RunKConsistent(rec, i, j, k + 1, acc');
      } else {
        RunKConsistent(rec, i, j, k + 1, acc);
      }
    }
  }

  /** Finishing the middle loop for i from j keeps the list in step with the enumeration. */
  lemma {:induction false} RunJConsistent(rec: EventRecord, i: nat, j: nat, acc: seq<real>)
    requires InJet(rec, i) && j <= rec.NCons()
    requires Consistent(rec, acc, Visited(rec, i, j, 0))
    ensures Consistent(rec, RunJ(rec, i, j, acc), Visited(rec, i + 1, 0, 0))
    decreases rec.NCons() - j
  {
    if j == rec.NCons() {
      OuterAdvance(rec, i);
    } else if |acc| < NTripelMax {
      if rec.consJetIndex[j] != CorrelatorJet || i == j {
        MiddlePass(rec, i, j);
        RunJConsistent(rec, i, j + 1, acc);
      } else {
        RunKConsistent(rec, i, j, 0, acc);
        RunJConsistent(rec, i, j + 1, RunK(rec, i, j, 0, acc));
      }
    }
  }

  /** Finishing the outer loop from i keeps the list in step with the enumeration. */
  lemma {:induction false} RunIConsistent(rec: EventRecord, i: nat, acc: seq<real>)
    requires i <= rec.NCons()
    requires Consistent(rec, acc, Visited(rec, i, 0, 0))
    ensures Consistent(rec, RunI(rec, i, acc), Visited(rec, rec.NCons(), 0, 0))
    decreases rec.NCons() - i
  {
    if i < rec.NCons() && |acc| < NTripelMax {
      if rec.consJetIndex[i] != CorrelatorJet {
        OuterPass(rec, i);
        RunIConsistent(rec, i + 1, acc);
      } else {
        RunJConsistent(rec, i, 0, acc);
        RunIConsistent(rec, i + 1, RunJ(rec, i, 0, acc));
      }
    }
  }

  /** The three loops, run from the start with an empty list, compute CorrelatorValues. */
  lemma RunIsCorrelatorValues(rec: EventRecord)
    ensures RunI(rec, 0, []) == CorrelatorValues(rec)
  {
    assert Visited(rec, 0, 0, 0) == [];
    RunIConsistent(rec, 0, []);
    var r := RunI(rec, 0, []);
    if |r| < NTripelMax {
      EndBelowCap(rec, r);
    }
  }

  /**
   * The three nested loops, each stopping as soon as nTripelMax values are
   * in the list: deltaR becomes the values of the first nTripelMax triplets
   * of the enumeration, or of all of them when there are fewer.
   */
  method Correlators(event: Event)
    modifies event`deltaR
    ensures event.deltaR == CorrelatorValues(event.rec)
  {
    var rec := event.rec;
    var n := rec.NCons();
    ghost var total := RunI(rec, 0, []);
    var deltaR: seq<real> := [];
    var jetIndex := CorrelatorJet;
    var nTripel := 0;
    for i := 0 to n
      invariant nTripel == |deltaR|
      invariant RunI(rec, i, deltaR) == total
    {
      if nTripel >= NTripelMax {
        break;
      }
      if rec.consJetIndex[i] != jetIndex {
        continue;
      }
      for j := 0 to n
        invariant nTripel == |deltaR|
        invariant RunI(rec, i + 1, RunJ(rec, i, j, deltaR)) == total
      {
        if nTripel >= NTripelMax {
          break;
        }
        if rec.consJetIndex[j] != jetIndex {
          continue;
        }
        if i == j {
          continue;
        }
        for k := 0 to n
          invariant nTripel == |deltaR|
          invariant RunI(rec, i + 1, RunJ(rec, i, j + 1, RunK(rec, i, j, k, deltaR))) == total
        {
          if nTripel >= NTripelMax {
            break;
          }
          if rec.consJetIndex[k] != jetIndex {
            continue;
          }
          if i == k || j == k {
            continue;
          }
          var dR12 := rec.consDeltaR(i, j);
          var dR13 := rec.consDeltaR(i, k);
          var dR23 := rec.consDeltaR(j, k);
          deltaR := deltaR + [dR12 + dR13 + dR23];
          nTripel := nTripel + 1;
        }
      }
    }
    RunIsCorrelatorValues(rec);
    event.deltaR := deltaR;
  }

  /**
   * deltaR holds the values of the first min(10, m * (m - 1) * (m - 2))
   * triplets of the enumeration, m being the number of constituents of
   * jet 0; each comes from a triplet of pairwise-distinct jet-0 constituents.
   */
  lemma CorrelatorValuesPrefix(rec: EventRecord)
    ensures var m := JetSize(rec);
      |CorrelatorValues(rec)| == if m * (m - 1) * (m - 2) < NTripelMax then m * (m - 1) * (m - 2) else NTripelMax
    ensures forall q :: 0 <= q < |CorrelatorValues(rec)| ==>
      q < |OrderedTriplets(rec)| && Accepted(rec, OrderedTriplets(rec)[q])
      && CorrelatorValues(rec)[q] == TripletValue(rec, OrderedTriplets(rec)[q])
  {
    OrderedTripletsCount(rec);
    OrderedTripletsEnumerate(rec);
    var ts := OrderedTriplets(rec);
    forall q | 0 <= q < |CorrelatorValues(rec)|
      ensures q < |ts| && Accepted(rec, ts[q])
      ensures CorrelatorValues(rec)[q] == TripletValue(rec, ts[q])
    {
      assert ts[q] in ts;
    }
  }

  /** Fewer than three constituents in jet 0 give no values; exactly three give six. */
  lemma CorrelatorValuesSmallJets(rec: EventRecord)
    ensures JetSize(rec) < 3 ==> CorrelatorValues(rec) == []
    ensures JetSize(rec) == 3 ==> |CorrelatorValues(rec)| == 6
  {
    CorrelatorValuesPrefix(rec);
    var m := JetSize(rec);
    if m < 3 {
      assert m == 0 || m == 1 || m == 2;
    }
  }
}
