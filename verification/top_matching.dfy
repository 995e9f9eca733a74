/**
 * The MatchToTop stage: over every pair (truth particle with |pdgId| = 6, jet),
 * truth particles outer and jets inner, keep the first pair whose DeltaR is
 * strictly below the running minimum, which starts at 1000. The stage writes
 * that minimum as minDR and the mass of the jet of the kept pair as
 * mjet_matched, or NaN when no pair came below 1000.
 */
module TopMatching {
  import opened Wrappers
  import opened Events

  const TopPdgId: int := 6
  const MinDRStart: real := 1000.0

  /** A (truth particle, jet) pair, by index. */
  datatype Pair = Pair(gen: nat, jet: nat)

  function Abs(x: int): nat { if x < 0 then -x else x }

  predicate IsTop(rec: EventRecord, g: nat) {
    g < rec.NGenPart() && Abs(rec.genPdgId[g]) == TopPdgId
  }

  function PairDR(rec: EventRecord, p: Pair): real {
    rec.genJetDeltaR(p.gen, p.jet)
  }

  /** The pairs (g, 0), ..., (g, n - 1): one pass of the jet loop. */
  function JetRow(g: nat, n: nat): seq<Pair> {
    seq(n, q requires 0 <= q < n => Pair(g, q))
  }

  /** The pairs the double loop visits for the truth particles before g, in visiting order. */
  function TopJetPairs(rec: EventRecord, g: nat): (ps: seq<Pair>)
    requires g <= rec.NGenPart()
    ensures forall q :: 0 <= q < |ps| ==> ps[q].gen < g && IsTop(rec, ps[q].gen) && ps[q].jet < rec.NJets()
  {
    if g == 0 then []
    else TopJetPairs(rec, g - 1) + (if IsTop(rec, g - 1) then JetRow(g - 1, rec.NJets()) else [])
  }

  /** The running minimum and the position, in the visited pairs, of the pair that set it. */
  datatype Closest = Closest(minDR: real, at: Option<nat>)

  /** The scan with strict `<`, starting from 1000 and no match. */
  function ClosestPair(rec: EventRecord, ps: seq<Pair>): (c: Closest)
    ensures c.at.Some? ==> c.at.value < |ps|
  {
    if ps == [] then Closest(MinDRStart, None)
    else
      var c := ClosestPair(rec, ps[..|ps| - 1]);
      var d := PairDR(rec, ps[|ps| - 1]);
      if d < c.minDR then Closest(d, Some(|ps| - 1)) else c
  }

  /** What MatchToTop writes onto the event. */
  datatype MatchFeatures = MatchFeatures(mjetMatched: Option<real>, minDR: real)

  function AllTopJetPairs(rec: EventRecord): seq<Pair> {
    TopJetPairs(rec, rec.NGenPart())
  }

  /** The minimum of the scan over every (top, jet) pair, and the mass of the jet of the pair it keeps. */
  function MatchOutcome(rec: EventRecord): MatchFeatures
    requires rec.WellFormed()
  {
    var ps := AllTopJetPairs(rec);
    var c := ClosestPair(rec, ps);
    MatchFeatures(if c.at.Some? then Some(rec.jetMass[ps[c.at.value].jet]) else None, c.minDR)
  }

  /** The loop state: the running minimum, the index of jet_matched and found_match. */
  datatype Scan = Scan(minDR: real, jetMatched: nat, foundMatch: bool)

  /**
   * The jet loop for truth particle g, from jet j on, as a function of the
   * state it starts in; it exists only to carry MatchToTop's loop invariant.
   */
  function ScanJets(rec: EventRecord, g: nat, j: nat, s: Scan): Scan
    decreases rec.NJets() - j
  {
    if j >= rec.NJets() then s
    else
      var d := rec.genJetDeltaR(g, j);
      ScanJets(rec, g, j + 1, if d < s.minDR then Scan(d, j, true) else s)
  }

  /**
   * The truth-particle loop, from g on, as a function of the state it starts
   * in; it exists only to carry MatchToTop's loop invariant.
   */
  function ScanTops(rec: EventRecord, g: nat, s: Scan): Scan
    decreases rec.NGenPart() - g
  {
    if g >= rec.NGenPart() then s
    else ScanTops(rec, g + 1, if IsTop(rec, g) then ScanJets(rec, g, 0, s) else s)
  }

  /** The loop state agrees with the scan of the pairs visited so far. */
  predicate Tracks(rec: EventRecord, ps: seq<Pair>, s: Scan) {
    var c := ClosestPair(rec, ps);
    c.minDR == s.minDR && c.at.Some? == s.foundMatch && (s.foundMatch ==> ps[c.at.value].jet == s.jetMatched)
  }

  /** Finishing the jet loop of truth particle g scans the rest of its row of pairs. */
  lemma {:induction false} ScanJetsTracks(rec: EventRecord, done: seq<Pair>, g: nat, j: nat, s: Scan)
    requires j <= rec.NJets()
    requires Tracks(rec, done + JetRow(g, j), s)
    ensures Tracks(rec, done + JetRow(g, rec.NJets()), ScanJets(rec, g, j, s))
    decreases rec.NJets() - j
  {
    if j < rec.NJets() {
      var ps := done + JetRow(g, j);
      assert done + JetRow(g, j + 1) == ps + [Pair(g, j)];
      assert (ps + [Pair(g, j)])[..|ps|] == ps;
      var d := rec.genJetDeltaR(g, j);
      var c := ClosestPair(rec, ps);
      assert ClosestPair(rec, ps + [Pair(g, j)]) == if d < c.minDR then Closest(d, Some(|ps|)) else c;
      ScanJetsTracks(rec, done, g, j + 1, if d < s.minDR then Scan(d, j, true) else s);
    }
  }

  /** Finishing the truth-particle loop from g scans the rest of the (top, jet) pairs. */
  lemma {:induction false} ScanTopsTracks(rec: EventRecord, g: nat, s: Scan)
    requires g <= rec.NGenPart()
    requires Tracks(rec, TopJetPairs(rec, g), s)
    ensures Tracks(rec, AllTopJetPairs(rec), ScanTops(rec, g, s))
    decreases rec.NGenPart() - g
  {
    if g < rec.NGenPart() {
      var done := TopJetPairs(rec, g);
      if IsTop(rec, g) {
        assert done + JetRow(g, 0) == done;
        ScanJetsTracks(rec, done, g, 0, s);
        assert TopJetPairs(rec, g + 1) == done + JetRow(g, rec.NJets());
        ScanTopsTracks(rec, g + 1, ScanJets(rec, g, 0, s));
      } else {
        assert TopJetPairs(rec, g + 1) == done;
        ScanTopsTracks(rec, g + 1, s);
      }
    }
  }

  /** The double loop, run from the start, computes the scan of every (top, jet) pair. */
  lemma ScanMatchesClosestPair(rec: EventRecord)
    ensures Tracks(rec, AllTopJetPairs(rec), ScanTops(rec, 0, Scan(MinDRStart, 0, false)))
  {
    ScanTopsTracks(rec, 0, Scan(MinDRStart, 0, false));
  }

  /**
   * The double loop, truth particles outer and jets inner, keeping the
   * running minimum with strict `<`; it writes the outcome of the scan over
   * every (top, jet) pair onto the event.
   */
  method MatchToTop(event: Event)
    requires event.rec.WellFormed()
    modifies event`mjetMatched, event`minDR
    ensures MatchFeatures(event.mjetMatched, event.minDR) == MatchOutcome(event.rec)
  {
    var rec := event.rec;
    var minDR := MinDRStart;
    var jetMatched: nat := 0;  // index of jet_matched; meaningful once foundMatch holds
    var foundMatch := false;
    ghost var total := ScanTops(rec, 0, Scan(minDR, jetMatched, foundMatch));
    for i := 0 to rec.NGenPart()
      invariant ScanTops(rec, i, Scan(minDR, jetMatched, foundMatch)) == total
    {
      if Abs(rec.genPdgId[i]) == TopPdgId {
        for j := 0 to rec.NJets()
          invariant ScanTops(rec, i + 1, ScanJets(rec, i, j, Scan(minDR, jetMatched, foundMatch))) == total
        {
          if rec.genJetDeltaR(i, j) < minDR {
            minDR := rec.genJetDeltaR(i, j);
            jetMatched := j;
            foundMatch := true;
          }
        }
      }
    }
    ScanMatchesClosestPair(rec);
    event.mjetMatched := if foundMatch then Some(rec.jetMass[jetMatched]) else None;
    event.minDR := minDR;
  }

  /**
   * The scan finds the global minimum of 1000 and all pair distances, and the
   * first pair in visiting order that reaches it; a pair is kept exactly when
   * some distance is below 1000.
   */
  lemma {:induction false} ClosestPairIsFirstMinimum(rec: EventRecord, ps: seq<Pair>)
    ensures var c := ClosestPair(rec, ps);
      && c.minDR <= MinDRStart
      && (forall q :: 0 <= q < |ps| ==> c.minDR <= PairDR(rec, ps[q]))
      && (c.at.None? ==> c.minDR == MinDRStart)
      && (c.at.Some? ==> c.minDR == PairDR(rec, ps[c.at.value]) < MinDRStart
                         && forall q :: 0 <= q < c.at.value ==> PairDR(rec, ps[q]) > c.minDR)
      && (c.at.Some? <==> exists q :: 0 <= q < |ps| && PairDR(rec, ps[q]) < MinDRStart)
  {
    if ps != [] {
      var init := ps[..|ps| - 1];
      ClosestPairIsFirstMinimum(rec, init);
      assert forall q :: 0 <= q < |init| ==> init[q] == ps[q];
    }
  }

  /** The pairs visited are exactly the (top, jet) pairs, truth index outer and jet index inner. */
  lemma {:induction false} TopJetPairsEnumerate(rec: EventRecord, g: nat)
    requires g <= rec.NGenPart()
    ensures forall p :: p in TopJetPairs(rec, g) <==> p.gen < g && IsCandidate(rec, p)
    ensures forall q, r :: 0 <= q < r < |TopJetPairs(rec, g)| ==> PairLess(TopJetPairs(rec, g)[q], TopJetPairs(rec, g)[r])
  {
    if g > 0 {
      TopJetPairsEnumerate(rec, g - 1);
      var init := TopJetPairs(rec, g - 1);
      var row := if IsTop(rec, g - 1) then JetRow(g - 1, rec.NJets()) else [];
      forall p: Pair | p.gen < g && IsCandidate(rec, p)
        ensures p in TopJetPairs(rec, g)
      {
        if p.gen < g - 1 {
          assert p in init;
        } else {
          assert row[p.jet] == p;
        }
      }
    }
  }

  /**
   * minDR is the minimum of 1000 and the DeltaR of every (top, jet) pair; when
   * there is no top quark or no jet it is 1000 and mjet_matched is NaN.
   */
  lemma MatchToTopMinDR(rec: EventRecord)
    requires rec.WellFormed()
    ensures MatchOutcome(rec).minDR <= MinDRStart
    ensures forall p :: IsCandidate(rec, p) ==> MatchOutcome(rec).minDR <= PairDR(rec, p)
    ensures MatchOutcome(rec).minDR == MinDRStart
      || exists p :: IsCandidate(rec, p) && MatchOutcome(rec).minDR == PairDR(rec, p)
    ensures (forall g: nat :: !IsTop(rec, g)) || rec.NJets() == 0 ==>
      MatchOutcome(rec) == MatchFeatures(None, MinDRStart)
  {
    var ps := AllTopJetPairs(rec);
    ClosestPairIsFirstMinimum(rec, ps);
    TopJetPairsEnumerate(rec, rec.NGenPart());
    forall p | IsCandidate(rec, p)
      ensures MatchOutcome(rec).minDR <= PairDR(rec, p)
    {
      var q :| 0 <= q < |ps| && ps[q] == p;
    }
    if (forall g: nat :: !IsTop(rec, g)) || rec.NJets() == 0 {
      assert ps == [];
    }
  }

  /**
   * found_match holds exactly when some (top, jet) pair has DeltaR below 1000,
   * and then mjet_matched is the mass of the jet of the first pair, truth
   * particles outer and jets inner, whose DeltaR equals the global minimum.
   */
  lemma MatchToTopMatchedJet(rec: EventRecord)
    requires rec.WellFormed()
    ensures MatchOutcome(rec).mjetMatched.Some? <==>
      exists p :: IsCandidate(rec, p) && PairDR(rec, p) < MinDRStart
    ensures MatchOutcome(rec).mjetMatched.Some? ==>
      exists best :: FirstClosest(rec, best, MatchOutcome(rec).minDR)
        && MatchOutcome(rec).mjetMatched == Some(rec.jetMass[best.jet])
  {
    var ps := AllTopJetPairs(rec);
    var c := ClosestPair(rec, ps);
    FoundIffCandidateBelowStart(rec);
    if c.at.Some? {
      FoundIsFirstClosest(rec);
      var best := ps[c.at.value];
      assert FirstClosest(rec, best, c.minDR);
    }
  }

  /** The scan keeps a pair exactly when some (top, jet) pair is closer than 1000. */
  lemma FoundIffCandidateBelowStart(rec: EventRecord)
    ensures ClosestPair(rec, AllTopJetPairs(rec)).at.Some? <==>
      exists p :: IsCandidate(rec, p) && PairDR(rec, p) < MinDRStart
  {
    var ps := AllTopJetPairs(rec);
    ClosestPairIsFirstMinimum(rec, ps);
    TopJetPairsEnumerate(rec, rec.NGenPart());
    if exists p :: IsCandidate(rec, p) && PairDR(rec, p) < MinDRStart {
      var p :| IsCandidate(rec, p) && PairDR(rec, p) < MinDRStart;
      var q :| 0 <= q < |ps| && ps[q] == p;
    }
    if ClosestPair(rec, ps).at.Some? {
      var q :| 0 <= q < |ps| && PairDR(rec, ps[q]) < MinDRStart;
      assert ps[q] in ps;
    }
  }

  /** The pair the scan keeps is the first (top, jet) pair at the minimum distance. */
  lemma FoundIsFirstClosest(rec: EventRecord)
    requires ClosestPair(rec, AllTopJetPairs(rec)).at.Some?
    ensures var c := ClosestPair(rec, AllTopJetPairs(rec));
      FirstClosest(rec, AllTopJetPairs(rec)[c.at.value], c.minDR)
  {
    var ps := AllTopJetPairs(rec);
    var c := ClosestPair(rec, ps);
    var r := c.at.value;
    var best := ps[r];
    ClosestPairIsFirstMinimum(rec, ps);
    TopJetPairsEnumerate(rec, rec.NGenPart());
    assert best in ps;
    forall p | IsCandidate(rec, p) && PairLess(p, best)
      ensures PairDR(rec, p) > c.minDR
    {
      var q :| 0 <= q < |ps| && ps[q] == p;
    }
  }

  predicate IsCandidate(rec: EventRecord, p: Pair) {
    IsTop(rec, p.gen) && p.jet < rec.NJets()
  }

  /** Visiting order of the double loop: truth index first, then jet index. */
  predicate PairLess(a: Pair, b: Pair) {
    a.gen < b.gen || (a.gen == b.gen && a.jet < b.jet)
  }

  /** best is a (top, jet) pair at distance d, and every pair visited before it is farther. */
  ghost predicate FirstClosest(rec: EventRecord, best: Pair, d: real) {
    && IsCandidate(rec, best)
    && PairDR(rec, best) == d
    && forall p :: IsCandidate(rec, p) && PairLess(p, best) ==> PairDR(rec, p) > d
  }
}
