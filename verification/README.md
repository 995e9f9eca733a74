# Per-event sequence stages of the MTopCorrelations example analysis

This project models the three per-event stages of the example analysis in
`plots/plotsDennis/analysis/exampleAnalysis.py`. The analysis appends them to
its `sequence`, and the external histogram filler applies them, in order,
to each event before that event's histograms are filled:

- **MatchToTop** scans every pair of a truth top quark (|pdgId| = 6) and an
  AK8 jet. It keeps the running minimum of their angular distance, which
  starts at 1000, under a strict `<`. It writes the minimum as `minDR` and
  the mass of the jet of the kept pair as `mjet_matched`, or NaN when no
  pair came below 1000.
- **JetPt** scans the AK8 jets for the largest pt. The running maximum
  starts at 0 and the index at -1, and the comparison is a strict `>`. It
  writes the index as `indexmax`.
- **Correlators** runs three nested loops over the constituents whose
  `jetIndex` is 0. They enumerate ordered triplets of pairwise-distinct
  constituents. For each triplet the loops append
  `dR(i, j) + dR(i, k) + dR(j, k)` to `deltaR`. One counter is shared by the
  three loop levels, and each level stops as soon as 10 values have been
  appended.

An event is an `Events.Event` object. It holds a read-only record
(`Events.EventRecord`) and the attributes the stages set:
`mjetMatched`, `minDR`, `indexmax` and `deltaR`.

The record keeps the following columns as parallel sequences, and each
count (`nGenPart`, `nPFJetAK8`, `nPFJetAK8_cons`) is the length of its
sequence:
- the truth pdgIds;
- the jet pts and masses;
- the constituents' jet indices.

The angular distance (`TLorentzVector.DeltaR` of two four-vectors built with
`SetPtEtaPhiM`) is an uninterpreted function of the two particle indices.
There are two of them: truth particle against jet, and constituent against
constituent. No metric property of it is assumed.

Each stage is a method with the loops of the source, including every
`break` and `continue` of Correlators. Its postcondition ties what it writes
to a pure function of the record:
- MatchToTop: `MatchOutcome`, the left-to-right scan `ClosestPair` over the
  (top, jet) pairs in visiting order;
- JetPt: `LeadingJetIndex`, the left-to-right arg-max scan;
- Correlators: `CorrelatorValues`, the values of the first 10 triplets of
  `OrderedTriplets`, which is the nested enumeration without the cap.

Lemmas then prove what those functions are:
- the global minimum and the first pair that reaches it;
- the first maximum;
- every ordered distinct jet-0 triplet exactly once, in lexicographic
  order, m(m-1)(m-2) of them.

The loop invariants say that finishing the remaining iterations gives the
final result. `ScanJets`/`ScanTops` and `RunK`/`RunJ`/`RunI` state that
remaining work, loop by loop, and lemmas connect them to the specifying
functions.

In these places the model follows the code, whose behaviour may be
unexpected:
- JetPt on one jet returns -1 when that jet's pt is not positive, because the running maximum starts at 0 and the comparison is strict.
- `mjet_matched` is NaN when no (top, jet) pair has distance below 1000, which is not only the case where no pair exists.
- Correlators always uses jet 0, not the leading jet `indexmax` that JetPt finds.
- MatchToTop keeps one global best over all top quarks, not one per top quark.
- No stage catches a missing column or an index out of range. The model rules these out by taking the counts to be the array lengths.

## Model

| member | source | states |
|---|---|---|
| TopMatching.TopJetPairs | plots/plotsDennis/analysis/exampleAnalysis.py:112-118 | the pairs the double loop visits before truth particle g have a top quark before g and a valid jet index |
| TopMatching.ClosestPair | plots/plotsDennis/analysis/exampleAnalysis.py:119-122 | the scan with strict `<` from 1000 keeps, if anything, a position inside the visited pairs |
| TopMatching.ScanJetsTracks | plots/plotsDennis/analysis/exampleAnalysis.py:116-122 | finishing the jet loop from any state that agrees with the scan so far leaves a state that agrees with the scan of the whole row of the top quark |
| TopMatching.ScanTopsTracks | plots/plotsDennis/analysis/exampleAnalysis.py:112-122 | finishing the truth-particle loop keeps (minDR, jet_matched, found_match) in agreement with the scan of all (top, jet) pairs |
| TopMatching.ScanMatchesClosestPair | plots/plotsDennis/analysis/exampleAnalysis.py:109-122 | the double loop from minDR = 1000 and found_match = false ends in the state of the scan over every (top, jet) pair |
| TopMatching.MatchToTop | plots/plotsDennis/analysis/exampleAnalysis.py:108-125 | the method writes exactly MatchOutcome: the scan's minimum as minDR and the kept jet's mass, or NaN, as mjet_matched |
| TopMatching.ClosestPairIsFirstMinimum | plots/plotsDennis/analysis/exampleAnalysis.py:109-122 | the scan's minDR is at most 1000 and at most every distance; with no pair kept it is 1000; a kept pair realises it below 1000 with every earlier pair strictly farther; a pair is kept iff some distance is below 1000 |
| TopMatching.TopJetPairsEnumerate | plots/plotsDennis/analysis/exampleAnalysis.py:112-118 | the visited pairs are exactly the (|pdgId| = 6, jet) pairs, each once, strictly ordered truth index first, jet index second |
| TopMatching.MatchToTopMinDR | plots/plotsDennis/analysis/exampleAnalysis.py:109-124 | minDR is the minimum of 1000 and every (top, jet) distance, equal to 1000 or to one of them; with no top quark or no jet the outcome is (NaN, 1000) |
| TopMatching.FoundIffCandidateBelowStart | plots/plotsDennis/analysis/exampleAnalysis.py:111-122 | found_match holds iff some (top, jet) pair has distance below 1000 |
| TopMatching.FoundIsFirstClosest | plots/plotsDennis/analysis/exampleAnalysis.py:112-123 | the kept pair is a (top, jet) pair at the minimum and every pair before it in loop order is strictly farther |
| TopMatching.MatchToTopMatchedJet | plots/plotsDennis/analysis/exampleAnalysis.py:111-123 | mjet_matched is not NaN iff some pair is below 1000, and then it is the mass of the jet of the first pair, across all top quarks, that reaches the global minimum |
| LeadingJet.LeadingJetIndex | plots/plotsDennis/analysis/exampleAnalysis.py:128-133 | the scan's index is -1 or a valid jet index |
| LeadingJet.JetPt | plots/plotsDennis/analysis/exampleAnalysis.py:127-134 | the method writes LeadingJetIndex of the jet pts as indexmax |
| LeadingJet.LeadingJetIndexIsFirstMaximum | plots/plotsDennis/analysis/exampleAnalysis.py:128-134 | indexmax is -1 iff every jet pt is at most 0; otherwise it indexes a jet of positive, maximal pt and every earlier jet has strictly smaller pt |
| LeadingJet.FewJets | plots/plotsDennis/analysis/exampleAnalysis.py:128-134 | no jets give -1; one jet gives 0 if its pt is positive and -1 otherwise |
| TripletEnumeration.InnerMembers | plots/plotsDennis/analysis/exampleAnalysis.py:160-166 | the inner loop for (i, j) up to k accepts exactly the triplets (i, j, k') with k' < k of distinct jet-0 constituents |
| TripletEnumeration.MiddleMembers | plots/plotsDennis/analysis/exampleAnalysis.py:152-166 | the middle loop for i up to j accepts exactly the triplets (i, j', k) with j' < j of distinct jet-0 constituents |
| TripletEnumeration.OuterMembers | plots/plotsDennis/analysis/exampleAnalysis.py:146-166 | the outer loop up to i accepts exactly the triplets with first index below i of distinct jet-0 constituents |
| TripletEnumeration.InnerOrdered | plots/plotsDennis/analysis/exampleAnalysis.py:160-166 | the inner loop's triplets are in strictly increasing lexicographic order |
| TripletEnumeration.MiddleOrdered | plots/plotsDennis/analysis/exampleAnalysis.py:152-166 | the middle loop's triplets are in strictly increasing lexicographic order |
| TripletEnumeration.OuterOrdered | plots/plotsDennis/analysis/exampleAnalysis.py:146-166 | the outer loop's triplets are in strictly increasing lexicographic order |
| TripletEnumeration.OrderedTripletsEnumerate | plots/plotsDennis/analysis/exampleAnalysis.py:146-166 | without the cap the loops visit exactly the ordered triplets of pairwise-distinct jet-0 constituents, each once, in strict lexicographic order |
| TripletEnumeration.EnumerationPrefix | plots/plotsDennis/analysis/exampleAnalysis.py:146-166 | what the loops have accepted at any (i, j, k) is a prefix of the whole enumeration |
| TripletEnumeration.MiddleSkip | plots/plotsDennis/analysis/exampleAnalysis.py:155-158 | a middle iteration whose j is outside jet 0 or equal to i, or whose i is outside jet 0, accepts nothing |
| TripletEnumeration.OuterSkip | plots/plotsDennis/analysis/exampleAnalysis.py:149-150 | an outer iteration whose i is outside jet 0 accepts nothing |
| TripletEnumeration.InnerLength | plots/plotsDennis/analysis/exampleAnalysis.py:160-166 | for distinct jet-0 constituents i and j the inner loop up to k accepts the jet-0 constituents below k other than i and j |
| TripletEnumeration.MiddleLength | plots/plotsDennis/analysis/exampleAnalysis.py:152-166 | for a jet-0 constituent i the middle loop up to j accepts (jet-0 constituents below j other than i) times (m - 2) triplets |
| TripletEnumeration.OuterLength | plots/plotsDennis/analysis/exampleAnalysis.py:146-166 | the outer loop up to i accepts (jet-0 constituents below i) times (m - 1)(m - 2) triplets |
| TripletEnumeration.OrderedTripletsCount | plots/plotsDennis/analysis/exampleAnalysis.py:146-166 | without the cap there are m(m - 1)(m - 2) triplets for m constituents in jet 0 |
| Correlators.InnerAdvance | plots/plotsDennis/analysis/exampleAnalysis.py:160-172 | one inner iteration below the cap appends dR12 + dR13 + dR23 exactly when (i, j, k) is accepted |
| Correlators.MiddlePass | plots/plotsDennis/analysis/exampleAnalysis.py:155-158 | a skipped middle iteration leaves the list unchanged |
| Correlators.OuterPass | plots/plotsDennis/analysis/exampleAnalysis.py:149-150 | a skipped outer iteration leaves the list unchanged |
| Correlators.CapReachedAt | plots/plotsDennis/analysis/exampleAnalysis.py:161-172 | when an append brings the list to 10 values, the list is the values of the first 10 triplets of the whole enumeration |
| Correlators.EndBelowCap | plots/plotsDennis/analysis/exampleAnalysis.py:146-174 | when the loops end below the cap, the list is the values of the whole enumeration |
| Correlators.RunKConsistent | plots/plotsDennis/analysis/exampleAnalysis.py:160-172 | finishing the inner loop keeps the list equal to the values of what was accepted, or to the final capped list once 10 values are in it |
| Correlators.RunJConsistent | plots/plotsDennis/analysis/exampleAnalysis.py:152-172 | finishing the middle loop keeps the list equal to the values of what was accepted, or to the final capped list once 10 values are in it |
| Correlators.RunIConsistent | plots/plotsDennis/analysis/exampleAnalysis.py:146-172 | finishing the outer loop keeps the list equal to the values of what was accepted, or to the final capped list once 10 values are in it |
| Correlators.RunIsCorrelatorValues | plots/plotsDennis/analysis/exampleAnalysis.py:141-174 | the three loops from an empty list with the shared cap produce the values of the first min(10, all) triplets of the enumeration |
| Correlators.Correlators | plots/plotsDennis/analysis/exampleAnalysis.py:140-175 | the method writes exactly CorrelatorValues as deltaR |
| Correlators.CorrelatorValuesPrefix | plots/plotsDennis/analysis/exampleAnalysis.py:144-174 | deltaR has min(10, m(m - 1)(m - 2)) entries, and entry q is dR12 + dR13 + dR23 of the q-th triplet of the enumeration, whose indices are pairwise distinct jet-0 constituents |
| Correlators.CorrelatorValuesSmallJets | plots/plotsDennis/analysis/exampleAnalysis.py:146-172 | fewer than 3 constituents in jet 0 give no values; exactly 3 give 6 |
| AnalysisSequence.RunSequence | plots/plotsDennis/analysis/exampleAnalysis.py:105-175 | after MatchToTop, JetPt and Correlators every derived attribute is its stage's function of the record; the record is read-only, so a second run writes the same attributes |

## Left out

- ROOT batch mode, canvases and `TLatex` labels: calls into a foreign graphics library.
- Argument parsing and loggers: I/O and configuration.
- Sample selection, styles, weights and `Stack`: bookkeeping over external objects.
- The plot registry, `plotting.fill` and `drawPlots`: histogram filling, rendering and file output in an external library. Running the sequence on each event is modelled by `AnalysisSequence.RunSequence`. The event loop of the external reader is not part of this model.
- `read_variables`: the reader's schema. The record keeps only the columns the stages read directly; the rest enter through the distance.
- `TLorentzVector.SetPtEtaPhiM` and `DeltaR`: floating-point kinematics, with the square root and the wrapping of phi. The distance is an uninterpreted real-valued function of two particle indices. Symmetry and a zero distance to itself are not assumed, and no property of the model needs them.
- TopMatching.MatchToTop: `jet_matched.M()` is modelled as the stored jet mass. The mass recomputed from the four-vector is floating-point kinematics, and its value for a negative stored mass is not modelled.
- TopMatching.MatchToTop: `minDR` is the real 1000.0 where the source starts from the integer 1000. The two compare equally with every distance.
- Floating point: distances and pts are mathematical reals. Rounding and NaN arithmetic are not modelled, and the NaN sentinel of `mjet_matched` is `None`.
- The `sample` argument of every stage: no stage reads it.
- Exceptions for missing columns: no stage handles them, and the record makes every count the length of its column.
