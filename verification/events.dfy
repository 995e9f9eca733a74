/**
 * The per-event record the tree reader hands to every sequence stage, and the
 * event object onto which the stages write their derived features.
 *
 * The columns the stages read directly (pdgIds, jet pt and mass, constituent
 * jet indices) are kept as data. The other kinematic columns (pt, eta, phi,
 * mass of truth particles and constituents, eta and phi of jets) enter the
 * stages only through the angular distance of two four-vectors, so the record
 * carries that distance as two uninterpreted functions of particle indices
 * instead.
 */
module Events {
  import opened Wrappers

  datatype EventRecord = EventRecord(
    genPdgId: seq<int>,                // GenPart_pdgId; its length is nGenPart
    jetPt: seq<real>,                  // PFJetAK8_pt; its length is nPFJetAK8
    jetMass: seq<real>,                // PFJetAK8_mass, parallel to jetPt
    consJetIndex: seq<int>,            // PFJetAK8_cons_jetIndex; its length is nPFJetAK8_cons
    genJetDeltaR: (nat, nat) -> real,  // DeltaR of truth particle g and jet j
    consDeltaR: (nat, nat) -> real)    // DeltaR of constituents a and b, in that argument order
  {
    function NGenPart(): nat { |genPdgId| }
    function NJets(): nat { |jetPt| }
    function NCons(): nat { |consJetIndex| }

    /** The jet columns are parallel arrays of one length. */
    predicate WellFormed() { |jetMass| == |jetPt| }
  }

  /**
   * One event: the read-only record plus the attributes the sequence stages
   * set on it (mjet_matched, minDR, indexmax, deltaR). In the analysis these
   * attributes do not exist until a stage writes them; the initial values the
   * constructor gives them are this model's choice.
   */
  class Event {
    const rec: EventRecord
    var mjetMatched: Option<real>  // None for NaN
    var minDR: real
    var indexmax: int
    var deltaR: seq<real>

    constructor (rec: EventRecord)
      ensures this.rec == rec
      ensures mjetMatched == None && minDR == 1000.0 && indexmax == -1 && deltaR == []
    {
      this.rec := rec;
      mjetMatched := None;
      minDR := 1000.0;
      indexmax := -1;
      deltaR := [];
    }
  }
}
