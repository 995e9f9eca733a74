/**
 * The sequence of per-event stages, in the order they are appended to it:
 * MatchToTop, then JetPt, then Correlators. Each stage reads only the event's
 * record and writes its own attributes, so after the sequence every derived
 * attribute is the function of the record that its stage specifies.
 */
module AnalysisSequence {
  import opened Events
  import opened TopMatching
  import opened LeadingJet
  import opened Correlators

  method RunSequence(event: Event)
    requires event.rec.WellFormed()
    modifies event
    ensures MatchFeatures(event.mjetMatched, event.minDR) == MatchOutcome(event.rec)
    ensures event.indexmax == LeadingJetIndex(event.rec.jetPt)
    ensures event.deltaR == CorrelatorValues(event.rec)
  {
    MatchToTop(event);
    JetPt(event);
    Correlators.Correlators(event);
  }
}
