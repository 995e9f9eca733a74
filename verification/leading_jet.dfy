/**
 * The JetPt stage: scan the jets keeping the running maximum pt, which starts
 * at 0, and its index, which starts at -1; a jet replaces them only when its
 * pt is strictly greater. The index is written as indexmax.
 */
module LeadingJet {
  import opened Events

  const NoJet: int := -1

  /** The running maximum that belongs to index r: 0 before any jet was kept. */
  function PtMax(pt: seq<real>, r: int): real
    requires -1 <= r < |pt|
  {
    if r == NoJet then 0.0 else pt[r]
  }

  /** The index the scan holds after visiting every jet of pt. */
  function LeadingJetIndex(pt: seq<real>): (r: int)
    ensures -1 <= r < |pt|
  {
    if pt == [] then NoJet
    else
      var r := LeadingJetIndex(pt[..|pt| - 1]);
      if pt[|pt| - 1] > PtMax(pt[..|pt| - 1], r) then |pt| - 1 else r
  }

  method JetPt(event: Event)
    modifies event`indexmax
    ensures event.indexmax == LeadingJetIndex(event.rec.jetPt)
  {
    var pt := event.rec.jetPt;
    var ptmax: real := 0.0;
    var indexmax := NoJet;
    for i := 0 to |pt|
      invariant indexmax == LeadingJetIndex(pt[..i])
      invariant ptmax == PtMax(pt[..i], indexmax)
    {
      assert pt[..i + 1][..i] == pt[..i];
      if pt[i] > ptmax {
        ptmax := pt[i];
        indexmax := i;
      }
    }
    assert pt[..|pt|] == pt;
    event.indexmax := indexmax;
  }

  /**
   * indexmax is -1 exactly when no jet has positive pt (in particular when
   * there are no jets); otherwise it indexes a jet of maximal pt, and every
   * jet before it has strictly smaller pt, so the first maximum wins.
   */
  lemma {:induction false} LeadingJetIndexIsFirstMaximum(pt: seq<real>)
    ensures var r := LeadingJetIndex(pt);
      && (r == NoJet <==> forall q :: 0 <= q < |pt| ==> pt[q] <= 0.0)
      && (r != NoJet ==>
            && 0 <= r < |pt| && pt[r] > 0.0
            && (forall q :: 0 <= q < |pt| ==> pt[q] <= pt[r])
            && (forall q :: 0 <= q < r ==> pt[q] < pt[r]))
  {
    if pt != [] {
      var init := pt[..|pt| - 1];
      LeadingJetIndexIsFirstMaximum(init);
      assert forall q :: 0 <= q < |init| ==> init[q] == pt[q];
    }
  }

  /**
   * With no jets indexmax is -1; with a single jet it is 0 when that jet's pt
   * is positive and -1 otherwise.
   */
  lemma FewJets(pt: seq<real>)
    ensures |pt| == 0 ==> LeadingJetIndex(pt) == NoJet
    ensures |pt| == 1 ==> LeadingJetIndex(pt) == if pt[0] > 0.0 then 0 else NoJet
  {
    LeadingJetIndexIsFirstMaximum(pt);
  }
}
