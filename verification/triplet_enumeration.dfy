/**
 * The order in which the Correlators stage visits constituent triplets: three
 * nested loops over the constituent indices, outer i, middle j, inner k, each
 * skipping constituents outside the selected jet and indices equal to an
 * outer one. This module defines that enumeration, without the cap, and
 * proves what it is: every ordered triplet of pairwise-distinct constituents
 * of the jet, exactly once each, in lexicographic order, m * (m - 1) * (m - 2)
 * of them for m constituents in the jet.
 */
module TripletEnumeration {
  import opened Events

  /** The Correlators stage always uses the constituents of jet 0. */
  const CorrelatorJet: int := 0

  datatype Triplet = Triplet(i: nat, j: nat, k: nat)

  predicate InJet(rec: EventRecord, c: nat) {
    c < rec.NCons() && rec.consJetIndex[c] == CorrelatorJet
  }

  /** A triplet the innermost loop body reaches. */
  predicate Accepted(rec: EventRecord, t: Triplet) {
    && InJet(rec, t.i) && InJet(rec, t.j) && InJet(rec, t.k)
    && t.i != t.j && t.i != t.k && t.j != t.k
  }

  predicate LexLess(a: Triplet, b: Triplet) {
    a.i < b.i || (a.i == b.i && (a.j < b.j || (a.j == b.j && a.k < b.k)))
  }

  predicate StrictlyOrdered(ts: seq<Triplet>) {
    forall p, q :: 0 <= p < q < |ts| ==> LexLess(ts[p], ts[q])
  }

  /** Triplets (i, j, k') with k' < k that the inner loop accepts. */
  function InnerTriplets(rec: EventRecord, i: nat, j: nat, k: nat): seq<Triplet> {
    if k == 0 then []
    else InnerTriplets(rec, i, j, k - 1) + (if Accepted(rec, Triplet(i, j, k - 1)) then [Triplet(i, j, k - 1)] else [])
  }

  /** Triplets (i, j', k) with j' < j: the middle loop up to j. */
  function MiddleTriplets(rec: EventRecord, i: nat, j: nat): seq<Triplet> {
    if j == 0 then []
    else MiddleTriplets(rec, i, j - 1) + InnerTriplets(rec, i, j - 1, rec.NCons())
  }

  /** Triplets (i', j, k) with i' < i: the outer loop up to i. */
  function OuterTriplets(rec: EventRecord, i: nat): seq<Triplet> {
    if i == 0 then []
    else OuterTriplets(rec, i - 1) + MiddleTriplets(rec, i - 1, rec.NCons())
  }

  /** The whole uncapped enumeration. */
  function OrderedTriplets(rec: EventRecord): seq<Triplet> {
    OuterTriplets(rec, rec.NCons())
  }

  /** Number of constituents of the selected jet among the first c. */
  function CountInJet(rec: EventRecord, c: nat): nat {
    if c == 0 then 0 else CountInJet(rec, c - 1) + (if InJet(rec, c - 1) then 1 else 0)
  }

  function JetSize(rec: EventRecord): nat {
    CountInJet(rec, rec.NCons())
  }

  // ---------------------------------------------------------------------
  // Membership

  lemma {:induction false} InnerMembers(rec: EventRecord, i: nat, j: nat, k: nat)
    ensures forall t :: t in InnerTriplets(rec, i, j, k) <==> Accepted(rec, t) && t.i == i && t.j == j && t.k < k
  {
    if k > 0 {
      InnerMembers(rec, i, j, k - 1);
    }
  }

  lemma {:induction false} MiddleMembers(rec: EventRecord, i: nat, j: nat)
    ensures forall t :: t in MiddleTriplets(rec, i, j) <==> Accepted(rec, t) && t.i == i && t.j < j
  {
    if j > 0 {
      MiddleMembers(rec, i, j - 1);
      InnerMembers(rec, i, j - 1, rec.NCons());
    }
  }

  lemma {:induction false} OuterMembers(rec: EventRecord, i: nat)
    ensures forall t :: t in OuterTriplets(rec, i) <==> Accepted(rec, t) && t.i < i
  {
    if i > 0 {
      OuterMembers(rec, i - 1);
      MiddleMembers(rec, i - 1, rec.NCons());
    }
  }

  // ---------------------------------------------------------------------
  // Order

  lemma ConcatOrdered(a: seq<Triplet>, b: seq<Triplet>)
    requires StrictlyOrdered(a) && StrictlyOrdered(b)
    requires forall x, y :: x in a && y in b ==> LexLess(x, y)
    ensures StrictlyOrdered(a + b)
  {
    forall p, q | 0 <= p < q < |a + b|
      ensures LexLess((a + b)[p], (a + b)[q])
    {
      if q < |a| {
      } else if p >= |a| {
        assert (a + b)[p] == b[p - |a|] && (a + b)[q] == b[q - |a|];
      } else {
        assert (a + b)[p] in a && (a + b)[q] in b;
      }
    }
  }

  lemma {:induction false} InnerOrdered(rec: EventRecord, i: nat, j: nat, k: nat)
    ensures StrictlyOrdered(InnerTriplets(rec, i, j, k))
  {
    if k > 0 {
      InnerOrdered(rec, i, j, k - 1);
      InnerMembers(rec, i, j, k - 1);
      ConcatOrdered(InnerTriplets(rec, i, j, k - 1),
        if Accepted(rec, Triplet(i, j, k - 1)) then [Triplet(i, j, k - 1)] else []);
    }
  }

  lemma {:induction false} MiddleOrdered(rec: EventRecord, i: nat, j: nat)
    ensures StrictlyOrdered(MiddleTriplets(rec, i, j))
  {
    if j > 0 {
      MiddleOrdered(rec, i, j - 1);
      InnerOrdered(rec, i, j - 1, rec.NCons());
      MiddleMembers(rec, i, j - 1);
      InnerMembers(rec, i, j - 1, rec.NCons());
      ConcatOrdered(MiddleTriplets(rec, i, j - 1), InnerTriplets(rec, i, j - 1, rec.NCons()));
    }
  }

  lemma {:induction false} OuterOrdered(rec: EventRecord, i: nat)
    ensures StrictlyOrdered(OuterTriplets(rec, i))
  {
    if i > 0 {
      OuterOrdered(rec, i - 1);
      MiddleOrdered(rec, i - 1, rec.NCons());
      OuterMembers(rec, i - 1);
      MiddleMembers(rec, i - 1, rec.NCons());
      ConcatOrdered(OuterTriplets(rec, i - 1), MiddleTriplets(rec, i - 1, rec.NCons()));
    }
  }

  /**
   * The enumeration holds exactly the ordered triplets of pairwise-distinct
   * constituents of jet 0, in strictly increasing lexicographic order (so
   * each of them once).
   */
  lemma OrderedTripletsEnumerate(rec: EventRecord)
    ensures forall t :: t in OrderedTriplets(rec) <==> Accepted(rec, t)
    ensures StrictlyOrdered(OrderedTriplets(rec))
  {
    OuterMembers(rec, rec.NCons());
    OuterOrdered(rec, rec.NCons());
  }

  // ---------------------------------------------------------------------
  // Prefixes: each loop level only extends what the levels before produced

  lemma {:induction false} InnerPrefix(rec: EventRecord, i: nat, j: nat, k: nat, k': nat)
    requires k <= k'
    ensures InnerTriplets(rec, i, j, k) <= InnerTriplets(rec, i, j, k')
    decreases k'
  {
    if k < k' {
      InnerPrefix(rec, i, j, k, k' - 1);
    }
  }

  lemma {:induction false} MiddlePrefix(rec: EventRecord, i: nat, j: nat, j': nat)
    requires j <= j'
    ensures MiddleTriplets(rec, i, j) <= MiddleTriplets(rec, i, j')
    decreases j'
  {
    if j < j' {
      MiddlePrefix(rec, i, j, j' - 1);
    }
  }

  lemma {:induction false} OuterPrefix(rec: EventRecord, i: nat, i': nat)
    requires i <= i'
    ensures OuterTriplets(rec, i) <= OuterTriplets(rec, i')
    decreases i'
  {
    if i < i' {
      OuterPrefix(rec, i, i' - 1);
    }
  }

  lemma PrefixExtend(x: seq<Triplet>, a: seq<Triplet>, b: seq<Triplet>)
    requires a <= b
    ensures x + a <= x + b
  {
    assert (x + b)[..|x + a|] == x + b[..|a|];
  }

  lemma PrefixTrans(a: seq<Triplet>, b: seq<Triplet>, c: seq<Triplet>)
    requires a <= b && b <= c
    ensures a <= c
  {
    assert c[..|b|][..|a|] == c[..|a|];
  }

  lemma VisitedWithinMiddle(rec: EventRecord, i: nat, j: nat, k: nat)
    requires k <= rec.NCons()
    ensures OuterTriplets(rec, i) + MiddleTriplets(rec, i, j) + InnerTriplets(rec, i, j, k)
      <= OuterTriplets(rec, i) + MiddleTriplets(rec, i, j + 1)
  {
    var head := OuterTriplets(rec, i) + MiddleTriplets(rec, i, j);
    InnerPrefix(rec, i, j, k, rec.NCons());
    PrefixExtend(head, InnerTriplets(rec, i, j, k), InnerTriplets(rec, i, j, rec.NCons()));
  }

  lemma VisitedWithinOuter(rec: EventRecord, i: nat, j: nat)
    requires j < rec.NCons()
    ensures OuterTriplets(rec, i) + MiddleTriplets(rec, i, j + 1) <= OuterTriplets(rec, i + 1)
  {
    MiddlePrefix(rec, i, j + 1, rec.NCons());
    PrefixExtend(OuterTriplets(rec, i), MiddleTriplets(rec, i, j + 1), MiddleTriplets(rec, i, rec.NCons()));
  }

  /** What the loops have visited on reaching (i, j, k) is a prefix of the whole enumeration. */
  lemma EnumerationPrefix(rec: EventRecord, i: nat, j: nat, k: nat)
    requires i < rec.NCons() && j < rec.NCons() && k <= rec.NCons()
    ensures OuterTriplets(rec, i) + MiddleTriplets(rec, i, j) + InnerTriplets(rec, i, j, k) <= OrderedTriplets(rec)
  {
    VisitedWithinMiddle(rec, i, j, k);
    VisitedWithinOuter(rec, i, j);
    OuterPrefix(rec, i + 1, rec.NCons());
    PrefixTrans(OuterTriplets(rec, i) + MiddleTriplets(rec, i, j + 1), OuterTriplets(rec, i + 1), OrderedTriplets(rec));
    PrefixTrans(OuterTriplets(rec, i) + MiddleTriplets(rec, i, j) + InnerTriplets(rec, i, j, k),
      OuterTriplets(rec, i) + MiddleTriplets(rec, i, j + 1), OrderedTriplets(rec));
  }

  // ---------------------------------------------------------------------
  // One step of each loop

  lemma InnerStep(rec: EventRecord, i: nat, j: nat, k: nat)
    ensures InnerTriplets(rec, i, j, k + 1) ==
      if Accepted(rec, Triplet(i, j, k)) then InnerTriplets(rec, i, j, k) + [Triplet(i, j, k)]
      else InnerTriplets(rec, i, j, k)
  {
    assert InnerTriplets(rec, i, j, k) + [] == InnerTriplets(rec, i, j, k);
  }

  lemma MiddleSkip(rec: EventRecord, i: nat, j: nat)
    requires !(InJet(rec, i) && InJet(rec, j) && i != j)
    ensures MiddleTriplets(rec, i, j + 1) == MiddleTriplets(rec, i, j)
  {
    InnerEmpty(rec, i, j, rec.NCons());
    assert MiddleTriplets(rec, i, j) + [] == MiddleTriplets(rec, i, j);
  }

  lemma OuterSkip(rec: EventRecord, i: nat)
    requires !InJet(rec, i)
    ensures OuterTriplets(rec, i + 1) == OuterTriplets(rec, i)
  {
    MiddleEmpty(rec, i, rec.NCons());
    assert OuterTriplets(rec, i) + [] == OuterTriplets(rec, i);
  }

  // ---------------------------------------------------------------------
  // Counting

  lemma {:induction false} InnerEmpty(rec: EventRecord, i: nat, j: nat, k: nat)
    requires !(InJet(rec, i) && InJet(rec, j) && i != j)
    ensures InnerTriplets(rec, i, j, k) == []
  {
    if k > 0 {
      InnerEmpty(rec, i, j, k - 1);
    }
  }

  lemma {:induction false} MiddleEmpty(rec: EventRecord, i: nat, j: nat)
    requires !InJet(rec, i)
    ensures MiddleTriplets(rec, i, j) == []
  {
    if j > 0 {
      MiddleEmpty(rec, i, j - 1);
      InnerEmpty(rec, i, j - 1, rec.NCons());
    }
  }

  function Ind(b: bool): nat { if b then 1 else 0 }

  lemma {:induction false} InnerLength(rec: EventRecord, i: nat, j: nat, k: nat)
    requires InJet(rec, i) && InJet(rec, j) && i != j
    ensures |InnerTriplets(rec, i, j, k)| == CountInJet(rec, k) - Ind(i < k) - Ind(j < k)
  {
    if k > 0 {
      InnerLength(rec, i, j, k - 1);
    }
  }

  lemma MulAssoc(x: int, y: int, z: int)
    ensures x * y * z == x * (y * z)
  {
  }

  lemma MulSucc(x: int, y: int)
    ensures (x + 1) * y == x * y + y
  {
  }

  lemma {:induction false} MiddleLength(rec: EventRecord, i: nat, j: nat)
    requires InJet(rec, i)
    ensures |MiddleTriplets(rec, i, j)| == (CountInJet(rec, j) - Ind(i < j)) * (JetSize(rec) - 2)
  {
    if j > 0 {
      MiddleLength(rec, i, j - 1);
      if InJet(rec, j - 1) && j - 1 != i {
        InnerLength(rec, i, j - 1, rec.NCons());
        MulSucc(CountInJet(rec, j - 1) - Ind(i < j - 1), JetSize(rec) - 2);
      } else {
        InnerEmpty(rec, i, j - 1, rec.NCons());
      }
    }
  }

  lemma {:induction false} OuterLength(rec: EventRecord, i: nat)
    ensures |OuterTriplets(rec, i)| == CountInJet(rec, i) * ((JetSize(rec) - 1) * (JetSize(rec) - 2))
  {
    if i > 0 {
      OuterLength(rec, i - 1);
      if InJet(rec, i - 1) {
        MiddleLength(rec, i - 1, rec.NCons());
        MulSucc(CountInJet(rec, i - 1), (JetSize(rec) - 1) * (JetSize(rec) - 2));
      } else {
        MiddleEmpty(rec, i - 1, rec.NCons());
      }
    }
  }

  /** With m constituents in jet 0 there are m * (m - 1) * (m - 2) ordered triplets. */
  lemma OrderedTripletsCount(rec: EventRecord)
    ensures |OrderedTriplets(rec)| == JetSize(rec) * (JetSize(rec) - 1) * (JetSize(rec) - 2)
  {
    OuterLength(rec, rec.NCons());
    MulAssoc(JetSize(rec), JetSize(rec) - 1, JetSize(rec) - 2);
  }
}
