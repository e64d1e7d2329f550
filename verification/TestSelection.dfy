/** The planner's selection of the next test by expected information gain per unit cost. */
module TestSelection {
  import opened Prelude
  import opened Sorting
  import opened InformationGain

  datatype Authority = Testbed | Offline(name: string)

  datatype Candidate = Candidate(
    id: Id,
    authority: Authority,
    approved: bool,
    cost: real,
    duration: real,
    risk: real,
    preconditions: set<string>,
    receipt: Option<string>,
    outcomes: seq<Outcome>)

  datatype Envelope = Envelope(
    authority: Authority,
    allowed: seq<Id>,
    maxRisk: real,
    satisfied: set<string>,
    receipt: Option<string>)

  datatype Weights = Weights(time: real, risk: real, floor: real) {
    predicate Valid() {
      time >= 0.0 && risk >= 0.0 && floor > 0.0
    }
  }

  /** The approval check: the verified receipt hash, or None when verification fails. */
  type Verifier = (Candidate, Envelope) -> Option<string>

  predicate CandidateValid(c: Candidate) {
    TestValid(c.outcomes) && c.cost >= 0.0 && c.duration >= 0.0 && 0.0 <= c.risk <= 1.0
  }

  predicate Eligible(c: Candidate, e: Envelope, verify: Verifier) {
    && c.approved && c.authority == e.authority && c.id in e.allowed && c.risk <= e.maxRisk
    && c.preconditions <= e.satisfied
    && (e.receipt == None || c.receipt == e.receipt)
    && (c.authority == Testbed ==>
          verify(c, e).Some? && c.receipt == verify(c, e) && e.receipt == verify(c, e))
  }

  function Denominator(c: Candidate, w: Weights): real {
    var total := c.cost + w.time * c.duration + w.risk * c.risk;
    if total < w.floor then w.floor else total
  }

  datatype Scored = Scored(utility: real, candidate: Candidate, gain: real)

  /** The sort key (-utility, cost, risk, id), compared lexicographically. */
  predicate ScoreLeq(a: Scored, b: Scored) {
    || a.utility > b.utility
    || (a.utility == b.utility &&
        (|| a.candidate.cost < b.candidate.cost
         || (a.candidate.cost == b.candidate.cost &&
             (|| a.candidate.risk < b.candidate.risk
              || (a.candidate.risk == b.candidate.risk && TextLeq(a.candidate.id, b.candidate.id))))))
  }

  lemma ScoreOrder()
    ensures TotalPreorder(ScoreLeq)
    ensures forall a, b :: ScoreLeq(a, b) && ScoreLeq(b, a) ==> a.candidate.id == b.candidate.id
  {
    TextOrder();
  }

  function Score(log2: real -> real, prior: Dict, w: Weights, c: Candidate): Scored
    requires w.Valid()
  {
    var gain := MutualInformation(log2, prior, c.outcomes);
    Scored(gain / Denominator(c, w), c, gain)
  }

  /** c is eligible and no eligible candidate comes before it. */
  ghost predicate Best(log2: real -> real, prior: Dict, w: Weights, e: Envelope, verify: Verifier,
                       candidates: seq<Candidate>, c: Candidate)
    requires w.Valid()
  {
    && c in candidates && Eligible(c, e, verify)
    && forall d :: d in candidates && Eligible(d, e, verify) ==>
         ScoreLeq(Score(log2, prior, w, c), Score(log2, prior, w, d))
  }

  /** With distinct test IDs there is at most one best candidate, whatever the order of the input. */
  lemma BestUnique(log2: real -> real, prior: Dict, w: Weights, e: Envelope, verify: Verifier,
                   xs: seq<Candidate>, ys: seq<Candidate>, c: Candidate, d: Candidate)
    requires w.Valid() && multiset(xs) == multiset(ys)
    requires forall i, j :: 0 <= i < j < |xs| ==> xs[i].id != xs[j].id
    requires Best(log2, prior, w, e, verify, xs, c) && Best(log2, prior, w, e, verify, ys, d)
    ensures c == d
  {
    hide Score, Eligible;
    assert forall x :: (x in xs <==> x in multiset(xs)) && (x in ys <==> x in multiset(ys));
    ScoreOrder();
    ScoreKeeps(log2, prior, w, c);
    ScoreKeeps(log2, prior, w, d);
    hide ScoreLeq;
    assert c.id == d.id;
    var i :| 0 <= i < |xs| && xs[i] == c;
    var j :| 0 <= j < |xs| && xs[j] == d;
  }

  lemma ScoreKeeps(log2: real -> real, prior: Dict, w: Weights, c: Candidate)
    requires w.Valid()
    ensures Score(log2, prior, w, c).candidate == c
  {
  }

  datatype SelectionError = NoEligibleTest | NonDiscriminatingTest | HypothesisMismatch

  lemma DenominatorPositive(c: Candidate, w: Weights)
    requires w.Valid()
    ensures Denominator(c, w) > 0.0
  {
  }

  lemma UtilitySign(gain: real, denominator: real)
    requires denominator > 0.0
    ensures gain >= 0.0 ==> gain / denominator >= 0.0
    ensures gain == 0.0 <==> gain / denominator == 0.0
  {
    var q := gain / denominator;
    assert q * denominator == gain;
  }

  /** Some eligible candidate does not model exactly the current hypotheses. */
  predicate Mismatched(posterior: Dict, e: Envelope, verify: Verifier, candidates: seq<Candidate>) {
    exists c | c in candidates :: Eligible(c, e, verify) && !Models(c.outcomes, posterior)
  }

  /**
   Scores every eligible candidate in order, sorts by the key and takes the first.  The result is the
   unique best candidate; the refusals say exactly why there is none.
   */
  method SelectDiscriminatingTest(
    log2: real -> real, ghost log2e: real, posterior: Dict, candidates: seq<Candidate>, e: Envelope,
    w: Weights, verify: Verifier)
    returns (r: Result<Scored, SelectionError>)
    requires IsLog2(log2, log2e) && Prior(posterior) && w.Valid()
    requires forall c :: c in candidates ==> CandidateValid(c)
    ensures r == Err(HypothesisMismatch) <==> Mismatched(posterior, e, verify, candidates)
    ensures r == Err(NoEligibleTest) <==> forall c :: c in candidates ==> !Eligible(c, e, verify)
    ensures r == Err(NonDiscriminatingTest) <==>
              && !Mismatched(posterior, e, verify, candidates)
              && (exists c :: c in candidates && Eligible(c, e, verify))
              && forall c :: c in candidates && Eligible(c, e, verify) ==>
                   MutualInformation(log2, posterior, c.outcomes) == 0.0
    ensures r.Ok? ==>
              && Best(log2, posterior, w, e, verify, candidates, r.value.candidate)
              && r.value == Score(log2, posterior, w, r.value.candidate) && r.value.gain > 0.0
  {
    hide IsLog2, Prior, Models, TestValid, Eligible, MutualInformation, Denominator, ScoreLeq;
    var scored: seq<Scored> := [];
    for i := 0 to |candidates|
      invariant forall s :: s in scored ==>
                  s.candidate in candidates && Eligible(s.candidate, e, verify) &&
                  Models(s.candidate.outcomes, posterior) && s == Score(log2, posterior, w, s.candidate)
      invariant forall c :: c in candidates[..i] && Eligible(c, e, verify) ==> Score(log2, posterior, w, c) in scored
    {
      var c := candidates[i];
      assert c in candidates && candidates[..i + 1] == candidates[..i] + [c];
      if Eligible(c, e, verify) {
        var gain := GainOf(log2, log2e, posterior, c);
        if gain.None? {
          assert Mismatched(posterior, e, verify, candidates);
          return Err(HypothesisMismatch);
        }
        DenominatorPositive(c, w);
        scored := scored + [Scored(gain.value / Denominator(c, w), c, gain.value)];
      }
    }
    assert candidates[..|candidates|] == candidates;
    NoMismatch(log2, posterior, e, verify, candidates, w, scored);
    if scored == [] {
      return Err(NoEligibleTest);
    }
    ghost var unsorted := scored;
    scored := Sort(scored, ScoreLeq);
    LeastOfSorted(unsorted, scored);
    var first := scored[0];
    FirstIsBest(log2, posterior, w, e, verify, candidates, unsorted, first);
    assert unsorted[0] in unsorted;
    if first.gain <= 0.0 {
      ZeroGains(log2, log2e, posterior, w, e, verify, candidates, unsorted, first);
      return Err(NonDiscriminatingTest);
    }
    r := Ok(first);
  }

  lemma ScoreIn(log2: real -> real, prior: Dict, w: Weights, scored: seq<Scored>, c: Candidate)
    requires w.Valid() && Score(log2, prior, w, c) in scored
    requires forall s :: s in scored ==> Models(s.candidate.outcomes, prior)
    ensures Models(c.outcomes, prior)
  {
    hide Models, MutualInformation, Denominator;
    assert Score(log2, prior, w, c).candidate == c;
  }

  lemma NoMismatch(
    log2: real -> real, prior: Dict, e: Envelope, verify: Verifier, candidates: seq<Candidate>, w: Weights,
    scored: seq<Scored>)
    requires w.Valid()
    requires forall s :: s in scored ==> Models(s.candidate.outcomes, prior)
    requires forall c :: c in candidates && Eligible(c, e, verify) ==> Score(log2, prior, w, c) in scored
    ensures !Mismatched(prior, e, verify, candidates)
  {
    hide Models, Score, Eligible;
    forall c | c in candidates && Eligible(c, e, verify)
      ensures Models(c.outcomes, prior)
    {
      ScoreIn(log2, prior, w, scored, c);
    }
  }

  lemma FirstIsBest(log2: real -> real, prior: Dict, w: Weights, e: Envelope, verify: Verifier,
                    candidates: seq<Candidate>, scored: seq<Scored>, first: Scored)
    requires w.Valid() && first in scored && forall s :: s in scored ==> ScoreLeq(first, s)
    requires forall s :: s in scored ==>
               s.candidate in candidates && Eligible(s.candidate, e, verify) && s == Score(log2, prior, w, s.candidate)
    requires forall c :: c in candidates && Eligible(c, e, verify) ==> Score(log2, prior, w, c) in scored
    ensures Best(log2, prior, w, e, verify, candidates, first.candidate)
  {
    hide Score, ScoreLeq, Eligible;
  }

  lemma ZeroGains(log2: real -> real, log2e: real, prior: Dict, w: Weights, e: Envelope, verify: Verifier,
                  candidates: seq<Candidate>, scored: seq<Scored>, first: Scored)
    requires IsLog2(log2, log2e) && Prior(prior) && w.Valid()
    requires first in scored && first.gain <= 0.0 && forall s :: s in scored ==> ScoreLeq(first, s)
    requires forall s :: s in scored ==> Models(s.candidate.outcomes, prior) && s == Score(log2, prior, w, s.candidate)
    requires forall c :: c in candidates && Eligible(c, e, verify) ==> Score(log2, prior, w, c) in scored
    ensures forall c :: c in candidates && Eligible(c, e, verify) ==> MutualInformation(log2, prior, c.outcomes) == 0.0
  {
    hide IsLog2, Prior, Models, Eligible, MutualInformation, Denominator;
    forall c | c in candidates && Eligible(c, e, verify)
      ensures MutualInformation(log2, prior, c.outcomes) == 0.0
    {
      var s := Score(log2, prior, w, c);
      assert s in scored && s.candidate == c;
      GainSign(log2, log2e, prior, c.outcomes);
      GainSign(log2, log2e, prior, first.candidate.outcomes);
      DenominatorPositive(c, w);
      DenominatorPositive(first.candidate, w);
      UtilitySign(s.gain, Denominator(c, w));
      UtilitySign(first.gain, Denominator(first.candidate, w));
      assert first.utility >= s.utility;
    }
  }

  lemma LeastOfSorted(unsorted: seq<Scored>, sorted: seq<Scored>)
    requires unsorted != [] && sorted == Sort(unsorted, ScoreLeq)
    ensures sorted != [] && sorted[0] in unsorted
    ensures forall s :: s in unsorted ==> ScoreLeq(sorted[0], s)
  {
    ScoreOrder();
    SortPermutes(unsorted, ScoreLeq);
    SortAscending(unsorted, ScoreLeq);
    hide ScoreLeq;
    var first := sorted[0];
    assert first in multiset(sorted);
    forall s | s in unsorted
      ensures ScoreLeq(first, s)
    {
      assert s in multiset(sorted);
      var i :| 0 <= i < |sorted| && sorted[i] == s;
      assert ScoreLeq(s, s);
    }
  }

  /** The gain of a candidate under a normalized posterior, None when it models other hypotheses. */
  method GainOf(log2: real -> real, ghost log2e: real, posterior: Dict, c: Candidate) returns (gain: Option<real>)
    requires IsLog2(log2, log2e) && Prior(posterior) && CandidateValid(c)
    ensures gain.Some? <==> Models(c.outcomes, posterior)
    ensures gain.Some? ==> gain == Some(MutualInformation(log2, posterior, c.outcomes))
  {
    NormalizedIsPrior(posterior);
    hide IsLog2, MutualInformation, Normalized;
    var r := ExpectedInformationGain(log2, log2e, posterior, c.outcomes);
    gain := if r.Ok? then Some(r.value) else None;
  }
}
