/** What the selections mean in gains, costs and envelopes, without their scores. */
module SelectionLaws {
  import opened Prelude
  import opened Sorting
  import opened OrderLaws
  import A = ActionSelection
  import T = TestSelection
  import I = InformationGain

  // ----- arithmetic

  /** x is the larger of two numbers. */
  predicate IsLarger(x: real, a: real, b: real) {
    x >= a && x >= b && (x == a || x == b)
  }

  lemma TimesLeq(x: real, y: real, z: real)
    requires x <= y && z >= 0.0
    ensures x * z <= y * z
  {
    assert (y - x) * z == y * z - x * z;
    Nonnegative(y - x, z);
  }

  lemma Nonnegative(x: real, y: real)
    requires x >= 0.0 && y >= 0.0
    ensures x * y >= 0.0
  {
  }

  lemma TimesLess(x: real, y: real, z: real)
    requires x < y && z > 0.0
    ensures x * z < y * z
  {
    assert (y - x) * z == y * z - x * z;
    Positive(y - x, z);
  }

  lemma Positive(x: real, y: real)
    requires x > 0.0 && y > 0.0
    ensures x * y > 0.0
  {
  }

  lemma Unquotient(g: real, x: real, q: real)
    requires x > 0.0 && q == g / x
    ensures q * x == g
  {
  }

  /** Comparing quotients is comparing cross products. */
  lemma CrossProducts(g: real, x: real, h: real, y: real)
    requires x > 0.0 && y > 0.0
    ensures h / y <= g / x <==> h * x <= g * y
    ensures h / y == g / x <==> h * x == g * y
  {
    var p, q := g / x, h / y;
    Unquotient(g, x, p);
    Unquotient(h, y, q);
    Positive(x, y);
    assert h * x == q * (x * y) && g * y == p * (x * y);
    if q <= p {
      TimesLeq(q, p, x * y);
    }
    if p < q {
      TimesLess(p, q, x * y);
    }
    if q < p {
      TimesLess(q, p, x * y);
    }
  }

  // ----- the graded selection

  predicate IsCost(w: A.PlannerWeights, c: A.ActionCandidate, x: real) {
    IsLarger(x, w.floor, c.directCost as real + w.time * c.time as real + w.risk * c.riskUnits as real)
  }

  lemma CostIs(w: A.PlannerWeights, c: A.ActionCandidate, x: real)
    requires IsCost(w, c, x)
    ensures x == w.GeneralizedCost(c)
  {
  }

  /**
   c gives, up to a millionth per unit of its cost, at least as much information per unit of generalized
   cost as every safe entry, the cost being the larger of the floor and direct cost, weighted time and
   weighted risk together.
   */
  ghost predicate WorthMost(s: A.Setting, catalog: seq<A.ActionCandidate>, c: A.ActionCandidate) {
    forall d, x, y :: d in catalog && d.safe && IsCost(s.weights, c, x) && IsCost(s.weights, d, y) ==>
      x > 0.0 && y > 0.0 && s.gain(d) * x <= (s.gain(c) + x / 1000000.0) * y
  }

  /** Whatever is selected names a safe catalog entry that is worth most. */
  lemma SelectedIsWorthMost(s: A.Setting, catalog: seq<A.ActionCandidate>, hypotheses: nat)
    requires s.weights.Valid() && A.Select(s, catalog, hypotheses).Ok?
    ensures var r := A.Select(s, catalog, hypotheses).value;
            exists i :: && 0 <= i < |catalog| && catalog[i].safe && catalog[i].id == r.id
                        && s.sha(catalog[i].action) == r.sha && WorthMost(s, catalog, catalog[i])
  {
    A.NearBest(s, catalog, hypotheses);
    PricedCatalog(s, catalog, hypotheses);
    hide A.Select, A.NearlyBest, A.Priced, WorthMost;
    var r := A.Select(s, catalog, hypotheses).value;
    var i :| && 0 <= i < |catalog| && catalog[i].safe && catalog[i].id == r.id
             && s.sha(catalog[i].action) == r.sha && A.NearlyBest(s, catalog, catalog[i]);
    NearlyBestIsWorthMost(s, catalog, catalog[i]);
  }

  lemma PricedCatalog(s: A.Setting, catalog: seq<A.ActionCandidate>, hypotheses: nat)
    requires A.Select(s, catalog, hypotheses).Ok?
    ensures A.Priced(s, catalog)
  {
  }

  lemma NearlyBestIsWorthMost(s: A.Setting, catalog: seq<A.ActionCandidate>, c: A.ActionCandidate)
    requires s.weights.Valid() && A.Priced(s, catalog) && c in catalog && c.safe && A.NearlyBest(s, catalog, c)
    ensures WorthMost(s, catalog, c)
  {
    hide A.ExactScore, A.PlannerWeights.GeneralizedCost, IsCost;
    forall d, x, y | d in catalog && d.safe && IsCost(s.weights, c, x) && IsCost(s.weights, d, y)
      ensures x > 0.0 && y > 0.0 && s.gain(d) * x <= (s.gain(c) + x / 1000000.0) * y
    {
      CostIs(s.weights, c, x);
      CostIs(s.weights, d, y);
      CostSign(s.weights, c);
      CostSign(s.weights, d);
      ScoreIs(s, c, x);
      ScoreIs(s, d, y);
      MillionthMore(s.gain(c), x, s.gain(d), y);
    }
  }

  lemma CostSign(w: A.PlannerWeights, c: A.ActionCandidate)
    requires w.Valid()
    ensures w.GeneralizedCost(c) >= 0.0
  {
  }

  lemma ScoreIs(s: A.Setting, c: A.ActionCandidate, x: real)
    requires x == s.weights.GeneralizedCost(c) && x != 0.0
    ensures A.ExactScore(s, c) == s.gain(c) / x
  {
  }

  lemma MillionthMore(g: real, x: real, h: real, y: real)
    requires x > 0.0 && y > 0.0 && h / y <= g / x + 1.0 / A.MICRO
    ensures h * x <= (g + x / 1000000.0) * y
  {
    var more, q, t := g + x / 1000000.0, h / y, g / x + 1.0 / 1000000.0;
    Unquotient(g, x, g / x);
    Unquotient(h, y, q);
    assert t * x == more;
    Positive(x, y);
    TimesLeq(q, t, x * y);
    assert q * (x * y) == h * x && t * (x * y) == more * y;
  }

  /** Entry i has the highest rounded score of the eligible ones, and the last hash among those with it. */
  ghost predicate LastHash(scores: seq<A.ActionScore>, i: nat)
    requires i < |scores|
  {
    forall a :: a in scores && a.eligible ==>
      || a.score < scores[i].score
      || (a.score == scores[i].score && TextPrecedes(a.sha, scores[i].sha))
  }

  lemma HighestIsLast(scores: seq<A.ActionScore>, i: nat)
    requires i < |scores| && A.Highest(scores, scores[i])
    ensures LastHash(scores, i)
  {
    hide TextPrecedes, TextLeq;
    forall a | a in scores && a.eligible
      ensures || a.score < scores[i].score
              || (a.score == scores[i].score && TextPrecedes(a.sha, scores[i].sha))
    {
      assert A.KeyLeq(a, scores[i]);
      TextLeqExactly(a.sha, scores[i].sha);
    }
  }

  /** What is selected has the highest rounded score, and among equals the hash that comes last. */
  lemma TiesGoToTheLastHash(s: A.Setting, catalog: seq<A.ActionCandidate>, hypotheses: nat)
    requires A.Select(s, catalog, hypotheses).Ok?
    ensures var r := A.Select(s, catalog, hypotheses).value;
            exists i :: && 0 <= i < |catalog| && catalog[i].safe && catalog[i].id == r.id
                        && |r.scores| == |catalog| && s.sha(catalog[i].action) == r.sha && LastHash(r.scores, i)
  {
    A.NeverSelectsRefused(s, catalog, hypotheses);
    hide A.Select, A.ScoreOf, A.Highest, LastHash;
    var r := A.Select(s, catalog, hypotheses).value;
    var i :| && 0 <= i < |catalog| && catalog[i].safe && catalog[i].id == r.id
             && s.sha(catalog[i].action) == r.sha && A.Highest(r.scores, r.scores[i]);
    HighestIsLast(r.scores, i);
  }

  /** n millionths are nearest to x, and even where x lies halfway. */
  predicate Nearest(n: int, x: real) {
    || n as real - 0.5 < x * 1000000.0 < n as real + 0.5
    || ((x * 1000000.0 == n as real - 0.5 || x * 1000000.0 == n as real + 0.5) && n % 2 == 0)
  }

  lemma HalfEvenExactly(x: real, n: int)
    ensures A.RoundHalfEven(x) == n <==> Nearest(n, x)
  {
    A.RoundingError(x);
    var y := x * 1000000.0;
    var below := y.Floor;
    assert below as real <= y < below as real + 1.0;
  }

  /** Every catalog entry is recorded under its ID and hash with its rounded cost; only safe ones are scored. */
  lemma ScoreSpelled(s: A.Setting, c: A.ActionCandidate, x: real)
    requires IsCost(s.weights, c, x)
    ensures var a := A.ScoreOf(s)(c);
            && a.id == c.id && a.sha == s.sha(c.action) && (a.eligible <==> c.safe) && Nearest(a.cost, x)
            && (c.safe ==> Nearest(a.gain, s.gain(c)) && (x != 0.0 ==> Nearest(a.score, s.gain(c) / x)))
            && (!c.safe ==> a.gain == 0 && a.score == 0)
  {
    hide A.RoundHalfEven, A.PlannerWeights.GeneralizedCost, IsCost, Nearest;
    CostIs(s.weights, c, x);
    HalfEvenExactly(x, A.RoundHalfEven(x));
    HalfEvenExactly(s.gain(c), A.RoundHalfEven(s.gain(c)));
    if x != 0.0 {
      ScoreIs(s, c, x);
      HalfEvenExactly(s.gain(c) / x, A.RoundHalfEven(s.gain(c) / x));
    }
  }

  /** The refusals of a selection in their order, each with its condition. */
  lemma RefusalsSpelled(s: A.Setting, catalog: seq<A.ActionCandidate>, hypotheses: nat)
    ensures A.Select(s, catalog, hypotheses) == Err(A.EmptyCatalog) <==> |catalog| == 0
    ensures A.Select(s, catalog, hypotheses) == Err(A.TooFewHypotheses) <==> |catalog| > 0 && hypotheses <= 1
    ensures A.Select(s, catalog, hypotheses) == Err(A.ZeroCost) <==>
            && |catalog| > 0 && hypotheses > 1
            && exists c :: c in catalog && c.safe && IsCost(s.weights, c, 0.0)
    ensures A.Select(s, catalog, hypotheses) == Err(A.NoEligibleAction) <==>
            |catalog| > 0 && hypotheses > 1 && forall c :: c in catalog ==> !c.safe
  {
    hide IsCost, A.ScoreOf, A.Top, A.Lookup, A.EligibleOf;
    forall c | c in catalog
      ensures IsCost(s.weights, c, 0.0) <==> s.weights.GeneralizedCost(c) == 0.0
    {
      ZeroCost(s.weights, c);
    }
    NoneEligible(s, catalog);
  }

  lemma ZeroCost(w: A.PlannerWeights, c: A.ActionCandidate)
    ensures IsCost(w, c, 0.0) <==> w.GeneralizedCost(c) == 0.0
  {
  }

  lemma NoneEligible(s: A.Setting, catalog: seq<A.ActionCandidate>)
    ensures A.EligibleOf(Image(catalog, A.ScoreOf(s))) == [] <==> forall c :: c in catalog ==> !c.safe
  {
    var scores := Image(catalog, A.ScoreOf(s));
    assert forall i :: 0 <= i < |catalog| ==> scores[i].eligible == catalog[i].safe;
    hide A.ScoreOf, A.EligibleOf;
    if exists c :: c in catalog && c.safe {
      var i :| 0 <= i < |catalog| && catalog[i].safe;
      assert scores[i] in scores;
      assert scores[i] in A.EligibleOf(scores);
    }
    if A.EligibleOf(scores) != [] {
      var a := A.EligibleOf(scores)[0];
      var i :| 0 <= i < |scores| && scores[i] == a;
      assert catalog[i] in catalog && catalog[i].safe;
    }
  }

  // ----- the planner's selection

  datatype Violation =
    NotApproved | OtherAuthority | NotAllowed | TooRisky | MissingPrecondition | OtherReceipt | Unverified

  /** The ways a test can fall outside the safety envelope. */
  predicate Violates(c: T.Candidate, e: T.Envelope, verify: T.Verifier, v: Violation) {
    match v
    case NotApproved => !c.approved
    case OtherAuthority => c.authority != e.authority
    case NotAllowed => forall id :: id in e.allowed ==> id != c.id
    case TooRisky => c.risk > e.maxRisk
    case MissingPrecondition => exists p :: p in c.preconditions && p !in e.satisfied
    case OtherReceipt => e.receipt.Some? && c.receipt != e.receipt
    case Unverified =>
      c.authority == T.Testbed &&
      match verify(c, e)
      case None => true
      case Some(h) => c.receipt != Some(h) || e.receipt != Some(h)
  }

  /** A test is eligible exactly when it falls outside in none of the seven ways. */
  lemma EligibleExactly(c: T.Candidate, e: T.Envelope, verify: T.Verifier)
    ensures T.Eligible(c, e, verify) <==> forall v :: !Violates(c, e, verify, v)
  {
    if T.Eligible(c, e, verify) {
      forall v
        ensures !Violates(c, e, verify, v)
      {
      }
    }
    if forall v :: !Violates(c, e, verify, v) {
      assert !Violates(c, e, verify, NotApproved) && !Violates(c, e, verify, OtherAuthority);
      assert !Violates(c, e, verify, NotAllowed) && !Violates(c, e, verify, TooRisky);
      assert !Violates(c, e, verify, MissingPrecondition) && !Violates(c, e, verify, OtherReceipt);
      assert !Violates(c, e, verify, Unverified);
    }
  }

  predicate IsDenominator(w: T.Weights, c: T.Candidate, x: real) {
    IsLarger(x, w.floor, c.cost + w.time * c.duration + w.risk * c.risk)
  }

  lemma DenominatorIs(w: T.Weights, c: T.Candidate, x: real)
    requires IsDenominator(w, c, x)
    ensures x == T.Denominator(c, w)
  {
  }

  /** With equal gain per cost: cheaper first, then less risky, then the earlier ID. */
  predicate TieBreak(c: T.Candidate, d: T.Candidate) {
    || c.cost < d.cost
    || (c.cost == d.cost && c.risk < d.risk)
    || (c.cost == d.cost && c.risk == d.risk && TextPrecedes(c.id, d.id))
  }

  /**
   What the planner selects violates nothing in the envelope, and against every candidate that violates
   nothing it has the larger gain per unit of cost, or the same and wins the tie.
   */
  lemma BestSpelled(log2: real -> real, prior: I.Dict, w: T.Weights, e: T.Envelope, verify: T.Verifier,
                    candidates: seq<T.Candidate>, c: T.Candidate, d: T.Candidate, x: real, y: real)
    requires w.Valid() && T.Best(log2, prior, w, e, verify, candidates, c)
    requires IsDenominator(w, c, x) && IsDenominator(w, d, y)
    ensures forall v :: !Violates(c, e, verify, v)
    ensures x > 0.0 && y > 0.0
    ensures d in candidates && (forall v :: !Violates(d, e, verify, v)) ==>
              var mine, other := I.MutualInformation(log2, prior, c.outcomes) * y,
                                 I.MutualInformation(log2, prior, d.outcomes) * x;
              other < mine || (other == mine && TieBreak(c, d))
  {
    hide T.Eligible, T.Denominator, Violates, I.MutualInformation;
    EligibleExactly(c, e, verify);
    EligibleExactly(d, e, verify);
    DenominatorIs(w, c, x);
    DenominatorIs(w, d, y);
    T.DenominatorPositive(c, w);
    T.DenominatorPositive(d, w);
    CrossProducts(I.MutualInformation(log2, prior, c.outcomes), x, I.MutualInformation(log2, prior, d.outcomes), y);
    TextLeqExactly(c.id, d.id);
  }
}
