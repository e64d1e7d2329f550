/** Two observations in turn, of outcomes of two modeled tests. */
module Observations {
  import opened Prelude
  import opened RealSums
  import opened InformationGain
  import Diagnosis

  /** Observing outcome a of one test and then outcome b of another. */
  function Twice(prior: Dict, first: seq<Outcome>, a: Id, second: seq<Outcome>, b: Id): Result<Dict, Failure> {
    var r := PosteriorAfter(prior, first, a);
    if r.Err? then r else PosteriorAfter(r.value, second, b)
  }

  function JointTwice(prior: Dict, o: Outcome, p: Outcome): Id -> real {
    (k: Id) => At(prior.at, k) * (At(o.probability, k) * At(p.probability, k))
  }

  /** The probability of both outcomes. */
  function BothProbability(prior: Dict, o: Outcome, p: Outcome): real {
    SumOf(prior.keys, JointTwice(prior, o, p))
  }

  /** The prior conditioned on both outcomes. */
  function BothGiven(prior: Dict, o: Outcome, p: Outcome): Dict
    requires BothProbability(prior, o, p) > 0.0
  {
    Dict(prior.keys, map k | k in prior.keys :: JointTwice(prior, o, p)(k) / BothProbability(prior, o, p))
  }

  lemma Rearrange(x: real, a: real, b: real, n: real)
    requires n > 0.0
    ensures (x * a / n) * b == (1.0 / n) * (x * (a * b))
    ensures 1.0 / n > 0.0
  {
    Quotient(x * a, n);
    assert x * a * b == x * (a * b);
  }

  /** After the first outcome, the joint weight of the second is the double weight, up to the first's probability. */
  lemma SecondJoint(prior: Dict, o: Outcome, p: Outcome, n: real, k: Id)
    requires n == OutcomeProbability(prior, o) && n > 0.0 && k in prior.keys
    ensures Joint(PosteriorGiven(prior, o), p)(k) == (1.0 / n) * JointTwice(prior, o, p)(k)
    ensures 1.0 / n > 0.0
  {
    hide At, OutcomeProbability, PosteriorGiven;
    PosteriorValues(prior, o);
    Rearrange(At(prior.at, k), At(o.probability, k), At(p.probability, k), n);
  }

  lemma SecondProbability(prior: Dict, o: Outcome, p: Outcome, n: real)
    requires n == OutcomeProbability(prior, o) && n > 0.0
    ensures OutcomeProbability(PosteriorGiven(prior, o), p) == (1.0 / n) * BothProbability(prior, o, p)
    ensures 1.0 / n > 0.0
  {
    hide Joint, JointTwice, PosteriorGiven;
    PosteriorValues(prior, o);
    forall k | k in prior.keys
      ensures Joint(PosteriorGiven(prior, o), p)(k) == (1.0 / n) * JointTwice(prior, o, p)(k)
    {
      SecondJoint(prior, o, p, n, k);
    }
    Rearrange(0.0, 0.0, 0.0, n);
    SumTimes(prior.keys, 1.0 / n, JointTwice(prior, o, p), Joint(PosteriorGiven(prior, o), p));
  }

  lemma SecondPosterior(prior: Dict, o: Outcome, p: Outcome, n: real)
    requires n == OutcomeProbability(prior, o) && n > 0.0 && BothProbability(prior, o, p) > 0.0
    ensures OutcomeProbability(PosteriorGiven(prior, o), p) > 0.0
    ensures PosteriorGiven(PosteriorGiven(prior, o), p) == BothGiven(prior, o, p)
  {
    hide At, OutcomeProbability, BothProbability, JointTwice, Joint, PosteriorGiven;
    var q, m := PosteriorGiven(prior, o), BothProbability(prior, o, p);
    var d := OutcomeProbability(q, p);
    PosteriorValues(prior, o);
    SecondProbability(prior, o, p, n);
    Diagnosis.SameQuotient(0.0, 0.0, 1.0 / n, m, d);
    forall k | k in prior.keys
      ensures Joint(q, p)(k) / d == JointTwice(prior, o, p)(k) / m
    {
      SecondJoint(prior, o, p, n, k);
      Diagnosis.SameQuotient(Joint(q, p)(k), JointTwice(prior, o, p)(k), 1.0 / n, m, d);
    }
    GivenIs(q, p);
  }

  lemma GivenIs(q: Dict, p: Outcome)
    requires OutcomeProbability(q, p) > 0.0
    ensures PosteriorGiven(q, p) == Dict(q.keys, map k | k in q.keys :: Joint(q, p)(k) / OutcomeProbability(q, p))
  {
    hide At, OutcomeProbability;
  }

  lemma Impossible(prior: Dict, o: Outcome, p: Outcome)
    requires forall k :: k in prior.keys ==> At(prior.at, k) * At(o.probability, k) == 0.0
    ensures BothProbability(prior, o, p) == 0.0
  {
    hide At;
    forall k | k in prior.keys
      ensures JointTwice(prior, o, p)(k) == 0.0
    {
      Regroup(At(prior.at, k), At(o.probability, k), At(p.probability, k));
    }
    SumZeros(prior.keys, JointTwice(prior, o, p));
  }

  lemma StillModels(prior: Dict, outcomes: seq<Outcome>, o: Outcome)
    requires Prior(prior) && Models(outcomes, prior) && OutcomeProbability(prior, o) > 0.0
    ensures Models(outcomes, PosteriorGiven(prior, o))
  {
    hide At, OutcomeProbability, TestValid;
  }

  /**
   Two observations in turn give the prior conditioned on both outcomes, and are refused exactly when
   the outcomes cannot occur together.
   */
  lemma TwiceIsBoth(prior: Dict, first: seq<Outcome>, o: Outcome, second: seq<Outcome>, p: Outcome)
    requires Prior(prior) && Models(first, prior) && Models(second, prior) && o in first && p in second
    ensures BothProbability(prior, o, p) >= 0.0
    ensures BothProbability(prior, o, p) > 0.0 ==>
              Twice(prior, first, o.id, second, p.id) == Ok(BothGiven(prior, o, p))
    ensures BothProbability(prior, o, p) == 0.0 ==>
              Twice(prior, first, o.id, second, p.id) == Err(Massless)
  {
    hide Prior, Models, At, OutcomeProbability, BothProbability, PosteriorGiven, PosteriorAfter, BothGiven;
    ProbabilityNonNegative(prior, first, o);
    PosteriorAfterIsConditional(prior, first, o);
    var n := OutcomeProbability(prior, o);
    if n == 0.0 {
      Impossible(prior, o, p);
    } else {
      var q := PosteriorGiven(prior, o);
      PosteriorIsPrior(prior, first, o);
      StillModels(prior, second, o);
      ProbabilityNonNegative(q, second, p);
      PosteriorAfterIsConditional(q, second, p);
      SecondProbability(prior, o, p, n);
      UnscaleSign(1.0 / n, BothProbability(prior, o, p));
      if BothProbability(prior, o, p) > 0.0 {
        SecondPosterior(prior, o, p, n);
      }
    }
  }

  lemma UnscaleSign(c: real, x: real)
    requires c > 0.0 && c * x >= 0.0
    ensures x >= 0.0
    ensures x == 0.0 ==> c * x == 0.0
  {
  }

  lemma BothCommutes(prior: Dict, o: Outcome, p: Outcome)
    ensures BothProbability(prior, o, p) == BothProbability(prior, p, o)
    ensures forall k :: JointTwice(prior, o, p)(k) == JointTwice(prior, p, o)(k)
  {
    hide At;
    forall k
      ensures JointTwice(prior, o, p)(k) == JointTwice(prior, p, o)(k)
    {
      var a, b := At(o.probability, k), At(p.probability, k);
      assert a * b == b * a;
    }
    SumSame(prior.keys, JointTwice(prior, o, p), JointTwice(prior, p, o));
  }

  /** The order of two observations matters neither for the refusal nor for the posterior. */
  lemma ObservationsCommute(prior: Dict, first: seq<Outcome>, o: Outcome, second: seq<Outcome>, p: Outcome)
    requires Prior(prior) && Models(first, prior) && Models(second, prior) && o in first && p in second
    ensures Twice(prior, first, o.id, second, p.id) == Twice(prior, second, p.id, first, o.id)
  {
    hide Prior, Models, At, BothProbability, BothGiven, JointTwice, Twice;
    TwiceIsBoth(prior, first, o, second, p);
    TwiceIsBoth(prior, second, p, first, o);
    BothCommutes(prior, o, p);
    if BothProbability(prior, o, p) > 0.0 {
      SameBoth(prior, o, p);
    }
  }

  lemma SameBoth(prior: Dict, o: Outcome, p: Outcome)
    requires BothProbability(prior, o, p) > 0.0 && BothProbability(prior, p, o) > 0.0
    requires BothProbability(prior, o, p) == BothProbability(prior, p, o)
    ensures BothGiven(prior, o, p) == BothGiven(prior, p, o)
  {
    hide BothProbability, JointTwice;
    BothCommutes(prior, o, p);
    var n := BothProbability(prior, o, p);
    assert BothGiven(prior, o, p).at == map k | k in prior.keys :: JointTwice(prior, o, p)(k) / n;
    assert BothGiven(prior, p, o).at == map k | k in prior.keys :: JointTwice(prior, p, o)(k) / n;
  }
}
