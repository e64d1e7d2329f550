/**
 Expected information gain of a test over a set of hypotheses.  A Python dict is its keys in
 insertion order with a map; probabilities are exact reals; the logarithm is any function with the
 usual laws.
 */
module InformationGain {
  import opened Prelude
  import opened RealSums

  type Id = string

  datatype Dict = Dict(keys: seq<Id>, at: map<Id, real>) {
    predicate Valid() {
      Distinct(keys) && at.Keys == set k | k in keys
    }
  }

  datatype Failure = Empty | Negative | Massless | Mismatch | UnknownOutcome

  datatype Outcome = Outcome(id: Id, probability: map<Id, real>)

  function At(m: map<Id, real>, k: Id): real {
    if k in m then m[k] else 0.0
  }

  /** The base-two logarithm: product law, value at 2, and the tangent at 1 (slope log2(e)), met only there. */
  ghost predicate IsLog2(log2: real -> real, log2e: real) {
    && log2e > 0.0
    && log2(2.0) == 1.0
    && (forall x, y :: ProductLaw(log2, x, y))
    && (forall x :: TangentLaw(log2, log2e, x))
  }

  ghost predicate ProductLaw(log2: real -> real, x: real, y: real) {
    x > 0.0 && y > 0.0 ==> log2(x * y) == log2(x) + log2(y)
  }

  ghost predicate TangentLaw(log2: real -> real, log2e: real, x: real) {
    x > 0.0 ==> log2(x) <= log2e * (x - 1.0) && (log2(x) == log2e * (x - 1.0) ==> x == 1.0)
  }

  function Values(d: Dict): Id -> real {
    (k: Id) => At(d.at, k)
  }

  function Mass(d: Dict): real {
    SumOf(d.keys, Values(d))
  }

  function Scaled(d: Dict, total: real): Dict
    requires total != 0.0
  {
    Dict(d.keys, map k | k in d.at :: d.at[k] / total)
  }

  function Normalized(d: Dict): Result<Dict, Failure> {
    if d.keys == [] then Err(Empty)
    else if exists k | k in d.at :: d.at[k] < 0.0 then Err(Negative)
    else if Mass(d) <= 0.0 then Err(Massless)
    else Ok(Scaled(d, Mass(d)))
  }

  function XLog(log2: real -> real, v: real): real {
    if v > 0.0 then v * log2(v) else 0.0
  }

  function EntropyBits(log2: real -> real, d: Dict): Result<real, Failure> {
    var n := Normalized(d);
    if n.Err? then Err(n.error) else Ok(-SumOf(n.value.keys, Terms(log2, n.value)))
  }

  function Terms(log2: real -> real, p: Dict): Id -> real {
    (k: Id) => XLog(log2, At(p.at, k))
  }

  function Joint(prior: Dict, o: Outcome): Id -> real {
    (k: Id) => At(prior.at, k) * At(o.probability, k)
  }

  function OutcomeProbability(prior: Dict, o: Outcome): real {
    SumOf(prior.keys, Joint(prior, o))
  }

  function PosteriorGiven(prior: Dict, o: Outcome): Dict
    requires OutcomeProbability(prior, o) > 0.0
  {
    Dict(prior.keys, map k | k in prior.keys :: At(prior.at, k) * At(o.probability, k) / OutcomeProbability(prior, o))
  }

  // ----- the contract of a discriminating test

  predicate TestValid(outcomes: seq<Outcome>) {
    && outcomes != []
    && (forall i, j :: 0 <= i < j < |outcomes| ==> outcomes[i].id != outcomes[j].id)
    && outcomes[0].probability.Keys != {}
    && (forall o :: o in outcomes ==> o.probability.Keys == outcomes[0].probability.Keys)
    && (forall o :: o in outcomes ==> forall k :: k in o.probability ==> 0.0 <= o.probability[k] <= 1.0)
    && (forall k :: k in outcomes[0].probability ==> SumOf(outcomes, Likelihood(k)) == 1.0)
  }

  function Likelihood(k: Id): Outcome -> real {
    (o: Outcome) => At(o.probability, k)
  }

  /** A normalized prior over exactly the modeled hypotheses. */
  predicate Prior(p: Dict) {
    p.Valid() && p.keys != [] && (forall k :: k in p.at ==> p.at[k] >= 0.0) && Mass(p) == 1.0
  }

  predicate Models(outcomes: seq<Outcome>, p: Dict) {
    TestValid(outcomes) && outcomes[0].probability.Keys == p.at.Keys
  }

  lemma PriorFacts(p: Dict)
    requires Prior(p)
    ensures forall k :: k in p.keys ==> k in p.at && At(p.at, k) >= 0.0
    ensures p.keys != [] && SumOf(p.keys, Values(p)) == 1.0
  {
  }

  lemma ModelFacts(prior: Dict, outcomes: seq<Outcome>, o: Outcome)
    requires Prior(prior) && Models(outcomes, prior) && o in outcomes
    ensures forall k :: k in prior.keys ==> k in o.probability && 0.0 <= At(o.probability, k) <= 1.0
  {
  }

  lemma ModelSums(prior: Dict, outcomes: seq<Outcome>, k: Id)
    requires Prior(prior) && Models(outcomes, prior) && k in prior.keys
    ensures SumOf(outcomes, Likelihood(k)) == 1.0
  {
  }

  // ----- the reference quantity: mutual information of hypothesis and outcome

  /** p*q*log2(q/total), zero where the joint probability is zero. */
  function Information(log2: real -> real, p: real, q: real, total: real): real {
    if p * q > 0.0 && total > 0.0 then p * q * log2(q / total) else 0.0
  }

  function Informations(log2: real -> real, prior: Dict, o: Outcome): Id -> real {
    (k: Id) => Information(log2, At(prior.at, k), At(o.probability, k), OutcomeProbability(prior, o))
  }

  function OutcomeInformation(log2: real -> real, prior: Dict, o: Outcome): real {
    SumOf(prior.keys, Informations(log2, prior, o))
  }

  function ByOutcome(log2: real -> real, prior: Dict): Outcome -> real {
    (o: Outcome) => OutcomeInformation(log2, prior, o)
  }

  function MutualInformation(log2: real -> real, prior: Dict, outcomes: seq<Outcome>): real {
    SumOf(outcomes, ByOutcome(log2, prior))
  }

  function Entropy(log2: real -> real, p: Dict): real {
    -SumOf(p.keys, Terms(log2, p))
  }

  /** One outcome's weighted posterior entropy; an impossible outcome contributes nothing. */
  function WeightedEntropy(log2: real -> real, prior: Dict, o: Outcome): real {
    var total := OutcomeProbability(prior, o);
    if total <= 0.0 then 0.0 else total * Entropy(log2, PosteriorGiven(prior, o))
  }

  function WeightedEntropies(log2: real -> real, prior: Dict): Outcome -> real {
    (o: Outcome) => WeightedEntropy(log2, prior, o)
  }

  function ExpectedEntropy(log2: real -> real, prior: Dict, outcomes: seq<Outcome>): real {
    SumOf(outcomes, WeightedEntropies(log2, prior))
  }

  // ----- normalization

  lemma ScaledMass(d: Dict, total: real)
    requires d.Valid() && total > 0.0
    ensures Scaled(d, total).Valid()
    ensures Mass(Scaled(d, total)) == Mass(d) / total
  {
    var scaled := Scaled(d, total);
    forall k | k in d.keys
      ensures Values(scaled)(k) == (1.0 / total) * Values(d)(k)
    {
      Quotient(d.at[k], total);
    }
    SumTimes(d.keys, 1.0 / total, Values(d), Values(scaled));
    Quotient(Mass(d), total);
  }

  lemma ScaledSigns(d: Dict, total: real)
    requires total > 0.0 && forall k :: k in d.at ==> d.at[k] >= 0.0
    ensures forall k :: k in Scaled(d, total).at ==> Scaled(d, total).at[k] >= 0.0
  {
    forall k | k in d.at
      ensures d.at[k] / total >= 0.0
    {
      QuotientSign(d.at[k], total);
    }
  }

  /** Normalizing yields a prior with the same keys; a prior is its own normalization. */
  lemma NormalizedIsPrior(d: Dict)
    requires d.Valid()
    ensures Normalized(d).Ok? ==> Prior(Normalized(d).value) && Normalized(d).value.keys == d.keys
    ensures Prior(d) ==> Normalized(d) == Ok(d)
  {
    if Normalized(d).Ok? {
      var total := Mass(d);
      ScaledMass(d, total);
      ScaledSigns(d, total);
      Unit(total);
    }
    if Prior(d) {
      assert Scaled(d, 1.0).at == d.at;
    }
  }

  lemma EntropyOfPrior(log2: real -> real, p: Dict)
    requires Prior(p)
    ensures EntropyBits(log2, p) == Ok(Entropy(log2, p))
  {
    NormalizedIsPrior(p);
  }

  lemma ProbabilityNonNegative(prior: Dict, outcomes: seq<Outcome>, o: Outcome)
    requires Prior(prior) && Models(outcomes, prior) && o in outcomes
    ensures OutcomeProbability(prior, o) >= 0.0
    ensures OutcomeProbability(prior, o) == 0.0 ==>
              forall k :: k in prior.keys ==> At(prior.at, k) * At(o.probability, k) == 0.0
    ensures forall k :: k in prior.keys ==> At(prior.at, k) >= 0.0 && At(o.probability, k) >= 0.0
    ensures forall k :: k in prior.keys ==>
              At(prior.at, k) * At(o.probability, k) <= OutcomeProbability(prior, o)
  {
    hide Prior, Models;
    PriorFacts(prior);
    ModelFacts(prior, outcomes, o);
    forall k | k in prior.keys
      ensures Joint(prior, o)(k) >= 0.0
    {
      ProductSign(At(prior.at, k), At(o.probability, k));
    }
    SumNonNegative(prior.keys, Joint(prior, o));
    assert forall k :: Joint(prior, o)(k) == At(prior.at, k) * At(o.probability, k);
  }

  lemma PosteriorValues(prior: Dict, o: Outcome)
    requires OutcomeProbability(prior, o) > 0.0
    ensures PosteriorGiven(prior, o).keys == prior.keys
    ensures forall k :: k in prior.keys ==>
              At(PosteriorGiven(prior, o).at, k) == Joint(prior, o)(k) / OutcomeProbability(prior, o)
  {
  }

  lemma PosteriorMass(prior: Dict, o: Outcome)
    requires OutcomeProbability(prior, o) > 0.0
    ensures Mass(PosteriorGiven(prior, o)) == 1.0
  {
    hide At, PosteriorGiven, Joint;
    PosteriorValues(prior, o);
    var total, post := OutcomeProbability(prior, o), PosteriorGiven(prior, o);
    forall k | k in prior.keys
      ensures Values(post)(k) == (1.0 / total) * Joint(prior, o)(k)
    {
      Quotient(Joint(prior, o)(k), total);
    }
    SumTimes(prior.keys, 1.0 / total, Joint(prior, o), Values(post));
    Unit(total);
  }

  lemma Unit(x: real)
    requires x != 0.0
    ensures (1.0 / x) * x == 1.0 && x / x == 1.0
  {
  }

  lemma PosteriorIsPrior(prior: Dict, outcomes: seq<Outcome>, o: Outcome)
    requires Prior(prior) && Models(outcomes, prior) && o in outcomes && OutcomeProbability(prior, o) > 0.0
    ensures Prior(PosteriorGiven(prior, o))
  {
    hide Models, OutcomeProbability;
    ProbabilityNonNegative(prior, outcomes, o);
    PosteriorValues(prior, o);
    PosteriorMass(prior, o);
    var total, post := OutcomeProbability(prior, o), PosteriorGiven(prior, o);
    forall k | k in post.at
      ensures post.at[k] >= 0.0
    {
      assert k in prior.keys && At(post.at, k) == post.at[k];
      ProductSign(At(prior.at, k), At(o.probability, k));
      QuotientSign(At(prior.at, k) * At(o.probability, k), total);
    }
  }

  lemma QuotientSign(a: real, b: real)
    requires a >= 0.0 && b > 0.0
    ensures a / b >= 0.0
  {
  }

  lemma Quotient(a: real, b: real)
    requires b > 0.0
    ensures a / b == (1.0 / b) * a
  {
  }

  // ----- laws of the logarithm

  lemma LogOfOne(log2: real -> real, log2e: real)
    requires IsLog2(log2, log2e)
    ensures log2(1.0) == 0.0 && log2e > 0.0
  {
    assert ProductLaw(log2, 1.0, 1.0);
    assert 1.0 * 1.0 == 1.0;
  }

  lemma LogOfProduct(log2: real -> real, log2e: real, x: real, y: real, z: real)
    requires IsLog2(log2, log2e) && x > 0.0 && y > 0.0 && z == x * y
    ensures log2(z) == log2(x) + log2(y)
  {
    assert ProductLaw(log2, x, y);
  }

  lemma Tangent(log2: real -> real, log2e: real, x: real)
    requires IsLog2(log2, log2e) && x > 0.0
    ensures log2(x) <= log2e * (x - 1.0)
    ensures log2(x) == log2e * (x - 1.0) ==> x == 1.0
  {
    assert TangentLaw(log2, log2e, x);
  }

  lemma QuotientFacts(x: real, y: real)
    requires x > 0.0 && y > 0.0
    ensures x / y > 0.0 && x / y * y == x && (x / y) * (y / x) == 1.0
  {
    var q, r := x / y, y / x;
    assert q * y == x && r * x == y;
    Regroup(q, r, x);
    Cancel(q * r, 1.0, x);
  }

  lemma Regroup(a: real, b: real, c: real)
    ensures a * b * c == a * (b * c)
  {
  }

  lemma Cancel(a: real, b: real, c: real)
    requires c != 0.0 && a * c == b * c
    ensures a == b
  {
    assert (a - b) * c == 0.0;
  }

  lemma LogOfQuotient(log2: real -> real, log2e: real, x: real, y: real)
    requires IsLog2(log2, log2e) && x > 0.0 && y > 0.0
    ensures x / y > 0.0 && log2(x / y) == log2(x) - log2(y)
  {
    hide IsLog2;
    QuotientFacts(x, y);
    LogOfProduct(log2, log2e, x / y, y, x);
  }

  lemma ProductSign(a: real, b: real)
    ensures a >= 0.0 && b <= 0.0 ==> a * b <= 0.0
    ensures a >= 0.0 && b >= 0.0 ==> a * b >= 0.0
    ensures a > 0.0 && b > 0.0 ==> a * b > 0.0
    ensures a * b == 0.0 ==> a == 0.0 || b == 0.0
  {
  }

  /** Within [0, 1] an entropy term is non-positive. */
  lemma XLogSign(log2: real -> real, log2e: real, v: real)
    requires IsLog2(log2, log2e) && 0.0 <= v <= 1.0
    ensures XLog(log2, v) <= 0.0
  {
    hide IsLog2;
    if v > 0.0 {
      LogOfOne(log2, log2e);
      Tangent(log2, log2e, v);
      ProductSign(log2e, v - 1.0);
      ProductSign(v, log2(v));
    }
  }

  /** -log2(total/q) against its tangent, scaled by p*q. */
  lemma ScaledTangent(log2: real -> real, log2e: real, p: real, q: real, total: real)
    requires IsLog2(log2, log2e) && p > 0.0 && q > 0.0 && total > 0.0
    ensures p * q * log2(q / total) >= log2e * (p * q - p * total)
    ensures p * q * log2(q / total) == log2e * (p * q - p * total) ==> q == total
  {
    hide IsLog2;
    var r := total / q;
    QuotientFacts(total, q);
    LogOfQuotient(log2, log2e, q, total);
    LogOfQuotient(log2, log2e, total, q);
    Tangent(log2, log2e, r);
    ProductSign(p, q);
    Scale(p * q, log2(r), log2e * (r - 1.0));
    TangentArithmetic(log2e, p, q, r, total);
    MinusTimes(p * q, log2(r));
  }

  lemma MinusTimes(a: real, b: real)
    ensures a * -b == -(a * b)
  {
  }

  lemma TangentArithmetic(c: real, p: real, q: real, r: real, total: real)
    requires r * q == total
    ensures p * q * (c * (r - 1.0)) == -(c * (p * q - p * total))
  {
    var d := c * p;
    assert p * q * (c * (r - 1.0)) == d * (q * (r - 1.0)) == d * (total - q);
    assert c * (p * q - p * total) == d * (q - total);
  }

  lemma Scale(c: real, a: real, b: real)
    requires c > 0.0 && a <= b
    ensures c * a <= c * b
    ensures c * a == c * b ==> a == b
  {
    assert c * (b - a) >= 0.0;
    if a < b {
      assert c * (b - a) > 0.0;
    }
  }

  /** The tangent bound, scaled by a joint probability; it is tight only where q equals the total. */
  lemma InformationBound(log2: real -> real, log2e: real, p: real, q: real, total: real)
    requires IsLog2(log2, log2e) && p >= 0.0 && q >= 0.0 && total > 0.0
    ensures Information(log2, p, q, total) >= log2e * (p * q - p * total)
    ensures Information(log2, p, q, total) == log2e * (p * q - p * total) && p > 0.0 ==> q == total
    ensures q == total ==> Information(log2, p, q, total) == 0.0
    ensures p == 0.0 ==> Information(log2, p, q, total) == 0.0
  {
    hide IsLog2;
    LogOfOne(log2, log2e);
    if p > 0.0 && q > 0.0 {
      ProductSign(p, q);
      ScaledTangent(log2, log2e, p, q, total);
      assert q == total ==> q / total == 1.0;
    } else {
      assert p * q == 0.0;
      ProductSign(p, total);
      ProductSign(log2e, p * total);
      MinusTimes(log2e, p * total);
      assert log2e * (p * q - p * total) == log2e * -(p * total);
    }
  }

  // ----- each outcome carries non-negative information

  lemma ImpossibleOutcome(log2: real -> real, prior: Dict, outcomes: seq<Outcome>, o: Outcome)
    requires Prior(prior) && Models(outcomes, prior) && o in outcomes && OutcomeProbability(prior, o) == 0.0
    ensures OutcomeInformation(log2, prior, o) == 0.0
    ensures forall k :: k in prior.keys && At(prior.at, k) > 0.0 ==> At(o.probability, k) == 0.0
  {
    hide Models, Prior, OutcomeProbability;
    ProbabilityNonNegative(prior, outcomes, o);
    SumZeros(prior.keys, Informations(log2, prior, o));
    forall k | k in prior.keys && At(prior.at, k) > 0.0
      ensures At(o.probability, k) == 0.0
    {
      ProductSign(At(prior.at, k), At(o.probability, k));
    }
  }

  function Products(prior: Dict, total: real): Id -> real {
    (k: Id) => total * At(prior.at, k)
  }

  function Differences(prior: Dict, o: Outcome, total: real): Id -> real {
    (k: Id) => Joint(prior, o)(k) - Products(prior, total)(k)
  }

  function Bounds(log2e: real, prior: Dict, o: Outcome, total: real): Id -> real {
    (k: Id) => log2e * Differences(prior, o, total)(k)
  }

  lemma BoundsSumToZero(log2e: real, prior: Dict, o: Outcome)
    requires SumOf(prior.keys, Values(prior)) == 1.0
    ensures SumOf(prior.keys, Bounds(log2e, prior, o, OutcomeProbability(prior, o))) == 0.0
  {
    hide Joint, Differences, Products, Bounds;
    var total := OutcomeProbability(prior, o);
    ProductsAre(prior, total);
    DifferencesAre(prior, o, total);
    BoundsAre(log2e, prior, o, total);
    SumTimes(prior.keys, total, Values(prior), Products(prior, total));
    SumPlus(prior.keys, Differences(prior, o, total), Products(prior, total), Joint(prior, o));
    SumTimes(prior.keys, log2e, Differences(prior, o, total), Bounds(log2e, prior, o, total));
  }

  lemma ProductsAre(prior: Dict, total: real)
    ensures forall k :: Products(prior, total)(k) == total * Values(prior)(k)
  {
  }

  lemma DifferencesAre(prior: Dict, o: Outcome, total: real)
    ensures forall k :: Joint(prior, o)(k) == Differences(prior, o, total)(k) + Products(prior, total)(k)
  {
  }

  lemma BoundsAre(log2e: real, prior: Dict, o: Outcome, total: real)
    ensures forall k :: Bounds(log2e, prior, o, total)(k) == log2e * Differences(prior, o, total)(k)
  {
  }

  lemma BoundAt(log2e: real, prior: Dict, o: Outcome, total: real, k: Id, p: real, q: real)
    requires p == At(prior.at, k) && q == At(o.probability, k)
    ensures Bounds(log2e, prior, o, total)(k) == log2e * (p * q - p * total)
  {
    hide At;
    var d := Differences(prior, o, total)(k);
    assert Joint(prior, o)(k) == p * q && Products(prior, total)(k) == total * p;
    assert d == p * q - p * total;
    SameProduct(log2e, d, p * q - p * total);
  }

  lemma PointBound(log2: real -> real, log2e: real, prior: Dict, o: Outcome, k: Id, p: real, q: real, total: real)
    requires IsLog2(log2, log2e) && total > 0.0 && total == OutcomeProbability(prior, o)
    requires p == At(prior.at, k) >= 0.0 && q == At(o.probability, k) >= 0.0
    ensures var bound, info := Bounds(log2e, prior, o, total)(k), Informations(log2, prior, o)(k);
            && bound <= info
            && (bound == info && p > 0.0 ==> q == total)
            && (q == total || p == 0.0 ==> info == 0.0)
  {
    hide IsLog2, OutcomeProbability, Bounds, Information, At;
    BoundAt(log2e, prior, o, total, k, p, q);
    InformationBound(log2, log2e, p, q, total);
    assert Informations(log2, prior, o)(k) == Information(log2, p, q, total);
  }

  lemma SameProduct(c: real, a: real, b: real)
    requires a == b
    ensures c * a == c * b
  {
  }

  /** Every live hypothesis gives the outcome its overall probability. */
  predicate Uninformative(prior: Dict, o: Outcome) {
    forall k :: k in prior.keys && At(prior.at, k) > 0.0 ==> At(o.probability, k) == OutcomeProbability(prior, o)
  }

  lemma OutcomeInformationSign(log2: real -> real, log2e: real, prior: Dict, outcomes: seq<Outcome>, o: Outcome)
    requires IsLog2(log2, log2e) && Prior(prior) && Models(outcomes, prior) && o in outcomes
    ensures OutcomeInformation(log2, prior, o) >= 0.0
    ensures OutcomeInformation(log2, prior, o) == 0.0 <==> Uninformative(prior, o)
  {
    hide IsLog2, Models, Prior, OutcomeProbability, Information, At, Bounds, Informations;
    PriorFacts(prior);
    ProbabilityNonNegative(prior, outcomes, o);
    var total := OutcomeProbability(prior, o);
    if total == 0.0 {
      ImpossibleOutcome(log2, prior, outcomes, o);
    } else {
      var bounds, infos := Bounds(log2e, prior, o, total), Informations(log2, prior, o);
      BoundsSumToZero(log2e, prior, o);
      forall k | k in prior.keys
        ensures bounds(k) <= infos(k)
        ensures bounds(k) == infos(k) && At(prior.at, k) > 0.0 ==> At(o.probability, k) == total
        ensures At(o.probability, k) == total || At(prior.at, k) == 0.0 ==> infos(k) == 0.0
      {
        PointBound(log2, log2e, prior, o, k, At(prior.at, k), At(o.probability, k), total);
      }
      SumLeq(prior.keys, bounds, infos);
      if Uninformative(prior, o) {
        SumZeros(prior.keys, infos);
      }
    }
  }

  // ----- gain is mutual information

  /** p*q = total * post splits an entropy term into the prior's part and the information. */
  lemma TermSplit(log2: real -> real, log2e: real, p: real, q: real, total: real)
    requires IsLog2(log2, log2e) && p >= 0.0 && q >= 0.0 && total > 0.0
    ensures total * XLog(log2, p * q / total) == q * XLog(log2, p) + Information(log2, p, q, total)
  {
    hide IsLog2;
    if p > 0.0 && q > 0.0 {
      ProductSign(p, q);
      QuotientFacts(q, total);
      QuotientFacts(p * q, total);
      var r := q / total;
      assert p * q / total == p * r;
      LogOfProduct(log2, log2e, p, r, p * q / total);
      SplitArithmetic(p, q, r, total, log2(p), log2(r));
    } else {
      assert p * q == 0.0 && p * q / total == 0.0;
    }
  }

  lemma SplitArithmetic(p: real, q: real, r: real, total: real, a: real, b: real)
    requires r * total == q
    ensures total * (p * r * (a + b)) == q * (p * a) + p * q * b
  {
    assert total * (p * r) == p * q;
    assert total * (p * r * (a + b)) == p * q * (a + b);
    assert p * q * (a + b) == p * q * a + p * q * b;
    assert p * q * a == q * (p * a);
  }

  function Parts(log2: real -> real, prior: Dict, o: Outcome): Id -> real {
    (k: Id) => At(o.probability, k) * XLog(log2, At(prior.at, k))
  }

  function PriorPart(log2: real -> real, prior: Dict): Outcome -> real {
    (o: Outcome) => SumOf(prior.keys, Parts(log2, prior, o))
  }

  lemma OutcomeSplit(log2: real -> real, log2e: real, prior: Dict, outcomes: seq<Outcome>, o: Outcome)
    requires IsLog2(log2, log2e) && Prior(prior) && Models(outcomes, prior) && o in outcomes
    ensures -WeightedEntropy(log2, prior, o) ==
            SumOf(prior.keys, Parts(log2, prior, o)) + OutcomeInformation(log2, prior, o)
  {
    hide IsLog2, Models, Prior, OutcomeProbability, Information, PosteriorGiven;
    ProbabilityNonNegative(prior, outcomes, o);
    if OutcomeProbability(prior, o) == 0.0 {
      ImpossibleOutcome(log2, prior, outcomes, o);
      SumZeros(prior.keys, Parts(log2, prior, o));
    } else {
      PossibleSplit(log2, log2e, prior, outcomes, o);
    }
  }

  lemma PossibleSplit(log2: real -> real, log2e: real, prior: Dict, outcomes: seq<Outcome>, o: Outcome)
    requires IsLog2(log2, log2e) && Prior(prior) && Models(outcomes, prior) && o in outcomes
    requires OutcomeProbability(prior, o) > 0.0
    ensures -WeightedEntropy(log2, prior, o) ==
            SumOf(prior.keys, Parts(log2, prior, o)) + OutcomeInformation(log2, prior, o)
  {
    hide IsLog2, Models, Prior, OutcomeProbability, PosteriorGiven, WeightedEntropy, Terms, Parts, Informations;
    var total, terms := OutcomeProbability(prior, o), Terms(log2, PosteriorGiven(prior, o));
    var scaled := (k: Id) => total * terms(k);
    forall k | k in prior.keys
      ensures scaled(k) == Parts(log2, prior, o)(k) + Informations(log2, prior, o)(k)
    {
      PointSplit(log2, log2e, prior, outcomes, o, k);
    }
    SumPlus(prior.keys, Parts(log2, prior, o), Informations(log2, prior, o), scaled);
    SumTimes(prior.keys, total, terms, scaled);
    WeightedIs(log2, prior, o);
  }

  lemma PointSplit(log2: real -> real, log2e: real, prior: Dict, outcomes: seq<Outcome>, o: Outcome, k: Id)
    requires IsLog2(log2, log2e) && Prior(prior) && Models(outcomes, prior) && o in outcomes
    requires OutcomeProbability(prior, o) > 0.0 && k in prior.keys
    ensures OutcomeProbability(prior, o) * Terms(log2, PosteriorGiven(prior, o))(k) ==
            Parts(log2, prior, o)(k) + Informations(log2, prior, o)(k)
  {
    hide *;
    ProbabilityNonNegative(prior, outcomes, o);
    var p, q, total := At(prior.at, k), At(o.probability, k), OutcomeProbability(prior, o);
    PointTerms(log2, prior, o, k, p, q, total);
    TermSplit(log2, log2e, p, q, total);
    SameProduct(total, Terms(log2, PosteriorGiven(prior, o))(k), XLog(log2, p * q / total));
  }

  lemma PointTerms(log2: real -> real, prior: Dict, o: Outcome, k: Id, p: real, q: real, total: real)
    requires total > 0.0 && k in prior.keys
    requires p == At(prior.at, k) && q == At(o.probability, k) && total == OutcomeProbability(prior, o)
    ensures Terms(log2, PosteriorGiven(prior, o))(k) == XLog(log2, p * q / total)
    ensures Parts(log2, prior, o)(k) == q * XLog(log2, p)
    ensures Informations(log2, prior, o)(k) == Information(log2, p, q, total)
  {
    hide OutcomeProbability, PosteriorGiven, Information, XLog, At;
    PosteriorValues(prior, o);
    assert Joint(prior, o)(k) == p * q;
    assert At(PosteriorGiven(prior, o).at, k) == Joint(prior, o)(k) / OutcomeProbability(prior, o) == p * q / total;
    assert Terms(log2, PosteriorGiven(prior, o))(k) == XLog(log2, At(PosteriorGiven(prior, o).at, k));
  }

  lemma WeightedIs(log2: real -> real, prior: Dict, o: Outcome)
    requires OutcomeProbability(prior, o) > 0.0
    ensures WeightedEntropy(log2, prior, o) ==
            -(OutcomeProbability(prior, o) * SumOf(prior.keys, Terms(log2, PosteriorGiven(prior, o))))
  {
    hide OutcomeProbability, PosteriorGiven, Terms;
    PosteriorValues(prior, o);
    MinusTimes(OutcomeProbability(prior, o), SumOf(prior.keys, Terms(log2, PosteriorGiven(prior, o))));
  }

  lemma PriorPartsSum(log2: real -> real, prior: Dict, outcomes: seq<Outcome>)
    requires Prior(prior) && Models(outcomes, prior)
    ensures SumOf(outcomes, PriorPart(log2, prior)) == -Entropy(log2, prior)
  {
    hide Models, Prior, XLog, At;
    var row := (o: Outcome) => Parts(log2, prior, o);
    var col := (k: Id) => ((o: Outcome) => At(o.probability, k) * XLog(log2, At(prior.at, k)));
    forall k | k in prior.keys
      ensures Terms(log2, prior)(k) == SumOf(outcomes, col(k))
    {
      ModelSums(prior, outcomes, k);
      SumTimes(outcomes, XLog(log2, At(prior.at, k)), Likelihood(k), col(k));
    }
    SumSwap(outcomes, prior.keys, row, col, PriorPart(log2, prior), Terms(log2, prior));
  }

  /** Prior entropy minus expected posterior entropy is exactly the mutual information. */
  lemma GainIsMutualInformation(log2: real -> real, log2e: real, prior: Dict, outcomes: seq<Outcome>)
    requires IsLog2(log2, log2e) && Prior(prior) && Models(outcomes, prior)
    ensures Entropy(log2, prior) - ExpectedEntropy(log2, prior, outcomes) == MutualInformation(log2, prior, outcomes)
  {
    hide IsLog2, Models, Prior, WeightedEntropy, OutcomeInformation, Entropy;
    var minus := (o: Outcome) => -1.0 * WeightedEntropy(log2, prior, o);
    forall o | o in outcomes
      ensures minus(o) == PriorPart(log2, prior)(o) + ByOutcome(log2, prior)(o)
    {
      OutcomeSplit(log2, log2e, prior, outcomes, o);
    }
    SumTimes(outcomes, -1.0, WeightedEntropies(log2, prior), minus);
    SumPlus(outcomes, PriorPart(log2, prior), ByOutcome(log2, prior), minus);
    PriorPartsSum(log2, prior, outcomes);
  }

  /** All hypotheses with positive prior assign every outcome the same probability. */
  predicate Indistinguishable(prior: Dict, outcomes: seq<Outcome>) {
    forall o, j, k ::
      o in outcomes && j in prior.keys && k in prior.keys && At(prior.at, j) > 0.0 && At(prior.at, k) > 0.0 ==>
        At(o.probability, j) == At(o.probability, k)
  }

  /** If all live hypotheses agree on an outcome, its probability is the common value. */
  lemma CommonProbability(prior: Dict, o: Outcome, j: Id)
    requires Prior(prior) && j in prior.keys
    requires forall k :: k in prior.keys && At(prior.at, k) > 0.0 ==> At(o.probability, k) == At(o.probability, j)
    ensures OutcomeProbability(prior, o) == At(o.probability, j)
  {
    hide Prior, At;
    PriorFacts(prior);
    forall k | k in prior.keys
      ensures Joint(prior, o)(k) == At(o.probability, j) * Values(prior)(k)
    {
    }
    SumTimes(prior.keys, At(o.probability, j), Values(prior), Joint(prior, o));
  }

  lemma SomeLiveHypothesis(prior: Dict) returns (j: Id)
    requires Prior(prior)
    ensures j in prior.keys && At(prior.at, j) > 0.0
  {
    hide Prior;
    PriorFacts(prior);
    if forall k :: k in prior.keys ==> !(At(prior.at, k) > 0.0) {
      SumZeros(prior.keys, Values(prior));
    }
    j :| j in prior.keys && At(prior.at, j) > 0.0;
  }

  lemma IndistinguishableMeans(prior: Dict, outcomes: seq<Outcome>)
    requires Prior(prior)
    ensures Indistinguishable(prior, outcomes) <==> forall o :: o in outcomes ==> Uninformative(prior, o)
  {
    hide Prior, OutcomeProbability;
    var j := SomeLiveHypothesis(prior);
    if Indistinguishable(prior, outcomes) {
      forall o | o in outcomes
        ensures Uninformative(prior, o)
      {
        CommonProbability(prior, o, j);
      }
    }
  }

  /** Gain is non-negative, and zero exactly when the live hypotheses share one outcome distribution. */
  lemma GainSign(log2: real -> real, log2e: real, prior: Dict, outcomes: seq<Outcome>)
    requires IsLog2(log2, log2e) && Prior(prior) && Models(outcomes, prior)
    ensures MutualInformation(log2, prior, outcomes) >= 0.0
    ensures MutualInformation(log2, prior, outcomes) == 0.0 <==> Indistinguishable(prior, outcomes)
  {
    hide IsLog2, Models, Prior, Indistinguishable, Uninformative, OutcomeInformation;
    forall o | o in outcomes
      ensures ByOutcome(log2, prior)(o) >= 0.0
      ensures ByOutcome(log2, prior)(o) == 0.0 <==> Uninformative(prior, o)
    {
      OutcomeInformationSign(log2, log2e, prior, outcomes, o);
    }
    SumNonNegative(outcomes, ByOutcome(log2, prior));
    IndistinguishableMeans(prior, outcomes);
    if Indistinguishable(prior, outcomes) {
      SumZeros(outcomes, ByOutcome(log2, prior));
    }
  }

  lemma EntropyNonNegative(log2: real -> real, log2e: real, p: Dict)
    requires IsLog2(log2, log2e) && Prior(p)
    ensures Entropy(log2, p) >= 0.0
  {
    hide IsLog2, Prior, XLog, At;
    PriorFacts(p);
    SumNonNegative(p.keys, Values(p));
    var minus := (k: Id) => -1.0 * XLog(log2, At(p.at, k));
    forall k | k in p.keys
      ensures minus(k) >= 0.0
    {
      assert Values(p)(k) <= 1.0;
      XLogSign(log2, log2e, At(p.at, k));
    }
    SumNonNegative(p.keys, minus);
    SumTimes(p.keys, -1.0, Terms(log2, p), minus);
  }

  /** No test can remove more uncertainty than the prior holds. */
  lemma GainAtMostEntropy(log2: real -> real, log2e: real, prior: Dict, outcomes: seq<Outcome>)
    requires IsLog2(log2, log2e) && Prior(prior) && Models(outcomes, prior)
    ensures MutualInformation(log2, prior, outcomes) <= Entropy(log2, prior)
  {
    hide IsLog2, Models, Prior, Entropy, MutualInformation, OutcomeProbability, PosteriorGiven;
    GainIsMutualInformation(log2, log2e, prior, outcomes);
    forall o | o in outcomes
      ensures WeightedEntropies(log2, prior)(o) >= 0.0
    {
      if OutcomeProbability(prior, o) > 0.0 {
        PosteriorIsPrior(prior, outcomes, o);
        EntropyNonNegative(log2, log2e, PosteriorGiven(prior, o));
        ProductSign(OutcomeProbability(prior, o), Entropy(log2, PosteriorGiven(prior, o)));
      }
    }
    SumNonNegative(outcomes, WeightedEntropies(log2, prior));
  }

  // ----- the posterior after one observation

  function Matching(outcomes: seq<Outcome>, id: Id): seq<Outcome> {
    if outcomes == [] then []
    else if outcomes[0].id == id then [outcomes[0]] + Matching(outcomes[1..], id)
    else Matching(outcomes[1..], id)
  }

  function PosteriorAfter(posterior: Dict, outcomes: seq<Outcome>, id: Id): Result<Dict, Failure> {
    var n := Normalized(posterior);
    if n.Err? then n
    else
      var matches := Matching(outcomes, id);
      if |matches| != 1 then Err(UnknownOutcome)
      else
        var prior, o := n.value, matches[0];
        if o.probability.Keys != set k | k in prior.keys then Err(Mismatch)
        else Normalized(Dict(prior.keys, map k | k in prior.keys :: At(prior.at, k) * At(o.probability, k)))
  }

  lemma {:induction false} MatchingUnique(outcomes: seq<Outcome>, o: Outcome)
    requires forall i, j :: 0 <= i < j < |outcomes| ==> outcomes[i].id != outcomes[j].id
    ensures o in outcomes ==> Matching(outcomes, o.id) == [o]
    ensures (forall x :: x in outcomes ==> x.id != o.id) ==> Matching(outcomes, o.id) == []
  {
    if outcomes != [] {
      var rest := outcomes[1..];
      assert forall i, j :: 0 <= i < j < |rest| ==> rest[i] == outcomes[i + 1] && rest[j] == outcomes[j + 1];
      MatchingUnique(rest, o);
      if outcomes[0].id == o.id {
        forall x | x in rest
          ensures x.id != o.id
        {
          var j :| 0 <= j < |rest| && rest[j] == x;
          assert outcomes[0].id != outcomes[j + 1].id;
        }
        assert o in outcomes ==> outcomes[0] == o;
      }
    }
  }

  /** Observing a modeled outcome gives the conditional distribution, or fails if it was impossible. */
  lemma PosteriorAfterIsConditional(prior: Dict, outcomes: seq<Outcome>, o: Outcome)
    requires Prior(prior) && Models(outcomes, prior) && o in outcomes
    ensures OutcomeProbability(prior, o) > 0.0 ==>
              PosteriorAfter(prior, outcomes, o.id) == Ok(PosteriorGiven(prior, o)) && Prior(PosteriorGiven(prior, o))
    ensures OutcomeProbability(prior, o) == 0.0 ==> PosteriorAfter(prior, outcomes, o.id) == Err(Massless)
  {
    hide *;
    AfterIs(prior, outcomes, o);
    ProbabilityNonNegative(prior, outcomes, o);
    JointNormalized(prior, o);
    if OutcomeProbability(prior, o) > 0.0 {
      PosteriorIsPrior(prior, outcomes, o);
    }
  }

  function Conditioned(prior: Dict, o: Outcome): Dict {
    Dict(prior.keys, map k | k in prior.keys :: At(prior.at, k) * At(o.probability, k))
  }

  lemma AfterIs(prior: Dict, outcomes: seq<Outcome>, o: Outcome)
    requires Prior(prior) && Models(outcomes, prior) && o in outcomes
    ensures prior.keys != []
    ensures PosteriorAfter(prior, outcomes, o.id) == Normalized(Conditioned(prior, o))
  {
    NormalizedIsPrior(prior);
    MatchingUnique(outcomes, o);
    hide Normalized;
  }

  lemma JointNormalized(prior: Dict, o: Outcome)
    requires prior.keys != [] && forall k :: k in prior.keys ==> At(prior.at, k) >= 0.0 && At(o.probability, k) >= 0.0
    ensures Normalized(Conditioned(prior, o)) ==
            if OutcomeProbability(prior, o) <= 0.0 then Err(Massless) else Ok(PosteriorGiven(prior, o))
  {
    hide At, Conditioned, Mass, OutcomeProbability, Scaled, PosteriorGiven;
    JointMass(prior, o);
    JointSigns(prior, o);
    if OutcomeProbability(prior, o) > 0.0 {
      ScaledJoint(prior, o);
    }
  }

  lemma JointSigns(prior: Dict, o: Outcome)
    requires forall k :: k in prior.keys ==> At(prior.at, k) >= 0.0 && At(o.probability, k) >= 0.0
    ensures Conditioned(prior, o).keys == prior.keys
    ensures forall k :: k in Conditioned(prior, o).at ==> Conditioned(prior, o).at[k] >= 0.0
  {
    hide At;
    forall k | k in prior.keys
      ensures At(prior.at, k) * At(o.probability, k) >= 0.0
    {
      ProductSign(At(prior.at, k), At(o.probability, k));
    }
  }

  lemma ScaledJoint(prior: Dict, o: Outcome)
    requires OutcomeProbability(prior, o) > 0.0
    ensures Scaled(Conditioned(prior, o), OutcomeProbability(prior, o)) == PosteriorGiven(prior, o)
  {
    hide At, OutcomeProbability;
  }

  lemma JointMass(prior: Dict, o: Outcome)
    ensures Mass(Conditioned(prior, o)) == OutcomeProbability(prior, o)
  {
    SumSame(prior.keys, Values(Conditioned(prior, o)), Joint(prior, o));
  }

  /** One hypothesis's posterior, weighted by the outcome's probability. */
  function Averaged(prior: Dict, k: Id): Outcome -> real {
    (o: Outcome) =>
      if OutcomeProbability(prior, o) > 0.0
      then OutcomeProbability(prior, o) * At(PosteriorGiven(prior, o).at, k)
      else 0.0
  }

  lemma AveragedPoint(prior: Dict, outcomes: seq<Outcome>, o: Outcome, k: Id)
    requires Prior(prior) && Models(outcomes, prior) && o in outcomes && k in prior.keys
    ensures Averaged(prior, k)(o) == At(prior.at, k) * Likelihood(k)(o)
  {
    hide Prior, Models, At, OutcomeProbability, PosteriorGiven;
    ProbabilityNonNegative(prior, outcomes, o);
    if OutcomeProbability(prior, o) > 0.0 {
      PosteriorValues(prior, o);
      Restore(Joint(prior, o)(k), OutcomeProbability(prior, o));
    }
  }

  /** Posteriors averaged over the outcomes return the prior. */
  lemma PosteriorsAverageToPrior(prior: Dict, outcomes: seq<Outcome>, k: Id)
    requires Prior(prior) && Models(outcomes, prior) && k in prior.keys
    ensures SumOf(outcomes, Averaged(prior, k)) == At(prior.at, k)
  {
    hide *;
    ModelSums(prior, outcomes, k);
    forall o | o in outcomes
      ensures Averaged(prior, k)(o) == At(prior.at, k) * Likelihood(k)(o)
    {
      AveragedPoint(prior, outcomes, o, k);
    }
    SumTimes(outcomes, At(prior.at, k), Likelihood(k), Averaged(prior, k));
  }

  lemma Restore(a: real, b: real)
    requires b != 0.0
    ensures b * (a / b) == a
  {
  }

  // ----- the planner's loop

  /** The gain the planner reports, or why it refuses; the clamp at zero is never active. */
  method ExpectedInformationGain(log2: real -> real, ghost log2e: real, posterior: Dict, outcomes: seq<Outcome>)
    returns (r: Result<real, Failure>)
    requires IsLog2(log2, log2e) && posterior.Valid() && TestValid(outcomes)
    ensures r.Err? <==> Normalized(posterior).Err? || outcomes[0].probability.Keys != posterior.at.Keys
    ensures r.Ok? ==>
              var prior := Normalized(posterior).value;
              && Prior(prior) && prior.keys == posterior.keys
              && r.value == MutualInformation(log2, prior, outcomes)
              && r.value == Entropy(log2, prior) - ExpectedEntropy(log2, prior, outcomes)
              && 0.0 <= r.value <= Entropy(log2, prior)
              && (r.value == 0.0 <==> Indistinguishable(prior, outcomes))
  {
    hide IsLog2, Prior, Normalized, TestValid, Indistinguishable, MutualInformation, Entropy, OutcomeProbability,
         PosteriorGiven, EntropyBits;
    var n := Normalized(posterior);
    if n.Err? {
      return Err(n.error);
    }
    var prior := n.value;
    NormalizedIsPrior(posterior);
    PriorKeys(posterior, prior);
    TestNonempty(outcomes);
    if outcomes[0].probability.Keys != set k | k in prior.keys {
      return Err(Mismatch);
    }
    var expected := 0.0;
    ghost var weighted := WeightedEntropies(log2, prior);
    for i := 0 to |outcomes|
      invariant expected == SumOf(outcomes[..i], weighted)
    {
      var o := outcomes[i];
      var probability := OutcomeProbability(prior, o);
      SumOfSnoc(outcomes, i, weighted);
      if probability > 0.0 {
        PosteriorIsPrior(prior, outcomes, o);
        EntropyOfPrior(log2, PosteriorGiven(prior, o));
        expected := expected + probability * EntropyBits(log2, PosteriorGiven(prior, o)).value;
      }
    }
    assert outcomes[..|outcomes|] == outcomes;
    EntropyOfPrior(log2, prior);
    var gain := EntropyBits(log2, prior).value - expected;
    GainIsMutualInformation(log2, log2e, prior, outcomes);
    GainSign(log2, log2e, prior, outcomes);
    GainAtMostEntropy(log2, log2e, prior, outcomes);
    r := Ok(if gain > 0.0 then gain else 0.0);
  }

  lemma TestNonempty(outcomes: seq<Outcome>)
    requires TestValid(outcomes)
    ensures outcomes != []
  {
  }

  lemma PriorKeys(posterior: Dict, prior: Dict)
    requires posterior.Valid() && prior.keys == posterior.keys && Prior(prior)
    ensures (set k | k in prior.keys) == posterior.at.Keys == prior.at.Keys
  {
  }
}
