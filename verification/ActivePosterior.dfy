/** Posteriors over hypothesis labels from telemetry residuals, in exact arithmetic. */
module ActivePosterior {
  import opened Prelude
  import opened RealSums
  import opened Hypotheses
  import opened InformationGain

  type Exp = real -> real

  /** The exponential: positive, strictly increasing, sums to products. */
  ghost predicate IsExp(exp: Exp) {
    && (forall x :: exp(x) > 0.0)
    && (forall x, y :: SumLaw(exp, x, y))
    && (forall x, y :: x < y ==> exp(x) < exp(y))
  }

  ghost predicate SumLaw(exp: Exp, x: real, y: real) {
    exp(x + y) == exp(x) * exp(y)
  }

  datatype PosteriorError = NoResiduals | UnknownLabel | ZeroMass | EmptyPosterior

  /** The likelihood of a residual, at scale four. */
  function Weight(exp: Exp, residual: int): real {
    exp(-(residual as real) / 4.0)
  }

  function ResidualOf(r: Residuals, k: Id): int {
    if k in r.at then r.at[k] else 0
  }

  function Weights(exp: Exp, r: Residuals, shift: int): Id -> real {
    (k: Id) => Weight(exp, ResidualOf(r, k) - shift)
  }

  function Least(r: Residuals, keys: seq<Id>): int
    requires keys != []
  {
    if |keys| == 1 then ResidualOf(r, keys[0]) else Min(ResidualOf(r, keys[0]), Least(r, keys[1..]))
  }

  /** The distribution over keys proportional to f. */
  function Proportional(keys: seq<Id>, f: Id -> real): Dict
    requires SumOf(keys, f) != 0.0
  {
    Dict(keys, map k | k in keys :: f(k) / SumOf(keys, f))
  }

  /** Residuals are shifted by their minimum before they are exponentiated. */
  function PosteriorFromResiduals(exp: Exp, r: Residuals): Result<Dict, PosteriorError> {
    if r.keys == [] then Err(NoResiduals)
    else
      var raw := Weights(exp, r, Least(r, r.keys));
      if SumOf(r.keys, raw) == 0.0 then Err(ZeroMass) else Ok(Proportional(r.keys, raw))
  }

  // ----- shifts cancel

  lemma Quotients(c: real, x: real, y: real)
    requires c > 0.0 && y > 0.0
    ensures c * y > 0.0 && (c * x) / (c * y) == x / y
  {
    var q := x / y;
    assert q * y == x;
    assert q * (c * y) == c * x;
  }

  lemma ProportionalScales(keys: seq<Id>, f: Id -> real, g: Id -> real, c: real)
    requires c > 0.0 && SumOf(keys, f) > 0.0
    requires forall k :: k in keys ==> g(k) == c * f(k)
    ensures SumOf(keys, g) > 0.0 && Proportional(keys, g) == Proportional(keys, f)
  {
    SumTimes(keys, c, f, g);
    Quotients(c, 0.0, SumOf(keys, f));
    forall k | k in keys
      ensures g(k) / SumOf(keys, g) == f(k) / SumOf(keys, f)
    {
      Quotients(c, f(k), SumOf(keys, f));
    }
  }

  lemma WeightPositive(exp: Exp, residual: int)
    requires IsExp(exp)
    ensures Weight(exp, residual) > 0.0
  {
  }

  lemma WeightSum(exp: Exp, a: int, b: int)
    requires IsExp(exp)
    ensures Weight(exp, a + b) == Weight(exp, a) * Weight(exp, b)
  {
    assert SumLaw(exp, -(a as real) / 4.0, -(b as real) / 4.0);
    assert -((a + b) as real) / 4.0 == -(a as real) / 4.0 + -(b as real) / 4.0;
  }

  lemma WeightDecreases(exp: Exp, a: int, b: int)
    requires IsExp(exp) && a < b
    ensures Weight(exp, b) < Weight(exp, a)
  {
  }

  lemma SumPositive(keys: seq<Id>, f: Id -> real)
    requires keys != [] && forall k :: k in keys ==> f(k) > 0.0
    ensures SumOf(keys, f) > 0.0
  {
    SumNonNegative(keys, f);
    assert keys[0] in keys;
  }

  lemma WeightsPositive(exp: Exp, r: Residuals, shift: int, keys: seq<Id>)
    requires IsExp(exp) && keys != []
    ensures SumOf(keys, Weights(exp, r, shift)) > 0.0
  {
    hide Weight, IsExp;
    forall k | k in keys
      ensures Weights(exp, r, shift)(k) > 0.0
    {
      WeightPositive(exp, ResidualOf(r, k) - shift);
    }
    SumPositive(keys, Weights(exp, r, shift));
  }

  lemma ShiftScales(exp: Exp, r: Residuals, shift: int)
    requires IsExp(exp)
    ensures Weight(exp, -shift) > 0.0
    ensures forall k :: Weights(exp, r, shift)(k) == Weight(exp, -shift) * Weights(exp, r, 0)(k)
  {
    hide Weight, IsExp;
    WeightPositive(exp, -shift);
    forall k
      ensures Weights(exp, r, shift)(k) == Weight(exp, -shift) * Weights(exp, r, 0)(k)
    {
      WeightSum(exp, -shift, ResidualOf(r, k));
    }
  }

  /** The shift by the minimum changes nothing: the result is the unshifted exponential, normalized. */
  lemma PosteriorIsUnshifted(exp: Exp, r: Residuals)
    requires IsExp(exp) && r.keys != []
    ensures SumOf(r.keys, Weights(exp, r, 0)) > 0.0
    ensures PosteriorFromResiduals(exp, r) == Ok(Proportional(r.keys, Weights(exp, r, 0)))
  {
    hide Weight, Weights, IsExp, Proportional, Least;
    var shift := Least(r, r.keys);
    WeightsPositive(exp, r, 0, r.keys);
    ShiftScales(exp, r, shift);
    ProportionalScales(r.keys, Weights(exp, r, 0), Weights(exp, r, shift), Weight(exp, -shift));
  }

  /** Adding one constant to every residual leaves the posterior as it is. */
  lemma ShiftInvariance(exp: Exp, r: Residuals, s: Residuals, shift: int)
    requires IsExp(exp) && r.keys == s.keys
    requires forall k :: k in r.keys ==> k in r.at && k in s.at && s.at[k] == r.at[k] + shift
    ensures PosteriorFromResiduals(exp, s) == PosteriorFromResiduals(exp, r)
  {
    hide Weight, IsExp, Proportional, Least, PosteriorFromResiduals;
    if r.keys == [] {
      NoPosterior(exp, r);
      NoPosterior(exp, s);
    } else {
      PosteriorIsUnshifted(exp, r);
      PosteriorIsUnshifted(exp, s);
      ShiftScales(exp, s, shift);
      WeightsPositive(exp, s, 0, s.keys);
      ProportionalScales(s.keys, Weights(exp, s, 0), Weights(exp, s, shift), Weight(exp, -shift));
      WeightsPositive(exp, r, 0, r.keys);
      SameProportions(r.keys, Weights(exp, r, 0), Weights(exp, s, shift));
    }
  }

  lemma NoPosterior(exp: Exp, r: Residuals)
    requires r.keys == []
    ensures PosteriorFromResiduals(exp, r) == Err(NoResiduals)
  {
  }

  lemma SameProportions(keys: seq<Id>, f: Id -> real, g: Id -> real)
    requires SumOf(keys, f) > 0.0 && forall k :: k in keys ==> g(k) == f(k)
    ensures SumOf(keys, g) > 0.0 && Proportional(keys, g) == Proportional(keys, f)
  {
    SumSame(keys, f, g);
  }

  lemma QuotientOrder(a: real, b: real, n: real)
    requires n > 0.0
    ensures a < b ==> a / n < b / n
    ensures a == b ==> a / n == b / n
    ensures a > 0.0 ==> a / n > 0.0
  {
    if a < b {
      var p, q := a / n, b / n;
      assert p * n == a && q * n == b;
    }
  }

  /** A smaller residual is a larger likelihood, strictly, and every likelihood is positive. */
  lemma LikelihoodOrder(exp: Exp, r: Residuals, j: Id, k: Id)
    requires IsExp(exp) && r.Valid() && j in r.at && k in r.at
    ensures PosteriorFromResiduals(exp, r).Ok?
    ensures var p := PosteriorFromResiduals(exp, r).value.at;
            && j in p && k in p && p[j] > 0.0
            && (r.at[j] < r.at[k] <==> p[j] > p[k])
            && (r.at[j] == r.at[k] <==> p[j] == p[k])
  {
    hide Weight, IsExp, Least, PosteriorFromResiduals;
    assert j in r.keys && k in r.keys;
    PosteriorIsUnshifted(exp, r);
    var f := Weights(exp, r, 0);
    var n := SumOf(r.keys, f);
    WeightPositive(exp, r.at[j]);
    if r.at[j] < r.at[k] {
      WeightDecreases(exp, r.at[j], r.at[k]);
    } else if r.at[k] < r.at[j] {
      WeightDecreases(exp, r.at[k], r.at[j]);
    }
    QuotientOrder(f(j), f(k), n);
    QuotientOrder(f(k), f(j), n);
  }

  /**
   In the graded laboratory the true hypothesis is strictly the most likely, for every seed, when
   every other hypothesis predicts a signature more than twice the summed error bound away.
   */
  lemma TruthIsMostLikely(exp: Exp, scene: Scene, d: GradedLab.Draws, truth: Hypothesis, space: seq<Hypothesis>,
                          bound: nat, r: Residuals)
    requires IsExp(exp) && truth in space && GradedLab.CommandsWithin(scene.action, bound)
    requires AreResiduals(r, Seen(scene, d, truth), space, scene)
    requires forall h :: h in space && h != truth ==>
             Telemetry.L1(scene.Predicted(truth), scene.Predicted(h)) > 2 * ErrorBound(scene, truth, bound)
    ensures PosteriorFromResiduals(exp, r).Ok?
    ensures var p := PosteriorFromResiduals(exp, r).value.at;
            forall h :: h in space && h != truth ==> Label(h) in p && Label(truth) in p && p[Label(truth)] > p[Label(h)]
  {
    hide IsExp, PosteriorFromResiduals, Label, GradedLab.CommandsWithin, GradedLab.Observed, GradedLab.Forward,
         GradedLab.SampleErrors, Telemetry.L1;
    LikelihoodOrder(exp, r, Label(truth), Label(truth));
    forall h | h in space && h != truth
      ensures var p := PosteriorFromResiduals(exp, r).value.at;
              Label(h) in p && Label(truth) in p && p[Label(truth)] > p[Label(h)]
    {
      GradedLab.TruthHasLeastResidual(scene.config, scene.x0, d, Named(scene.classes, truth.key), truth.severity,
                                      scene.action, bound, Named(scene.classes, h.key), h.severity);
      LikelihoodOrder(exp, r, Label(truth), Label(h));
    }
  }

  function Seen(scene: Scene, d: GradedLab.Draws, h: Hypothesis): (r: seq<int>)
    ensures |r| == scene.config.steps
  {
    GradedLab.Observed(scene.config, scene.x0, d, Named(scene.classes, h.key), h.severity, scene.action)
  }

  function ErrorBound(scene: Scene, h: Hypothesis, bound: nat): int {
    Sum(GradedLab.SampleErrors(scene.config, scene.x0, Named(scene.classes, h.key), h.severity, scene.action, bound))
  }

  // ----- folding observations

  function Combined(prior: Dict, likelihood: Dict): Id -> real {
    (k: Id) => At(prior.at, k) * At(likelihood.at, k)
  }

  function UpdatePosterior(exp: Exp, prior: Dict, r: Residuals): Result<Dict, PosteriorError> {
    var likelihood := PosteriorFromResiduals(exp, r);
    if likelihood.Err? then Err(likelihood.error)
    else if exists k :: k in prior.keys && k !in likelihood.value.at then Err(UnknownLabel)
    else if SumOf(prior.keys, Combined(prior, likelihood.value)) <= 0.0 then Err(ZeroMass)
    else Ok(Proportional(prior.keys, Combined(prior, likelihood.value)))
  }

  /** A distribution whose every label has a residual. */
  predicate Covered(prior: Dict, r: Residuals) {
    Prior(prior) && r.Valid() && forall k :: k in prior.keys ==> k in r.at
  }

  function Weighted(exp: Exp, prior: Dict, r: Residuals): Id -> real {
    (k: Id) => At(prior.at, k) * Weight(exp, ResidualOf(r, k))
  }

  lemma {:induction false} SomePositive(keys: seq<Id>, f: Id -> real, g: Id -> real)
    requires forall k :: k in keys ==> f(k) >= 0.0 && g(k) >= 0.0 && (f(k) > 0.0 ==> g(k) > 0.0)
    requires SumOf(keys, f) > 0.0
    ensures SumOf(keys, g) > 0.0
  {
    SumNonNegative(keys, g);
    if SumOf(keys, g) == 0.0 {
      SumZeros(keys, f);
    }
  }

  lemma PositiveProduct(a: real, b: real)
    requires a >= 0.0 && b > 0.0
    ensures a * b >= 0.0 && (a > 0.0 ==> a * b > 0.0)
  {
  }

  lemma WeightedPositive(exp: Exp, prior: Dict, r: Residuals)
    requires IsExp(exp) && Covered(prior, r)
    ensures SumOf(prior.keys, Weighted(exp, prior, r)) > 0.0
    ensures forall k :: k in prior.keys ==> Weighted(exp, prior, r)(k) >= 0.0
  {
    hide IsExp, Weight;
    PriorFacts(prior);
    forall k | k in prior.keys
      ensures Weighted(exp, prior, r)(k) >= 0.0 && (Values(prior)(k) > 0.0 ==> Weighted(exp, prior, r)(k) > 0.0)
    {
      WeightPositive(exp, ResidualOf(r, k));
      PositiveProduct(At(prior.at, k), Weight(exp, ResidualOf(r, k)));
    }
    SomePositive(prior.keys, Values(prior), Weighted(exp, prior, r));
  }

  lemma ScaledTerm(p: real, w: real, n: real)
    requires n > 0.0
    ensures p * (w / n) == (1.0 / n) * (p * w)
    ensures 1.0 / n > 0.0
  {
    assert w / n == (1.0 / n) * w;
  }

  lemma LikelihoodValue(exp: Exp, r: Residuals, k: Id)
    requires IsExp(exp) && r.Valid() && k in r.at && r.keys != []
    ensures SumOf(r.keys, Weights(exp, r, 0)) > 0.0
    ensures PosteriorFromResiduals(exp, r).Ok?
    ensures k in PosteriorFromResiduals(exp, r).value.at
    ensures At(PosteriorFromResiduals(exp, r).value.at, k) ==
            Weight(exp, ResidualOf(r, k)) / SumOf(r.keys, Weights(exp, r, 0))
  {
    hide IsExp, Weight, PosteriorFromResiduals;
    PosteriorIsUnshifted(exp, r);
  }

  lemma CombinedScales(exp: Exp, prior: Dict, r: Residuals, k: Id, likelihood: Dict, n: real)
    requires IsExp(exp) && r.Valid() && k in r.at && r.keys != []
    requires PosteriorFromResiduals(exp, r) == Ok(likelihood) && n == SumOf(r.keys, Weights(exp, r, 0)) && n > 0.0
    ensures k in likelihood.at
    ensures Combined(prior, likelihood)(k) == (1.0 / n) * Weighted(exp, prior, r)(k)
  {
    hide IsExp, Weight, Weights, PosteriorFromResiduals;
    LikelihoodValue(exp, r, k);
    ScaledTerm(At(prior.at, k), Weight(exp, ResidualOf(r, k)), n);
  }

  lemma UpdateUnfolds(exp: Exp, prior: Dict, r: Residuals, likelihood: Dict)
    requires PosteriorFromResiduals(exp, r) == Ok(likelihood)
    requires forall k :: k in prior.keys ==> k in likelihood.at
    requires SumOf(prior.keys, Combined(prior, likelihood)) > 0.0
    ensures UpdatePosterior(exp, prior, r) == Ok(Proportional(prior.keys, Combined(prior, likelihood)))
  {
    hide PosteriorFromResiduals, Combined, Proportional;
  }

  /** With exact arithmetic an update always succeeds; its posterior is prior times exponential, normalized. */
  lemma UpdateIsBayes(exp: Exp, prior: Dict, r: Residuals)
    requires IsExp(exp) && Covered(prior, r)
    ensures SumOf(prior.keys, Weighted(exp, prior, r)) > 0.0
    ensures UpdatePosterior(exp, prior, r) == Ok(Proportional(prior.keys, Weighted(exp, prior, r)))
  {
    hide IsExp, Weight, Weights, PosteriorFromResiduals, UpdatePosterior, Proportional, Combined, Weighted, Prior;
    PriorDistinct(prior);
    WeightedPositive(exp, prior, r);
    assert prior.keys[0] in prior.keys && prior.keys[0] in r.at;
    assert r.keys != [];
    LikelihoodValue(exp, r, prior.keys[0]);
    var likelihood := PosteriorFromResiduals(exp, r).value;
    var n := SumOf(r.keys, Weights(exp, r, 0));
    forall k | k in prior.keys
      ensures k in likelihood.at && Combined(prior, likelihood)(k) == (1.0 / n) * Weighted(exp, prior, r)(k)
    {
      CombinedScales(exp, prior, r, k, likelihood, n);
    }
    ScaledTerm(1.0, 1.0, n);
    ProportionalScales(prior.keys, Weighted(exp, prior, r), Combined(prior, likelihood), 1.0 / n);
    UpdateUnfolds(exp, prior, r, likelihood);
  }

  lemma ProportionalShares(keys: seq<Id>, f: Id -> real, n: real)
    requires n == SumOf(keys, f) && n > 0.0 && forall k :: k in keys ==> f(k) >= 0.0
    ensures forall k :: k in keys ==>
              Values(Proportional(keys, f))(k) == (1.0 / n) * f(k) && Values(Proportional(keys, f))(k) >= 0.0
  {
    forall k | k in keys
      ensures Values(Proportional(keys, f))(k) == (1.0 / n) * f(k) && Values(Proportional(keys, f))(k) >= 0.0
    {
      Share(f(k), n);
    }
  }

  lemma ProportionalIsPrior(keys: seq<Id>, f: Id -> real)
    requires Distinct(keys) && SumOf(keys, f) > 0.0 && keys != [] && forall k :: k in keys ==> f(k) >= 0.0
    ensures Prior(Proportional(keys, f))
    ensures Proportional(keys, f).keys == keys
    ensures forall k :: k in keys ==> At(Proportional(keys, f).at, k) == (1.0 / SumOf(keys, f)) * f(k)
    ensures 1.0 / SumOf(keys, f) > 0.0
  {
    hide *;
    var n := SumOf(keys, f);
    var d := Proportional(keys, f);
    ProportionalShares(keys, f, n);
    SumTimes(keys, 1.0 / n, f, Values(d));
    Share(n, n);
    ProportionalKeys(keys, f);
    ValuesAt(d);
    PriorFrom(d);
  }

  lemma PriorFrom(d: Dict)
    requires Distinct(d.keys) && d.keys != [] && d.at.Keys == (set k | k in d.keys)
    requires SumOf(d.keys, Values(d)) == 1.0 && forall k :: k in d.keys ==> Values(d)(k) >= 0.0
    ensures Prior(d)
  {
    forall k | k in d.at
      ensures d.at[k] >= 0.0
    {
      assert Values(d)(k) == d.at[k];
    }
  }

  lemma ProportionalKeys(keys: seq<Id>, f: Id -> real)
    requires SumOf(keys, f) != 0.0
    ensures Proportional(keys, f).keys == keys
    ensures Proportional(keys, f).at.Keys == set k | k in keys
  {
  }

  lemma ValuesAt(d: Dict)
    ensures forall k :: Values(d)(k) == At(d.at, k)
  {
  }

  lemma Share(a: real, n: real)
    requires n > 0.0
    ensures a / n == (1.0 / n) * a
    ensures a >= 0.0 ==> a / n >= 0.0
    ensures (1.0 / n) * n == 1.0
    ensures 1.0 / n > 0.0
  {
  }

  /** What an update keeps: the labels, unit mass, and zero for every label that had zero; only those become zero. */
  lemma UpdateKeeps(exp: Exp, prior: Dict, r: Residuals)
    requires IsExp(exp) && Covered(prior, r)
    ensures UpdatePosterior(exp, prior, r).Ok?
    ensures var p := UpdatePosterior(exp, prior, r).value;
            && Prior(p) && p.keys == prior.keys
            && forall k :: k in prior.keys ==> (At(p.at, k) == 0.0 <==> At(prior.at, k) == 0.0)
  {
    hide IsExp, Weight, Weighted, UpdatePosterior, Proportional, Prior;
    PriorDistinct(prior);
    UpdateIsBayes(exp, prior, r);
    WeightedPositive(exp, prior, r);
    var f := Weighted(exp, prior, r);
    var c := 1.0 / SumOf(prior.keys, f);
    ProportionalIsPrior(prior.keys, f);
    forall k | k in prior.keys
      ensures At(Proportional(prior.keys, f).at, k) == 0.0 <==> At(prior.at, k) == 0.0
    {
      ZeroKept(exp, prior, r, c, k, At(Proportional(prior.keys, f).at, k));
    }
  }

  lemma ZeroKept(exp: Exp, prior: Dict, r: Residuals, c: real, k: Id, p: real)
    requires IsExp(exp) && Prior(prior) && k in prior.keys && c > 0.0 && p == c * Weighted(exp, prior, r)(k)
    ensures p == 0.0 <==> At(prior.at, k) == 0.0
  {
    hide IsExp, Weight, ResidualOf;
    WeightPositive(exp, ResidualOf(r, k));
    PositiveProduct(At(prior.at, k), Weight(exp, ResidualOf(r, k)));
    PositiveProduct(Weighted(exp, prior, r)(k), c);
  }

  /** The residuals of two observations together. */
  function Total(r: Residuals, s: Residuals): Residuals {
    Residuals(r.keys, map k | k in r.at && k in s.at :: r.at[k] + s.at[k])
  }

  /** Folding two observations one after the other is one update with the summed residuals. */
  lemma FoldsAddResiduals(exp: Exp, prior: Dict, r: Residuals, s: Residuals)
    requires IsExp(exp) && Covered(prior, r) && Covered(prior, s) && r.at.Keys == s.at.Keys
    ensures UpdatePosterior(exp, prior, r).Ok?
    ensures UpdatePosterior(exp, UpdatePosterior(exp, prior, r).value, s) == UpdatePosterior(exp, prior, Total(r, s))
  {
    hide IsExp, Weight, UpdatePosterior, Proportional, Weighted, Covered, Total;
    UpdateKeeps(exp, prior, r);
    UpdateIsBayes(exp, prior, r);
    var first := UpdatePosterior(exp, prior, r).value;
    var g := Weighted(exp, prior, Total(r, s));
    var c := 1.0 / SumOf(prior.keys, Weighted(exp, prior, r));
    TotalCovered(prior, r, s);
    StillCovered(prior, first, s);
    UpdateIsBayes(exp, first, s);
    UpdateIsBayes(exp, prior, Total(r, s));
    SecondWeights(exp, prior, first, r, s, c);
    ProportionalScales(prior.keys, g, Weighted(exp, first, s), c);
  }

  lemma StillCovered(prior: Dict, first: Dict, s: Residuals)
    requires Covered(prior, s) && Prior(first) && first.keys == prior.keys
    ensures Covered(first, s)
  {
    hide Prior;
  }

  lemma SecondWeights(exp: Exp, prior: Dict, first: Dict, r: Residuals, s: Residuals, c: real)
    requires IsExp(exp) && Covered(prior, r) && Covered(prior, s) && r.at.Keys == s.at.Keys
    requires SumOf(prior.keys, Weighted(exp, prior, r)) > 0.0
    requires UpdatePosterior(exp, prior, r) == Ok(first) && c == 1.0 / SumOf(prior.keys, Weighted(exp, prior, r))
    ensures c > 0.0
    ensures forall k :: k in prior.keys ==> Weighted(exp, first, s)(k) == c * Weighted(exp, prior, Total(r, s))(k)
  {
    hide IsExp, Weight, UpdatePosterior, Proportional, Prior, Weighted, ResidualOf, Total;
    PriorDistinct(prior);
    UpdateIsBayes(exp, prior, r);
    WeightedPositive(exp, prior, r);
    TotalCovered(prior, r, s);
    ProportionalIsPrior(prior.keys, Weighted(exp, prior, r));
    forall k | k in prior.keys
      ensures Weighted(exp, first, s)(k) == c * Weighted(exp, prior, Total(r, s))(k)
    {
      SecondWeight(exp, prior, first, r, s, c, k);
    }
  }

  lemma SecondWeight(exp: Exp, prior: Dict, first: Dict, r: Residuals, s: Residuals, c: real, k: Id)
    requires IsExp(exp) && At(first.at, k) == c * Weighted(exp, prior, r)(k)
    requires ResidualOf(Total(r, s), k) == ResidualOf(r, k) + ResidualOf(s, k)
    ensures Weighted(exp, first, s)(k) == c * Weighted(exp, prior, Total(r, s))(k)
  {
    hide IsExp, Weight, Total, ResidualOf;
    WeightSum(exp, ResidualOf(r, k), ResidualOf(s, k));
    Regroup(c, At(prior.at, k), Weight(exp, ResidualOf(r, k)), Weight(exp, ResidualOf(s, k)));
  }

  lemma PriorDistinct(prior: Dict)
    requires Prior(prior)
    ensures Distinct(prior.keys) && prior.keys != []
  {
  }

  lemma TotalCovered(prior: Dict, r: Residuals, s: Residuals)
    requires Covered(prior, r) && Covered(prior, s) && r.at.Keys == s.at.Keys
    ensures Covered(prior, Total(r, s))
    ensures forall k :: k in prior.keys ==> ResidualOf(Total(r, s), k) == ResidualOf(r, k) + ResidualOf(s, k)
  {
    assert Total(r, s).at.Keys == r.at.Keys;
  }

  lemma Regroup(c: real, p: real, a: real, b: real)
    ensures (c * (p * a)) * b == c * (p * (a * b))
  {
  }

  /** The order of two observations does not matter. */
  lemma FoldsCommute(exp: Exp, prior: Dict, r: Residuals, s: Residuals)
    requires IsExp(exp) && Covered(prior, r) && Covered(prior, s) && r.at.Keys == s.at.Keys
    ensures UpdatePosterior(exp, prior, r).Ok? && UpdatePosterior(exp, prior, s).Ok?
    ensures UpdatePosterior(exp, UpdatePosterior(exp, prior, r).value, s)
            == UpdatePosterior(exp, UpdatePosterior(exp, prior, s).value, r)
  {
    hide IsExp, Weight, UpdatePosterior, Proportional, Prior;
    FoldsAddResiduals(exp, prior, r, s);
    FoldsAddResiduals(exp, prior, s, r);
    TotalCovered(prior, r, s);
    TotalCovered(prior, s, r);
    UpdateIsBayes(exp, prior, Total(r, s));
    UpdateIsBayes(exp, prior, Total(s, r));
    SameProportions(prior.keys, Weighted(exp, prior, Total(r, s)), Weighted(exp, prior, Total(s, r)));
  }
}
