/** Odds, evidence and entropy: what the updates mean label by label. */
module PosteriorLaws {
  import opened Prelude
  import opened RealSums
  import opened Decimal
  import opened Hypotheses
  import opened InformationGain
  import A = ActivePosterior
  import D = Diagnosis
  import C = CommittedDiagnosis

  // ----- odds from residuals

  lemma ScaledShares(a: real, b: real, e: real, n: real)
    requires n > 0.0 && a == b * e
    ensures a / n == (b / n) * e
  {
    A.Share(a, n);
    A.Share(b, n);
    assert (1.0 / n) * (b * e) == ((1.0 / n) * b) * e;
  }

  /** Four residual units are one factor of e. */
  lemma WeightRatio(exp: A.Exp, a: int, b: int)
    requires A.IsExp(exp)
    ensures A.Weight(exp, a) == A.Weight(exp, b) * exp((b - a) as real / 4.0)
  {
    assert A.SumLaw(exp, -(b as real) / 4.0, (b - a) as real / 4.0);
    assert -(a as real) / 4.0 == -(b as real) / 4.0 + (b - a) as real / 4.0;
  }

  /** The odds of two hypotheses are the exponential of a quarter of their residual difference. */
  lemma ResidualOdds(exp: A.Exp, r: Residuals, j: Id, k: Id)
    requires A.IsExp(exp) && r.Valid() && j in r.at && k in r.at
    ensures A.PosteriorFromResiduals(exp, r).Ok?
    ensures var p := A.PosteriorFromResiduals(exp, r).value.at;
            j in p && k in p && p[j] == p[k] * exp((r.at[k] - r.at[j]) as real / 4.0)
  {
    hide A.IsExp, A.Weight, A.Weights, A.PosteriorFromResiduals;
    assert j in r.keys && r.keys != [];
    A.LikelihoodValue(exp, r, j);
    A.LikelihoodValue(exp, r, k);
    WeightRatio(exp, r.at[j], r.at[k]);
    ScaledShares(A.Weight(exp, r.at[j]), A.Weight(exp, r.at[k]), exp((r.at[k] - r.at[j]) as real / 4.0),
                 SumOf(r.keys, A.Weights(exp, r, 0)));
  }

  lemma OddsArithmetic(c: real, p: real, q: real, a: real, b: real, e: real)
    requires a == b * e
    ensures (c * (p * a)) * q == (c * (q * b)) * p * e
  {
    assert (c * (p * a)) * q == c * p * q * (b * e);
    assert (c * (q * b)) * p * e == c * p * q * (b * e);
  }

  /** An update multiplies prior odds by that exponential. */
  lemma UpdateOdds(exp: A.Exp, prior: Dict, r: Residuals, j: Id, k: Id)
    requires A.IsExp(exp) && A.Covered(prior, r) && j in prior.keys && k in prior.keys
    ensures A.UpdatePosterior(exp, prior, r).Ok?
    ensures var p := A.UpdatePosterior(exp, prior, r).value.at;
            && j in p && k in p && j in r.at && k in r.at
            && p[j] * At(prior.at, k) == p[k] * At(prior.at, j) * exp((r.at[k] - r.at[j]) as real / 4.0)
  {
    hide *;
    var c := UpdatedShare(exp, prior, r, j);
    var d := UpdatedShare(exp, prior, r, k);
    assert c == d;
    WeightRatio(exp, r.at[j], r.at[k]);
    OddsArithmetic(c, At(prior.at, j), At(prior.at, k), A.Weight(exp, r.at[j]), A.Weight(exp, r.at[k]),
                   exp((r.at[k] - r.at[j]) as real / 4.0));
  }

  lemma UpdatedShare(exp: A.Exp, prior: Dict, r: Residuals, k: Id) returns (c: real)
    requires A.IsExp(exp) && A.Covered(prior, r) && k in prior.keys
    ensures SumOf(prior.keys, A.Weighted(exp, prior, r)) > 0.0
    ensures c == 1.0 / SumOf(prior.keys, A.Weighted(exp, prior, r))
    ensures A.UpdatePosterior(exp, prior, r).Ok?
    ensures var p := A.UpdatePosterior(exp, prior, r).value.at;
            k in p && k in r.at && p[k] == c * (At(prior.at, k) * A.Weight(exp, r.at[k]))
  {
    hide *;
    CoveredKey(prior, r, k);
    A.PriorDistinct(prior);
    A.UpdateIsBayes(exp, prior, r);
    A.WeightedPositive(exp, prior, r);
    var f := A.Weighted(exp, prior, r);
    c := 1.0 / SumOf(prior.keys, f);
    A.ProportionalIsPrior(prior.keys, f);
    A.ProportionalKeys(prior.keys, f);
    WeightedAt(exp, prior, r, k);
    AtPresent(A.Proportional(prior.keys, f).at, k);
  }

  lemma CoveredKey(prior: Dict, r: Residuals, k: Id)
    requires A.Covered(prior, r) && k in prior.keys
    ensures Prior(prior) && k in r.at
  {
    hide Prior;
  }

  lemma WeightedAt(exp: A.Exp, prior: Dict, r: Residuals, k: Id)
    requires k in r.at
    ensures A.Weighted(exp, prior, r)(k) == At(prior.at, k) * A.Weight(exp, r.at[k])
  {
    hide A.Weight;
  }

  lemma AtPresent(m: map<Id, real>, k: Id)
    requires k in m
    ensures At(m, k) == m[k]
  {
  }

  // ----- odds from likelihoods

  /** Posterior odds are prior odds times the likelihood ratio, and evidence is noted where it was possible. */
  lemma BayesOdds(s: D.HypothesisSet, l: D.Likelihood, proposer: Id, evidence: Option<Id>, i: nat, j: nat)
    requires D.Valid(s) && D.Covers(s, l) && D.NonNegative(l) && D.Update(s, l, proposer, evidence).Ok?
    requires i < |s.hypotheses| && j < |s.hypotheses|
    ensures var t, x, y := D.Update(s, l, proposer, evidence).value, s.hypotheses[i], s.hypotheses[j];
            && |t.hypotheses| == |s.hypotheses| && t.proposer == proposer && t.incident == s.incident
            && x.id in l && y.id in l
            && t.hypotheses[i].prior * (y.prior * l[y.id]) == t.hypotheses[j].prior * (x.prior * l[x.id])
            && t.hypotheses[i].body == x.body
            && (evidence.Some? && l[x.id] != 0.0 ==> t.hypotheses[i].supporting == x.supporting + [evidence.value])
            && (evidence.None? || l[x.id] == 0.0 ==> t.hypotheses[i].supporting == x.supporting)
  {
    hide D.Valid, D.Covers, D.NonNegative, D.Update, D.Reweighted, D.ReweightedAll, D.Weight;
    var x, y := s.hypotheses[i], s.hypotheses[j];
    D.CoversIds(s, l);
    assert x in s.hypotheses && y in s.hypotheses;
    var n := UpdateDivides(s, l, proposer, evidence);
    D.Succeeds(s, l, n, proposer, evidence);
    NonNegativeAt(l, x.id);
    NonNegativeAt(l, y.id);
    Reweights(x, l, n, evidence);
    Reweights(y, l, n, evidence);
    CrossShares(x.prior * l[x.id], y.prior * l[y.id], n);
  }

  lemma NonNegativeAt(l: D.Likelihood, k: Id)
    requires D.NonNegative(l) && k in l
    ensures l[k] >= 0.0
  {
  }

  lemma UpdateDivides(s: D.HypothesisSet, l: D.Likelihood, proposer: Id, evidence: Option<Id>) returns (n: real)
    requires D.Covers(s, l) && D.NonNegative(l) && D.Update(s, l, proposer, evidence).Ok?
    ensures n == SumOf(s.hypotheses, D.Weight(l)) && n > 0.0
  {
    hide D.Covers, D.NonNegative, D.Weight, D.Update;
    n := SumOf(s.hypotheses, D.Weight(l));
    if n <= 0.0 {
      D.Fails(s, l, proposer, evidence);
    }
  }

  lemma Reweights(h: D.Hypothesis, l: D.Likelihood, n: real, evidence: Option<Id>)
    requires h.id in l && n != 0.0 && l[h.id] >= 0.0
    ensures var r := D.Reweighted(h, l, n, evidence);
            && r.prior == h.prior * l[h.id] / n && r.body == h.body
            && (evidence.Some? && l[h.id] != 0.0 ==> r.supporting == h.supporting + [evidence.value])
            && (evidence.None? || l[h.id] == 0.0 ==> r.supporting == h.supporting)
  {
  }

  lemma CrossShares(a: real, b: real, n: real)
    requires n != 0.0
    ensures (a / n) * b == (b / n) * a
  {
    var p, q := a / n, b / n;
    assert p * n == a && q * n == b;
    assert p * b == p * (q * n) == q * (p * n) == q * a;
  }

  // ----- entropy

  lemma TwoKeys(a: Id, b: Id, f: Id -> real)
    ensures SumOf([a, b], f) == f(a) + f(b)
  {
    assert [a, b][1..] == [b] && [b][1..] == [];
    assert SumOf([b], f) == f(b) + SumOf([], f);
  }

  /** Two equally likely hypotheses hold one bit. */
  lemma FairCoinIsOneBit(log2: real -> real, log2e: real, a: Id, b: Id)
    requires IsLog2(log2, log2e) && a != b
    ensures EntropyBits(log2, Dict([a, b], map[a := 3.0, b := 3.0])) == Ok(1.0)
  {
    hide IsLog2;
    var d := Dict([a, b], map[a := 3.0, b := 3.0]);
    TwoKeys(a, b, Values(d));
    assert Mass(d) == 6.0;
    var p := Scaled(d, 6.0);
    assert p.at[a] == 0.5 && p.at[b] == 0.5;
    HalfLog(log2, log2e);
    TwoKeys(a, b, Terms(log2, p));
    assert Normalized(d) == Ok(p);
  }

  lemma HalfLog(log2: real -> real, log2e: real)
    requires IsLog2(log2, log2e)
    ensures log2(0.5) == -1.0
  {
    LogOfOne(log2, log2e);
    assert ProductLaw(log2, 0.5, 2.0);
    assert 0.5 * 2.0 == 1.0;
  }

  // ----- labels

  /** A label stands for mechanism m exactly when some hypothesis of the space has that label and that mechanism. */
  lemma NamesExactly(space: seq<Hypothesis>, k: Id, m: string)
    ensures C.Names(space, k, m) <==> exists h :: h in space && Label(h) == k && h.key == m
  {
    C.LabelsInjective();
    hide Label;
    if h :| h in space && Label(h) == k && h.key == m {
      assert Label(h) in C.ByLabel(space);
    }
  }

  /** The label of a mechanism at a severity. */
  lemma LabelSpelled()
    ensures Label(Hypothesis("loss", 65)) == "loss:65"
  {
    assert Dec(6) == "6";
    assert Dec(65) == "65";
  }
}
