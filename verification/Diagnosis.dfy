/** Bayesian updates of a hypothesis set in exact arithmetic. */
module Diagnosis {
  import opened Prelude
  import opened RealSums

  type Id = string

  /** One hypothesis; `body` stands for the fields no update touches. */
  datatype Hypothesis = Hypothesis(id: Id, prior: real, unknown: bool, supporting: seq<Id>, body: string)

  datatype HypothesisSet = HypothesisSet(incident: Id, hypotheses: seq<Hypothesis>, proposer: Id)

  datatype UpdateError = KeyMismatch | NegativeLikelihood | ImpossibleObservation

  type Likelihood = map<Id, real>

  function Prior(): Hypothesis -> real {
    (h: Hypothesis) => h.prior
  }

  function Weight(l: Likelihood): Hypothesis -> real {
    (h: Hypothesis) => h.prior * (if h.id in l then l[h.id] else 0.0)
  }

  function Ids(hs: seq<Hypothesis>): (r: seq<Id>)
    ensures |r| == |hs| && forall i :: 0 <= i < |hs| ==> r[i] == hs[i].id
  {
    seq(|hs|, i requires 0 <= i < |hs| => hs[i].id)
  }

  function UnknownCount(hs: seq<Hypothesis>): nat {
    if hs == [] then 0 else (if hs[0].unknown then 1 else 0) + UnknownCount(hs[1..])
  }

  /** The contract of a hypothesis set. */
  predicate Valid(s: HypothesisSet) {
    && |s.hypotheses| >= 2 && Distinct(Ids(s.hypotheses))
    && (forall h :: h in s.hypotheses ==> 0.0 <= h.prior <= 1.0)
    && SumOf(s.hypotheses, Prior()) == 1.0
    && UnknownCount(s.hypotheses) == 1
  }

  function Supported(h: Hypothesis, l: Likelihood, evidence: Option<Id>): seq<Id>
    requires h.id in l
  {
    if evidence.Some? && l[h.id] > 0.0 then h.supporting + [evidence.value] else h.supporting
  }

  function Reweighted(h: Hypothesis, l: Likelihood, normalizer: real, evidence: Option<Id>): Hypothesis
    requires h.id in l && normalizer != 0.0
  {
    h.(prior := Weight(l)(h) / normalizer, supporting := Supported(h, l, evidence))
  }

  function ReweightedAll(hs: seq<Hypothesis>, l: Likelihood, normalizer: real, evidence: Option<Id>)
    : (r: seq<Hypothesis>)
    requires normalizer != 0.0 && forall h :: h in hs ==> h.id in l
    ensures |r| == |hs|
    ensures forall i :: 0 <= i < |hs| ==> r[i] == Reweighted(hs[i], l, normalizer, evidence)
  {
    seq(|hs|, i requires 0 <= i < |hs| => Reweighted(hs[i], l, normalizer, evidence))
  }

  predicate Covers(s: HypothesisSet, l: Likelihood) {
    l.Keys == set h | h in s.hypotheses :: h.id
  }

  predicate NonNegative(l: Likelihood) {
    forall k :: k in l ==> l[k] >= 0.0
  }

  function Update(s: HypothesisSet, l: Likelihood, proposer: Id, evidence: Option<Id>)
    : Result<HypothesisSet, UpdateError> {
    if !Covers(s, l) then Err(KeyMismatch)
    else if !NonNegative(l) then Err(NegativeLikelihood)
    else
      var normalizer := SumOf(s.hypotheses, Weight(l));
      if normalizer <= 0.0 then Err(ImpossibleObservation)
      else Ok(HypothesisSet(s.incident, ReweightedAll(s.hypotheses, l, normalizer, evidence), proposer))
  }

  // ----- sums over two sequences that agree pointwise

  lemma {:induction false} SumAcross<T, U>(s: seq<T>, t: seq<U>, c: real, f: T -> real, g: U -> real)
    requires |s| == |t| && forall i :: 0 <= i < |s| ==> g(t[i]) == c * f(s[i])
    ensures SumOf(t, g) == c * SumOf(s, f)
  {
    if s != [] {
      SumAcross(s[1..], t[1..], c, f, g);
      assert c * (f(s[0]) + SumOf(s[1..], f)) == c * f(s[0]) + c * SumOf(s[1..], f);
    }
  }

  lemma DivisionIsScaling(a: real, b: real)
    requires b > 0.0
    ensures a / b == (1.0 / b) * a
    ensures a >= 0.0 ==> a / b >= 0.0
    ensures a == 0.0 ==> a / b == 0.0
    ensures (1.0 / b) * b == 1.0
    ensures 1.0 / b > 0.0
  {
  }

  lemma WeightsNonNegative(s: HypothesisSet, l: Likelihood)
    requires Valid(s) && Covers(s, l) && NonNegative(l)
    ensures forall h :: h in s.hypotheses ==> h.id in l && Weight(l)(h) == h.prior * l[h.id] && Weight(l)(h) >= 0.0
    ensures SumOf(s.hypotheses, Weight(l)) >= 0.0
    ensures forall h :: h in s.hypotheses ==> Weight(l)(h) <= SumOf(s.hypotheses, Weight(l))
    ensures SumOf(s.hypotheses, Weight(l)) == 0.0 <==> forall h :: h in s.hypotheses ==> Weight(l)(h) == 0.0
  {
    forall h | h in s.hypotheses
      ensures h.id in l && Weight(l)(h) == h.prior * l[h.id] && Weight(l)(h) >= 0.0
    {
      assert h.id in l.Keys;
      ProductSign(h.prior, l[h.id]);
    }
    SumNonNegative(s.hypotheses, Weight(l));
    if forall h :: h in s.hypotheses ==> Weight(l)(h) == 0.0 {
      SumZeros(s.hypotheses, Weight(l));
    }
  }

  lemma {:induction false} UnknownsKept(a: seq<Hypothesis>, b: seq<Hypothesis>)
    requires |a| == |b| && forall i :: 0 <= i < |a| ==> a[i].unknown == b[i].unknown
    ensures UnknownCount(a) == UnknownCount(b)
  {
    if a != [] {
      UnknownsKept(a[1..], b[1..]);
    }
  }

  lemma QuotientAtMostOne(a: real, b: real)
    requires 0.0 <= a <= b && b > 0.0
    ensures 0.0 <= a / b <= 1.0
  {
  }

  /**
   What an update keeps: the incident, every ID and its place, the single unknown, unit mass, and
   zero for every hypothesis that had zero.  It is refused as impossible exactly when every
   hypothesis has zero weight.
   */
  lemma UpdateKeepsContract(s: HypothesisSet, l: Likelihood, proposer: Id, evidence: Option<Id>)
    requires Valid(s) && Covers(s, l) && NonNegative(l)
    ensures var r := Update(s, l, proposer, evidence);
            && (r.Err? <==> forall h :: h in s.hypotheses ==> h.prior == 0.0 || l[h.id] == 0.0)
            && (r.Ok? ==>
                  && Valid(r.value) && r.value.incident == s.incident
                  && Ids(r.value.hypotheses) == Ids(s.hypotheses)
                  && forall i :: 0 <= i < |s.hypotheses| ==>
                       && (s.hypotheses[i].prior == 0.0 ==> r.value.hypotheses[i].prior == 0.0)
                       && r.value.hypotheses[i].unknown == s.hypotheses[i].unknown)
  {
    hide *;
    CoversIds(s, l);
    WeightsNonNegative(s, l);
    ZeroMassExactly(s, l);
    var n := SumOf(s.hypotheses, Weight(l));
    if n > 0.0 {
      Succeeds(s, l, n, proposer, evidence);
      UpdatedSetIsValid(s, l, n, proposer, evidence);
    } else {
      Fails(s, l, proposer, evidence);
    }
  }

  /** The mass is zero exactly when every hypothesis has zero prior or zero likelihood. */
  lemma ZeroMassExactly(s: HypothesisSet, l: Likelihood)
    requires Valid(s) && Covers(s, l) && NonNegative(l)
    requires forall h :: h in s.hypotheses ==> h.id in l
    ensures SumOf(s.hypotheses, Weight(l)) == 0.0 <==>
            forall h :: h in s.hypotheses ==> h.prior == 0.0 || l[h.id] == 0.0
  {
    hide Valid, Covers, NonNegative, Weight;
    WeightsNonNegative(s, l);
    forall h | h in s.hypotheses
      ensures Weight(l)(h) == 0.0 <==> h.prior == 0.0 || l[h.id] == 0.0
    {
      ZeroProduct(h.prior, l[h.id]);
    }
  }

  lemma ZeroProduct(a: real, b: real)
    ensures a * b == 0.0 <==> a == 0.0 || b == 0.0
  {
  }

  lemma UpdatedSetIsValid(s: HypothesisSet, l: Likelihood, n: real, proposer: Id, evidence: Option<Id>)
    requires Valid(s) && Covers(s, l) && NonNegative(l)
    requires n == SumOf(s.hypotheses, Weight(l)) && n > 0.0
    requires forall h :: h in s.hypotheses ==> h.id in l && 0.0 <= Weight(l)(h) <= n
    ensures var hs := ReweightedAll(s.hypotheses, l, n, evidence);
            && Valid(HypothesisSet(s.incident, hs, proposer)) && Ids(hs) == Ids(s.hypotheses)
            && forall i :: 0 <= i < |hs| ==>
                 && hs[i].unknown == s.hypotheses[i].unknown
                 && (s.hypotheses[i].prior == 0.0 ==> hs[i].prior == 0.0)
  {
    hide Weight, Covers, NonNegative, Reweighted, ReweightedAll;
    var before, hs := s.hypotheses, ReweightedAll(s.hypotheses, l, n, evidence);
    ReweightedPriors(before, l, n, evidence);
    ReweightedMass(before, l, n, evidence);
    UnknownsKept(before, hs);
    assert Ids(hs) == Ids(before);
    assert forall h :: h in hs ==> 0.0 <= h.prior <= 1.0;
  }

  lemma ReweightedPriors(before: seq<Hypothesis>, l: Likelihood, n: real, evidence: Option<Id>)
    requires n > 0.0 && forall h :: h in before ==> h.id in l && 0.0 <= Weight(l)(h) <= n
    ensures var hs := ReweightedAll(before, l, n, evidence);
            forall i :: 0 <= i < |hs| ==>
              && Prior()(hs[i]) == (1.0 / n) * Weight(l)(before[i])
              && 0.0 <= hs[i].prior <= 1.0 && hs[i].id == before[i].id && hs[i].unknown == before[i].unknown
              && (before[i].prior == 0.0 ==> hs[i].prior == 0.0)
  {
    hide Weight, Reweighted, ReweightedAll;
    forall i | 0 <= i < |before|
      ensures var r := ReweightedAll(before, l, n, evidence)[i];
              && Prior()(r) == (1.0 / n) * Weight(l)(before[i])
              && 0.0 <= r.prior <= 1.0 && r.id == before[i].id && r.unknown == before[i].unknown
              && (before[i].prior == 0.0 ==> r.prior == 0.0)
    {
      assert before[i] in before;
      ReweightedPrior(before[i], l, n, evidence);
    }
  }

  lemma ReweightedMass(before: seq<Hypothesis>, l: Likelihood, n: real, evidence: Option<Id>)
    requires n > 0.0 && forall h :: h in before ==> h.id in l && 0.0 <= Weight(l)(h) <= n
    requires n == SumOf(before, Weight(l))
    ensures SumOf(ReweightedAll(before, l, n, evidence), Prior()) == 1.0
  {
    hide Weight, Reweighted, ReweightedAll, Prior;
    ReweightedPriors(before, l, n, evidence);
    SumAcross(before, ReweightedAll(before, l, n, evidence), 1.0 / n, Weight(l), Prior());
    DivisionIsScaling(n, n);
  }

  lemma ReweightedPrior(h: Hypothesis, l: Likelihood, n: real, evidence: Option<Id>)
    requires n > 0.0 && h.id in l && 0.0 <= Weight(l)(h) <= n
    ensures var r := Reweighted(h, l, n, evidence);
            && r.id == h.id && r.unknown == h.unknown
            && r.prior == (1.0 / n) * Weight(l)(h) && 0.0 <= r.prior <= 1.0
            && (h.prior == 0.0 ==> r.prior == 0.0)
  {
    DivisionIsScaling(Weight(l)(h), n);
    QuotientAtMostOne(Weight(l)(h), n);
    ZeroProduct(h.prior, l[h.id]);
  }

  // ----- successive updates

  /** The pointwise product of two likelihoods. */
  function Product(a: Likelihood, b: Likelihood): Likelihood {
    map k | k in a && k in b :: a[k] * b[k]
  }

  lemma ProductLikelihood(s: HypothesisSet, a: Likelihood, b: Likelihood)
    requires Covers(s, a) && Covers(s, b) && NonNegative(a) && NonNegative(b)
    ensures Covers(s, Product(a, b)) && NonNegative(Product(a, b))
  {
    assert Product(a, b).Keys == a.Keys;
    forall k | k in Product(a, b)
      ensures Product(a, b)[k] >= 0.0
    {
      ProductSign(a[k], b[k]);
    }
  }

  lemma ProductSign(a: real, b: real)
    requires a >= 0.0 && b >= 0.0
    ensures a * b >= 0.0
  {
  }

  lemma SecondWeight(h: Hypothesis, a: Likelihood, b: Likelihood, n: real, evidence: Option<Id>)
    requires n > 0.0 && h.id in a && h.id in b
    ensures Weight(b)(Reweighted(h, a, n, evidence)) == (1.0 / n) * Weight(Product(a, b))(h)
  {
    DivisionIsScaling(h.prior * a[h.id], n);
    ScaleProduct(1.0 / n, h.prior, a[h.id], b[h.id]);
  }

  /** After updating by a, the weight under b is the product weight, up to the first normalizer. */
  lemma SecondWeights(s: HypothesisSet, a: Likelihood, b: Likelihood, n: real, evidence: Option<Id>)
    requires Covers(s, a) && Covers(s, b) && n > 0.0
    requires forall h :: h in s.hypotheses ==> h.id in a && h.id in b
    ensures var hs := ReweightedAll(s.hypotheses, a, n, evidence);
            && (forall i :: 0 <= i < |hs| ==>
                  Weight(b)(hs[i]) == (1.0 / n) * Weight(Product(a, b))(s.hypotheses[i]))
            && SumOf(hs, Weight(b)) == (1.0 / n) * SumOf(s.hypotheses, Weight(Product(a, b)))
  {
    hide Weight, Reweighted, Product, Covers;
    var hs := ReweightedAll(s.hypotheses, a, n, evidence);
    forall i | 0 <= i < |hs|
      ensures Weight(b)(hs[i]) == (1.0 / n) * Weight(Product(a, b))(s.hypotheses[i])
    {
      assert s.hypotheses[i] in s.hypotheses;
      SecondWeight(s.hypotheses[i], a, b, n, evidence);
    }
    SumAcross(s.hypotheses, hs, 1.0 / n, Weight(Product(a, b)), Weight(b));
  }

  lemma ScaleProduct(c: real, p: real, a: real, b: real)
    ensures (c * (p * a)) * b == c * (p * (a * b))
  {
  }

  lemma QuotientOfScaled(c: real, x: real, y: real)
    requires c > 0.0 && y > 0.0
    ensures c * y > 0.0
    ensures (c * x) / (c * y) == x / y
  {
    var q := x / y;
    assert q * y == x;
    assert q * (c * y) == c * (q * y) == c * x;
    Divide(q, c * x, c * y);
  }

  lemma Divide(q: real, x: real, y: real)
    requires y > 0.0 && q * y == x
    ensures x / y == q
  {
  }

  /** The priors of a hypothesis set, in order. */
  function Priors(s: HypothesisSet): (r: seq<real>)
    ensures |r| == |s.hypotheses| && forall i :: 0 <= i < |r| ==> r[i] == s.hypotheses[i].prior
  {
    seq(|s.hypotheses|, i requires 0 <= i < |s.hypotheses| => s.hypotheses[i].prior)
  }

  function Both(s: HypothesisSet, a: Likelihood, b: Likelihood, proposer: Id, e: Option<Id>, f: Option<Id>)
    : Result<HypothesisSet, UpdateError> {
    var first := Update(s, a, proposer, e);
    if first.Err? then first else Update(first.value, b, proposer, f)
  }

  /** Two successive updates succeed exactly when the product update does, and give its posterior. */
  lemma SuccessiveIsProduct(s: HypothesisSet, a: Likelihood, b: Likelihood, proposer: Id, e: Option<Id>, f: Option<Id>)
    requires Valid(s) && Covers(s, a) && Covers(s, b) && NonNegative(a) && NonNegative(b)
    ensures var both, once := Both(s, a, b, proposer, e, f), Update(s, Product(a, b), proposer, None);
            && (both.Ok? <==> once.Ok?)
            && (both.Ok? ==> Priors(both.value) == Priors(once.value))
  {
    hide Valid, Covers, NonNegative, Weight, Product;
    ProductLikelihood(s, a, b);
    WeightsNonNegative(s, a);
    WeightsNonNegative(s, b);
    WeightsNonNegative(s, Product(a, b));
    var n, m := SumOf(s.hypotheses, Weight(a)), SumOf(s.hypotheses, Weight(Product(a, b)));
    if n == 0.0 {
      forall h | h in s.hypotheses
        ensures Weight(Product(a, b))(h) == 0.0
      {
        ZeroWeight(h, a, b);
      }
    } else {
      SecondUpdate(s, a, b, n, m, proposer, e, f);
    }
  }

  lemma ZeroWeight(h: Hypothesis, a: Likelihood, b: Likelihood)
    requires h.id in a && h.id in b && Weight(a)(h) == 0.0
    ensures Weight(Product(a, b))(h) == 0.0
  {
    ScaleProduct(1.0, h.prior, a[h.id], b[h.id]);
  }

  lemma SecondUpdate(
    s: HypothesisSet, a: Likelihood, b: Likelihood, n: real, m: real, proposer: Id, e: Option<Id>, f: Option<Id>)
    requires Covers(s, a) && Covers(s, b) && NonNegative(a) && NonNegative(b)
    requires Covers(s, Product(a, b)) && NonNegative(Product(a, b))
    requires n == SumOf(s.hypotheses, Weight(a)) && n > 0.0
    requires m == SumOf(s.hypotheses, Weight(Product(a, b))) && m >= 0.0
    requires forall h :: h in s.hypotheses ==> h.id in a && h.id in b
    ensures var both, once := Both(s, a, b, proposer, e, f), Update(s, Product(a, b), proposer, None);
            && (both.Ok? <==> once.Ok?)
            && (both.Ok? ==> Priors(both.value) == Priors(once.value))
  {
    hide *;
    var hs := ReweightedAll(s.hypotheses, a, n, e);
    var d := SumOf(hs, Weight(b));
    SecondNormalizer(s, a, b, n, m, d, e);
    CoversIds(s, a);
    CoversIds(s, Product(a, b));
    var first := HypothesisSet(s.incident, hs, proposer);
    Succeeds(s, a, n, proposer, e);
    ReweightedIds(s.hypotheses, a, n, e);
    SameCover(s, first, b);
    CoversIds(first, b);
    BothIs(s, a, b, proposer, e, f);
    if m > 0.0 {
      Succeeds(first, b, d, proposer, f);
      Succeeds(s, Product(a, b), m, proposer, None);
      SamePosteriors(hs, b, f, d, s.hypotheses, Product(a, b), None, m);
      PriorsOf(HypothesisSet(s.incident, ReweightedAll(hs, b, d, f), proposer),
               HypothesisSet(s.incident, ReweightedAll(s.hypotheses, Product(a, b), m, None), proposer));
    } else {
      Fails(first, b, proposer, f);
      Fails(s, Product(a, b), proposer, None);
    }
  }

  /** The second normalizer is the product's over the first, and so are the second weights. */
  lemma SecondNormalizer(s: HypothesisSet, a: Likelihood, b: Likelihood, n: real, m: real, d: real, e: Option<Id>)
    requires Covers(s, a) && Covers(s, b) && n > 0.0 && m >= 0.0
    requires forall h :: h in s.hypotheses ==> h.id in a && h.id in b
    requires d == SumOf(ReweightedAll(s.hypotheses, a, n, e), Weight(b))
    requires m == SumOf(s.hypotheses, Weight(Product(a, b)))
    ensures m > 0.0 ==> d > 0.0
    ensures m == 0.0 ==> d == 0.0
    ensures m > 0.0 ==> forall i :: 0 <= i < |s.hypotheses| ==>
              Weight(b)(ReweightedAll(s.hypotheses, a, n, e)[i]) / d == Weight(Product(a, b))(s.hypotheses[i]) / m
  {
    hide Covers, Weight, Product, ReweightedAll;
    SecondWeights(s, a, b, n, e);
    DivisionIsScaling(m, n);
    if m > 0.0 {
      SameQuotient(0.0, 0.0, 1.0 / n, m, d);
      forall i | 0 <= i < |s.hypotheses|
        ensures Weight(b)(ReweightedAll(s.hypotheses, a, n, e)[i]) / d == Weight(Product(a, b))(s.hypotheses[i]) / m
      {
        SameQuotient(Weight(b)(ReweightedAll(s.hypotheses, a, n, e)[i]), Weight(Product(a, b))(s.hypotheses[i]),
          1.0 / n, m, d);
      }
    }
  }

  lemma SameQuotient(w: real, v: real, c: real, m: real, d: real)
    requires c > 0.0 && m > 0.0 && w == c * v && d == c * m
    ensures d > 0.0 && w / d == v / m
  {
    QuotientOfScaled(c, v, m);
  }

  lemma BothIs(s: HypothesisSet, a: Likelihood, b: Likelihood, proposer: Id, e: Option<Id>, f: Option<Id>)
    requires Update(s, a, proposer, e).Ok?
    ensures Both(s, a, b, proposer, e, f) == Update(Update(s, a, proposer, e).value, b, proposer, f)
  {
    hide Update;
  }

  lemma Succeeds(s: HypothesisSet, l: Likelihood, n: real, proposer: Id, e: Option<Id>)
    requires Covers(s, l) && NonNegative(l) && n == SumOf(s.hypotheses, Weight(l)) && n > 0.0
    requires forall h :: h in s.hypotheses ==> h.id in l
    ensures Update(s, l, proposer, e) == Ok(HypothesisSet(s.incident, ReweightedAll(s.hypotheses, l, n, e), proposer))
  {
    hide Covers, NonNegative, Weight, ReweightedAll;
  }

  lemma Fails(s: HypothesisSet, l: Likelihood, proposer: Id, e: Option<Id>)
    requires Covers(s, l) && NonNegative(l) && SumOf(s.hypotheses, Weight(l)) <= 0.0
    ensures Update(s, l, proposer, e) == Err(ImpossibleObservation)
  {
    hide Covers, NonNegative, Weight;
  }

  lemma ReweightedIds(hs: seq<Hypothesis>, l: Likelihood, n: real, e: Option<Id>)
    requires n != 0.0 && forall h :: h in hs ==> h.id in l
    ensures forall i :: 0 <= i < |hs| ==> ReweightedAll(hs, l, n, e)[i].id == hs[i].id
  {
    hide ReweightedAll, Weight;
  }

  lemma PriorsOf(s: HypothesisSet, t: HypothesisSet)
    requires |s.hypotheses| == |t.hypotheses|
    requires forall i :: 0 <= i < |s.hypotheses| ==> s.hypotheses[i].prior == t.hypotheses[i].prior
    ensures Priors(s) == Priors(t)
  {
  }

  lemma SamePosteriors(
    hs: seq<Hypothesis>, b: Likelihood, f: Option<Id>, d: real, gs: seq<Hypothesis>, p: Likelihood, e: Option<Id>,
    m: real)
    requires |hs| == |gs| && d > 0.0 && m > 0.0
    requires (forall h :: h in hs ==> h.id in b) && (forall g :: g in gs ==> g.id in p)
    requires forall i :: 0 <= i < |hs| ==> Weight(b)(hs[i]) / d == Weight(p)(gs[i]) / m
    ensures forall i :: 0 <= i < |hs| ==> ReweightedAll(hs, b, d, f)[i].prior == ReweightedAll(gs, p, m, e)[i].prior
  {
    hide ReweightedAll, Weight;
    assert forall i :: 0 <= i < |hs| ==> hs[i] in hs && gs[i] in gs;
  }

  lemma CoversIds(s: HypothesisSet, l: Likelihood)
    requires Covers(s, l)
    ensures forall h :: h in s.hypotheses ==> h.id in l
  {
    forall h | h in s.hypotheses
      ensures h.id in l
    {
      assert h.id in l.Keys;
    }
  }

  lemma SameCover(s: HypothesisSet, t: HypothesisSet, l: Likelihood)
    requires |s.hypotheses| == |t.hypotheses| && Covers(s, l)
    requires forall i :: 0 <= i < |s.hypotheses| ==> s.hypotheses[i].id == t.hypotheses[i].id
    ensures Covers(t, l)
  {
    var x, y := set h | h in s.hypotheses :: h.id, set h | h in t.hypotheses :: h.id;
    forall k | k in x
      ensures k in y
    {
      var i :| 0 <= i < |s.hypotheses| && s.hypotheses[i].id == k;
      assert t.hypotheses[i] in t.hypotheses;
    }
    forall k | k in y
      ensures k in x
    {
      var i :| 0 <= i < |t.hypotheses| && t.hypotheses[i].id == k;
      assert s.hypotheses[i] in s.hypotheses;
    }
  }

  lemma ProductCommutes(a: Likelihood, b: Likelihood)
    ensures Product(a, b) == Product(b, a)
  {
  }

  /** The order of two observations does not matter. */
  lemma UpdatesCommute(s: HypothesisSet, a: Likelihood, b: Likelihood, proposer: Id, e: Option<Id>, f: Option<Id>)
    requires Valid(s) && Covers(s, a) && Covers(s, b) && NonNegative(a) && NonNegative(b)
    ensures var ab, ba := Both(s, a, b, proposer, e, f), Both(s, b, a, proposer, f, e);
            && (ab.Ok? <==> ba.Ok?)
            && (ab.Ok? ==> Priors(ab.value) == Priors(ba.value))
  {
    ProductCommutes(a, b);
    hide *;
    SuccessiveIsProduct(s, a, b, proposer, e, f);
    SuccessiveIsProduct(s, b, a, proposer, f, e);
  }
}
