/** Selection of the next probe in the graded laboratory: gain per cost, scored to six places. */
module ActionSelection {
  import opened Prelude
  import opened Sorting

  type Id = string

  datatype ActionCandidate = ActionCandidate(
    id: Id,
    action: seq<int>,
    directCost: nat,
    time: nat,
    riskUnits: nat,
    safe: bool)

  /** Six-place decimals; the floor may be zero. */
  datatype PlannerWeights = PlannerWeights(time: real, risk: real, floor: real) {
    predicate Valid() {
      time >= 0.0 && risk >= 0.0 && floor >= 0.0
    }

    function GeneralizedCost(c: ActionCandidate): real {
      var total := c.directCost as real + time * (c.time as real) + risk * (c.riskUnits as real);
      if total > floor then total else floor
    }
  }

  /** The weights, the clamped gain estimate and the hash of an action vector. */
  datatype Setting = Setting(weights: PlannerWeights, gain: ActionCandidate -> real, sha: seq<int> -> string)

  /** In millionths: the numbers a six-place score string can show. */
  datatype ActionScore = ActionScore(id: Id, sha: string, eligible: bool, gain: int, cost: int, score: int)

  datatype SelectionResult = SelectionResult(id: Id, sha: string, scores: seq<ActionScore>)

  datatype SelectionError = EmptyCatalog | TooFewHypotheses | ZeroCost | NoEligibleAction | Inconsistent

  const MICRO: real := 1000000.0

  /** Quantizing to six places: the nearest millionth, and the even one at a tie. */
  function RoundHalfEven(x: real): int {
    var below := (x * MICRO).Floor;
    var rest := x * MICRO - below as real;
    if rest < 0.5 || (rest == 0.5 && below % 2 == 0) then below else below + 1
  }

  lemma RoundingError(x: real)
    ensures RoundHalfEven(x) as real - 0.5 <= x * MICRO <= RoundHalfEven(x) as real + 0.5
  {
  }

  function Ratio(gain: real, cost: real): real {
    if cost == 0.0 then 0.0 else gain / cost
  }

  function ExactScore(s: Setting, c: ActionCandidate): real {
    Ratio(s.gain(c), s.weights.GeneralizedCost(c))
  }

  function ScoreOf(s: Setting): ActionCandidate -> ActionScore {
    (c: ActionCandidate) =>
      if c.safe
      then ActionScore(c.id, s.sha(c.action), true, RoundHalfEven(s.gain(c)),
                       RoundHalfEven(s.weights.GeneralizedCost(c)), RoundHalfEven(ExactScore(s, c)))
      else ActionScore(c.id, s.sha(c.action), false, 0, RoundHalfEven(s.weights.GeneralizedCost(c)), 0)
  }

  predicate Priced(s: Setting, catalog: seq<ActionCandidate>) {
    forall c :: c in catalog && c.safe ==> s.weights.GeneralizedCost(c) != 0.0
  }

  // ----- the maximum by (score, hash), first among equals

  predicate KeyLeq(a: ActionScore, b: ActionScore) {
    a.score < b.score || (a.score == b.score && TextLeq(a.sha, b.sha))
  }

  lemma KeyOrder()
    ensures TotalPreorder(KeyLeq)
    ensures forall a, b :: KeyLeq(a, b) && KeyLeq(b, a) ==> a.sha == b.sha && a.score == b.score
  {
    TextOrder();
  }

  function EligibleOf(scores: seq<ActionScore>): (r: seq<ActionScore>)
    ensures forall a :: a in r <==> a in scores && a.eligible
  {
    if scores == [] then []
    else (if scores[0].eligible then [scores[0]] else []) + EligibleOf(scores[1..])
  }

  /** Python's max: a later element replaces the current one only when strictly greater. */
  function Top(scores: seq<ActionScore>): ActionScore
    requires scores != []
  {
    if |scores| == 1 then scores[0]
    else
      var best, last := Top(scores[..|scores| - 1]), scores[|scores| - 1];
      if KeyLeq(last, best) then best else last
  }

  lemma {:induction false} TopIsGreatest(scores: seq<ActionScore>)
    requires scores != []
    ensures Top(scores) in scores && forall a :: a in scores ==> KeyLeq(a, Top(scores))
  {
    KeyOrder();
    hide KeyLeq;
    if |scores| > 1 {
      var init, last := scores[..|scores| - 1], scores[|scores| - 1];
      TopIsGreatest(init);
      assert scores == init + [last];
      assert KeyLeq(last, last);
    }
  }

  /** The first element wins every tie. */
  lemma {:induction false} TopPrefersFirst(scores: seq<ActionScore>)
    requires scores != [] && forall a :: a in scores ==> KeyLeq(a, scores[0])
    ensures Top(scores) == scores[0]
  {
    if |scores| > 1 {
      TopPrefersFirst(scores[..|scores| - 1]);
    }
  }

  /** The first score carrying an ID. */
  function Lookup(scores: seq<ActionScore>, id: Id): Option<ActionScore> {
    if scores == [] then None
    else if scores[0].id == id then Some(scores[0])
    else Lookup(scores[1..], id)
  }

  lemma {:induction false} LookupFinds(scores: seq<ActionScore>, a: ActionScore)
    requires a in scores && DistinctIds(scores)
    ensures Lookup(scores, a.id) == Some(a)
  {
    if scores[0] != a {
      assert DistinctIds(scores[1..]);
      LookupFinds(scores[1..], a);
      assert scores[0].id != a.id;
    }
  }

  predicate DistinctIds(scores: seq<ActionScore>) {
    forall i, j :: 0 <= i < j < |scores| ==> scores[i].id != scores[j].id
  }

  /** Takes the top eligible score; the result must name an eligible entry with its hash. */
  function Choose(scores: seq<ActionScore>): Result<SelectionResult, SelectionError> {
    if EligibleOf(scores) == [] then Err(NoEligibleAction)
    else
      var best := Top(EligibleOf(scores));
      var found := Lookup(scores, best.id);
      if found.Some? && found.value.eligible && found.value.sha == best.sha
      then Ok(SelectionResult(best.id, best.sha, scores))
      else Err(Inconsistent)
  }

  function Select(s: Setting, catalog: seq<ActionCandidate>, hypotheses: nat): Result<SelectionResult, SelectionError> {
    if catalog == [] then Err(EmptyCatalog)
    else if hypotheses < 2 then Err(TooFewHypotheses)
    else if !Priced(s, catalog) then Err(ZeroCost)
    else Choose(Image(catalog, ScoreOf(s)))
  }

  /** Scores the catalog in order, keeping refused actions as refused entries. */
  method SelectAction(s: Setting, catalog: seq<ActionCandidate>, hypotheses: nat)
    returns (r: Result<SelectionResult, SelectionError>)
    requires s.weights.Valid()
    ensures r == Select(s, catalog, hypotheses)
  {
    hide ScoreOf, Choose;
    if catalog == [] {
      return Err(EmptyCatalog);
    }
    if hypotheses < 2 {
      return Err(TooFewHypotheses);
    }
    var scores: seq<ActionScore> := [];
    for i := 0 to |catalog|
      invariant scores == Image(catalog[..i], ScoreOf(s))
      invariant forall c :: c in catalog[..i] && c.safe ==> s.weights.GeneralizedCost(c) != 0.0
    {
      var c := catalog[i];
      assert catalog[..i + 1] == catalog[..i] + [c];
      if c.safe && s.weights.GeneralizedCost(c) == 0.0 {
        assert c in catalog;
        return Err(ZeroCost);
      }
      scores := scores + [ScoreOf(s)(c)];
      assert scores == Image(catalog[..i + 1], ScoreOf(s));
    }
    assert catalog[..|catalog|] == catalog;
    r := Choose(scores);
  }

  // ----- what a selection means

  ghost predicate Highest(scores: seq<ActionScore>, a: ActionScore) {
    a in scores && a.eligible && forall b :: b in scores && b.eligible ==> KeyLeq(b, a)
  }

  lemma ChoiceIsHighest(scores: seq<ActionScore>)
    requires DistinctIds(scores) && EligibleOf(scores) != []
    ensures Highest(scores, Top(EligibleOf(scores)))
    ensures Choose(scores) == Ok(SelectionResult(Top(EligibleOf(scores)).id, Top(EligibleOf(scores)).sha, scores))
  {
    TopIsGreatest(EligibleOf(scores));
    LookupFinds(scores, Top(EligibleOf(scores)));
  }

  /** The chosen entry is an eligible one even when IDs repeat: a refused action is never selected. */
  lemma NeverSelectsRefused(s: Setting, catalog: seq<ActionCandidate>, hypotheses: nat)
    requires Select(s, catalog, hypotheses).Ok?
    ensures var r := Select(s, catalog, hypotheses).value;
            && r.scores == Image(catalog, ScoreOf(s))
            && exists i :: && 0 <= i < |catalog| && catalog[i].safe && catalog[i].id == r.id
                           && s.sha(catalog[i].action) == r.sha && Highest(r.scores, r.scores[i])
  {
    hide KeyLeq, RoundHalfEven;
    var scores := Image(catalog, ScoreOf(s));
    TopIsGreatest(EligibleOf(scores));
    var best := Top(EligibleOf(scores));
    var i :| 0 <= i < |scores| && scores[i] == best;
    assert catalog[i].safe;
    assert Highest(scores, scores[i]);
  }

  /** c's exact score is within a millionth of every eligible action's. */
  ghost predicate NearlyBest(s: Setting, catalog: seq<ActionCandidate>, c: ActionCandidate) {
    forall d :: d in catalog && d.safe ==> ExactScore(s, d) <= ExactScore(s, c) + 1.0 / MICRO
  }

  /**
   What the selection returns names a safe catalog entry, and rounding to six places costs it at most
   one millionth of score against every eligible action.
   */
  lemma NearBest(s: Setting, catalog: seq<ActionCandidate>, hypotheses: nat)
    requires Select(s, catalog, hypotheses).Ok?
    ensures var r := Select(s, catalog, hypotheses).value;
            exists i :: && 0 <= i < |catalog| && catalog[i].safe && catalog[i].id == r.id
                        && s.sha(catalog[i].action) == r.sha && NearlyBest(s, catalog, catalog[i])
  {
    NeverSelectsRefused(s, catalog, hypotheses);
    hide Select, RoundHalfEven, ExactScore, Highest, NearlyBest;
    var r := Select(s, catalog, hypotheses).value;
    var i :| && 0 <= i < |catalog| && catalog[i].safe && catalog[i].id == r.id
             && s.sha(catalog[i].action) == r.sha && Highest(r.scores, r.scores[i]);
    HighestIsNearlyBest(s, catalog, i);
  }

  lemma HighestIsNearlyBest(s: Setting, catalog: seq<ActionCandidate>, i: nat)
    requires i < |catalog| && catalog[i].safe
    requires Highest(Image(catalog, ScoreOf(s)), Image(catalog, ScoreOf(s))[i])
    ensures NearlyBest(s, catalog, catalog[i])
  {
    hide RoundHalfEven, ExactScore;
    forall d | d in catalog && d.safe
      ensures ExactScore(s, d) <= ExactScore(s, catalog[i]) + 1.0 / MICRO
    {
      var j :| 0 <= j < |catalog| && catalog[j] == d;
      assert Image(catalog, ScoreOf(s))[j] == ScoreOf(s)(d);
      RoundingError(ExactScore(s, catalog[i]));
      RoundingError(ExactScore(s, d));
    }
  }

  // ----- independence of catalog order

  /** The same selected ID and hash, or the same error. */
  predicate SameOutcome(p: Result<SelectionResult, SelectionError>, q: Result<SelectionResult, SelectionError>) {
    match (p, q)
    case (Ok(x), Ok(y)) => x.id == y.id && x.sha == y.sha
    case (Err(e), Err(f)) => e == f
    case _ => false
  }

  /** Every entry tied at the top, or sharing a top entry's ID, has that ID and hash and is eligible. */
  ghost predicate TopAgrees(scores: seq<ActionScore>) {
    forall a, b ::
      Highest(scores, a) && b in scores && (Highest(scores, b) || b.id == a.id) ==>
        b.id == a.id && b.eligible && b.sha == a.sha
  }

  /** No two different entries tie for the top. */
  ghost predicate TopDecided(scores: seq<ActionScore>) {
    forall a, b :: Highest(scores, a) && Highest(scores, b) ==> a == b
  }

  lemma SameEntries(xs: seq<ActionScore>, ys: seq<ActionScore>)
    requires multiset(xs) == multiset(ys)
    ensures forall a :: a in xs <==> a in ys
    ensures forall a :: Highest(xs, a) <==> Highest(ys, a)
    ensures DistinctIds(xs) <==> DistinctIds(ys)
    ensures EligibleOf(xs) == [] <==> EligibleOf(ys) == []
  {
    hide KeyLeq;
    assert forall a :: (a in xs <==> a in multiset(xs)) && (a in ys <==> a in multiset(ys));
    if DistinctIds(xs) {
      SameIds(xs, ys);
    }
    if DistinctIds(ys) {
      SameIds(ys, xs);
    }
    assert EligibleOf(xs) != [] ==> EligibleOf(xs)[0] in EligibleOf(ys);
    assert EligibleOf(ys) != [] ==> EligibleOf(ys)[0] in EligibleOf(xs);
  }

  function IdOf(): ActionScore -> Id {
    (a: ActionScore) => a.id
  }

  lemma SameIds(xs: seq<ActionScore>, ys: seq<ActionScore>)
    requires multiset(xs) == multiset(ys) && DistinctIds(xs)
    ensures DistinctIds(ys)
  {
    var p, q := Image(xs, IdOf()), Image(ys, IdOf());
    ImageOfPermutation(xs, ys, IdOf());
    DistinctCounts(p);
    DistinctCounts(q);
    assert forall i, j :: 0 <= i < j < |p| ==> p[i] != p[j];
    assert forall i :: 0 <= i < |ys| ==> q[i] == ys[i].id;
  }

  /** The sequence with its i-th element moved to the front. */
  function ToFront<T>(s: seq<T>, i: nat): (r: seq<T>)
    requires i < |s|
    ensures r != [] && r[0] == s[i] && multiset(r) == multiset(s)
  {
    WithoutCounts(s, i);
    [s[i]] + Without(s, i)
  }

  lemma {:induction false} LookupSome(scores: seq<ActionScore>, a: ActionScore)
    requires a in scores
    ensures Lookup(scores, a.id).Some?
    ensures Lookup(scores, a.id).value in scores && Lookup(scores, a.id).value.id == a.id
  {
    if scores[0].id != a.id {
      LookupSome(scores[1..], a);
    }
  }

  /** Putting an eligible top entry first makes it the choice. */
  lemma FrontIsChosen(xs: seq<ActionScore>, i: nat)
    requires i < |xs| && Highest(xs, xs[i])
    ensures Choose(ToFront(xs, i)) == Ok(SelectionResult(xs[i].id, xs[i].sha, ToFront(xs, i)))
  {
    hide KeyLeq;
    var ys := ToFront(xs, i);
    SameEntries(xs, ys);
    assert EligibleOf(ys)[0] == xs[i];
    TopPrefersFirst(EligibleOf(ys));
  }

  /** A choice of an entry's ID, made with that entry in front, has its hash, and the entry is eligible. */
  lemma FrontIsLookedUp(xs: seq<ActionScore>, i: nat)
    requires i < |xs| && Choose(ToFront(xs, i)).Ok? && Choose(ToFront(xs, i)).value.id == xs[i].id
    ensures xs[i].eligible && Choose(ToFront(xs, i)).value.sha == xs[i].sha
  {
    hide KeyLeq, EligibleOf, Top, ToFront;
    assert Lookup(ToFront(xs, i), xs[i].id) == Some(xs[i]);
  }

  lemma AgreedChoice(xs: seq<ActionScore>)
    requires TopAgrees(xs) && EligibleOf(xs) != []
    ensures Highest(xs, Top(EligibleOf(xs)))
    ensures Choose(xs) == Ok(SelectionResult(Top(EligibleOf(xs)).id, Top(EligibleOf(xs)).sha, xs))
  {
    hide KeyLeq;
    var best := Top(EligibleOf(xs));
    TopIsGreatest(EligibleOf(xs));
    LookupSome(xs, best);
    assert Highest(xs, best);
  }

  lemma AgreementIsStable(xs: seq<ActionScore>, ys: seq<ActionScore>)
    requires multiset(xs) == multiset(ys) && TopAgrees(xs)
    ensures SameOutcome(Choose(xs), Choose(ys))
  {
    SameEntries(xs, ys);
    if EligibleOf(xs) == [] {
      NoChoice(xs);
      NoChoice(ys);
    } else {
      SameAgreement(xs, ys);
      AgreedChoice(xs);
      AgreedChoice(ys);
      hide Choose, EligibleOf, Highest;
      var p, q := Top(EligibleOf(xs)), Top(EligibleOf(ys));
      HighestListed(xs, q);
      assert q.id == p.id && q.sha == p.sha;
    }
  }

  lemma HighestListed(xs: seq<ActionScore>, a: ActionScore)
    requires Highest(xs, a)
    ensures a in xs
  {
  }

  lemma SameAgreement(xs: seq<ActionScore>, ys: seq<ActionScore>)
    requires multiset(xs) == multiset(ys) && TopAgrees(xs)
    ensures TopAgrees(ys)
  {
    SameEntries(xs, ys);
    hide Highest;
  }

  /** If moving any one entry to the front changes nothing, the top entries agree. */
  lemma FrontsDecide(xs: seq<ActionScore>)
    requires forall i :: 0 <= i < |xs| ==> SameOutcome(Choose(xs), Choose(ToFront(xs, i)))
    ensures TopAgrees(xs)
  {
    hide Choose, Highest, ToFront;
    forall a, b | Highest(xs, a) && b in xs && (Highest(xs, b) || b.id == a.id)
      ensures b.id == a.id && b.eligible && b.sha == a.sha
    {
      HighestListed(xs, a);
      var i :| 0 <= i < |xs| && xs[i] == a;
      var j :| 0 <= j < |xs| && xs[j] == b;
      FrontIsChosen(xs, i);
      assert SameOutcome(Choose(xs), Choose(ToFront(xs, i)));
      assert SameOutcome(Choose(xs), Choose(ToFront(xs, j)));
      if Highest(xs, b) {
        FrontIsChosen(xs, j);
      }
      FrontIsLookedUp(xs, j);
    }
  }

  /**
   For any list of scores, repeated IDs included, the outcome does not depend on the order if and only
   if the top entries agree.
   */
  lemma ChoiceIndependenceExactly(xs: seq<ActionScore>)
    ensures TopAgrees(xs) <==>
            forall ys :: multiset(ys) == multiset(xs) ==> SameOutcome(Choose(xs), Choose(ys))
  {
    hide Choose, TopAgrees, SameOutcome, ToFront;
    if TopAgrees(xs) {
      forall ys | multiset(ys) == multiset(xs)
        ensures SameOutcome(Choose(xs), Choose(ys))
      {
        AgreementIsStable(xs, ys);
      }
    }
    if forall ys :: multiset(ys) == multiset(xs) ==> SameOutcome(Choose(xs), Choose(ys)) {
      FrontsDecide(xs);
    }
  }

  /** With distinct IDs the top entries agree exactly when there is only one. */
  lemma DistinctIdsOnlyTie(xs: seq<ActionScore>)
    requires DistinctIds(xs)
    ensures TopAgrees(xs) <==> TopDecided(xs)
  {
    hide KeyLeq;
    forall a, b | a in xs && b in xs && a.id == b.id
      ensures a == b
    {
      if a != b {
        DifferentIds(xs, a, b);
      }
    }
  }

  lemma DifferentIds(xs: seq<ActionScore>, a: ActionScore, b: ActionScore)
    requires DistinctIds(xs) && a in xs && b in xs && a != b
    ensures a.id != b.id
  {
    var i :| 0 <= i < |xs| && xs[i] == a;
    var j :| 0 <= j < |xs| && xs[j] == b;
  }

  // ----- the same for catalogs

  /** The selection gets as far as scoring. */
  predicate Scored(s: Setting, catalog: seq<ActionCandidate>, hypotheses: nat) {
    catalog != [] && hypotheses >= 2 && Priced(s, catalog)
  }

  lemma ScoredSelection(s: Setting, xs: seq<ActionCandidate>, ys: seq<ActionCandidate>, hypotheses: nat)
    requires multiset(xs) == multiset(ys)
    ensures Scored(s, xs, hypotheses) <==> Scored(s, ys, hypotheses)
    ensures Scored(s, xs, hypotheses) ==> Select(s, xs, hypotheses) == Choose(Image(xs, ScoreOf(s)))
    ensures !Scored(s, xs, hypotheses) ==> SameOutcome(Select(s, xs, hypotheses), Select(s, ys, hypotheses))
  {
    hide Choose, ScoreOf, PlannerWeights.GeneralizedCost;
    assert |xs| == |multiset(xs)| == |multiset(ys)| == |ys|;
    assert forall c :: (c in xs <==> c in multiset(xs)) && (c in ys <==> c in multiset(ys));
  }

  lemma FrontOfImage<T, U>(s: seq<T>, i: nat, f: T -> U)
    requires i < |s|
    ensures Image(ToFront(s, i), f) == ToFront(Image(s, f), i)
  {
    ImageWithout(s, i, f);
    assert Image([s[i]] + Without(s, i), f) == [f(s[i])] + Image(Without(s, i), f);
  }

  /**
   Whatever the catalog, the selected ID and hash, or the error, does not depend on its order if and
   only if the selection is refused before scoring or the top scores agree.
   */
  lemma OrderIndependenceExactly(s: Setting, xs: seq<ActionCandidate>, hypotheses: nat)
    ensures (forall ys :: multiset(ys) == multiset(xs) ==>
                            SameOutcome(Select(s, xs, hypotheses), Select(s, ys, hypotheses)))
            <==> !Scored(s, xs, hypotheses) || TopAgrees(Image(xs, ScoreOf(s)))
  {
    hide Choose, TopAgrees, SameOutcome, ToFront, Select, Scored, ScoreOf;
    if !Scored(s, xs, hypotheses) || TopAgrees(Image(xs, ScoreOf(s))) {
      forall ys | multiset(ys) == multiset(xs)
        ensures SameOutcome(Select(s, xs, hypotheses), Select(s, ys, hypotheses))
      {
        ScoredSelection(s, xs, ys, hypotheses);
        ScoredSelection(s, ys, xs, hypotheses);
        if Scored(s, xs, hypotheses) {
          ImageOfPermutation(xs, ys, ScoreOf(s));
          AgreementIsStable(Image(xs, ScoreOf(s)), Image(ys, ScoreOf(s)));
        }
      }
    }
    if forall ys :: multiset(ys) == multiset(xs) ==> SameOutcome(Select(s, xs, hypotheses), Select(s, ys, hypotheses)) {
      if Scored(s, xs, hypotheses) {
        StableCatalogAgrees(s, xs, hypotheses);
      }
    }
  }

  lemma StableCatalogAgrees(s: Setting, xs: seq<ActionCandidate>, hypotheses: nat)
    requires Scored(s, xs, hypotheses)
    requires forall ys :: multiset(ys) == multiset(xs) ==>
                            SameOutcome(Select(s, xs, hypotheses), Select(s, ys, hypotheses))
    ensures TopAgrees(Image(xs, ScoreOf(s)))
  {
    hide Choose, TopAgrees, SameOutcome, ToFront, Select, Scored, ScoreOf;
    var scores := Image(xs, ScoreOf(s));
    forall i | 0 <= i < |scores|
      ensures SameOutcome(Choose(scores), Choose(ToFront(scores, i)))
    {
      var ys := ToFront(xs, i);
      ScoredSelection(s, xs, ys, hypotheses);
      ScoredSelection(s, ys, xs, hypotheses);
      FrontOfImage(xs, i, ScoreOf(s));
    }
    FrontsDecide(scores);
  }

  /** Distinct IDs and action vectors with distinct hashes make the selection independent of order. */
  lemma DistinctActionsDecide(s: Setting, xs: seq<ActionCandidate>, ys: seq<ActionCandidate>, hypotheses: nat)
    requires multiset(xs) == multiset(ys)
    requires forall i, j :: 0 <= i < j < |xs| ==> xs[i].id != xs[j].id && s.sha(xs[i].action) != s.sha(xs[j].action)
    ensures Select(s, xs, hypotheses).Err? ==> Select(s, ys, hypotheses) == Select(s, xs, hypotheses)
    ensures Select(s, xs, hypotheses).Ok? ==>
              && Select(s, ys, hypotheses).Ok?
              && Select(s, ys, hypotheses).value.id == Select(s, xs, hypotheses).value.id
              && Select(s, ys, hypotheses).value.sha == Select(s, xs, hypotheses).value.sha
  {
    hide RoundHalfEven, Choose, EligibleOf, KeyLeq, DistinctIds, ScoreOf, PlannerWeights.GeneralizedCost;
    assert |xs| == |multiset(xs)| == |multiset(ys)| == |ys|;
    assert forall c :: (c in xs <==> c in multiset(xs)) && (c in ys <==> c in multiset(ys));
    ImageOfPermutation(xs, ys, ScoreOf(s));
    DistinctScores(s, xs);
    SameChosen(Image(xs, ScoreOf(s)), Image(ys, ScoreOf(s)));
  }

  lemma DistinctScores(s: Setting, xs: seq<ActionCandidate>)
    requires forall i, j :: 0 <= i < j < |xs| ==> xs[i].id != xs[j].id && s.sha(xs[i].action) != s.sha(xs[j].action)
    ensures var a := Image(xs, ScoreOf(s));
            DistinctIds(a) && forall i, j :: 0 <= i < j < |a| ==> a[i].sha != a[j].sha
  {
    hide RoundHalfEven, PlannerWeights.GeneralizedCost;
  }

  lemma SameChosen(a: seq<ActionScore>, b: seq<ActionScore>)
    requires multiset(a) == multiset(b) && DistinctIds(a)
    requires forall i, j :: 0 <= i < j < |a| ==> a[i].sha != a[j].sha
    ensures Choose(a).Err? ==> Choose(b) == Choose(a)
    ensures Choose(a).Ok? ==>
              Choose(b).Ok? && Choose(b).value.id == Choose(a).value.id && Choose(b).value.sha == Choose(a).value.sha
  {
    hide Choose, EligibleOf, KeyLeq, Highest, DistinctIds;
    SameEntries(a, b);
    if EligibleOf(a) != [] {
      ChoiceIsHighest(a);
      ChoiceIsHighest(b);
      var p, q := Top(EligibleOf(a)), Top(EligibleOf(b));
      TiedHashes(a, p, q);
      OnlyOne(a, p, q);
    } else {
      NoChoice(a);
      NoChoice(b);
    }
  }

  lemma NoChoice(a: seq<ActionScore>)
    requires EligibleOf(a) == []
    ensures Choose(a) == Err(NoEligibleAction)
  {
  }

  lemma OnlyOne(a: seq<ActionScore>, p: ActionScore, q: ActionScore)
    requires forall i, j :: 0 <= i < j < |a| ==> a[i].sha != a[j].sha
    requires p in a && q in a && p.sha == q.sha
    ensures p == q
  {
    var i :| 0 <= i < |a| && a[i] == p;
    var j :| 0 <= j < |a| && a[j] == q;
  }

  lemma TiedHashes(a: seq<ActionScore>, p: ActionScore, q: ActionScore)
    requires Highest(a, p) && Highest(a, q)
    ensures p in a && q in a && p.sha == q.sha
  {
    KeyOrder();
    hide KeyLeq;
  }

  lemma EligiblePair(x: ActionScore, y: ActionScore)
    ensures EligibleOf([x, y]) == (if x.eligible then [x] else []) + (if y.eligible then [y] else [])
  {
    assert [x, y][1..] == [y] && [y][1..] == [];
    assert EligibleOf([y]) == (if y.eligible then [y] else []) + EligibleOf([]);
    assert EligibleOf([x, y]) == (if x.eligible then [x] else []) + EligibleOf([y]);
  }

  /** Two IDs for one action vector: the order of the catalog decides. */
  lemma SameVectorOrderMatters(s: Setting, c: ActionCandidate, id: Id)
    requires c.safe && id != c.id && s.weights.GeneralizedCost(c) != 0.0
    requires s.gain(c.(id := id)) == s.gain(c)
    ensures var d := c.(id := id);
            && Select(s, [c, d], 2).Ok? && Select(s, [c, d], 2).value.id == c.id
            && Select(s, [d, c], 2).Ok? && Select(s, [d, c], 2).value.id == id
  {
    var d := c.(id := id);
    FirstOfTwo(s, c, d);
    FirstOfTwo(s, d, c);
  }

  lemma FirstOfTwo(s: Setting, c: ActionCandidate, d: ActionCandidate)
    requires c.safe && d.safe && c.id != d.id && c.action == d.action
    requires s.weights.GeneralizedCost(c) != 0.0 && s.weights.GeneralizedCost(c) == s.weights.GeneralizedCost(d)
    requires s.gain(c) == s.gain(d)
    ensures Select(s, [c, d], 2).Ok? && Select(s, [c, d], 2).value.id == c.id
  {
    TextOrder();
    hide TextLeq, RoundHalfEven, PlannerWeights.GeneralizedCost;
    var x, y := ScoreOf(s)(c), ScoreOf(s)(d);
    var scores := Image([c, d], ScoreOf(s));
    assert scores == [x, y];
    EligiblePair(x, y);
    assert KeyLeq(y, x);
    TopPrefersFirst([x, y]);
    ChoiceIsHighest(scores);
  }

  /** A refused entry before a safe one with the same ID makes the selection inconsistent. */
  lemma RepeatedIdOrderMatters(s: Setting, c: ActionCandidate)
    requires c.safe && s.weights.GeneralizedCost(c) != 0.0
    ensures Select(s, [c.(safe := false), c], 2) == Err(Inconsistent)
    ensures Select(s, [c, c.(safe := false)], 2).Ok?
  {
    hide RoundHalfEven, Choose, EligibleOf, PlannerWeights.GeneralizedCost;
    var d := c.(safe := false);
    var x, y := ScoreOf(s)(c), ScoreOf(s)(d);
    assert Image([d, c], ScoreOf(s)) == [y, x] && Image([c, d], ScoreOf(s)) == [x, y];
    RefusedTwin(x, y);
  }

  lemma RefusedTwin(x: ActionScore, y: ActionScore)
    requires x.eligible && !y.eligible && x.id == y.id && x.sha == y.sha
    ensures Choose([y, x]) == Err(Inconsistent)
    ensures Choose([x, y]).Ok?
  {
    hide EligibleOf, KeyLeq;
    EligiblePair(y, x);
    EligiblePair(x, y);
    assert EligibleOf([y, x]) == [x] && EligibleOf([x, y]) == [x];
    assert Top([x]) == x;
  }
}
