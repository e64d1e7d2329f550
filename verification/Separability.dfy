/** Separability of mechanism hypotheses: signature distance over the expected disturbance, in permille. */
module Separability {
  import opened Prelude
  import opened RealSums
  import opened Sorting
  import opened Telemetry
  import opened GradedLab
  import opened Hypotheses

  type Key = string
  type Action = seq<int>

  datatype Setup = Setup(classes: map<Key, Mechanism>, config: Config, x0: int, severity: int) {
    function Signature(key: Key, action: Action): (r: seq<int>)
      ensures |r| == config.steps
    {
      Forward(config, x0, Named(classes, key), severity, action)
    }
  }

  datatype SeparabilityError = TooFewCandidates | NoAction | NoCompetitor | Severity

  function Distance(s: Setup, action: Action, left: Key, right: Key): nat {
    L1(s.Signature(left, action), s.Signature(right, action))
  }

  lemma DistanceSymmetric(s: Setup, action: Action, left: Key, right: Key)
    ensures Distance(s, action, left, right) == Distance(s, action, right, left)
    ensures Distance(s, action, left, left) == 0
  {
    L1Symmetric(s.Signature(left, action), s.Signature(right, action));
    L1ZeroExactly(s.Signature(left, action), s.Signature(left, action));
  }

  // ----- the expected disturbance

  /** The floor of the mean absolute value of a uniform draw from [-a, a]. */
  function MeanFloor(a: nat): nat {
    if a > 0 then (a * (a + 1)) / (2 * a + 1) else 0
  }

  function MeanFloors(c: Config, nominal: seq<int>): (r: seq<int>)
    ensures |r| == |nominal|
    ensures forall k :: 0 <= k < |r| ==> r[k] == MeanFloor(Amplitude(c, nominal[k]))
  {
    seq(|nominal|, k requires 0 <= k < |nominal| => MeanFloor(Amplitude(c, nominal[k])))
  }

  function DisturbanceL1(s: Setup, action: Action): (r: nat)
    ensures r >= 1
  {
    Max(1, Sum(MeanFloors(s.config, s.Signature(UNKNOWN, action))))
  }

  /** The draws of [-a, a] in order, as absolute values. */
  function AbsoluteDraws(a: nat): (r: seq<int>)
    ensures |r| == 2 * a + 1
    ensures forall i :: 0 <= i < |r| ==> r[i] == Abs(i - a)
  {
    seq(2 * a + 1, i requires 0 <= i < 2 * a + 1 => Abs(i - a))
  }

  lemma {:induction false} AbsoluteDrawsSum(a: nat)
    ensures Sum(AbsoluteDraws(a)) == a * (a + 1)
  {
    if a == 0 {
      assert AbsoluteDraws(0) == [0];
    } else {
      AbsoluteDrawsSum(a - 1);
      AbsoluteDrawsGrow(a);
    }
  }

  lemma AbsoluteDrawsGrow(a: nat)
    requires a > 0
    ensures Sum(AbsoluteDraws(a)) == Sum(AbsoluteDraws(a - 1)) + 2 * a
  {
    var inner := AbsoluteDraws(a - 1);
    assert AbsoluteDraws(a) == [a] + inner + [a];
    hide AbsoluteDraws;
    assert ([a] + inner)[1..] == inner;
    SumSnoc([a] + inner, a);
  }

  /** Each term is the floor of the exact mean of the 2a+1 equally likely absolute draws. */
  lemma MeanFloorIsFloorOfMean(a: nat)
    ensures var total, count := Sum(AbsoluteDraws(a)), |AbsoluteDraws(a)|;
            MeanFloor(a) * count <= total < (MeanFloor(a) + 1) * count
  {
    AbsoluteDrawsSum(a);
    var n, d := a * (a + 1), 2 * a + 1;
    if a > 0 {
      assert n == d * (n / d) + n % d;
    }
  }

  method ExpectedDisturbanceL1(s: Setup, action: Action) returns (r: Result<nat, SeparabilityError>)
    ensures r == if SeverityInRange(s.severity) then Ok(DisturbanceL1(s, action)) else Err(Severity)
  {
    hide Amplitude, MeanFloor, Forward;
    var run := GradedForwardTelemetry(s.config, s.x0, Named(s.classes, UNKNOWN), s.severity, action);
    if run.Err? {
      return Err(Severity);
    }
    var nominal := run.value;
    var total := 0;
    for k := 0 to |nominal|
      invariant total == Sum(MeanFloors(s.config, nominal)[..k])
    {
      var terms := MeanFloors(s.config, nominal);
      assert terms[..k + 1] == terms[..k] + [terms[k]];
      SumSnoc(terms[..k], terms[k]);
      var a := Amplitude(s.config, nominal[k]);
      total := total + MeanFloor(a);
    }
    assert MeanFloors(s.config, nominal)[..|nominal|] == MeanFloors(s.config, nominal);
    r := Ok(Max(1, total));
  }

  /** One action's separation of a pair. */
  function Scaled(s: Setup, action: Action, left: Key, right: Key): nat {
    (Distance(s, action, left, right) * 1000) / DisturbanceL1(s, action)
  }

  lemma ScaledSymmetric(s: Setup, action: Action, left: Key, right: Key)
    ensures Scaled(s, action, left, right) == Scaled(s, action, right, left)
    ensures Scaled(s, action, left, left) == 0
  {
    hide Distance;
    DistanceSymmetric(s, action, left, right);
  }

  // ----- when flooring is conservative

  /** The exact mean absolute value of a uniform draw from [-a, a]. */
  function ExactMean(a: nat): real {
    (a * (a + 1)) as real / (2 * a + 1) as real
  }

  function ExactMeans(c: Config): int -> real {
    (x: int) => ExactMean(Amplitude(c, x))
  }

  /** The exact expected disturbance along the nominal trajectory. */
  function ExactDisturbance(s: Setup, action: Action): real {
    SumOf(s.Signature(UNKNOWN, action), ExactMeans(s.config))
  }

  function Amplitudes(c: Config, nominal: seq<int>): (r: seq<int>)
    ensures |r| == |nominal|
    ensures forall k :: 0 <= k < |r| ==> r[k] == Amplitude(c, nominal[k])
  {
    seq(|nominal|, k requires 0 <= k < |nominal| => Amplitude(c, nominal[k]))
  }

  /** The amplitudes along the nominal trajectory add up to at most one. */
  predicate NearlyQuiet(s: Setup, action: Action) {
    Sum(Amplitudes(s.config, s.Signature(UNKNOWN, action))) <= 1
  }

  /** The floor loses something for every positive amplitude, yet the mean is more than half the amplitude. */
  lemma MeanBounds(a: nat)
    ensures a == 0 ==> MeanFloor(a) == 0 && ExactMean(a) == 0.0
    ensures a == 1 ==> MeanFloor(a) == 0 && ExactMean(a) <= 1.0
    ensures a > 0 ==> MeanFloor(a) as real < ExactMean(a) && a as real < 2.0 * ExactMean(a)
  {
    if a > 0 {
      var n, d := a * (a + 1), 2 * a + 1;
      FloorIsStrict(a);
      RatioAbove(n, d, n / d);
      HalfBelow(a, n as real, d as real);
    }
  }

  /** 2a+1 never divides a(a+1) for positive a: four times the product is one less than the square. */
  lemma FloorIsStrict(a: nat)
    requires a > 0
    ensures (a * (a + 1)) / (2 * a + 1) * (2 * a + 1) < a * (a + 1)
  {
    var n, d := a * (a + 1), 2 * a + 1;
    var q := n / d;
    assert n == d * q + n % d;
    assert d * d - 4 * n == 1;
    if n % d == 0 {
      assert d * (d - 4 * q) == 1;
      OnlyUnit(d, d - 4 * q);
    }
  }

  lemma OnlyUnit(d: int, k: int)
    requires d > 1
    ensures d * k != 1
  {
    if k > 0 {
      assert d * k >= d;
    } else {
      assert d * k <= 0;
    }
  }

  lemma RatioAbove(n: nat, d: nat, q: nat)
    requires d > 0 && q * d < n
    ensures q as real < n as real / d as real
  {
    var r := n as real / d as real;
    assert r * d as real == n as real;
    assert (q * d) as real == q as real * d as real;
    CancelLess(q as real, r, d as real);
  }

  lemma HalfBelow(a: nat, n: real, d: real)
    requires n == (a * (a + 1)) as real && d == (2 * a + 1) as real && a > 0
    ensures a as real < 2.0 * (n / d)
  {
    var x, r := a as real, n / d;
    assert r * d == n && n == x * (x + 1.0) && d == 2.0 * x + 1.0;
    assert 2.0 * n == x * d + x;
    CancelLess(x, 2.0 * r, d);
  }

  lemma CancelLess(p: real, q: real, d: real)
    requires d > 0.0 && p * d < q * d
    ensures p < q
  {
    assert (q - p) * d == q * d - p * d;
    PositiveFactor(q - p, d);
  }

  lemma PositiveFactor(e: real, d: real)
    requires d > 0.0 && e * d > 0.0
    ensures e > 0.0
  {
  }

  lemma {:induction false} AmplitudesNonNegative(c: Config, nominal: seq<int>)
    ensures Sum(Amplitudes(c, nominal)) >= 0
  {
    if nominal != [] {
      AmplitudesNonNegative(c, nominal[1..]);
      assert Amplitudes(c, nominal)[1..] == Amplitudes(c, nominal[1..]);
    }
  }

  /** Along any trajectory the floors undercut the exact total as soon as anything is disturbed. */
  lemma {:induction false} TotalBounds(c: Config, nominal: seq<int>)
    ensures var floors, total, quiet := Sum(MeanFloors(c, nominal)), SumOf(nominal, ExactMeans(c)),
                                        Sum(Amplitudes(c, nominal));
            && quiet >= 0
            && (quiet == 0 ==> floors == 0 && total == 0.0)
            && (quiet == 1 ==> floors == 0 && total <= 1.0)
            && (quiet > 0 ==> floors as real < total && quiet as real < 2.0 * total)
  {
    hide Amplitude, MeanFloor, ExactMean;
    if nominal != [] {
      var a := Amplitude(c, nominal[0]);
      TotalBounds(c, nominal[1..]);
      AmplitudesNonNegative(c, nominal[1..]);
      assert Amplitudes(c, nominal)[1..] == Amplitudes(c, nominal[1..]);
      assert MeanFloors(c, nominal)[1..] == MeanFloors(c, nominal[1..]);
      MeanBounds(a);
    }
  }

  /** The floored denominator is at least the exact mean disturbance if and only if hardly anything is disturbed. */
  lemma FloorCoversExactly(s: Setup, action: Action)
    ensures DisturbanceL1(s, action) as real >= ExactDisturbance(s, action) <==> NearlyQuiet(s, action)
    ensures ExactDisturbance(s, action) >= 0.0
  {
    hide MeanFloors, Amplitudes, ExactMeans, Setup.Signature;
    TotalBounds(s.config, s.Signature(UNKNOWN, action));
  }

  /** An index value for a signature of distance d is at most d thousandfold over the exact mean, multiplied out. */
  predicate Honest(s: Setup, action: Action, d: nat) {
    ((d * 1000) / DisturbanceL1(s, action)) as real * ExactDisturbance(s, action) <= (d * 1000) as real
  }

  /**
   Flooring never overstates the separation of any signature if and only if the amplitudes along the
   nominal trajectory add up to at most one.
   */
  lemma FlooringConservativeExactly(s: Setup, action: Action)
    ensures (forall d: nat :: Honest(s, action, d)) <==> NearlyQuiet(s, action)
  {
    hide ExactDisturbance, DisturbanceL1, NearlyQuiet;
    FloorCoversExactly(s, action);
    var f, e := DisturbanceL1(s, action), ExactDisturbance(s, action);
    if NearlyQuiet(s, action) {
      forall d: nat
        ensures Honest(s, action, d)
      {
        FloorTimes(d * 1000, f, e);
      }
    } else {
      Thousand(f);
      Flattered(f, e);
      assert !Honest(s, action, f);
    }
  }

  lemma Thousand(f: nat)
    requires f >= 1
    ensures (f * 1000) / f == 1000
  {
    var q := (f * 1000) / f;
    assert f * q <= f * 1000 < f * q + f;
    if q < 1000 {
      ProductLeq(f, f, q + 1, 1000);
    }
    if q > 1000 {
      ProductLeq(f, f, 1001, q);
    }
  }

  lemma Flattered(f: nat, e: real)
    requires e > f as real
    ensures 1000.0 * e > (f * 1000) as real
  {
  }

  lemma FloorTimes(n: nat, f: nat, e: real)
    requires f >= 1 && 0.0 <= e <= f as real
    ensures (n / f) as real * e <= n as real
  {
    var q := n / f;
    assert q * f <= n;
    assert (q * f) as real == q as real * f as real;
    assert q as real * e <= q as real * f as real;
  }

  /**
   What that means for a pair: in a nearly quiet setting a resolvable score stands for a signature at
   least as large as the exact mean disturbance; otherwise such a signature always scores as
   resolvable, and a signature between floor and mean does too.
   */
  lemma ResolvableAgainstMean(s: Setup, action: Action, left: Key, right: Key)
    ensures Scaled(s, action, left, right) >= 1000 <==>
            Distance(s, action, left, right) >= DisturbanceL1(s, action)
    ensures NearlyQuiet(s, action) && Scaled(s, action, left, right) >= 1000 ==>
              Distance(s, action, left, right) as real >= ExactDisturbance(s, action)
    ensures !NearlyQuiet(s, action) && Distance(s, action, left, right) as real >= ExactDisturbance(s, action) ==>
              Scaled(s, action, left, right) >= 1000
    ensures NearlyQuiet(s, action) ==>
              Scaled(s, action, left, right) as real * ExactDisturbance(s, action)
              <= (Distance(s, action, left, right) * 1000) as real
  {
    hide ExactDisturbance, DisturbanceL1, NearlyQuiet, Distance;
    FloorCoversExactly(s, action);
    FlooringConservativeExactly(s, action);
    var d, f := Distance(s, action, left, right), DisturbanceL1(s, action);
    ThousandExactly(d, f);
    assert NearlyQuiet(s, action) ==> Honest(s, action, d);
  }

  lemma ThousandExactly(d: nat, f: nat)
    requires f >= 1
    ensures (d * 1000) / f >= 1000 <==> d >= f
  {
    var q := (d * 1000) / f;
    assert f * q <= d * 1000 < f * q + f;
    if d >= f && q < 1000 {
      ProductLeq(f, f, q + 1, 1000);
    }
    if d < f && q >= 1000 {
      ProductLeq(f, f, 1000, q);
    }
  }

  /** Two hypotheses one unit apart after one step, with draws from [-2, 2]. */
  function Faint(): Setup {
    Setup(map["drift" := GainDrift], Config(0, 0, 0, 1, 0, 2, 0, 0), 3, 100)
  }

  lemma FaintSignatures()
    ensures Faint().Signature("drift", []) == [1]
    ensures Faint().Signature(UNKNOWN, []) == [0]
  {
    hide *;
    FaintNumbers();
    OneStep(Faint().config, 3, GainDrift, 1);
    OneStep(Faint().config, 3, Unknown, 0);
    FaintForward("drift");
    FaintForward(UNKNOWN);
  }

  lemma FaintNumbers()
    ensures Faint().config.steps == 1
    ensures Next(Transform(GainDrift, Faint().config, 100), 3, 0) == 1
    ensures Next(Transform(Unknown, Faint().config, 100), 3, 0) == 0
    ensures Named(Faint().classes, "drift") == GainDrift
    ensures Named(Faint().classes, UNKNOWN) == Unknown
  {
    hide Named;
    assert |"drift"| != |UNKNOWN|;
    NamedOne("drift", GainDrift, UNKNOWN);
  }

  lemma FaintForward(key: Key)
    ensures Faint().Signature(key, []) == Forward(Faint().config, 3, Named(Faint().classes, key), 100, [])
  {
    hide Forward, Named;
  }

  lemma NamedOne(key: Key, m: Mechanism, other: Key)
    requires key != other
    ensures Named(map[key := m], key) == m && Named(map[key := m], other) == Unknown
  {
  }

  lemma FaintDisturbance()
    ensures DisturbanceL1(Faint(), []) == 1
  {
    hide Setup.Signature;
    FaintSignatures();
    OneFloor(Faint().config);
  }

  lemma OneFloor(c: Config)
    requires c.noise == 2 && c.noisePpm == 0
    ensures Sum(MeanFloors(c, [0])) == 1
  {
    assert Amplitude(c, 0) == 2 && MeanFloor(2) == 1;
    assert MeanFloors(c, [0]) == [1];
    assert [1][1..] == [] && Sum([]) == 0;
  }

  /**
   Flooring shrinks the disturbance, so it can raise the index: here a signature of 1 against an exact
   mean disturbance of 6/5 scores 1000, the value of a resolvable pair.
   */
  lemma FlooringFlatters()
    ensures Faint().config.Valid() && Distance(Faint(), [], "drift", UNKNOWN) == 1
    ensures Sum(AbsoluteDraws(Amplitude(Faint().config, Faint().Signature(UNKNOWN, [])[0]))) == 6
    ensures |AbsoluteDraws(Amplitude(Faint().config, Faint().Signature(UNKNOWN, [])[0]))| == 5
    ensures Scaled(Faint(), [], "drift", UNKNOWN) == 1000
  {
    hide Setup.Signature, DisturbanceL1, MeanFloor, L1, AbsoluteDraws;
    FaintSignatures();
    FaintDisturbance();
    OneDistance(1, 0);
    assert Amplitude(Faint().config, 0) == 2;
    AbsoluteDrawsSum(2);
  }

  lemma OneStep(c: Config, x0: int, m: Mechanism, x: int)
    requires c.steps == 1 && x == Next(Transform(m, c, 100), x0, 0)
    ensures Forward(c, x0, m, 100, []) == [x]
  {
    assert Effective(Command([], 0), Transform(m, c, 100).deadband) == 0;
    assert State(Transform(m, c, 100), x0, [], 0) == x0;
    assert State(Transform(m, c, 100), x0, [], 1) == x;
  }

  lemma OneDistance(x: int, y: int)
    ensures L1([x], [y]) == Abs(x - y)
  {
    assert [x][1..] == [] && [y][1..] == [];
    assert L1([], []) == 0;
  }

  // ----- the best action for a pair

  function PairBest(s: Setup, actions: seq<Action>, left: Key, right: Key): nat {
    if actions == [] then 0
    else Max(PairBest(s, actions[..|actions| - 1], left, right), Scaled(s, actions[|actions| - 1], left, right))
  }

  lemma {:induction false} PairBestIsMax(s: Setup, actions: seq<Action>, left: Key, right: Key)
    ensures forall a :: a in actions ==> Scaled(s, a, left, right) <= PairBest(s, actions, left, right)
    ensures actions != [] ==> exists a :: a in actions && Scaled(s, a, left, right) == PairBest(s, actions, left, right)
  {
    hide Scaled;
    if actions != [] {
      var init, last := actions[..|actions| - 1], actions[|actions| - 1];
      PairBestIsMax(s, init, left, right);
      MaxOfMore(s, init, last, PairBest(s, init, left, right), PairBest(s, actions, left, right), left, right);
      assert actions == init + [last];
    }
  }

  lemma MaxOfMore(s: Setup, init: seq<Action>, last: Action, best: nat, more: nat, left: Key, right: Key)
    requires more == Max(best, Scaled(s, last, left, right)) && (init == [] ==> best == 0)
    requires forall a :: a in init ==> Scaled(s, a, left, right) <= best
    requires init != [] ==> exists a :: a in init && Scaled(s, a, left, right) == best
    ensures forall a :: a in init + [last] ==> Scaled(s, a, left, right) <= more
    ensures exists a :: a in init + [last] && Scaled(s, a, left, right) == more
  {
    hide Scaled;
    assert last in init + [last];
    if init != [] {
      var a :| a in init && Scaled(s, a, left, right) == best;
      assert a in init + [last];
    }
  }

  /** More actions separate a pair at least as well; only the set of actions matters. */
  lemma PairBestGrows(s: Setup, actions: seq<Action>, more: seq<Action>, left: Key, right: Key)
    requires forall a :: a in actions ==> a in more
    ensures PairBest(s, actions, left, right) <= PairBest(s, more, left, right)
  {
    hide Scaled;
    PairBestIsMax(s, actions, left, right);
    PairBestIsMax(s, more, left, right);
  }

  lemma {:induction false} PairBestSymmetric(s: Setup, actions: seq<Action>, left: Key, right: Key)
    ensures PairBest(s, actions, left, right) == PairBest(s, actions, right, left)
    ensures left == right ==> PairBest(s, actions, left, right) == 0
  {
    hide Scaled;
    if actions != [] {
      PairBestSymmetric(s, actions[..|actions| - 1], left, right);
      ScaledSymmetric(s, actions[|actions| - 1], left, right);
    }
  }

  method BestForPair(s: Setup, actions: seq<Action>, left: Key, right: Key) returns (best: nat)
    requires SeverityInRange(s.severity)
    ensures best == PairBest(s, actions, left, right)
  {
    hide L1, Forward, DisturbanceL1;
    best := 0;
    for i := 0 to |actions|
      invariant best == PairBest(s, actions[..i], left, right)
    {
      var a := actions[i];
      assert actions[..i + 1][..i] == actions[..i];
      var l := GradedForwardTelemetry(s.config, s.x0, Named(s.classes, left), s.severity, a);
      var r := GradedForwardTelemetry(s.config, s.x0, Named(s.classes, right), s.severity, a);
      var floor := ExpectedDisturbanceL1(s, a);
      assert L1(l.value, r.value) == Distance(s, a, left, right);
      best := Max(best, (L1(l.value, r.value) * 1000) / floor.value);
    }
    assert actions[..|actions|] == actions;
  }

  // ----- the catalog index

  /** An unordered pair of entries of keys, a repeated key pairing with itself. */
  ghost predicate IsPair(keys: multiset<Key>, a: Key, b: Key) {
    multiset{a, b} <= keys
  }

  /** The least best separation over all pairs of candidates. */
  ghost predicate IsIndex(s: Setup, actions: seq<Action>, keys: multiset<Key>, v: nat) {
    && (forall a, b :: IsPair(keys, a, b) ==> v <= PairBest(s, actions, a, b))
    && exists a, b :: IsPair(keys, a, b) && v == PairBest(s, actions, a, b)
  }

  lemma PairAtPlaces(keys: seq<Key>, i: nat, j: nat)
    requires i < j < |keys|
    ensures IsPair(multiset(keys), keys[i], keys[j])
  {
    assert keys == keys[..i] + [keys[i]] + keys[i + 1..j] + [keys[j]] + keys[j + 1..];
  }

  lemma PlacesOfPair(keys: seq<Key>, a: Key, b: Key) returns (i: nat, j: nat)
    requires IsPair(multiset(keys), a, b)
    ensures i < j < |keys| && ((keys[i] == a && keys[j] == b) || (keys[i] == b && keys[j] == a))
  {
    assert multiset{a, b}[a] <= multiset(keys)[a] && multiset{a, b}[b] <= multiset(keys)[b];
    assert a in multiset(keys);
    var p :| 0 <= p < |keys| && keys[p] == a;
    WithoutCounts(keys, p);
    var rest := Without(keys, p);
    assert multiset(rest)[b] >= 1;
    assert b in rest;
    var q :| 0 <= q < |rest| && rest[q] == b;
    var r := if q < p then q else q + 1;
    assert keys[r] == b;
    i, j := Min(p, r), Max(p, r);
  }

  /** The minimum over the places visited so far. */
  ghost predicate Covers(s: Setup, actions: seq<Action>, keys: seq<Key>, worst: Option<nat>, i: nat, j: nat) {
    && (worst.None? <==> forall p, q :: !Before(keys, i, j, p, q))
    && (forall p, q :: Before(keys, i, j, p, q) ==>
         worst.Some? && worst.value <= PairBest(s, actions, keys[p], keys[q]))
    && (worst.Some? ==> exists p, q ::
         Before(keys, i, j, p, q) && worst.value == PairBest(s, actions, keys[p], keys[q]))
  }

  /** The pair of places (p, q) is visited before (i, j). */
  predicate Before(keys: seq<Key>, i: nat, j: nat, p: int, q: int) {
    0 <= p < q < |keys| && (p < i || (p == i && q < j))
  }

  lemma Visit(s: Setup, actions: seq<Action>, keys: seq<Key>, worst: Option<nat>, i: nat, j: nat, v: nat)
    requires i < j < |keys| && Covers(s, actions, keys, worst, i, j) && v == PairBest(s, actions, keys[i], keys[j])
    ensures Covers(s, actions, keys, if worst.None? || v < worst.value then Some(v) else worst, i, j + 1)
  {
    hide PairBest;
    assert Before(keys, i, j + 1, i, j);
    forall p, q | Before(keys, i, j + 1, p, q) && !(p == i && q == j)
      ensures Before(keys, i, j, p, q)
    {
    }
    forall p, q | Before(keys, i, j, p, q)
      ensures Before(keys, i, j + 1, p, q)
    {
    }
  }

  lemma NextRow(s: Setup, actions: seq<Action>, keys: seq<Key>, worst: Option<nat>, i: nat, next: nat, first: nat)
    requires i < |keys| && next == i + 1 && first == next + 1
    requires Covers(s, actions, keys, worst, i, |keys|)
    ensures Covers(s, actions, keys, worst, next, first)
  {
    hide PairBest;
    assert forall p, q :: Before(keys, i, |keys|, p, q) <==> Before(keys, next, first, p, q);
  }

  lemma AllVisited(s: Setup, actions: seq<Action>, keys: seq<Key>, worst: Option<nat>)
    requires |keys| >= 2 && Covers(s, actions, keys, worst, |keys|, |keys| + 1)
    ensures worst.Some? && IsIndex(s, actions, multiset(keys), worst.value)
  {
    hide PairBest;
    assert Before(keys, |keys|, |keys| + 1, 0, 1);
    var p, q :| Before(keys, |keys|, |keys| + 1, p, q) && worst.value == PairBest(s, actions, keys[p], keys[q]);
    PairAtPlaces(keys, p, q);
    forall a, b | IsPair(multiset(keys), a, b)
      ensures worst.value <= PairBest(s, actions, a, b)
    {
      var i, j := PlacesOfPair(keys, a, b);
      assert Before(keys, |keys|, |keys| + 1, i, j);
      PairBestSymmetric(s, actions, a, b);
    }
  }

  method SeparabilityIndexPermille(s: Setup, actions: seq<Action>, keys: seq<Key>)
    returns (r: Result<nat, SeparabilityError>)
    ensures r == Err(TooFewCandidates) <==> |keys| < 2
    ensures r == Err(NoAction) <==> |keys| >= 2 && actions == []
    ensures r == Err(Severity) <==> |keys| >= 2 && actions != [] && !SeverityInRange(s.severity)
    ensures r.Ok? ==> IsIndex(s, actions, multiset(keys), r.value)
    ensures r.Err? ==> !r.error.NoCompetitor?
  {
    hide PairBest, Covers, IsIndex;
    if |keys| < 2 {
      return Err(TooFewCandidates);
    }
    if actions == [] {
      return Err(NoAction);
    }
    if !SeverityInRange(s.severity) {
      return Err(Severity);
    }
    var worst: Option<nat> := None;
    var ordered := Sort(keys, TextLeq);
    SortPermutes(keys, TextLeq);
    NoneVisited(s, actions, ordered);
    for i := 0 to |ordered|
      invariant Covers(s, actions, ordered, worst, i, i + 1)
    {
      for j := i + 1 to |ordered|
        invariant Covers(s, actions, ordered, worst, i, j)
      {
        var best := BestForPair(s, actions, ordered[i], ordered[j]);
        Visit(s, actions, ordered, worst, i, j, best);
        if worst.None? || best < worst.value {
          worst := Some(best);
        }
      }
      NextRow(s, actions, ordered, worst, i, i + 1, i + 2);
    }
    AllVisited(s, actions, ordered, worst);
    r := Ok(worst.value);
  }

  lemma NoneVisited(s: Setup, actions: seq<Action>, keys: seq<Key>)
    ensures Covers(s, actions, keys, None, 0, 1)
  {
  }

  // ----- what the index does

  /** There is at most one index, so neither the order of the candidates nor that of the actions matters. */
  lemma IndexUnique(s: Setup, actions: seq<Action>, same: seq<Action>, keys: multiset<Key>, v: nat, w: nat)
    requires IsIndex(s, actions, keys, v) && IsIndex(s, same, keys, w)
    requires forall a :: a in actions <==> a in same
    ensures v == w
  {
    MoreActions(s, actions, same, keys, v, w);
    MoreActions(s, same, actions, keys, w, v);
  }

  /** Adding actions never lowers the index. */
  lemma MoreActions(s: Setup, actions: seq<Action>, more: seq<Action>, keys: multiset<Key>, v: nat, w: nat)
    requires IsIndex(s, actions, keys, v) && IsIndex(s, more, keys, w)
    requires forall a :: a in actions ==> a in more
    ensures v <= w
  {
    hide PairBest;
    var a, b :| IsPair(keys, a, b) && w == PairBest(s, more, a, b);
    PairBestGrows(s, actions, more, a, b);
  }

  /** Adding candidates never raises the index. */
  lemma MoreCandidates(s: Setup, actions: seq<Action>, keys: multiset<Key>, more: multiset<Key>, v: nat, w: nat)
    requires IsIndex(s, actions, keys, v) && IsIndex(s, actions, more, w) && keys <= more
    ensures w <= v
  {
    hide PairBest;
    var a, b :| IsPair(keys, a, b) && v == PairBest(s, actions, a, b);
    assert IsPair(more, a, b);
  }

  /** A repeated candidate makes the index zero. */
  lemma RepeatedCandidate(s: Setup, actions: seq<Action>, keys: multiset<Key>, v: nat, a: Key)
    requires IsIndex(s, actions, keys, v) && keys[a] >= 2
    ensures v == 0
  {
    hide PairBest;
    assert IsPair(keys, a, a);
    PairBestSymmetric(s, actions, a, a);
  }

  // ----- the index against exact means

  /** Taken with exact means, every pair of candidates is separated by v permille under some action. */
  ghost predicate Separated(s: Setup, actions: seq<Action>, keys: multiset<Key>, v: nat) {
    forall a, b :: IsPair(keys, a, b) ==> exists action :: action in actions && SeparatedBy(s, action, a, b, v)
  }

  /** The signature distance is at least v thousandths of the exact mean disturbance. */
  predicate SeparatedBy(s: Setup, action: Action, left: Key, right: Key, v: nat) {
    v as real * ExactDisturbance(s, action) <= (Distance(s, action, left, right) * 1000) as real
  }

  lemma QuietSeparates(s: Setup, action: Action, left: Key, right: Key, v: nat)
    requires NearlyQuiet(s, action) && v <= Scaled(s, action, left, right)
    ensures SeparatedBy(s, action, left, right, v)
  {
    hide ExactDisturbance, DisturbanceL1, NearlyQuiet, Distance, Scaled;
    FloorCoversExactly(s, action);
    ResolvableAgainstMean(s, action, left, right);
    TimesLeq(v as real, Scaled(s, action, left, right) as real, ExactDisturbance(s, action));
  }

  lemma TimesLeq(x: real, y: real, e: real)
    requires x <= y && e >= 0.0
    ensures x * e <= y * e
  {
    assert (y - x) * e == y * e - x * e;
    NonNegativeProduct(y - x, e);
  }

  lemma NonNegativeProduct(x: real, y: real)
    requires x >= 0.0 && y >= 0.0
    ensures x * y >= 0.0
  {
  }

  lemma LoudScores(s: Setup, action: Action, left: Key, right: Key, v: nat)
    requires !NearlyQuiet(s, action) && SeparatedBy(s, action, left, right, v)
    ensures v <= Scaled(s, action, left, right)
  {
    hide ExactDisturbance, DisturbanceL1, NearlyQuiet, Distance;
    FloorCoversExactly(s, action);
    var f, e, n := DisturbanceL1(s, action), ExactDisturbance(s, action), Distance(s, action, left, right) * 1000;
    TimesLeq(f as real, e, v as real);
    assert (v * f) as real == f as real * v as real;
    QuotientOrder(f, v, n / f, v * f, n);
  }

  /**
   When every permitted action is nearly quiet the index never exceeds the one taken with exact means;
   when none is, it never falls below it.
   */
  lemma IndexAgainstExact(s: Setup, actions: seq<Action>, keys: multiset<Key>, v: nat)
    requires IsIndex(s, actions, keys, v) && actions != []
    ensures (forall a :: a in actions ==> NearlyQuiet(s, a)) ==> Separated(s, actions, keys, v)
    ensures (forall a :: a in actions ==> !NearlyQuiet(s, a)) ==>
              forall w: nat :: Separated(s, actions, keys, w) ==> w <= v
  {
    hide PairBest, Scaled, NearlyQuiet, SeparatedBy, IsPair;
    if forall a :: a in actions ==> NearlyQuiet(s, a) {
      forall p, q | IsPair(keys, p, q)
        ensures exists action :: action in actions && SeparatedBy(s, action, p, q, v)
      {
        PairBestIsMax(s, actions, p, q);
        var action :| action in actions && Scaled(s, action, p, q) == PairBest(s, actions, p, q);
        QuietSeparates(s, action, p, q, v);
      }
    }
    if forall a :: a in actions ==> !NearlyQuiet(s, a) {
      forall w: nat | Separated(s, actions, keys, w)
        ensures w <= v
      {
        var p, q :| IsPair(keys, p, q) && v == PairBest(s, actions, p, q);
        var action :| action in actions && SeparatedBy(s, action, p, q, w);
        LoudScores(s, action, p, q, w);
        PairBestIsMax(s, actions, p, q);
      }
    }
  }

  /** The faint pair's index is 1000 although no action separates it by that much against the exact mean. */
  lemma FlooredIndexFlatters()
    ensures IsIndex(Faint(), [[]], multiset{"drift", UNKNOWN}, 1000)
    ensures !Separated(Faint(), [[]], multiset{"drift", UNKNOWN}, 1000)
  {
    hide *;
    FlooringFlatters();
    SingleBest(Faint(), [], "drift", UNKNOWN);
    PairBestSymmetric(Faint(), [[]], "drift", UNKNOWN);
    OnlyPair("drift", UNKNOWN);
    FaintIsIndex(Faint(), [[]], "drift", UNKNOWN, 1000);
    FaintExact();
    FaintNotSeparated();
  }

  lemma OnlyPair(x: Key, y: Key)
    ensures IsPair(multiset{x, y}, x, y)
    ensures forall a, b :: IsPair(multiset{x, y}, a, b) ==> (a == x && b == y) || (a == y && b == x)
  {
    forall a, b | IsPair(multiset{x, y}, a, b)
      ensures (a == x && b == y) || (a == y && b == x)
    {
      assert multiset{a, b}[a] <= multiset{x, y}[a] && multiset{a, b}[b] <= multiset{x, y}[b];
      assert a in multiset{x, y} && b in multiset{x, y};
    }
  }

  lemma FaintIsIndex(s: Setup, actions: seq<Action>, x: Key, y: Key, v: nat)
    requires PairBest(s, actions, x, y) == v && PairBest(s, actions, y, x) == v
    requires IsPair(multiset{x, y}, x, y)
    requires forall a, b :: IsPair(multiset{x, y}, a, b) ==> (a == x && b == y) || (a == y && b == x)
    ensures IsIndex(s, actions, multiset{x, y}, v)
  {
    hide PairBest, IsPair;
  }

  lemma FaintExact()
    ensures ExactDisturbance(Faint(), []) == 1.2
  {
    hide Setup.Signature;
    FaintSignatures();
    assert Amplitude(Faint().config, 0) == 2 && ExactMean(2) == 1.2;
    assert [0][1..] == [];
    var means := ExactMeans(Faint().config);
    assert SumOf([0], means) == means(0) + SumOf([], means);
  }

  lemma FaintNotSeparated()
    requires ExactDisturbance(Faint(), []) == 1.2 && Distance(Faint(), [], "drift", UNKNOWN) == 1
    requires IsPair(multiset{"drift", UNKNOWN}, "drift", UNKNOWN)
    ensures !Separated(Faint(), [[]], multiset{"drift", UNKNOWN}, 1000)
  {
    hide ExactDisturbance, Distance, IsPair, Faint;
    assert !SeparatedBy(Faint(), [], "drift", UNKNOWN, 1000);
    forall action: Action | action in [[]]
      ensures action == []
    {
    }
  }

  // ----- one injected mechanism

  /** The least separation of the injected mechanism from a competing candidate. */
  ghost predicate IsNearest(s: Setup, action: Action, injected: Key, keys: multiset<Key>, v: nat) {
    && (forall k :: k in keys && k != injected ==> v <= Scaled(s, action, injected, k))
    && exists k :: k in keys && k != injected && v == Scaled(s, action, injected, k)
  }

  function Others(keys: seq<Key>, injected: Key): (r: seq<Key>)
    ensures forall k :: k in r <==> k in keys && k != injected
  {
    if keys == [] then []
    else (if keys[0] != injected then [keys[0]] else []) + Others(keys[1..], injected)
  }

  method MechanismSeparabilityPermille(s: Setup, action: Action, injected: Key, keys: seq<Key>)
    returns (r: Result<nat, SeparabilityError>)
    ensures r == Err(NoCompetitor) <==> forall k :: k in keys ==> k == injected
    ensures r == Err(Severity) <==> (exists k :: k in keys && k != injected) && !SeverityInRange(s.severity)
    ensures r.Ok? ==> IsNearest(s, action, injected, multiset(keys), r.value)
    ensures r.Err? ==> r.error.NoCompetitor? || r.error.Severity?
  {
    hide Sort, Scaled, IsNearest, Others, DisturbanceL1;
    var others := Others(Sort(keys, TextLeq), injected);
    OthersOf(keys, injected);
    if others == [] {
      return Err(NoCompetitor);
    }
    assert others[0] in others;
    var floor := ExpectedDisturbanceL1(s, action);
    if floor.Err? {
      return Err(Severity);
    }
    var nearest: Option<nat> := None;
    for i := 0 to |others|
      invariant nearest.None? <==> i == 0
      invariant i > 0 ==> Least(s, action, injected, others[..i], nearest.value)
    {
      var other := others[i];
      var scaled := ScaledTo(s, action, injected, other, floor.value);
      LeastOfMore(s, action, injected, others, i, nearest, scaled);
      nearest := Some(if nearest.None? then scaled else Min(nearest.value, scaled));
    }
    assert others[..|others|] == others;
    LeastIsNearest(s, action, injected, keys, others, nearest.value);
    r := Ok(nearest.value);
  }

  lemma OthersOf(keys: seq<Key>, injected: Key)
    ensures forall k :: k in Others(Sort(keys, TextLeq), injected) <==> k in keys && k != injected
  {
    SortPermutes(keys, TextLeq);
    hide Sort;
    assert forall k :: k in Sort(keys, TextLeq) <==> k in multiset(Sort(keys, TextLeq));
    assert forall k :: k in keys <==> k in multiset(keys);
  }

  method ScaledTo(s: Setup, action: Action, injected: Key, other: Key, floor: nat) returns (scaled: nat)
    requires SeverityInRange(s.severity) && floor == DisturbanceL1(s, action)
    ensures scaled == Scaled(s, action, injected, other)
  {
    hide L1, Forward, DisturbanceL1;
    var l := GradedForwardTelemetry(s.config, s.x0, Named(s.classes, injected), s.severity, action);
    var o := GradedForwardTelemetry(s.config, s.x0, Named(s.classes, other), s.severity, action);
    scaled := (L1(l.value, o.value) * 1000) / floor;
  }

  ghost predicate Least(s: Setup, action: Action, injected: Key, others: seq<Key>, v: nat) {
    && (forall k :: k in others ==> v <= Scaled(s, action, injected, k))
    && exists k :: k in others && v == Scaled(s, action, injected, k)
  }

  lemma LeastOfMore(s: Setup, action: Action, injected: Key, others: seq<Key>, i: nat, nearest: Option<nat>, v: nat)
    requires i < |others| && v == Scaled(s, action, injected, others[i]) && (nearest.None? <==> i == 0)
    requires i > 0 ==> Least(s, action, injected, others[..i], nearest.value)
    ensures Least(s, action, injected, others[..i + 1], if nearest.None? then v else Min(nearest.value, v))
  {
    hide Scaled;
    assert others[..i + 1] == others[..i] + [others[i]];
    assert others[i] in others[..i + 1];
    if i > 0 {
      var k :| k in others[..i] && nearest.value == Scaled(s, action, injected, k);
      assert k in others[..i + 1];
    }
  }

  lemma LeastIsNearest(s: Setup, action: Action, injected: Key, keys: seq<Key>, others: seq<Key>, v: nat)
    requires forall k :: k in others <==> k in keys && k != injected
    requires Least(s, action, injected, others, v)
    ensures IsNearest(s, action, injected, multiset(keys), v)
  {
    hide Scaled;
    assert forall k :: k in keys <==> k in multiset(keys);
  }

  /**
   For distinct candidates and one action the catalog index is the minimum of the per-mechanism
   indices over the injected mechanism.
   */
  lemma IndexIsLeastNearest(s: Setup, action: Action, keys: seq<Key>, v: nat)
    requires Distinct(keys) && IsIndex(s, [action], multiset(keys), v)
    ensures forall m, w :: m in keys && IsNearest(s, action, m, multiset(keys), w) ==> v <= w
    ensures exists m :: m in keys && IsNearest(s, action, m, multiset(keys), v)
  {
    hide PairBest, Scaled, IsPair;
    assert forall k :: k in keys <==> k in multiset(keys);
    forall m, w | m in keys && IsNearest(s, action, m, multiset(keys), w)
      ensures v <= w
    {
      var k :| k in multiset(keys) && k != m && w == Scaled(s, action, m, k);
      DistinctPair(keys, m, k);
      SingleBest(s, action, m, k);
    }
    var a, b :| IsPair(multiset(keys), a, b) && v == PairBest(s, [action], a, b);
    DistinctPair(keys, a, b);
    SingleBest(s, action, a, b);
    forall k | k in multiset(keys) && k != a
      ensures v <= Scaled(s, action, a, k)
    {
      DistinctPair(keys, a, k);
      SingleBest(s, action, a, k);
    }
    assert IsNearest(s, action, a, multiset(keys), v);
  }

  /** Distinct candidates pair exactly when they differ. */
  lemma DistinctPair(keys: seq<Key>, a: Key, b: Key)
    requires Distinct(keys)
    ensures IsPair(multiset(keys), a, b) <==> a != b && a in keys && b in keys
  {
    if IsPair(multiset(keys), a, b) {
      var i, j := PlacesOfPair(keys, a, b);
    }
    if a != b && a in keys && b in keys {
      assert multiset(keys)[a] >= 1 && multiset(keys)[b] >= 1;
    }
  }

  lemma SingleBest(s: Setup, action: Action, a: Key, b: Key)
    ensures PairBest(s, [action], a, b) == Scaled(s, action, a, b)
  {
    hide Scaled;
    assert [action][..0] == [];
    assert PairBest(s, [], a, b) == 0;
  }
}
