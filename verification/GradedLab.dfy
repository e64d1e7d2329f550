/**
 The severity-graded laboratory: the true plant with actuation lag, disturbance and initial offset,
 and the forward model that has none of them.  Python's `//` by a positive number is Dafny's `/`.
 */
module GradedLab {
  import opened Prelude
  import opened Telemetry

  datatype Config = Config(
    gain: int,
    drive: int,
    bias: int,
    steps: nat,
    lag: nat,
    noise: nat,
    noisePpm: nat,
    nuisance: nat) {
    predicate Valid() {
      && 1 <= steps <= 4096 && lag <= 1_000_000 && noise <= 10_000
      && noisePpm <= 1_000_000 && nuisance <= 10_000
    }
  }

  /** What a mechanism key names; a key outside the ontology is the unknown. */
  datatype Mechanism = ActuatorLoss | SensorBias | GainDrift | ActuatorDeadband | Unknown

  datatype Params = Params(gain: int, drive: int, bias: int, deadband: int)

  datatype LabError = SeverityOutOfRange

  predicate SeverityInRange(severity: int) {
    0 <= severity <= 100
  }

  function Transform(m: Mechanism, c: Config, severity: int): Params {
    match m
    case ActuatorLoss => Params(c.gain, c.drive - (c.drive * 90 * severity) / 10_000, c.bias, 0)
    case SensorBias => Params(c.gain, c.drive, c.bias + (1000 * severity) / 100, 0)
    case GainDrift => Params(c.gain + (40 * severity) / 100, c.drive, c.bias, 0)
    case ActuatorDeadband => Params(c.gain, c.drive, c.bias, (60 * severity) / 100)
    case Unknown => Params(c.gain, c.drive, c.bias, 0)
  }

  function Effective(u: int, deadband: int): int {
    if Abs(u) < deadband then 0 else u
  }

  function Command(action: seq<int>, step: nat): int {
    if step < |action| then action[step] else 0
  }

  /** One hash value per step and one for the run. */
  datatype Draws = Draws(step: nat -> nat, nuisance: nat)

  /** A draw folded onto [-amplitude, amplitude]. */
  function Centred(draw: nat, amplitude: nat): (r: int)
    ensures Abs(r) <= amplitude
  {
    if amplitude == 0 then 0 else draw % (2 * amplitude + 1) - amplitude
  }

  function Amplitude(c: Config, state: int): nat {
    c.noise + (Abs(state) * c.noisePpm) / 1_000_000
  }

  function Next(p: Params, x: int, u: int): int {
    (p.gain * x) / 100 + (p.drive * u) / 100 + p.bias
  }

  function Delivered(lag: nat, previous: int, u: int): int {
    (lag * previous + (1_000_000 - lag) * u) / 1_000_000
  }

  // ----- trajectories

  /** The forward model's state after k steps. */
  function State(p: Params, x0: int, action: seq<int>, k: nat): int {
    if k == 0 then x0
    else Next(p, State(p, x0, action, k - 1), Effective(Command(action, k - 1), p.deadband))
  }

  function Forward(c: Config, x0: int, m: Mechanism, severity: int, action: seq<int>): (r: seq<int>)
    ensures |r| == c.steps
    ensures forall k :: 0 <= k < c.steps ==> r[k] == State(Transform(m, c, severity), x0, action, k + 1)
  {
    seq(c.steps, k requires 0 <= k < c.steps => State(Transform(m, c, severity), x0, action, k + 1))
  }

  /** The command that was in effect before step k. */
  function Previous(p: Params, action: seq<int>, k: nat): int {
    if k == 0 then 0 else Effective(Command(action, k - 1), p.deadband)
  }

  /** The plant's state after k steps, from an already offset initial state. */
  function PlantState(p: Params, lag: nat, x0: int, action: seq<int>, k: nat): int {
    if k == 0 then x0
    else
      var u := Effective(Command(action, k - 1), p.deadband);
      Next(p, PlantState(p, lag, x0, action, k - 1), Delivered(lag, Previous(p, action, k - 1), u))
  }

  function Offset(c: Config, x0: int, d: Draws): int {
    x0 + Centred(d.nuisance, c.nuisance)
  }

  function Observed(c: Config, x0: int, d: Draws, m: Mechanism, severity: int, action: seq<int>): (r: seq<int>)
    ensures |r| == c.steps
  {
    seq(c.steps, k requires 0 <= k < c.steps =>
      var x := PlantState(Transform(m, c, severity), c.lag, Offset(c, x0, d), action, k + 1);
      x + Centred(d.step(k), Amplitude(c, x)))
  }

  method GradedRun(c: Config, x0: int, d: Draws, m: Mechanism, severity: int, action: seq<int>)
    returns (r: Result<(int, seq<int>), LabError>)
    ensures r.Err? <==> !SeverityInRange(severity)
    ensures r.Ok? ==> r.value.0 == PlantState(Transform(m, c, severity), c.lag, Offset(c, x0, d), action, c.steps)
    ensures r.Ok? ==> r.value.1 == Observed(c, x0, d, m, severity, action)
  {
    hide Transform, Next, Delivered, Centred, Amplitude, Effective;
    if !SeverityInRange(severity) {
      return Err(SeverityOutOfRange);
    }
    var p := Transform(m, c, severity);
    var x := x0 + Centred(d.nuisance, c.nuisance);
    var telemetry: seq<int> := [];
    var previous := 0;
    for step := 0 to c.steps
      invariant x == PlantState(p, c.lag, Offset(c, x0, d), action, step)
      invariant previous == Previous(p, action, step)
      invariant telemetry == Observed(c, x0, d, m, severity, action)[..step]
    {
      var u := Effective(Command(action, step), p.deadband);
      var delivered := Delivered(c.lag, previous, u);
      previous := u;
      x := Next(p, x, delivered);
      telemetry := telemetry + [x + Centred(d.step(step), Amplitude(c, x))];
    }
    r := Ok((x, telemetry));
  }

  method GradedForwardTelemetry(c: Config, x0: int, m: Mechanism, severity: int, action: seq<int>)
    returns (r: Result<seq<int>, LabError>)
    ensures r == if SeverityInRange(severity) then Ok(Forward(c, x0, m, severity, action)) else Err(SeverityOutOfRange)
  {
    hide Transform, Next, Effective;
    if !SeverityInRange(severity) {
      return Err(SeverityOutOfRange);
    }
    var p := Transform(m, c, severity);
    var x := x0;
    var telemetry: seq<int> := [];
    for step := 0 to c.steps
      invariant x == State(p, x0, action, step)
      invariant telemetry == Forward(c, x0, m, severity, action)[..step]
    {
      var u := Effective(Command(action, step), p.deadband);
      x := Next(p, x, u);
      telemetry := telemetry + [x];
    }
    assert telemetry == Forward(c, x0, m, severity, action);
    r := Ok(telemetry);
  }

  // ----- arithmetic of floor division

  lemma ProductLeq(a: int, b: int, c: int, d: int)
    requires 0 <= a <= b && 0 <= c <= d
    ensures 0 <= a * c <= b * d
  {
    assert a * c <= b * c <= b * d;
  }

  lemma FloorBounds(a: int, n: int)
    requires n > 0
    ensures n * (a / n) <= a < n * (a / n) + n
  {
  }

  lemma QuotientOrder(n: int, q: int, s: int, a: int, b: int)
    requires n > 0 && n * q <= a <= b < n * s + n
    ensures q <= s
  {
    if q > s {
      ProductLeq(n, n, 1, q - s);
    }
  }

  lemma FloorMonotone(a: int, b: int, n: int)
    requires a <= b && n > 0
    ensures a / n <= b / n
    ensures a >= 0 ==> a / n >= 0
  {
    FloorBounds(a, n);
    FloorBounds(b, n);
    QuotientOrder(n, a / n, b / n, a, b);
    if a >= 0 {
      QuotientOrder(n, 0, a / n, 0, a);
    }
  }

  function Ceil(a: nat, n: nat): nat
    requires n > 0
  {
    (a + n - 1) / n
  }

  /** Floors of a and b differ by at most the ceiling of their difference. */
  lemma FloorDifference(a: int, b: int, n: nat)
    requires n > 0
    ensures Abs(a / n - b / n) <= Ceil(Abs(a - b), n)
  {
    if a >= b {
      FloorGap(a, b, n);
    } else {
      FloorGap(b, a, n);
    }
  }

  lemma FloorShift(b: int, n: nat, c: int)
    requires n > 0
    ensures (b + n * c) / n == b / n + c
  {
    var q, s := (b + n * c) / n, b / n + c;
    assert n * q <= b + n * c < n * q + n;
    assert n * s == n * (b / n) + n * c;
    if q > s {
      ProductLeq(n, n, 1, q - s);
    }
    if q < s {
      ProductLeq(n, n, 1, s - q);
    }
  }

  lemma CeilCovers(a: nat, n: nat)
    requires n > 0
    ensures a <= n * Ceil(a, n)
  {
  }

  lemma FloorGap(a: int, b: int, n: nat)
    requires n > 0 && a >= b
    ensures 0 <= a / n - b / n <= Ceil(a - b, n)
  {
    CeilCovers(a - b, n);
    hide Ceil;
    FloorMonotone(b, a, n);
    FloorMonotone(a, b + n * Ceil(a - b, n), n);
    FloorShift(b, n, Ceil(a - b, n));
  }

  // ----- monotonicity in severity

  /** p drives the state at least as high as q: every parameter is at least as large, the deadband at most. */
  predicate Dominated(q: Params, p: Params) {
    0 <= q.gain <= p.gain && 0 <= q.drive <= p.drive && 0 <= q.bias <= p.bias && p.deadband <= q.deadband
  }

  predicate NonNegativeCommands(action: seq<int>) {
    forall k :: 0 <= k < |action| ==> action[k] >= 0
  }

  lemma NextMonotone(q: Params, p: Params, x: int, y: int, u: int, v: int)
    requires Dominated(q, p) && 0 <= x <= y && 0 <= u <= v
    ensures 0 <= Next(q, x, u) <= Next(p, y, v)
  {
    ProductLeq(q.gain, p.gain, x, y);
    ProductLeq(q.drive, p.drive, u, v);
    FloorMonotone(q.gain * x, p.gain * y, 100);
    FloorMonotone(q.drive * u, p.drive * v, 100);
  }

  lemma {:induction false} StateMonotone(q: Params, p: Params, x0: int, action: seq<int>, k: nat)
    requires Dominated(q, p) && x0 >= 0 && NonNegativeCommands(action)
    ensures 0 <= State(q, x0, action, k) <= State(p, x0, action, k)
  {
    hide Next;
    if k > 0 {
      StateMonotone(q, p, x0, action, k - 1);
      var u := Command(action, k - 1);
      NextMonotone(q, p, State(q, x0, action, k - 1), State(p, x0, action, k - 1),
                   Effective(u, q.deadband), Effective(u, p.deadband));
    }
  }

  /** Whether more of the mechanism raises the state (loss and deadband lower it). */
  predicate Raises(m: Mechanism) {
    m.SensorBias? || m.GainDrift?
  }

  lemma TransformMonotone(m: Mechanism, c: Config, s: int, t: int)
    requires c.gain >= 0 && c.drive >= 0 && c.bias >= 0 && 0 <= s <= t <= 100
    ensures var p, q := Transform(m, c, s), Transform(m, c, t);
            if Raises(m) then Dominated(p, q) else Dominated(q, p)
  {
    match m
    case ActuatorLoss =>
      ProductLeq(c.drive, c.drive, 90 * s, 90 * t);
      ProductLeq(c.drive, c.drive, 90 * t, 9000);
      FloorMonotone(c.drive * (90 * s), c.drive * (90 * t), 10_000);
      FloorMonotone(c.drive * (90 * t), c.drive * 9000, 10_000);
      assert c.drive * 90 * s == c.drive * (90 * s) && c.drive * 90 * t == c.drive * (90 * t);
      assert (c.drive * 9000) / 10_000 <= c.drive;
    case SensorBias =>
    case GainDrift =>
    case ActuatorDeadband =>
    case Unknown =>
  }

  /** At severity zero every mechanism is nominal. */
  lemma NominalAtZero(m: Mechanism, c: Config)
    ensures Transform(m, c, 0) == Transform(Unknown, c, 0)
  {
  }

  lemma UnknownIgnoresSeverity(c: Config, s: int, t: int)
    ensures Transform(Unknown, c, s) == Transform(Unknown, c, t)
  {
  }

  /**
   Every predicted sample moves away from nominal, in one direction, as severity grows; so the L1
   distance from nominal never decreases, and it is zero at severity zero.
   */
  lemma SeverityMonotone(c: Config, x0: int, m: Mechanism, s: int, t: int, action: seq<int>)
    requires c.gain >= 0 && c.drive >= 0 && c.bias >= 0 && x0 >= 0 && NonNegativeCommands(action)
    requires 0 <= s <= t <= 100
    ensures var low, high := Forward(c, x0, m, s, action), Forward(c, x0, m, t, action);
            forall k :: 0 <= k < c.steps ==> if Raises(m) then low[k] <= high[k] else high[k] <= low[k]
    ensures var nominal := Forward(c, x0, Unknown, t, action);
            L1(Forward(c, x0, m, s, action), nominal) <= L1(Forward(c, x0, m, t, action), nominal)
    ensures L1(Forward(c, x0, m, 0, action), Forward(c, x0, Unknown, t, action)) == 0
  {
    hide Transform, State, Forward;
    NominalAtZero(m, c);
    UnknownIgnoresSeverity(c, 0, t);
    var zero, low, high := Forward(c, x0, m, 0, action), Forward(c, x0, m, s, action), Forward(c, x0, m, t, action);
    var nominal := Forward(c, x0, Unknown, t, action);
    assert zero == nominal;
    L1ZeroExactly(zero, nominal);
    forall k | 0 <= k < c.steps
      ensures if Raises(m) then zero[k] <= low[k] <= high[k] else high[k] <= low[k] <= zero[k]
    {
      SampleMonotone(c, x0, m, 0, s, action, k + 1);
      SampleMonotone(c, x0, m, s, t, action, k + 1);
    }
    L1Farther(low, high, nominal);
  }

  lemma SampleMonotone(c: Config, x0: int, m: Mechanism, s: int, t: int, action: seq<int>, k: nat)
    requires c.gain >= 0 && c.drive >= 0 && c.bias >= 0 && x0 >= 0 && NonNegativeCommands(action)
    requires 0 <= s <= t <= 100
    ensures var low, high := State(Transform(m, c, s), x0, action, k), State(Transform(m, c, t), x0, action, k);
            if Raises(m) then low <= high else high <= low
  {
    hide Transform, State;
    TransformMonotone(m, c, s, t);
    var p, q := Transform(m, c, s), Transform(m, c, t);
    if Raises(m) {
      StateMonotone(p, q, x0, action, k);
    } else {
      StateMonotone(q, p, x0, action, k);
    }
  }

  // ----- residual of the true mechanism

  predicate CommandsWithin(action: seq<int>, bound: nat) {
    forall k :: 0 <= k < |action| ==> Abs(action[k]) <= bound
  }

  /** How far a lagged command can be from the commanded one. */
  function LagError(lag: nat, bound: nat): nat {
    Ceil(2 * lag * bound, 1_000_000)
  }

  /** Bound on the state error after k steps. */
  function StateError(c: Config, p: Params, bound: nat, k: nat): nat {
    if k == 0 then c.nuisance
    else Ceil(Abs(p.gain) * StateError(c, p, bound, k - 1), 100) + Ceil(Abs(p.drive) * LagError(c.lag, bound), 100)
  }

  /** Bound on the residual at a sample predicted to be x, with state error e. */
  function SampleError(c: Config, x: int, e: nat): nat {
    e + c.noise + ((Abs(x) + e) * c.noisePpm) / 1_000_000
  }

  lemma AbsProduct(a: int, b: int)
    ensures Abs(a * b) == Abs(a) * Abs(b)
  {
    if a >= 0 && b >= 0 {
      ProductLeq(0, a, 0, b);
    } else if a < 0 && b < 0 {
      ProductLeq(0, -a, 0, -b);
      assert a * b == (-a) * (-b);
    } else if a < 0 {
      ProductLeq(0, -a, 0, b);
      assert a * b == -((-a) * b);
    } else {
      ProductLeq(0, a, 0, -b);
      assert a * b == -(a * (-b));
    }
  }

  lemma CeilMonotone(a: nat, b: nat, n: nat)
    requires a <= b && n > 0
    ensures Ceil(a, n) <= Ceil(b, n)
  {
    FloorMonotone(a + n - 1, b + n - 1, n);
  }

  lemma DeliveredSplit(lag: nat, previous: int, u: int)
    ensures Delivered(lag, previous, u) == (lag * (previous - u) + 1_000_000 * u) / 1_000_000
  {
    assert lag * previous + (1_000_000 - lag) * u == lag * (previous - u) + 1_000_000 * u;
  }

  /** The lagged command is within LagError of the commanded one. */
  lemma DeliveredNear(lag: nat, previous: int, u: int, bound: nat)
    requires Abs(previous) <= bound && Abs(u) <= bound
    ensures Abs(Delivered(lag, previous, u) - u) <= LagError(lag, bound)
  {
    hide Delivered, Ceil, Abs;
    var shift := lag * (previous - u);
    DeliveredSplit(lag, previous, u);
    FloorDifference(shift + 1_000_000 * u, 1_000_000 * u, 1_000_000);
    ShiftWithin(lag, previous, u, bound);
    CeilMonotone(Abs(shift), 2 * lag * bound, 1_000_000);
  }

  lemma ShiftWithin(lag: nat, previous: int, u: int, bound: nat)
    requires Abs(previous) <= bound && Abs(u) <= bound
    ensures Abs(lag * (previous - u)) <= 2 * lag * bound
  {
    AbsProduct(lag, previous - u);
    ProductLeq(lag, lag, Abs(previous - u), 2 * bound);
    assert 2 * lag * bound == lag * (2 * bound);
  }

  lemma ScaledDifference(g: int, x: int, y: int, e: nat)
    requires Abs(x - y) <= e
    ensures Abs((g * x) / 100 - (g * y) / 100) <= Ceil(Abs(g) * e, 100)
  {
    FloorDifference(g * x, g * y, 100);
    assert g * x - g * y == g * (x - y);
    AbsProduct(g, x - y);
    ProductLeq(Abs(g), Abs(g), Abs(x - y), e);
    CeilMonotone(Abs(g * x - g * y), Abs(g) * e, 100);
  }

  lemma NextNear(p: Params, x: int, y: int, u: int, v: int, e: nat, d: nat)
    requires Abs(x - y) <= e && Abs(u - v) <= d
    ensures Abs(Next(p, x, u) - Next(p, y, v)) <= Ceil(Abs(p.gain) * e, 100) + Ceil(Abs(p.drive) * d, 100)
  {
    hide Ceil;
    ScaledDifference(p.gain, x, y, e);
    ScaledDifference(p.drive, u, v, d);
  }

  lemma EffectiveWithin(action: seq<int>, bound: nat, k: nat, deadband: int)
    requires CommandsWithin(action, bound)
    ensures Abs(Effective(Command(action, k), deadband)) <= bound
  {
  }

  /** The plant stays within StateError of the forward model, over any horizon and for every seed. */
  lemma {:induction false} PlantNearForward(
    c: Config, p: Params, x0: int, d: Draws, action: seq<int>, bound: nat, k: nat)
    requires CommandsWithin(action, bound)
    ensures Abs(PlantState(p, c.lag, Offset(c, x0, d), action, k) - State(p, x0, action, k)) 
            <= StateError(c, p, bound, k)
  {
    hide Next, Delivered, Effective, Centred, LagError, Ceil;
    if k > 0 {
      PlantNearForward(c, p, x0, d, action, bound, k - 1);
      var u, previous := Effective(Command(action, k - 1), p.deadband), Previous(p, action, k - 1);
      EffectiveWithin(action, bound, k - 1, p.deadband);
      if k > 1 {
        EffectiveWithin(action, bound, k - 2, p.deadband);
      }
      DeliveredNear(c.lag, previous, u, bound);
      NextNear(p, PlantState(p, c.lag, Offset(c, x0, d), action, k - 1), State(p, x0, action, k - 1),
               Delivered(c.lag, previous, u), u, StateError(c, p, bound, k - 1), LagError(c.lag, bound));
    }
  }

  lemma NoiseNear(c: Config, x: int, y: int, e: nat)
    requires Abs(x - y) <= e
    ensures Amplitude(c, x) <= c.noise + ((Abs(y) + e) * c.noisePpm) / 1_000_000
  {
    ProductLeq(Abs(x), Abs(y) + e, c.noisePpm, c.noisePpm);
    FloorMonotone(Abs(x) * c.noisePpm, (Abs(y) + e) * c.noisePpm, 1_000_000);
  }

  /** The per-sample bounds along a predicted trajectory. */
  function SampleErrors(c: Config, x0: int, m: Mechanism, severity: int, action: seq<int>, bound: nat): (r: seq<int>)
    ensures |r| == c.steps
    ensures forall k :: 0 <= k < c.steps ==>
              r[k] == SampleError(c, Forward(c, x0, m, severity, action)[k],
                                  StateError(c, Transform(m, c, severity), bound, k + 1))
  {
    seq(c.steps, k requires 0 <= k < c.steps =>
      SampleError(c, Forward(c, x0, m, severity, action)[k], StateError(c, Transform(m, c, severity), bound, k + 1)))
  }

  /** For every seed, the true mechanism's residual stays within its bound at every sample and in total. */
  lemma TrueResidualBounded(c: Config, x0: int, d: Draws, m: Mechanism, severity: int, action: seq<int>, bound: nat)
    requires CommandsWithin(action, bound)
    ensures var seen, predicted, bounds := Observed(c, x0, d, m, severity, action), Forward(c, x0, m, severity, action),
                                           SampleErrors(c, x0, m, severity, action, bound);
            && (forall k :: 0 <= k < c.steps ==> Abs(seen[k] - predicted[k]) <= bounds[k])
            && L1(seen, predicted) <= Sum(bounds)
  {
    hide Transform, State, PlantState, StateError, Centred, Amplitude, Offset, Forward, SampleErrors;
    var p := Transform(m, c, severity);
    forall k | 0 <= k < c.steps
      ensures Abs(Observed(c, x0, d, m, severity, action)[k] - Forward(c, x0, m, severity, action)[k])
              <= SampleErrors(c, x0, m, severity, action, bound)[k]
    {
      var x, y := PlantState(p, c.lag, Offset(c, x0, d), action, k + 1), State(p, x0, action, k + 1);
      PlantNearForward(c, p, x0, d, action, bound, k + 1);
      NoiseNear(c, x, y, StateError(c, p, bound, k + 1));
      assert Observed(c, x0, d, m, severity, action)[k] == x + Centred(d.step(k), Amplitude(c, x));
    }
    L1Within(Observed(c, x0, d, m, severity, action), Forward(c, x0, m, severity, action),
             SampleErrors(c, x0, m, severity, action, bound));
  }

  /**
   A hypothesis whose signature is more than twice the summed bound from the truth's has a strictly
   larger residual than the truth, for every seed.
   */
  lemma TruthHasLeastResidual(c: Config, x0: int, d: Draws, m: Mechanism, severity: int, action: seq<int>, bound: nat,
                              other: Mechanism, level: int)
    requires CommandsWithin(action, bound)
    requires L1(Forward(c, x0, m, severity, action), Forward(c, x0, other, level, action))
             > 2 * Sum(SampleErrors(c, x0, m, severity, action, bound))
    ensures var seen := Observed(c, x0, d, m, severity, action);
            L1(seen, Forward(c, x0, other, level, action)) > L1(seen, Forward(c, x0, m, severity, action))
  {
    hide Observed, Forward, SampleErrors;
    TrueResidualBounded(c, x0, d, m, severity, action, bound);
    Decodes(Observed(c, x0, d, m, severity, action), Forward(c, x0, m, severity, action),
            Forward(c, x0, other, level, action), Sum(SampleErrors(c, x0, m, severity, action, bound)));
  }

  lemma {:induction false} NoStateError(c: Config, p: Params, bound: nat, k: nat)
    requires c.lag == 0 && c.nuisance == 0
    ensures StateError(c, p, bound, k) == 0
  {
    assert LagError(c.lag, bound) == 0;
    if k > 0 {
      NoStateError(c, p, bound, k - 1);
      assert Abs(p.gain) * 0 == 0 && Abs(p.drive) * 0 == 0;
    }
  }

  /** Without lag, noise and offset the run is exactly the forward model, for every seed. */
  lemma ExactPlantMatchesForward(
    c: Config, x0: int, d: Draws, m: Mechanism, severity: int, action: seq<int>, bound: nat)
    requires CommandsWithin(action, bound)
    requires c.lag == 0 && c.noise == 0 && c.noisePpm == 0 && c.nuisance == 0
    ensures Observed(c, x0, d, m, severity, action) == Forward(c, x0, m, severity, action)
    ensures PlantState(Transform(m, c, severity), c.lag, Offset(c, x0, d), action, c.steps)
            == State(Transform(m, c, severity), x0, action, c.steps)
  {
    hide Transform, State, PlantState, StateError, Observed, Forward, Offset;
    TrueResidualBounded(c, x0, d, m, severity, action, bound);
    var p := Transform(m, c, severity);
    forall k | 0 <= k < c.steps
      ensures SampleErrors(c, x0, m, severity, action, bound)[k] == 0
    {
      NoStateError(c, p, bound, k + 1);
    }
    assert forall k :: 0 <= k < c.steps ==>
           Observed(c, x0, d, m, severity, action)[k] == Forward(c, x0, m, severity, action)[k];
    PlantNearForward(c, p, x0, d, action, bound, c.steps);
    NoStateError(c, p, bound, c.steps);
  }
}
