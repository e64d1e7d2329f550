/** The reference laboratory: a scalar recurrence with a disturbance in [-3, 3] on each sample. */
module ReferenceLab {
  import opened Prelude
  import opened Telemetry

  datatype Config = Config(gain: int, drive: int, bias: int, steps: nat)

  datatype Mechanism = ActuatorLoss | SensorBias | GainDrift | Unknown

  function Transform(m: Mechanism, c: Config): (int, int, int) {
    match m
    case ActuatorLoss => (c.gain, c.drive / 10, c.bias)
    case SensorBias => (c.gain, c.drive, c.bias + 1000)
    case GainDrift => (c.gain + 40, c.drive, c.bias)
    case Unknown => (c.gain, c.drive, c.bias)
  }

  function Command(action: seq<int>, step: nat): int {
    if step < |action| then action[step] else 0
  }

  /** The state after k steps. */
  function State(c: Config, x0: int, m: Mechanism, action: seq<int>, k: nat): int {
    if k == 0 then x0
    else
      var (gain, drive, bias) := Transform(m, c);
      (gain * State(c, x0, m, action, k - 1)) / 100 + (drive * Command(action, k - 1)) / 100 + bias
  }

  /** One hash value per step, drawn from the seed. */
  type Draws = nat -> nat

  function Disturbance(d: Draws, step: nat): int {
    d(step) % 7 - 3
  }

  function Forward(c: Config, x0: int, m: Mechanism, action: seq<int>): (r: seq<int>)
    ensures |r| == c.steps
    ensures forall k :: 0 <= k < c.steps ==> r[k] == State(c, x0, m, action, k + 1)
  {
    seq(c.steps, k requires 0 <= k < c.steps => State(c, x0, m, action, k + 1))
  }

  function Observed(c: Config, x0: int, d: Draws, m: Mechanism, action: seq<int>): (r: seq<int>)
    ensures |r| == c.steps
  {
    seq(c.steps, k requires 0 <= k < c.steps => State(c, x0, m, action, k + 1) + Disturbance(d, k))
  }

  method RunReference(c: Config, x0: int, d: Draws, m: Mechanism, action: seq<int>)
    returns (x: int, telemetry: seq<int>)
    ensures x == State(c, x0, m, action, c.steps)
    ensures telemetry == Observed(c, x0, d, m, action)
  {
    hide Disturbance, Transform;
    var (gain, drive, bias) := Transform(m, c);
    x, telemetry := x0, [];
    for step := 0 to c.steps
      invariant x == State(c, x0, m, action, step)
      invariant telemetry == Observed(c, x0, d, m, action)[..step]
    {
      x := (gain * x) / 100 + (drive * Command(action, step)) / 100 + bias;
      assert x == State(c, x0, m, action, step + 1);
      telemetry := telemetry + [x + Disturbance(d, step)];
    }
    assert telemetry == Observed(c, x0, d, m, action);
  }

  method ReferenceForwardTelemetry(c: Config, x0: int, m: Mechanism, action: seq<int>) returns (telemetry: seq<int>)
    ensures telemetry == Forward(c, x0, m, action)
  {
    hide Transform;
    var (gain, drive, bias) := Transform(m, c);
    var x := x0;
    telemetry := [];
    for step := 0 to c.steps
      invariant x == State(c, x0, m, action, step)
      invariant telemetry == Forward(c, x0, m, action)[..step]
    {
      x := (gain * x) / 100 + (drive * Command(action, step)) / 100 + bias;
      assert x == State(c, x0, m, action, step + 1);
      telemetry := telemetry + [x];
    }
    assert telemetry == Forward(c, x0, m, action);
  }

  lemma {:induction false} ConstantSum(n: nat, x: int)
    ensures Sum(seq(n, i => x)) == n * x
  {
    if n > 0 {
      assert seq(n, i => x)[1..] == seq(n - 1, i => x);
      ConstantSum(n - 1, x);
    }
  }

  /** For every seed the true mechanism's residual is at most 3 per sample. */
  lemma TrueResidualBounded(c: Config, x0: int, d: Draws, m: Mechanism, action: seq<int>)
    ensures var seen, predicted := Observed(c, x0, d, m, action), Forward(c, x0, m, action);
            && (forall k :: 0 <= k < c.steps ==>
                 seen[k] - predicted[k] == Disturbance(d, k) && Abs(seen[k] - predicted[k]) <= 3)
            && L1(seen, predicted) <= 3 * c.steps
  {
    hide State;
    L1Within(Observed(c, x0, d, m, action), Forward(c, x0, m, action), seq(c.steps, i => 3));
    ConstantSum(c.steps, 3);
  }

  /** A mechanism whose signature is more than six per sample from the truth's always has the larger residual. */
  lemma TruthHasLeastResidual(c: Config, x0: int, d: Draws, m: Mechanism, other: Mechanism, action: seq<int>)
    requires L1(Forward(c, x0, m, action), Forward(c, x0, other, action)) > 6 * c.steps
    ensures var seen := Observed(c, x0, d, m, action);
            L1(seen, Forward(c, x0, other, action)) > L1(seen, Forward(c, x0, m, action))
  {
    hide Observed, Forward;
    TrueResidualBounded(c, x0, d, m, action);
    Decodes(Observed(c, x0, d, m, action), Forward(c, x0, m, action), Forward(c, x0, other, action), 3 * c.steps);
  }

  function AlwaysSix(): Draws {
    k => 6
  }

  /** The bound is tight: at exactly six per sample a seed can make the two residuals equal. */
  lemma SixPerSampleIsTight(n: nat)
    requires n >= 1
    ensures var c, action := Config(0, 600, 0, n), seq(n, i => 1);
            var seen := Observed(c, 0, AlwaysSix(), ActuatorLoss, action);
            && L1(Forward(c, 0, ActuatorLoss, action), Forward(c, 0, Unknown, action)) == 6 * n
            && L1(seen, Forward(c, 0, Unknown, action)) == L1(seen, Forward(c, 0, ActuatorLoss, action))
  {
    var c, action := Config(0, 600, 0, n), seq(n, i => 1);
    var seen, truth, other := Observed(c, 0, AlwaysSix(), ActuatorLoss, action),
        Forward(c, 0, ActuatorLoss, action), Forward(c, 0, Unknown, action);
    forall k | 0 <= k < n
      ensures truth[k] == 0 && other[k] == 6 && seen[k] == 3
    {
      assert State(c, 0, ActuatorLoss, action, k + 1) == 0 && State(c, 0, Unknown, action, k + 1) == 6;
    }
    SameGaps(seen, other, seen, truth);
    SameGaps(truth, other, seq(n, i => 0), seq(n, i => 6));
    ConstantGap(n);
  }

  lemma {:induction false} ConstantGap(n: nat)
    ensures L1(seq(n, i => 0), seq(n, i => 6)) == 6 * n
  {
    if n > 0 {
      assert seq(n, i => 0)[1..] == seq(n - 1, i => 0) && seq(n, i => 6)[1..] == seq(n - 1, i => 6);
      ConstantGap(n - 1);
    }
  }

  lemma {:induction false} SameGaps(a: seq<int>, b: seq<int>, p: seq<int>, q: seq<int>)
    requires |a| == |b| == |p| == |q|
    requires forall i :: 0 <= i < |a| ==> Abs(a[i] - b[i]) == Abs(p[i] - q[i])
    ensures L1(a, b) == L1(p, q)
  {
    if a != [] {
      SameGaps(a[1..], b[1..], p[1..], q[1..]);
    }
  }
}
