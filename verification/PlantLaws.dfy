/** The laboratories' draws, lag and parameters, pinned to what they stand for. */
module PlantLaws {
  import opened Prelude
  import opened GradedLab
  import H = Hypotheses
  import S = Separability
  import R = ReferenceLab
  import T = Telemetry

  // ----- draws

  lemma DrawIs(i: nat, a: nat)
    requires i <= 2 * a
    ensures Centred(i, a) == i - a
  {
    SmallRemainder(i, 2 * a + 1);
  }

  lemma SmallRemainder(i: nat, n: nat)
    requires i < n
    ensures i % n == i
  {
    FloorBounds(i, n);
    QuotientOrder(n, i / n, 0, i, i);
    QuotientOrder(n, 0, i / n, 0, i);
  }

  lemma CentredPeriodic(draw: nat, a: nat)
    ensures Centred(draw + (2 * a + 1), a) == Centred(draw, a)
  {
    Periodic(draw, 2 * a + 1);
  }

  /** Of the draws 0..2a exactly one lands on each value of [-a, a]; further draws repeat with that period. */
  lemma CentredReachesEachOnce(a: nat, v: int, draw: nat)
    requires Abs(v) <= a
    ensures 0 <= v + a <= 2 * a && Centred(v + a, a) == v
    ensures forall i: nat :: i <= 2 * a && Centred(i, a) == v ==> i == v + a
    ensures Centred(draw + (2 * a + 1), a) == Centred(draw, a)
  {
    hide Centred;
    CentredPeriodic(draw, a);
    DrawIs(v + a, a);
    forall i: nat | i <= 2 * a && Centred(i, a) == v
      ensures i == v + a
    {
      DrawIs(i, a);
    }
  }

  lemma Periodic(draw: nat, n: nat)
    requires n > 0
    ensures (draw + n) % n == draw % n
  {
    FloorShift(draw, n, 1);
    assert draw + n == n * ((draw + n) / n) + (draw + n) % n;
    assert draw == n * (draw / n) + draw % n;
    assert n * (draw / n + 1) == n * (draw / n) + n;
  }

  /** The magnitudes of the plant's draws are the ones the expected disturbance averages over. */
  lemma DrawMagnitudes(a: nat, i: nat)
    requires i <= 2 * a
    ensures Abs(Centred(i, a)) == S.AbsoluteDraws(a)[i]
  {
    CentredReachesEachOnce(a, i - a, 0);
  }

  /** The amplitude is the floor noise plus the signal-proportional part, rounded down. */
  lemma AmplitudeSpelled(c: Config, x: int)
    ensures 1_000_000 * (Amplitude(c, x) - c.noise) <= Abs(x) * c.noisePpm
    ensures Abs(x) * c.noisePpm < 1_000_000 * (Amplitude(c, x) - c.noise) + 1_000_000
    ensures Amplitude(c, x) == Amplitude(c, -x) && Amplitude(c, 0) == c.noise
  {
  }

  function ConstantDraws(step: nat, nuisance: nat): Draws {
    Draws(k => step, nuisance)
  }

  /**
   What a sample can show is exactly the plant's state plus any value within the amplitude: nothing else
   occurs, and every such value does.
   */
  lemma SampleRange(c: Config, x0: int, nuisance: nat, m: Mechanism, severity: int, action: seq<int>, k: nat, v: int)
    requires k < c.steps
    ensures var start := Offset(c, x0, ConstantDraws(0, nuisance));
            var x := PlantState(Transform(m, c, severity), c.lag, start, action, k + 1);
            (exists d: nat :: Observed(c, x0, ConstantDraws(d, nuisance), m, severity, action)[k] == x + v)
            <==> Abs(v) <= Amplitude(c, x)
  {
    hide Transform, PlantState, Centred, Amplitude;
    var x := PlantState(Transform(m, c, severity), c.lag, Offset(c, x0, ConstantDraws(0, nuisance)), action, k + 1);
    var a := Amplitude(c, x);
    forall d: nat
      ensures Observed(c, x0, ConstantDraws(d, nuisance), m, severity, action)[k] == x + Centred(d, a)
    {
      assert Offset(c, x0, ConstantDraws(d, nuisance)) == Offset(c, x0, ConstantDraws(0, nuisance));
    }
    if Abs(v) <= a {
      CentredReachesEachOnce(a, v, 0);
      assert Observed(c, x0, ConstantDraws(v + a, nuisance), m, severity, action)[k] == x + v;
    }
  }

  /** The initial offset takes exactly the values within the nuisance amplitude. */
  lemma OffsetRange(c: Config, x0: int, v: int)
    ensures (exists d: nat :: Offset(c, x0, ConstantDraws(0, d)) == x0 + v) <==> Abs(v) <= c.nuisance
  {
    hide Centred;
    forall d: nat
      ensures Offset(c, x0, ConstantDraws(0, d)) == x0 + Centred(d, c.nuisance)
    {
    }
    if Abs(v) <= c.nuisance {
      CentredReachesEachOnce(c.nuisance, v, 0);
      assert Offset(c, x0, ConstantDraws(0, v + c.nuisance)) == x0 + v;
    }
  }

  // ----- lag

  lemma DeliveredEnds(previous: int, u: int, lag: nat)
    ensures Delivered(0, previous, u) == u && Delivered(1_000_000, previous, u) == previous
    ensures Delivered(lag, u, u) == u
    ensures 1_000_000 * Delivered(lag, previous, u) <= lag * previous + (1_000_000 - lag) * u
    ensures lag * previous + (1_000_000 - lag) * u < 1_000_000 * Delivered(lag, previous, u) + 1_000_000
  {
    assert lag * u + (1_000_000 - lag) * u == 1_000_000 * u;
    assert 0 * previous == 0 && 0 * u == 0;
  }

  lemma DelayedCommand(p: Params, action: seq<int>, k: nat)
    ensures Effective(Command([0] + action, k), p.deadband) == Previous(p, action, k)
  {
  }

  /** With full lag the plant is the forward model on the commands delayed by one step. */
  lemma {:induction false} FullLagDelays(p: Params, x0: int, action: seq<int>, k: nat)
    ensures PlantState(p, 1_000_000, x0, action, k) == State(p, x0, [0] + action, k)
  {
    hide Next, Delivered, Effective, Previous, Command;
    if k > 0 {
      FullLagDelays(p, x0, action, k - 1);
      DelayedCommand(p, action, k - 1);
      DeliveredEnds(Previous(p, action, k - 1), Effective(Command(action, k - 1), p.deadband), 0);
    }
  }

  /** Without lag the plant is the forward model. */
  lemma {:induction false} NoLagIsForward(p: Params, x0: int, action: seq<int>, k: nat)
    ensures PlantState(p, 0, x0, action, k) == State(p, x0, action, k)
  {
    hide Next, Delivered, Effective, Previous, Command;
    if k > 0 {
      NoLagIsForward(p, x0, action, k - 1);
      DeliveredEnds(Previous(p, action, k - 1), Effective(Command(action, k - 1), p.deadband), 0);
    }
  }

  /** One step, each hundredth rounded down on its own. */
  lemma NextSpelled(p: Params, x: int, u: int, g: int, d: int)
    requires 100 * g <= p.gain * x < 100 * g + 100 && 100 * d <= p.drive * u < 100 * d + 100
    ensures Next(p, x, u) == g + d + p.bias
  {
  }

  // ----- parameters between the ends

  /** q is the floor of n over d. */
  predicate Floors(q: int, n: int, d: int) {
    d * q <= n < d * q + d
  }

  /**
   Each mechanism moves one parameter, linearly in severity and rounded down, and leaves the others: the
   drive loses ninety percent, the bias gains 1000, the gain 40, the deadband 60 at full severity.
   */
  lemma TransformSpelled(c: Config, severity: int)
    ensures var p := Transform(ActuatorLoss, c, severity);
            p.gain == c.gain && p.bias == c.bias && p.deadband == 0
            && Floors(c.drive - p.drive, c.drive * 90 * severity, 10_000)
    ensures var p := Transform(SensorBias, c, severity);
            p.gain == c.gain && p.drive == c.drive && p.deadband == 0 && p.bias == c.bias + 10 * severity
    ensures var p := Transform(GainDrift, c, severity);
            p.drive == c.drive && p.bias == c.bias && p.deadband == 0
            && Floors(p.gain - c.gain, 40 * severity, 100)
    ensures var p := Transform(ActuatorDeadband, c, severity);
            p.gain == c.gain && p.drive == c.drive && p.bias == c.bias && Floors(p.deadband, 60 * severity, 100)
    ensures Transform(Unknown, c, severity) == Params(c.gain, c.drive, c.bias, 0)
  {
  }

  // ----- the reference laboratory

  /** Of seven consecutive draws exactly one lands on each value of [-3, 3]. */
  lemma ReferenceDrawsReachEachOnce(d: R.Draws, v: int, k: nat)
    requires -3 <= v <= 3
    ensures R.Disturbance(_ => v + 3, k) == v
    ensures d(k) <= 6 && R.Disturbance(d, k) == v ==> d(k) == v + 3
    ensures R.Disturbance(j => d(j) + 7, k) == R.Disturbance(d, k)
  {
  }

  // ----- distances

  // ----- predictions

  /** A key of the catalog is predicted with its own mechanism and severity, any other key as nominal. */
  lemma PredictionSpelled(scene: H.Scene, h: H.Hypothesis, k: nat)
    requires k < scene.config.steps
    ensures h.key in scene.classes ==>
              scene.Predicted(h)[k] ==
              State(Transform(scene.classes[h.key], scene.config, h.severity), scene.x0, scene.action, k + 1)
    ensures h.key !in scene.classes ==>
              scene.Predicted(h)[k] ==
              State(Params(scene.config.gain, scene.config.drive, scene.config.bias, 0), scene.x0, scene.action, k + 1)
  {
    hide Transform, State;
    TransformSpelled(scene.config, h.severity);
  }

  /** The pointwise distances. */
  function Gaps(a: seq<int>, b: seq<int>): (r: seq<int>)
    requires |a| == |b|
    ensures |r| == |a| && forall i :: 0 <= i < |r| ==> r[i] == if a[i] < b[i] then b[i] - a[i] else a[i] - b[i]
  {
    seq(|a|, i requires 0 <= i < |a| => if a[i] < b[i] then b[i] - a[i] else a[i] - b[i])
  }

  /** The L1 distance is the sum of the pointwise ones. */
  lemma {:induction false} L1IsSum(a: seq<int>, b: seq<int>)
    requires |a| == |b|
    ensures T.L1(a, b) == Sum(Gaps(a, b))
  {
    if a != [] {
      L1IsSum(a[1..], b[1..]);
      assert Gaps(a, b)[1..] == Gaps(a[1..], b[1..]);
    }
  }
}
