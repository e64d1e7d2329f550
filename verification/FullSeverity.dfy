/** The graded laboratory at full severity, compared with the reference laboratory. */
module FullSeverity {
  import opened Prelude
  import G = GradedLab
  import R = ReferenceLab

  /** The graded mechanisms the reference laboratory also has. */
  function Counterpart(m: G.Mechanism): Option<R.Mechanism> {
    match m
    case ActuatorLoss => Some(R.ActuatorLoss)
    case SensorBias => Some(R.SensorBias)
    case GainDrift => Some(R.GainDrift)
    case ActuatorDeadband => None
    case Unknown => Some(R.Unknown)
  }

  function Reference(c: G.Config): R.Config {
    R.Config(c.gain, c.drive, c.bias, c.steps)
  }

  /** The parameters agree if and only if the mechanism is not a drive loss or ten divides the drive. */
  lemma ParametersAgreeExactly(c: G.Config, m: G.Mechanism)
    requires Counterpart(m).Some?
    ensures var p, (gain, drive, bias) := G.Transform(m, c, 100), R.Transform(Counterpart(m).value, Reference(c));
            && p.gain == gain && p.bias == bias && p.deadband == 0
            && (p.drive == drive <==> m != G.ActuatorLoss || c.drive % 10 == 0)
  {
    if m == G.ActuatorLoss {
      var d, r := c.drive / 10, c.drive % 10;
      assert c.drive * 90 * 100 == 90_000 * d + 9000 * r;
      assert (90_000 * d + 9000 * r) / 10_000 == 9 * d + (9 * r) / 10;
    }
  }

  /** Under that condition the forward models predict the same telemetry, for every horizon and action. */
  lemma {:induction false} StatesAgree(c: G.Config, m: G.Mechanism, x0: int, action: seq<int>, k: nat)
    requires Counterpart(m).Some? && (m != G.ActuatorLoss || c.drive % 10 == 0)
    ensures G.State(G.Transform(m, c, 100), x0, action, k) == R.State(Reference(c), x0, Counterpart(m).value, action, k)
  {
    ParametersAgreeExactly(c, m);
    hide G.Transform, R.Transform, Counterpart, Reference;
    if k > 0 {
      StatesAgree(c, m, x0, action, k - 1);
      NoDeadband(G.Command(action, k - 1));
      assert G.Command(action, k - 1) == R.Command(action, k - 1);
    }
  }

  lemma NoDeadband(u: int)
    ensures G.Effective(u, 0) == u
  {
  }

  lemma TelemetryAgrees(c: G.Config, m: G.Mechanism, x0: int, action: seq<int>)
    requires Counterpart(m).Some? && (m != G.ActuatorLoss || c.drive % 10 == 0)
    ensures G.Forward(c, x0, m, 100, action) == R.Forward(Reference(c), x0, Counterpart(m).value, action)
  {
    hide G.Transform, R.Transform, Counterpart, G.State, R.State;
    forall k | 0 <= k < c.steps
      ensures G.Forward(c, x0, m, 100, action)[k] == R.Forward(Reference(c), x0, Counterpart(m).value, action)[k]
    {
      StatesAgree(c, m, x0, action, k + 1);
    }
  }

  /** Without it they differ: a drive of 51 keeps 6 here and 5 there. */
  lemma DriveLossDiffers()
    ensures var c := G.Config(0, 51, 0, 1, 0, 0, 0, 0);
            && G.State(G.Transform(G.ActuatorLoss, c, 100), 0, [100], 1) == 6
            && R.State(Reference(c), 0, R.ActuatorLoss, [100], 1) == 5
  {
    var c := G.Config(0, 51, 0, 1, 0, 0, 0, 0);
    assert G.State(G.Transform(G.ActuatorLoss, c, 100), 0, [100], 0) == 0;
    assert R.State(Reference(c), 0, R.ActuatorLoss, [100], 0) == 0;
  }
}
