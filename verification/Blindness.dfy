/** Which probes cannot tell an actuator fault from nominal, exactly. */
module Blindness {
  import opened Prelude
  import opened Telemetry
  import opened GradedLab
  import opened Hypotheses
  import opened Separability

  /** What a command adds to the state under p. */
  function Drive(p: Params, u: int): int {
    (p.drive * Effective(u, p.deadband)) / 100
  }

  /** p and q push the state alike at every step of the horizon. */
  predicate SameDrive(p: Params, q: Params, action: seq<int>, n: nat) {
    forall k :: 0 <= k < n ==> Drive(p, Command(action, k)) == Drive(q, Command(action, k))
  }

  lemma {:induction false} SameStates(p: Params, q: Params, x0: int, action: seq<int>, n: nat, k: nat)
    requires p.gain == q.gain && p.bias == q.bias && SameDrive(p, q, action, n) && k <= n
    ensures State(p, x0, action, k) == State(q, x0, action, k)
  {
    if k > 0 {
      SameStates(p, q, x0, action, n, k - 1);
      assert Drive(p, Command(action, k - 1)) == Drive(q, Command(action, k - 1));
    }
  }

  /** Mechanisms that share gain and bias predict the same telemetry if and only if every command drives alike. */
  lemma SameTelemetryExactly(c: Config, x0: int, m: Mechanism, l: Mechanism, s: int, t: int, action: seq<int>)
    requires Transform(m, c, s).gain == Transform(l, c, t).gain && Transform(m, c, s).bias == Transform(l, c, t).bias
    ensures Forward(c, x0, m, s, action) == Forward(c, x0, l, t, action)
            <==> SameDrive(Transform(m, c, s), Transform(l, c, t), action, c.steps)
  {
    hide Transform, Effective;
    var p, q := Transform(m, c, s), Transform(l, c, t);
    var a, b := Forward(c, x0, m, s, action), Forward(c, x0, l, t, action);
    if a == b {
      forall k | 0 <= k < c.steps
        ensures Drive(p, Command(action, k)) == Drive(q, Command(action, k))
      {
        assert State(p, x0, action, k + 1) == a[k] == b[k] == State(q, x0, action, k + 1);
        if k > 0 {
          assert State(p, x0, action, k) == a[k - 1] == b[k - 1] == State(q, x0, action, k);
        }
        NextParts(p, q, State(p, x0, action, k), Command(action, k));
        assert State(q, x0, action, k) == State(p, x0, action, k);
      }
    }
    if SameDrive(p, q, action, c.steps) {
      forall k | 0 <= k < c.steps
        ensures a[k] == b[k]
      {
        SameStates(p, q, x0, action, c.steps, k + 1);
      }
    }
  }

  lemma NextParts(p: Params, q: Params, x: int, u: int)
    requires p.gain == q.gain && p.bias == q.bias
    ensures Next(p, x, Effective(u, p.deadband)) == Next(q, x, Effective(u, q.deadband)) <==> Drive(p, u) == Drive(q, u)
  {
  }

  /** The command threshold of a deadband at this severity. */
  function Threshold(severity: int): int {
    (60 * severity) / 100
  }

  /**
   A deadband is invisible to a probe if and only if every command below the threshold would have
   been without effect anyway.
   */
  lemma DeadbandInvisibleExactly(c: Config, x0: int, severity: int, action: seq<int>)
    ensures Forward(c, x0, ActuatorDeadband, severity, action) == Forward(c, x0, Unknown, severity, action)
            <==> forall k :: 0 <= k < c.steps ==> BelowIsIdle(c.drive, Command(action, k), Threshold(severity))
  {
    hide Forward;
    SameTelemetryExactly(c, x0, ActuatorDeadband, Unknown, severity, severity, action);
    var p, q := Transform(ActuatorDeadband, c, severity), Transform(Unknown, c, severity);
    forall u
      ensures Drive(p, u) == Drive(q, u) <==> BelowIsIdle(c.drive, u, Threshold(severity))
    {
      assert p.drive * 0 == 0;
    }
  }

  predicate BelowIsIdle(drive: int, u: int, threshold: int) {
    Abs(u) < threshold ==> (drive * u) / 100 == 0
  }

  /** A probe that stays at or above the threshold, or at rest, never separates a deadband from nominal. */
  lemma LargeProbesAreBlind(s: Setup, key: Key, other: Key, action: Action)
    requires Named(s.classes, key) == ActuatorDeadband && Named(s.classes, other) == Unknown
    requires forall k :: 0 <= k < |action| ==> action[k] == 0 || Abs(action[k]) >= Threshold(s.severity)
    ensures Scaled(s, action, key, other) == 0
  {
    hide Forward, DisturbanceL1;
    DeadbandInvisibleExactly(s.config, s.x0, s.severity, action);
    forall k | 0 <= k < s.config.steps
      ensures BelowIsIdle(s.config.drive, Command(action, k), Threshold(s.severity))
    {
      assert s.config.drive * 0 == 0;
    }
    L1ZeroExactly(s.Signature(key, action), s.Signature(other, action));
  }

  predicate AtRest(action: Action) {
    forall k :: 0 <= k < |action| ==> action[k] == 0
  }

  /** At rest a drive loss and a deadband predict exactly the nominal telemetry, at any severity. */
  lemma RestHidesActuators(c: Config, x0: int, m: Mechanism, severity: int, action: seq<int>)
    requires m.ActuatorLoss? || m.ActuatorDeadband?
    requires AtRest(action)
    ensures Forward(c, x0, m, severity, action) == Forward(c, x0, Unknown, severity, action)
  {
    hide Forward;
    SameTelemetryExactly(c, x0, m, Unknown, severity, severity, action);
    var p, q := Transform(m, c, severity), Transform(Unknown, c, severity);
    forall k | 0 <= k < c.steps
      ensures Drive(p, Command(action, k)) == Drive(q, Command(action, k))
    {
      assert Command(action, k) == 0;
      assert p.drive * 0 == 0 && q.drive * 0 == 0;
    }
  }

  /** So with only no-op actions one actuator fault beside the unknown makes the whole catalog's index zero. */
  lemma RestZeroesIndex(s: Setup, actions: seq<Action>, keys: multiset<Key>, v: nat, key: Key, other: Key)
    requires IsIndex(s, actions, keys, v) && IsPair(keys, key, other)
    requires Named(s.classes, key).ActuatorLoss? || Named(s.classes, key).ActuatorDeadband?
    requires Named(s.classes, other) == Unknown && forall a :: a in actions ==> AtRest(a)
    ensures v == 0
  {
    hide PairBest, IsPair, AtRest, Forward, DisturbanceL1;
    PairBestIsMax(s, actions, key, other);
    forall a | a in actions
      ensures Scaled(s, a, key, other) == 0
    {
      RestHidesActuators(s.config, s.x0, Named(s.classes, key), s.severity, a);
      L1ZeroExactly(s.Signature(key, a), s.Signature(other, a));
    }
    NoActions(s, actions, key, other);
  }

  lemma NoActions(s: Setup, actions: seq<Action>, key: Key, other: Key)
    ensures actions == [] ==> PairBest(s, actions, key, other) == 0
  {
  }

  // ----- the two actuator faults against each other

  /** One command drives both actuator faults alike. */
  predicate FaultsDriveAlike(c: Config, severity: int, u: int) {
    var loss := (Transform(ActuatorLoss, c, severity).drive * u) / 100;
    if Abs(u) < Threshold(severity) then loss == 0 else loss == (c.drive * u) / 100
  }

  /**
   A deadband and a drive loss predict the same telemetry if and only if every command below the
   threshold leaves the weakened drive without effect and every other one loses nothing to weakening.
   */
  lemma ActuatorFaultsAgreeExactly(c: Config, x0: int, severity: int, action: seq<int>)
    ensures Forward(c, x0, ActuatorDeadband, severity, action) == Forward(c, x0, ActuatorLoss, severity, action)
            <==> forall k :: 0 <= k < c.steps ==> FaultsDriveAlike(c, severity, Command(action, k))
  {
    hide Forward;
    SameTelemetryExactly(c, x0, ActuatorDeadband, ActuatorLoss, severity, severity, action);
    var p, q := Transform(ActuatorDeadband, c, severity), Transform(ActuatorLoss, c, severity);
    forall u
      ensures Drive(p, u) == Drive(q, u) <==> FaultsDriveAlike(c, severity, u)
    {
      assert p.drive * 0 == 0;
      assert Effective(u, q.deadband) == u;
    }
  }

  /** So a probe below the threshold or at rest separates them unless the weakened drive never acts. */
  lemma SmallProbesAgreeExactly(c: Config, x0: int, severity: int, action: seq<int>)
    requires forall k :: 0 <= k < |action| ==> action[k] == 0 || Abs(action[k]) < Threshold(severity)
    ensures Forward(c, x0, ActuatorDeadband, severity, action) == Forward(c, x0, ActuatorLoss, severity, action)
            <==> forall k :: 0 <= k < c.steps ==> WeakenedIdle(c, severity, Command(action, k))
  {
    ActuatorFaultsAgreeExactly(c, x0, severity, action);
    hide Forward;
    var q := Transform(ActuatorLoss, c, severity);
    hide Transform;
    forall k | 0 <= k < c.steps
      ensures FaultsDriveAlike(c, severity, Command(action, k)) <==> WeakenedIdle(c, severity, Command(action, k))
    {
      assert q.drive * 0 == 0 && c.drive * 0 == 0;
    }
  }

  predicate WeakenedIdle(c: Config, severity: int, u: int) {
    (Transform(ActuatorLoss, c, severity).drive * u) / 100 == 0
  }

  /** At drive 50 and full severity a command of 40, below the threshold of 60, separates the two faults. */
  lemma SmallProbeSeparates(c: Config, x0: int)
    requires c.drive == 50 && c.steps >= 1
    ensures Threshold(100) == 60
    ensures Forward(c, x0, ActuatorDeadband, 100, [40]) != Forward(c, x0, ActuatorLoss, 100, [40])
  {
    hide Forward;
    SmallProbesAgreeExactly(c, x0, 100, [40]);
    assert !WeakenedIdle(c, 100, Command([40], 0));
  }
}
