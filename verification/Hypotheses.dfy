/** Hypotheses of the graded laboratory, their labels, and their residuals against an observation. */
module Hypotheses {
  import opened Prelude
  import opened Decimal
  import opened Telemetry
  import GradedLab

  datatype Hypothesis = Hypothesis(key: string, severity: nat) {
    predicate Valid() {
      severity <= 100
    }
  }

  const UNKNOWN: string := "unknown"

  function Label(h: Hypothesis): string {
    h.key + ":" + Dec(h.severity)
  }

  /** A label names one hypothesis, whatever characters the key holds. */
  lemma LabelInjective(g: Hypothesis, h: Hypothesis)
    requires Label(g) == Label(h)
    ensures g == h
  {
    var s := Label(g);
    ColonPlace(g, h);
    assert s[..|g.key|] == g.key && s[..|h.key|] == h.key;
    assert s[|g.key| + 1..] == Dec(g.severity) && s[|h.key| + 1..] == Dec(h.severity);
    DecInjective(g.severity, h.severity);
  }

  /** The separator is the last colon of a label. */
  lemma ColonPlace(g: Hypothesis, h: Hypothesis)
    requires Label(g) == Label(h)
    ensures |g.key| == |h.key|
  {
    hide Label;
    LastColon(g);
    LastColon(h);
  }

  lemma LastColon(h: Hypothesis)
    ensures |h.key| < |Label(h)| && Label(h)[|h.key|] == ':'
    ensures forall i :: |h.key| < i < |Label(h)| ==> Label(h)[i] != ':'
  {
    forall i | |h.key| < i < |Label(h)|
      ensures Label(h)[i] != ':'
    {
      assert Label(h)[i] == Dec(h.severity)[i - |h.key| - 1];
    }
  }

  /** The mechanism a key names. */
  function Named(classes: map<string, GradedLab.Mechanism>, key: string): GradedLab.Mechanism {
    if key in classes then classes[key] else GradedLab.Unknown
  }

  datatype Residuals = Residuals(keys: seq<string>, at: map<string, int>) {
    predicate Valid() {
      Distinct(keys) && at.Keys == set k | k in keys
    }
  }

  /** One setting in which residuals are taken. */
  datatype Scene = Scene(
    classes: map<string, GradedLab.Mechanism>,
    config: GradedLab.Config,
    x0: int,
    action: seq<int>) {
    function Predicted(h: Hypothesis): (r: seq<int>)
      ensures |r| == config.steps
    {
      GradedLab.Forward(config, x0, Named(classes, h.key), h.severity, action)
    }
  }

  /** r holds the summed absolute residual of every hypothesis of the space, and nothing else. */
  ghost predicate AreResiduals(r: Residuals, observed: seq<int>, space: seq<Hypothesis>, scene: Scene) {
    && r.Valid() && |observed| == scene.config.steps
    && (forall k :: k in r.at <==> exists h :: h in space && Label(h) == k)
    && forall h :: h in space ==> Label(h) in r.at && r.at[Label(h)] == L1(observed, scene.Predicted(h))
  }
}
