/** The forward model behind a cache keyed by configuration hash and arguments. */
module ForwardCaches {
  import opened Prelude
  import opened Telemetry
  import opened GradedLab
  import opened Hypotheses

  datatype Call = Call(config: string, x0: int, key: string, severity: int, action: seq<int>)

  datatype CacheError = Severity | LengthMismatch

  function Direct(classes: map<string, Mechanism>, c: Config, x0: int, key: string, severity: int, action: seq<int>)
    : Result<seq<int>, CacheError> {
    if SeverityInRange(severity) then Ok(Forward(c, x0, Named(classes, key), severity, action)) else Err(Severity)
  }

  /** A different one of these configurations has c's hash. */
  ghost predicate Clashes(sha: Config -> string, used: set<Config>, c: Config) {
    exists d :: d in used && d != c && sha(d) == sha(c)
  }

  class ForwardCache {
    const sha: Config -> string
    const classes: map<string, Mechanism>
    var entries: map<Call, seq<int>>
    ghost var used: set<Config>

    /** Every entry is the direct telemetry of its arguments, for a configuration used before with the key's hash. */
    ghost predicate Coherent() reads this {
      forall k :: k in entries ==>
        exists c :: && c in used && sha(c) == k.config
                    && Direct(classes, c, k.x0, k.key, k.severity, k.action) == Ok(entries[k])
    }

    constructor (sha: Config -> string, classes: map<string, Mechanism>)
      ensures Coherent() && this.sha == sha && this.classes == classes && entries == map[] && used == {}
    {
      this.sha := sha;
      this.classes := classes;
      entries := map[];
      used := {};
    }

    /**
     Whatever calls came before, the result is the direct telemetry, unless a different configuration
     used before has this one's hash.
     */
    method Telemetry(c: Config, x0: int, key: string, severity: int, action: seq<int>)
      returns (r: Result<seq<int>, CacheError>)
      requires Coherent()
      modifies this
      ensures Coherent() && used == old(used) + {c}
      ensures r == Direct(classes, c, x0, key, severity, action) || Clashes(sha, old(used), c)
      ensures r.Ok? ==> entries == old(entries)[Call(sha(c), x0, key, severity, action) := r.value]
      ensures r.Err? ==> entries == old(entries)
      ensures Call(sha(c), x0, key, severity, action) in old(entries) ==> entries == old(entries)
    {
      hide Direct;
      var call := Call(sha(c), x0, key, severity, action);
      used := used + {c};
      if call in entries {
        assert entries[call := entries[call]] == entries;
        return Ok(entries[call]);
      }
      r := Run(c, x0, key, severity, action);
      if r.Ok? {
        entries := entries[call := r.value];
      }
    }

    method Run(c: Config, x0: int, key: string, severity: int, action: seq<int>)
      returns (r: Result<seq<int>, CacheError>)
      ensures r == Direct(classes, c, x0, key, severity, action)
    {
      var run := GradedForwardTelemetry(c, x0, Named(classes, key), severity, action);
      r := if run.Ok? then Ok(run.value) else Err(Severity);
    }

    /** Residuals of the whole space; a later hypothesis with the same label overwrites an earlier one. */
    method ResidualsFor(observed: seq<int>, action: seq<int>, space: seq<Hypothesis>, c: Config, x0: int)
      returns (r: Result<Residuals, CacheError>)
      requires Coherent() && forall h :: h in space ==> h.Valid()
      modifies this
      ensures Coherent() && used <= old(used) + {c}
      ensures !Clashes(sha, old(used), c) ==> (r.Err? <==> space != [] && |observed| != c.steps)
      ensures r.Ok? && space != [] ==>
                Clashes(sha, old(used), c) || AreResiduals(r.value, observed, space, Scene(classes, c, x0, action))
      ensures space == [] ==> r == Ok(Residuals([], map[]))
    {
      hide Direct, L1, Label, Forward;
      ghost var scene := Scene(classes, c, x0, action);
      var out := Residuals([], map[]);
      for i := 0 to |space|
        invariant Coherent() && out.Valid() && old(used) <= used <= old(used) + {c}
        invariant i > 0 && !Clashes(sha, old(used), c) ==> |observed| == c.steps
        invariant i == 0 ==> out == Residuals([], map[])
        invariant Clashes(sha, old(used), c) || Partial(out, observed, space[..i], scene)
      {
        var h := space[i];
        assert h in space && space[..i + 1] == space[..i] + [h];
        var predicted := Telemetry(c, x0, h.key, h.severity, action);
        DirectIs(c, x0, h, action);
        if predicted.Err? {
          return Err(Severity);
        }
        if |observed| != |predicted.value| {
          return Err(LengthMismatch);
        }
        ghost var was := out;
        var name, residual := Label(h), L1(observed, predicted.value);
        out := Residuals(if name in out.at then out.keys else out.keys + [name], out.at[name := residual]);
        if !Clashes(sha, old(used), c) {
          Extend(was, out, observed, space[..i], h, scene);
        }
      }
      assert space[..|space|] == space;
      r := Ok(out);
    }

    lemma DirectIs(c: Config, x0: int, h: Hypothesis, action: seq<int>)
      requires h.Valid()
      ensures Direct(classes, c, x0, h.key, h.severity, action) == Ok(Scene(classes, c, x0, action).Predicted(h))
    {
    }
  }

  /** The residuals of the hypotheses seen so far. */
  ghost predicate Partial(r: Residuals, observed: seq<int>, space: seq<Hypothesis>, scene: Scene) {
    && (forall k :: k in r.at <==> exists h :: h in space && Label(h) == k)
    && (|observed| == scene.config.steps ==>
          forall h :: h in space ==> Label(h) in r.at && r.at[Label(h)] == L1(observed, scene.Predicted(h)))
  }

  lemma Extend(was: Residuals, now: Residuals, observed: seq<int>, space: seq<Hypothesis>, h: Hypothesis, scene: Scene)
    requires Partial(was, observed, space, scene) && |observed| == scene.config.steps
    requires now.at == was.at[Label(h) := L1(observed, scene.Predicted(h))]
    ensures Partial(now, observed, space + [h], scene)
  {
    hide L1, Label, GradedLab.Forward, Scene.Predicted;
    forall g | g in space + [h]
      ensures Label(g) in now.at && now.at[Label(g)] == L1(observed, scene.Predicted(g))
    {
      if Label(g) == Label(h) {
        LabelInjective(g, h);
      } else {
        assert g in space;
      }
    }
    forall k
      ensures k in now.at <==> exists g :: g in space + [h] && Label(g) == k
    {
      if k in was.at {
        var g :| g in space && Label(g) == k;
        assert g in space + [h];
      }
      assert h in space + [h];
      if g :| g in space + [h] && Label(g) == k {
        assert g in space || g == h;
      }
    }
  }
}
