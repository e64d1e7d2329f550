/** From a posterior over (mechanism, severity) labels to one named mechanism, or an abstention. */
module CommittedDiagnosis {
  import opened Prelude
  import opened RealSums
  import opened Sorting
  import opened Hypotheses
  import opened InformationGain

  datatype DiagnosisError = UnknownLabel | EmptyPosterior

  function ByLabel(space: seq<Hypothesis>): map<string, Hypothesis> {
    LabelsInjective();
    map h | h in space :: Label(h) := h
  }

  lemma LabelsInjective()
    ensures forall g, h :: Label(g) == Label(h) ==> g == h
  {
    forall g, h | Label(g) == Label(h)
      ensures g == h
    {
      LabelInjective(g, h);
    }
  }

  predicate Names(space: seq<Hypothesis>, k: Id, m: string) {
    k in ByLabel(space) && ByLabel(space)[k].key == m
  }

  /** A label's contribution to mechanism m. */
  function Share(posterior: Dict, space: seq<Hypothesis>, m: string): Id -> real {
    (k: Id) => if Names(space, k, m) then At(posterior.at, k) else 0.0
  }

  /** The mass of mechanism m over all its severities. */
  function MassOf(posterior: Dict, space: seq<Hypothesis>, m: string): real {
    SumOf(posterior.keys, Share(posterior, space, m))
  }

  predicate Known(posterior: Dict, space: seq<Hypothesis>) {
    forall k :: k in posterior.keys ==> k in ByLabel(space)
  }

  predicate Mentioned(keys: seq<Id>, space: seq<Hypothesis>, m: string) {
    exists k :: k in keys && Names(space, k, m)
  }

  /** d holds the mass of exactly the mechanisms the posterior mentions. */
  ghost predicate IsMarginal(d: Dict, posterior: Dict, space: seq<Hypothesis>) {
    && d.Valid()
    && (forall m :: m in d.at <==> Mentioned(posterior.keys, space, m))
    && forall m :: m in d.at ==> d.at[m] == MassOf(posterior, space, m)
  }

  ghost predicate Partial(d: Dict, keys: seq<Id>, posterior: Dict, space: seq<Hypothesis>) {
    && (forall m :: m in d.at <==> Mentioned(keys, space, m))
    && forall m :: At(d.at, m) == SumOf(keys, Share(posterior, space, m))
  }

  method MarginalOverMechanism(posterior: Dict, space: seq<Hypothesis>) returns (r: Result<Dict, DiagnosisError>)
    requires posterior.Valid()
    ensures r.Ok? <==> Known(posterior, space)
    ensures r.Err? ==> r.error == UnknownLabel
    ensures r.Ok? ==> IsMarginal(r.value, posterior, space)
  {
    hide ByLabel, Share, Partial, IsMarginal;
    var byLabel := ByLabel(space);
    var out := Dict([], map[]);
    NothingYet(posterior, space);
    for i := 0 to |posterior.keys|
      invariant out.Valid() && Partial(out, posterior.keys[..i], posterior, space)
      invariant forall k :: k in posterior.keys[..i] ==> k in ByLabel(space)
    {
      var name := posterior.keys[i];
      assert posterior.keys[..i + 1] == posterior.keys[..i] + [name];
      if name !in byLabel {
        return Err(UnknownLabel);
      }
      var m := byLabel[name].key;
      ghost var was := out;
      out := Added(out, m, At(posterior.at, name));
      Extend(was, out, i, m, posterior, space);
    }
    assert posterior.keys[..|posterior.keys|] == posterior.keys;
    AllSeen(out, posterior, space);
    r := Ok(out);
  }

  /** d with x more for m. */
  function Added(d: Dict, m: Id, x: real): (r: Dict)
    requires d.Valid()
    ensures r.Valid()
  {
    Dict(if m in d.at then d.keys else d.keys + [m], d.at[m := At(d.at, m) + x])
  }

  lemma NothingYet(posterior: Dict, space: seq<Hypothesis>)
    ensures Partial(Dict([], map[]), [], posterior, space)
  {
  }

  lemma AllSeen(d: Dict, posterior: Dict, space: seq<Hypothesis>)
    requires d.Valid() && Partial(d, posterior.keys, posterior, space)
    ensures IsMarginal(d, posterior, space)
  {
    forall m | m in d.at
      ensures d.at[m] == MassOf(posterior, space, m)
    {
      assert At(d.at, m) == d.at[m];
    }
  }

  lemma Extend(was: Dict, now: Dict, i: nat, m: string, posterior: Dict, space: seq<Hypothesis>)
    requires i < |posterior.keys| && Partial(was, posterior.keys[..i], posterior, space)
    requires Names(space, posterior.keys[i], m)
    requires now.at == was.at[m := At(was.at, m) + At(posterior.at, posterior.keys[i])]
    ensures Partial(now, posterior.keys[..i + 1], posterior, space)
  {
    hide ByLabel;
    var keys, k := posterior.keys[..i], posterior.keys[i];
    assert posterior.keys[..i + 1] == keys + [k];
    forall n
      ensures At(now.at, n) == SumOf(keys + [k], Share(posterior, space, n))
    {
      SumOfSnoc(posterior.keys, i, Share(posterior, space, n));
    }
    forall n
      ensures n in now.at <==> Mentioned(keys + [k], space, n)
    {
      assert k in keys + [k];
      if Mentioned(keys, space, n) {
        var j :| j in keys && Names(space, j, n);
        assert j in keys + [k];
      }
    }
  }

  lemma {:induction false} SumOfSingle(keys: seq<Id>, k: Id, f: Id -> real)
    requires Distinct(keys) && k in keys && forall j :: j in keys && j != k ==> f(j) == 0.0
    ensures SumOf(keys, f) == f(k)
  {
    assert Distinct(keys[1..]);
    if keys[0] == k {
      SumZeros(keys[1..], f);
    } else {
      SumOfSingle(keys[1..], k, f);
    }
  }

  function SharesOf(posterior: Dict, space: seq<Hypothesis>): Id -> (Id -> real) {
    (m: Id) => Share(posterior, space, m)
  }

  function Shares(posterior: Dict, space: seq<Hypothesis>): Id -> (Id -> real) {
    (k: Id) => ShareAcross(posterior, space, k)
  }

  function ShareAcross(posterior: Dict, space: seq<Hypothesis>, k: Id): Id -> real {
    (m: Id) => Share(posterior, space, m)(k)
  }

  lemma ShareValue(posterior: Dict, space: seq<Hypothesis>, m: string, k: Id)
    ensures Share(posterior, space, m)(k) == ShareAcross(posterior, space, k)(m)
    ensures ShareAcross(posterior, space, k)(m) == if Names(space, k, m) then At(posterior.at, k) else 0.0
  {
    assert Share(posterior, space, m)(k) == if Names(space, k, m) then At(posterior.at, k) else 0.0;
  }

  /** Summing severities out keeps the total mass. */
  lemma MarginalKeepsMass(d: Dict, posterior: Dict, space: seq<Hypothesis>)
    requires posterior.Valid() && Known(posterior, space) && IsMarginal(d, posterior, space)
    ensures Mass(d) == Mass(posterior)
  {
    hide ByLabel;
    forall k | k in posterior.keys
      ensures Values(posterior)(k) == SumOf(d.keys, ShareAcross(posterior, space, k))
    {
      var m := ByLabel(space)[k].key;
      assert Names(space, k, m) && m in d.at;
      assert m in d.keys;
      forall j | j in d.keys && j != m
        ensures ShareAcross(posterior, space, k)(j) == 0.0
      {
        ShareValue(posterior, space, j, k);
        assert !Names(space, k, j);
      }
      ShareValue(posterior, space, m, k);
      SumOfSingle(d.keys, m, ShareAcross(posterior, space, k));
    }
    SumSwap(d.keys, posterior.keys, SharesOf(posterior, space), Shares(posterior, space), Values(d), Values(posterior));
  }

  // ----- the committed mechanism

  /** The most probable key, the first of the sequence among equals. */
  function Best(keys: seq<Id>, d: Dict): Id
    requires keys != []
  {
    if |keys| == 1 then keys[0]
    else
      var best, last := Best(keys[..|keys| - 1], d), keys[|keys| - 1];
      if At(d.at, last) > At(d.at, best) then last else best
  }

  /** k comes before j: more probable, or equally probable and earlier in the alphabet. */
  predicate Ahead(d: Dict, k: Id, j: Id) {
    At(d.at, j) < At(d.at, k) || (At(d.at, j) == At(d.at, k) && TextLeq(k, j))
  }

  lemma {:induction false} BestIsAhead(keys: seq<Id>, d: Dict)
    requires keys != [] && Ascending(keys, TextLeq)
    ensures Best(keys, d) in keys && forall j :: j in keys ==> Ahead(d, Best(keys, d), j)
  {
    TextOrder();
    hide TextLeq;
    assert forall k :: TextLeq(k, k);
    if |keys| > 1 {
      var init, last := keys[..|keys| - 1], keys[|keys| - 1];
      BestIsAhead(init, d);
      assert keys == init + [last];
      var i :| 0 <= i < |init| && init[i] == Best(init, d);
      assert TextLeq(keys[i], last);
    }
  }

  lemma SortedKeys(keys: seq<Id>)
    ensures Ascending(Sort(keys, TextLeq), TextLeq)
    ensures forall k :: k in Sort(keys, TextLeq) <==> k in keys
    ensures Sort(keys, TextLeq) == [] <==> keys == []
  {
    TextOrder();
    SortAscending(keys, TextLeq);
    SortPermutes(keys, TextLeq);
    assert forall k :: k in Sort(keys, TextLeq) <==> k in multiset(Sort(keys, TextLeq));
    assert forall k :: k in keys <==> k in multiset(keys);
  }

  /**
   Abstains to the reserved unknown exactly when no mechanism reaches the floor; otherwise names the
   most probable mechanism, the alphabetically first among equals.
   */
  method Committed(posterior: Dict, space: seq<Hypothesis>, floor: real)
    returns (r: Result<(string, bool), DiagnosisError>)
    requires posterior.Valid()
    ensures r == Err(UnknownLabel) <==> !Known(posterior, space)
    ensures r == Err(EmptyPosterior) <==> posterior.keys == []
    ensures r.Ok? ==>
              var (name, abstained) := r.value;
              && (abstained <==> forall m :: Mentioned(posterior.keys, space, m) ==>
                   MassOf(posterior, space, m) < floor)
              && (abstained ==> name == UNKNOWN)
              && (!abstained ==>
                    && Mentioned(posterior.keys, space, name) && MassOf(posterior, space, name) >= floor
                    && forall m :: Mentioned(posterior.keys, space, m) ==>
                         || MassOf(posterior, space, m) < MassOf(posterior, space, name)
                         || (MassOf(posterior, space, m) == MassOf(posterior, space, name) && TextLeq(name, m)))
  {
    hide ByLabel, MassOf, TextLeq, Sort;
    var marginal := MarginalOverMechanism(posterior, space);
    if marginal.Err? {
      return Err(UnknownLabel);
    }
    var d := marginal.value;
    var keys := Sort(d.keys, TextLeq);
    SortedKeys(d.keys);
    NoMechanisms(d, posterior, space);
    if keys == [] {
      return Err(EmptyPosterior);
    }
    var best := Best(keys, d);
    BestIsAhead(keys, d);
    assert forall m :: m in keys <==> m in d.at;
    if At(d.at, best) < floor {
      r := Ok((UNKNOWN, true));
    } else {
      assert Mentioned(posterior.keys, space, best);
      r := Ok((best, false));
    }
  }

  lemma NoMechanisms(d: Dict, posterior: Dict, space: seq<Hypothesis>)
    requires Known(posterior, space) && IsMarginal(d, posterior, space)
    ensures d.keys == [] <==> posterior.keys == []
  {
    hide ByLabel, MassOf;
    if posterior.keys != [] {
      var k := posterior.keys[0];
      assert k in posterior.keys && Names(space, k, ByLabel(space)[k].key);
      assert ByLabel(space)[k].key in d.at;
    }
    if d.keys != [] {
      assert d.keys[0] in d.at;
      assert Mentioned(posterior.keys, space, d.keys[0]);
    }
  }
}
