/** Admission of an incident corpus: uniqueness, coverage floors and the verdict. */
module Admission {

  type Id = string

  /** The grouping fields of one eligible dossier. */
  datatype Incident = Incident(
    incident: Id,
    root: Id,
    session: Id,
    independence: Id,
    lineage: Id,
    hardware: Id,
    family: Id,
    domain: Id,
    fault: Id)

  type Corpus = seq<Incident>
  type Field = Incident -> Id

  datatype Failure =
    | DuplicateRoots | ReusedIndependence | SessionClaimsMany | ReusedLineage | HardwareInManyFamilies
    | Other(text: string)

  datatype Verdict = Invalid | BlockedRights | KillConstruct | PassPilot | BlockedAcquisition

  // The frozen floors.
  const MIN_INCIDENTS: nat := 30
  const MIN_FAMILIES: nat := 3
  const MIN_HARDWARE: nat := 6
  const MIN_HARDWARE_PER_FAMILY: nat := 2
  const MIN_FAULTS: nat := 3
  const MIN_PER_FAMILY: nat := 6
  const MIN_PER_FAULT: nat := 6
  const MIN_PER_HARDWARE: nat := 3
  const MIN_FAULTS_PER_FAMILY: nat := 2
  const MIN_FAMILIES_PER_FAULT: nat := 2
  const MIN_HARDWARE_PER_FAULT: nat := 2

  function RootOf(): Field { (i: Incident) => i.root }
  function SessionOf(): Field { (i: Incident) => i.session }
  function IndependenceOf(): Field { (i: Incident) => i.independence }
  function LineageOf(): Field { (i: Incident) => i.lineage }
  function HardwareOf(): Field { (i: Incident) => i.hardware }
  function FamilyOf(): Field { (i: Incident) => i.family }
  function FaultOf(): Field { (i: Incident) => i.fault }

  // ----- counters and groupings

  function Keys(e: Corpus, f: Field): set<Id> {
    set i | i in e :: f(i)
  }

  function Count(e: Corpus, f: Field, k: Id): nat {
    if e == [] then 0 else Count(e[..|e| - 1], f, k) + (if f(e[|e| - 1]) == k then 1 else 0)
  }

  /** The g-values of the incidents whose f-value is k. */
  function Related<V>(e: Corpus, f: Field, k: Id, g: Incident -> V): set<V> {
    set i | i in e && f(i) == k :: g(i)
  }

  ghost predicate IsCounter(m: map<Id, nat>, e: Corpus, f: Field) {
    m.Keys == Keys(e, f) && forall k :: k in m ==> m[k] == Count(e, f, k)
  }

  ghost predicate IsGrouping<V>(m: map<Id, set<V>>, e: Corpus, f: Field, g: Incident -> V) {
    m.Keys == Keys(e, f) && forall k :: k in m ==> m[k] == Related(e, f, k, g)
  }

  function Bump(m: map<Id, nat>, k: Id): map<Id, nat> {
    m[k := (if k in m then m[k] else 0) + 1]
  }

  function AddTo<V>(m: map<Id, set<V>>, k: Id, v: V): map<Id, set<V>> {
    m[k := (if k in m then m[k] else {}) + {v}]
  }

  lemma {:induction false} CountZero(e: Corpus, f: Field, k: Id)
    requires k !in Keys(e, f)
    ensures Count(e, f, k) == 0
  {
    if e != [] {
      assert e[|e| - 1] in e;
      CountZero(e[..|e| - 1], f, k);
    }
  }

  lemma Bumped(m: map<Id, nat>, e: Corpus, f: Field, i: Incident)
    requires IsCounter(m, e, f)
    ensures IsCounter(Bump(m, f(i)), e + [i], f)
  {
    var now := Bump(m, f(i));
    assert (e + [i])[..|e|] == e;
    KeysOfMore(e, f, i);
    if f(i) !in m {
      CountZero(e, f, f(i));
    }
  }

  lemma KeysOfMore(e: Corpus, f: Field, i: Incident)
    ensures Keys(e + [i], f) == Keys(e, f) + {f(i)}
  {
    assert i in e + [i];
    forall k | k in Keys(e, f)
      ensures k in Keys(e + [i], f)
    {
      var j :| j in e && f(j) == k;
      assert j in e + [i];
    }
  }

  lemma Added<V>(m: map<Id, set<V>>, e: Corpus, f: Field, g: Incident -> V, i: Incident)
    requires IsGrouping(m, e, f, g)
    ensures IsGrouping(AddTo(m, f(i), g(i)), e + [i], f, g)
  {
    var now := AddTo(m, f(i), g(i));
    KeysOfMore(e, f, i);
    forall k | k in now
      ensures now[k] == Related(e + [i], f, k, g)
    {
      RelatedOfMore(e, f, k, g, i);
      if k !in m {
        assert Related(e, f, k, g) == {};
      }
    }
  }

  lemma RelatedOfMore<V>(e: Corpus, f: Field, k: Id, g: Incident -> V, i: Incident)
    ensures Related(e + [i], f, k, g) == Related(e, f, k, g) + (if f(i) == k then {g(i)} else {})
  {
    assert i in e + [i];
    forall v | v in Related(e, f, k, g)
      ensures v in Related(e + [i], f, k, g)
    {
      var j :| j in e && f(j) == k && g(j) == v;
      assert j in e + [i];
    }
  }

  predicate AllAtLeast(m: map<Id, nat>, floor: nat) {
    m != map[] && forall k :: k in m ==> m[k] >= floor
  }

  predicate AllSizesAtLeast<V>(m: map<Id, set<V>>, floor: nat) {
    m != map[] && forall k :: k in m ==> |m[k]| >= floor
  }

  // ----- uniqueness

  /** All values of a field differ. */
  ghost predicate AllDiffer(e: Corpus, f: Field) {
    forall i, j :: 0 <= i < j < |e| ==> f(e[i]) != f(e[j])
  }

  /** Incidents that agree on f agree on g. */
  ghost predicate Determines<V>(e: Corpus, f: Field, g: Incident -> V) {
    forall i, j :: i in e && j in e && f(i) == f(j) ==> g(i) == g(j)
  }

  function Assignment(): Incident -> (Id, Id) {
    (i: Incident) => (i.family, i.domain)
  }

  ghost predicate Unique(e: Corpus) {
    && AllDiffer(e, RootOf()) && AllDiffer(e, IndependenceOf()) && AllDiffer(e, LineageOf())
    && Determines(e, SessionOf(), IndependenceOf()) && Determines(e, HardwareOf(), Assignment())
  }

  method Repeats(e: Corpus, f: Field) returns (r: bool)
    ensures r <==> !AllDiffer(e, f)
  {
    var seen: set<Id> := {};
    for i := 0 to |e|
      invariant forall k :: k in seen <==> exists j :: 0 <= j < i && f(e[j]) == k
      invariant forall p, q :: 0 <= p < q < i ==> f(e[p]) != f(e[q])
    {
      if f(e[i]) in seen {
        return true;
      }
      seen := seen + {f(e[i])};
    }
    r := false;
  }

  lemma Singletons<V>(m: map<Id, set<V>>, e: Corpus, f: Field, g: Incident -> V)
    requires IsGrouping(m, e, f, g)
    ensures (forall k :: k in m ==> |m[k]| == 1) <==> Determines(e, f, g)
  {
    if forall k :: k in m ==> |m[k]| == 1 {
      forall i, j | i in e && j in e && f(i) == f(j)
        ensures g(i) == g(j)
      {
        assert f(i) in m && g(i) in m[f(i)] && g(j) in m[f(i)];
        OneElement(m[f(i)], g(i), g(j));
      }
    }
    if Determines(e, f, g) {
      forall k | k in m
        ensures |m[k]| == 1
      {
        var i :| i in e && f(i) == k;
        assert forall v :: v in m[k] ==> v == g(i);
        assert m[k] == {g(i)};
      }
    }
  }

  lemma OneElement<V>(s: set<V>, a: V, b: V)
    requires |s| == 1 && a in s && b in s
    ensures a == b
  {
    assert |s - {a}| == 0;
    assert b !in s - {a};
  }

  /** The uniqueness failures of the eligible dossiers: none exactly when the corpus is unique. */
  method UniquenessFailures(e: Corpus) returns (failures: seq<Failure>)
    ensures failures == [] <==> Unique(e)
  {
    hide AllDiffer, Determines, IsGrouping;
    failures := [];
    var roots := Repeats(e, RootOf());
    if roots {
      failures := failures + [DuplicateRoots];
    }
    var groups := Repeats(e, IndependenceOf());
    if groups {
      failures := failures + [ReusedIndependence];
    }
    var sessions := Group(e, SessionOf(), IndependenceOf());
    Singletons(sessions, e, SessionOf(), IndependenceOf());
    if exists k :: k in sessions && |sessions[k]| != 1 {
      failures := failures + [SessionClaimsMany];
    }
    var lineages := Repeats(e, LineageOf());
    if lineages {
      failures := failures + [ReusedLineage];
    }
    var hardware := Group(e, HardwareOf(), Assignment());
    Singletons(hardware, e, HardwareOf(), Assignment());
    if exists k :: k in hardware && |hardware[k]| != 1 {
      failures := failures + [HardwareInManyFamilies];
    }
  }

  method Group<V>(e: Corpus, f: Field, g: Incident -> V) returns (m: map<Id, set<V>>)
    ensures IsGrouping(m, e, f, g)
  {
    m := map[];
    for i := 0 to |e|
      invariant IsGrouping(m, e[..i], f, g)
    {
      Added(m, e[..i], f, g, e[i]);
      assert e[..i + 1] == e[..i] + [e[i]];
      m := AddTo(m, f(e[i]), g(e[i]));
    }
    assert e[..|e|] == e;
  }

  // ----- coverage

  /** Every value of f occurs at least `floor` times. */
  ghost predicate EachOccurs(e: Corpus, f: Field, floor: nat) {
    forall k :: k in Keys(e, f) ==> Count(e, f, k) >= floor
  }

  /** No value of f covers more than half of the corpus. */
  ghost predicate NoMajority(e: Corpus, f: Field) {
    forall k :: k in Keys(e, f) ==> 2 * Count(e, f, k) <= |e|
  }

  /** Every value of f meets at least `floor` values of g. */
  ghost predicate EachMeets(e: Corpus, f: Field, g: Field, floor: nat) {
    forall k :: k in Keys(e, f) ==> |Related(e, f, k, g)| >= floor
  }

  function Domains(e: Corpus): set<Id> {
    set i | i in e :: i.domain
  }

  /** The conjunctive coverage floors; `splits` counts the verified split locks. */
  ghost predicate Covered(e: Corpus, required: set<Id>, splits: nat) {
    && |e| >= MIN_INCIDENTS
    && |Keys(e, FamilyOf())| >= MIN_FAMILIES && |Keys(e, HardwareOf())| >= MIN_HARDWARE
    && |Keys(e, FaultOf())| >= MIN_FAULTS
    && EachOccurs(e, FamilyOf(), MIN_PER_FAMILY) && EachOccurs(e, FaultOf(), MIN_PER_FAULT)
    && EachOccurs(e, HardwareOf(), MIN_PER_HARDWARE)
    && EachMeets(e, FamilyOf(), HardwareOf(), MIN_HARDWARE_PER_FAMILY)
    && NoMajority(e, FamilyOf()) && NoMajority(e, FaultOf())
    && EachMeets(e, FamilyOf(), FaultOf(), MIN_FAULTS_PER_FAMILY)
    && EachMeets(e, FaultOf(), HardwareOf(), MIN_HARDWARE_PER_FAULT)
    && EachMeets(e, FaultOf(), FamilyOf(), MIN_FAMILIES_PER_FAULT)
    && required <= Domains(e) && splits == 3
  }

  method Tally(e: Corpus, f: Field) returns (m: map<Id, nat>)
    ensures IsCounter(m, e, f)
  {
    m := map[];
    for i := 0 to |e|
      invariant IsCounter(m, e[..i], f)
    {
      Bumped(m, e[..i], f, e[i]);
      assert e[..i + 1] == e[..i] + [e[i]];
      m := Bump(m, f(e[i]));
    }
    assert e[..|e|] == e;
  }

  lemma CounterFacts(m: map<Id, nat>, e: Corpus, f: Field, floor: nat)
    requires IsCounter(m, e, f) && e != []
    ensures |m| == |Keys(e, f)|
    ensures AllAtLeast(m, floor) <==> EachOccurs(e, f, floor)
    ensures (forall k :: k in m ==> 2 * m[k] <= |e|) <==> NoMajority(e, f)
  {
    assert |m.Keys| == |m|;
    assert f(e[0]) in m.Keys;
  }

  lemma GroupingFacts(m: map<Id, set<Id>>, e: Corpus, f: Field, g: Field, floor: nat)
    requires IsGrouping(m, e, f, g) && e != []
    ensures AllSizesAtLeast(m, floor) <==> EachMeets(e, f, g, floor)
  {
    assert f(e[0]) in m.Keys;
  }

  /** The coverage checks, from counters and grouped sets filled in one pass. */
  method CoveragePassed(e: Corpus, required: set<Id>, splits: nat) returns (passed: bool)
    ensures passed <==> Covered(e, required, splits)
  {
    hide IsCounter, IsGrouping, EachOccurs, EachMeets, NoMajority, AllAtLeast, AllSizesAtLeast, Keys, Domains;
    var families := Tally(e, FamilyOf());
    var identities := Tally(e, HardwareOf());
    var faults := Tally(e, FaultOf());
    var identitiesByFamily, faultsByFamily, identitiesByFault, familiesByFault := GroupAll(e);
    if |e| == 0 {
      return false;
    }
    CounterFacts(families, e, FamilyOf(), MIN_PER_FAMILY);
    CounterFacts(identities, e, HardwareOf(), MIN_PER_HARDWARE);
    CounterFacts(faults, e, FaultOf(), MIN_PER_FAULT);
    GroupingFacts(identitiesByFamily, e, FamilyOf(), HardwareOf(), MIN_HARDWARE_PER_FAMILY);
    GroupingFacts(faultsByFamily, e, FamilyOf(), FaultOf(), MIN_FAULTS_PER_FAMILY);
    GroupingFacts(identitiesByFault, e, FaultOf(), HardwareOf(), MIN_HARDWARE_PER_FAULT);
    GroupingFacts(familiesByFault, e, FaultOf(), FamilyOf(), MIN_FAMILIES_PER_FAULT);
    var share :=
      && (forall k :: k in families ==> 2 * families[k] <= |e|)
      && (forall k :: k in faults ==> 2 * faults[k] <= |e|);
    passed :=
      && |e| >= MIN_INCIDENTS
      && |families| >= MIN_FAMILIES && |identities| >= MIN_HARDWARE && |faults| >= MIN_FAULTS
      && AllAtLeast(families, MIN_PER_FAMILY) && AllAtLeast(faults, MIN_PER_FAULT)
      && AllAtLeast(identities, MIN_PER_HARDWARE)
      && AllSizesAtLeast(identitiesByFamily, MIN_HARDWARE_PER_FAMILY)
      && share
      && AllSizesAtLeast(faultsByFamily, MIN_FAULTS_PER_FAMILY)
      && AllSizesAtLeast(identitiesByFault, MIN_HARDWARE_PER_FAULT)
      && AllSizesAtLeast(familiesByFault, MIN_FAMILIES_PER_FAULT)
      && required <= Domains(e) && splits == 3;
  }

  method GroupAll(e: Corpus)
    returns (identitiesByFamily: map<Id, set<Id>>, faultsByFamily: map<Id, set<Id>>,
             identitiesByFault: map<Id, set<Id>>, familiesByFault: map<Id, set<Id>>)
    ensures IsGrouping(identitiesByFamily, e, FamilyOf(), HardwareOf())
    ensures IsGrouping(faultsByFamily, e, FamilyOf(), FaultOf())
    ensures IsGrouping(identitiesByFault, e, FaultOf(), HardwareOf())
    ensures IsGrouping(familiesByFault, e, FaultOf(), FamilyOf())
  {
    hide IsGrouping, AddTo;
    identitiesByFamily, faultsByFamily, identitiesByFault, familiesByFault := map[], map[], map[], map[];
    EmptyGrouping(FamilyOf(), HardwareOf());
    EmptyGrouping(FamilyOf(), FaultOf());
    EmptyGrouping(FaultOf(), HardwareOf());
    EmptyGrouping(FaultOf(), FamilyOf());
    for i := 0 to |e|
      invariant IsGrouping(identitiesByFamily, e[..i], FamilyOf(), HardwareOf())
      invariant IsGrouping(faultsByFamily, e[..i], FamilyOf(), FaultOf())
      invariant IsGrouping(identitiesByFault, e[..i], FaultOf(), HardwareOf())
      invariant IsGrouping(familiesByFault, e[..i], FaultOf(), FamilyOf())
    {
      var item := e[i];
      Added(identitiesByFamily, e[..i], FamilyOf(), HardwareOf(), item);
      Added(faultsByFamily, e[..i], FamilyOf(), FaultOf(), item);
      Added(identitiesByFault, e[..i], FaultOf(), HardwareOf(), item);
      Added(familiesByFault, e[..i], FaultOf(), FamilyOf(), item);
      assert e[..i + 1] == e[..i] + [item];
      identitiesByFamily := AddTo(identitiesByFamily, item.family, item.hardware);
      faultsByFamily := AddTo(faultsByFamily, item.family, item.fault);
      identitiesByFault := AddTo(identitiesByFault, item.fault, item.hardware);
      familiesByFault := AddTo(familiesByFault, item.fault, item.family);
    }
    assert e[..|e|] == e;
  }

  lemma EmptyGrouping(f: Field, g: Field)
    ensures IsGrouping(map[], [], f, g)
  {
  }

  // ----- the floors in numbers

  /** The places of the incidents whose f-value is k. */
  function Places(e: Corpus, f: Field, k: Id): set<int> {
    set i | 0 <= i < |e| && f(e[i]) == k
  }

  lemma {:induction false} CountIsPlaces(e: Corpus, f: Field, k: Id)
    ensures Count(e, f, k) == |Places(e, f, k)|
  {
    if e != [] {
      var n := |e| - 1;
      CountIsPlaces(e[..n], f, k);
      assert Places(e[..n], f, k) == Places(e, f, k) - {n};
      assert Places(e, f, k) == Places(e[..n], f, k) + (if f(e[n]) == k then {n} else {});
    }
  }

  /** Every value of f occurs at least so often and covers at most half of the corpus, counted by place. */
  lemma OccurrenceSpelled(e: Corpus, f: Field, floor: nat)
    ensures EachOccurs(e, f, floor) <==> forall i :: i in e ==> |Places(e, f, f(i))| >= floor
    ensures NoMajority(e, f) <==> forall i :: i in e ==> 2 * |Places(e, f, f(i))| <= |e|
  {
    hide Places, Count;
    forall k
      ensures Count(e, f, k) == |Places(e, f, k)|
    {
      CountIsPlaces(e, f, k);
    }
    assert forall i :: i in e ==> f(i) in Keys(e, f);
  }

  lemma MeetingSpelled(e: Corpus, f: Field, g: Field, floor: nat)
    ensures EachMeets(e, f, g, floor) <==> forall i :: i in e ==> |Related(e, f, f(i), g)| >= floor
  {
    assert forall i :: i in e ==> f(i) in Keys(e, f);
  }

  /** The coverage floors, incident by incident. */
  lemma FloorsSpelled(e: Corpus, required: set<Id>, splits: nat)
    ensures Covered(e, required, splits) <==>
            && |e| >= 30 && splits == 3 && (forall d :: d in required ==> exists i :: i in e && i.domain == d)
            && |set i | i in e :: i.family| >= 3 && |set i | i in e :: i.hardware| >= 6
            && |set i | i in e :: i.fault| >= 3
            && forall i :: i in e ==> IncidentCovered(e, i)
  {
    hide *;
    OccurrenceSpelled(e, FamilyOf(), 6);
    OccurrenceSpelled(e, FaultOf(), 6);
    OccurrenceSpelled(e, HardwareOf(), 3);
    MeetingSpelled(e, FamilyOf(), HardwareOf(), 2);
    MeetingSpelled(e, FamilyOf(), FaultOf(), 2);
    MeetingSpelled(e, FaultOf(), HardwareOf(), 2);
    MeetingSpelled(e, FaultOf(), FamilyOf(), 2);
    forall i | i in e
      ensures IncidentCovered(e, i) <==>
              && 6 <= |Places(e, FamilyOf(), FamilyOf()(i))| && 2 * |Places(e, FamilyOf(), FamilyOf()(i))| <= |e|
              && 6 <= |Places(e, FaultOf(), FaultOf()(i))| && 2 * |Places(e, FaultOf(), FaultOf()(i))| <= |e|
              && 3 <= |Places(e, HardwareOf(), HardwareOf()(i))|
              && |Related(e, FamilyOf(), FamilyOf()(i), HardwareOf())| >= 2
              && |Related(e, FamilyOf(), FamilyOf()(i), FaultOf())| >= 2
              && |Related(e, FaultOf(), FaultOf()(i), HardwareOf())| >= 2
              && |Related(e, FaultOf(), FaultOf()(i), FamilyOf())| >= 2
    {
      CoveredIs(e, i);
    }
    CoverageParts(e, required, splits);
  }

  lemma CoverageParts(e: Corpus, required: set<Id>, splits: nat)
    ensures Covered(e, required, splits) <==>
            && |e| >= 30 && splits == 3 && (forall d :: d in required ==> exists i :: i in e && i.domain == d)
            && |set i | i in e :: i.family| >= 3 && |set i | i in e :: i.hardware| >= 6
            && |set i | i in e :: i.fault| >= 3
            && EachOccurs(e, FamilyOf(), 6) && EachOccurs(e, FaultOf(), 6) && EachOccurs(e, HardwareOf(), 3)
            && NoMajority(e, FamilyOf()) && NoMajority(e, FaultOf())
            && EachMeets(e, FamilyOf(), HardwareOf(), 2) && EachMeets(e, FamilyOf(), FaultOf(), 2)
            && EachMeets(e, FaultOf(), HardwareOf(), 2) && EachMeets(e, FaultOf(), FamilyOf(), 2)
  {
    KeysSpelled(e);
    DomainsSpelled(e, required);
    hide EachOccurs, NoMajority, EachMeets, Keys, Domains;
  }

  /**
   The incident's family has at least six incidents but no more than half of all, two hardware identities
   and two faults; its fault likewise, with two identities and two families; its hardware three incidents.
   */
  ghost predicate IncidentCovered(e: Corpus, i: Incident) {
    && 6 <= |set j | 0 <= j < |e| && e[j].family == i.family|
    && 2 * |set j | 0 <= j < |e| && e[j].family == i.family| <= |e|
    && 6 <= |set j | 0 <= j < |e| && e[j].fault == i.fault|
    && 2 * |set j | 0 <= j < |e| && e[j].fault == i.fault| <= |e|
    && 3 <= |set j | 0 <= j < |e| && e[j].hardware == i.hardware|
    && 2 <= |set j | j in e && j.family == i.family :: j.hardware|
    && 2 <= |set j | j in e && j.family == i.family :: j.fault|
    && 2 <= |set j | j in e && j.fault == i.fault :: j.hardware|
    && 2 <= |set j | j in e && j.fault == i.fault :: j.family|
  }

  lemma CoveredIs(e: Corpus, i: Incident)
    ensures IncidentCovered(e, i) <==>
            && 6 <= |Places(e, FamilyOf(), FamilyOf()(i))| && 2 * |Places(e, FamilyOf(), FamilyOf()(i))| <= |e|
            && 6 <= |Places(e, FaultOf(), FaultOf()(i))| && 2 * |Places(e, FaultOf(), FaultOf()(i))| <= |e|
            && 3 <= |Places(e, HardwareOf(), HardwareOf()(i))|
            && |Related(e, FamilyOf(), FamilyOf()(i), HardwareOf())| >= 2
            && |Related(e, FamilyOf(), FamilyOf()(i), FaultOf())| >= 2
            && |Related(e, FaultOf(), FaultOf()(i), HardwareOf())| >= 2
            && |Related(e, FaultOf(), FaultOf()(i), FamilyOf())| >= 2
  {
    assert Places(e, FamilyOf(), i.family) == set j | 0 <= j < |e| && e[j].family == i.family;
    assert Places(e, FaultOf(), i.fault) == set j | 0 <= j < |e| && e[j].fault == i.fault;
    assert Places(e, HardwareOf(), i.hardware) == set j | 0 <= j < |e| && e[j].hardware == i.hardware;
    assert Related(e, FamilyOf(), i.family, HardwareOf()) == set j | j in e && j.family == i.family :: j.hardware;
    assert Related(e, FamilyOf(), i.family, FaultOf()) == set j | j in e && j.family == i.family :: j.fault;
    assert Related(e, FaultOf(), i.fault, HardwareOf()) == set j | j in e && j.fault == i.fault :: j.hardware;
    assert Related(e, FaultOf(), i.fault, FamilyOf()) == set j | j in e && j.fault == i.fault :: j.family;
  }

  lemma KeysSpelled(e: Corpus)
    ensures Keys(e, FamilyOf()) == set i | i in e :: i.family
    ensures Keys(e, HardwareOf()) == set i | i in e :: i.hardware
    ensures Keys(e, FaultOf()) == set i | i in e :: i.fault
  {
  }

  lemma DomainsSpelled(e: Corpus, required: set<Id>)
    ensures required <= Domains(e) <==> forall d :: d in required ==> exists i :: i in e && i.domain == d
  {
  }

  // ----- verdict

  function Decide(integrity: bool, resources: bool, rights: bool, coverage: bool, shortcut: bool): Verdict {
    if !integrity || !resources then Invalid
    else if !rights then BlockedRights
    else if coverage && shortcut then KillConstruct
    else if coverage then PassPilot
    else BlockedAcquisition
  }

  /** What the rest of the audit found. */
  datatype Findings = Findings(
    integrity: seq<Failure>, rights: seq<string>, resources: seq<string>, shortcut: bool, required: set<Id>,
    splits: nat)

  /** The audit of an eligible corpus. */
  method Audit(e: Corpus, found: Findings) returns (v: Verdict)
    ensures v == PassPilot <==>
              && found.integrity == [] && Unique(e) && found.resources == [] && found.rights == []
              && Covered(e, found.required, found.splits) && !found.shortcut
    ensures v == Invalid <==> found.integrity != [] || !Unique(e) || found.resources != []
    ensures v == BlockedRights <==> v != Invalid && found.rights != []
    ensures v == KillConstruct <==>
              && v != Invalid && v != BlockedRights && Covered(e, found.required, found.splits) && found.shortcut
    ensures v == BlockedAcquisition <==>
              && v != Invalid && v != BlockedRights && !Covered(e, found.required, found.splits)
  {
    hide Unique, Covered;
    var unique := UniquenessFailures(e);
    var failures := found.integrity + unique;
    if found.resources != [] {
      failures := failures + [Other("resource ceiling exceeded")];
    }
    var coverage := CoveragePassed(e, found.required, found.splits);
    v := Decide(failures == [], found.resources == [], found.rights == [], coverage, found.shortcut);
  }

  // ----- what a passing corpus supports

  /** What is left when every incident with f-value k is held out. */
  function Without(e: Corpus, f: Field, k: Id): (r: Corpus)
    ensures forall i :: i in r <==> i in e && f(i) != k
  {
    if e == [] then []
    else Without(e[..|e| - 1], f, k) + (if f(e[|e| - 1]) != k then [e[|e| - 1]] else [])
  }

  lemma {:induction false} WithoutSize(e: Corpus, f: Field, k: Id)
    ensures |Without(e, f, k)| + Count(e, f, k) == |e|
  {
    if e != [] {
      WithoutSize(e[..|e| - 1], f, k);
    }
  }

  lemma AnotherElement(s: set<Id>, k: Id)
    requires |s| >= 2
    ensures exists v :: v in s && v != k
  {
    if forall v :: v in s ==> v == k {
      assert s <= {k};
      SubsetSize(s, {k});
    }
  }

  lemma SubsetSize(s: set<Id>, t: set<Id>)
    requires s <= t
    ensures |s| <= |t|
  {
    assert |t - s| == |t| - |s|;
  }

  /** If every g-value meets two f-values, holding out one f-value keeps every g-value. */
  lemma HoldoutKeeps(e: Corpus, f: Field, g: Field, k: Id)
    requires EachMeets(e, g, f, 2)
    ensures Keys(Without(e, f, k), g) == Keys(e, g)
  {
    forall v | v in Keys(e, g)
      ensures v in Keys(Without(e, f, k), g)
    {
      AnotherElement(Related(e, g, v, f), k);
      var other :| other in Related(e, g, v, f) && other != k;
      var i :| i in e && g(i) == v && f(i) == other;
      assert i in Without(e, f, k);
    }
  }

  /** If no f-value is a majority, holding one out keeps at least half of the corpus. */
  lemma HoldoutKeepsHalf(e: Corpus, f: Field, k: Id)
    requires NoMajority(e, f)
    ensures 2 * |Without(e, f, k)| >= |e|
  {
    WithoutSize(e, f, k);
    if k !in Keys(e, f) {
      CountZero(e, f, k);
    }
  }

  /**
   A corpus is unique exactly when any two incidents are apart: sessions, grouped by independence group, are
   then never shared at all.
   */
  lemma UniqueSpelled(e: Corpus)
    ensures Unique(e) <==> forall i, j :: 0 <= i < j < |e| ==> Apart(e[i], e[j])
  {
    if Unique(e) {
      SessionsDiffer(e);
      forall i, j | 0 <= i < j < |e|
        ensures Apart(e[i], e[j])
      {
        UniquePair(e, i, j);
      }
    }
    if forall i, j :: 0 <= i < j < |e| ==> Apart(e[i], e[j]) {
      AllApart(e);
    }
  }

  /** Other root, independence group, lineage and session, and not one hardware in two families or domains. */
  predicate Apart(x: Incident, y: Incident) {
    && x.root != y.root && x.independence != y.independence && x.lineage != y.lineage && x.session != y.session
    && (x.hardware == y.hardware ==> x.family == y.family && x.domain == y.domain)
  }

  lemma UniquePair(e: Corpus, i: nat, j: nat)
    requires Unique(e) && AllDiffer(e, SessionOf()) && i < j < |e|
    ensures Apart(e[i], e[j])
  {
    assert RootOf()(e[i]) != RootOf()(e[j]) && IndependenceOf()(e[i]) != IndependenceOf()(e[j]);
    assert LineageOf()(e[i]) != LineageOf()(e[j]) && SessionOf()(e[i]) != SessionOf()(e[j]);
    assert HardwareOf()(e[i]) == HardwareOf()(e[j]) ==> Assignment()(e[i]) == Assignment()(e[j]);
  }

  lemma AllApart(e: Corpus)
    requires forall i, j :: 0 <= i < j < |e| ==> Apart(e[i], e[j])
    ensures Unique(e)
  {
    forall x, y | x in e && y in e
      ensures x == y || Apart(x, y) || Apart(y, x)
    {
      var i :| 0 <= i < |e| && e[i] == x;
      var j :| 0 <= j < |e| && e[j] == y;
      assert i < j ==> Apart(e[i], e[j]);
      assert j < i ==> Apart(e[j], e[i]);
    }
  }

  /** No two incidents of a unique corpus share a session. */
  lemma SessionsDiffer(e: Corpus)
    requires Unique(e)
    ensures AllDiffer(e, SessionOf())
  {
    forall i, j | 0 <= i < j < |e|
      ensures SessionOf()(e[i]) != SessionOf()(e[j])
    {
      assert e[i] in e && e[j] in e;
      assert IndependenceOf()(e[i]) != IndependenceOf()(e[j]);
    }
  }

  /**
   A passing corpus has thirty incidents from pairwise different sessions, lineages and independence
   groups; hardware identities partition by family; and each kind of holdout keeps what it must.
   */
  lemma PassingCorpusSupportsHoldouts(e: Corpus, required: set<Id>, splits: nat)
    requires Unique(e) && Covered(e, required, splits)
    ensures |e| >= 30
    ensures AllDiffer(e, SessionOf()) && AllDiffer(e, LineageOf()) && AllDiffer(e, IndependenceOf())
    ensures forall i, j :: i in e && j in e && i.hardware == j.hardware ==> i.family == j.family && i.domain == j.domain
    ensures forall k :: && Keys(Without(e, FamilyOf(), k), FaultOf()) == Keys(e, FaultOf())
                        && 2 * |Without(e, FamilyOf(), k)| >= |e|
    ensures forall k :: Keys(Without(e, HardwareOf(), k), FaultOf()) == Keys(e, FaultOf()) &&
                        Keys(Without(e, HardwareOf(), k), FamilyOf()) == Keys(e, FamilyOf())
    ensures forall k :: && Keys(Without(e, FaultOf(), k), FamilyOf()) == Keys(e, FamilyOf())
                        && 2 * |Without(e, FaultOf(), k)| >= |e|
  {
    SessionsDiffer(e);
    HardwarePartitions(e);
    hide EachMeets, NoMajority, Keys, Without, AllDiffer, EachOccurs, Determines;
    forall k
      ensures Keys(Without(e, FamilyOf(), k), FaultOf()) == Keys(e, FaultOf()) && 2 * |Without(e, FamilyOf(), k)| >= |e|
    {
      HoldoutKeeps(e, FamilyOf(), FaultOf(), k);
      HoldoutKeepsHalf(e, FamilyOf(), k);
    }
    forall k
      ensures Keys(Without(e, HardwareOf(), k), FaultOf()) == Keys(e, FaultOf()) &&
              Keys(Without(e, HardwareOf(), k), FamilyOf()) == Keys(e, FamilyOf())
    {
      HoldoutKeeps(e, HardwareOf(), FaultOf(), k);
      HoldoutKeeps(e, HardwareOf(), FamilyOf(), k);
    }
    forall k
      ensures Keys(Without(e, FaultOf(), k), FamilyOf()) == Keys(e, FamilyOf()) && 2 * |Without(e, FaultOf(), k)| >= |e|
    {
      HoldoutKeeps(e, FaultOf(), FamilyOf(), k);
      HoldoutKeepsHalf(e, FaultOf(), k);
    }
  }

  lemma HardwarePartitions(e: Corpus)
    requires Unique(e)
    ensures forall i, j :: i in e && j in e && i.hardware == j.hardware ==> i.family == j.family && i.domain == j.domain
  {
    forall i, j | i in e && j in e && i.hardware == j.hardware
      ensures i.family == j.family && i.domain == j.domain
    {
      assert HardwareOf()(i) == HardwareOf()(j);
      assert Assignment()(i) == Assignment()(j);
    }
  }
}
