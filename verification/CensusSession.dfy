/**
 The census retrieval session: a leased window, a byte ceiling, a stop rule for failed candidates and
 a content-addressed store.  Times are seconds; URI splitting, hashing and the transport are inputs.
 */
module CensusSessions {
  import opened Prelude

  type Id = string
  type Bytes = string

  const CEILING_CPU_SECONDS: nat := 4 * 3600
  const CEILING_WALL_SECONDS: nat := 2 * 3600
  const CEILING_PEAK_MEMORY_BYTES: nat := 16 * 1024 * 1024 * 1024
  const CEILING_RETRIEVED_BYTES: nat := 1024 * 1024 * 1024
  const CEILING_PEAK_STAGED_BYTES: nat := 2 * 1024 * 1024 * 1024
  const MAX_REDIRECT_HOPS: nat := 5

  /** scope stands for the amendment, proposal, approval and signer fields together. */
  datatype Lease = Lease(
    sessionId: Id,
    scope: string,
    registrySha256: string,
    maxCpuSeconds: real,
    maxWallSeconds: real,
    maxPeakMemoryBytes: nat,
    maxRetrievedBytes: nat,
    maxPeakStagedBytes: nat,
    notBefore: int,
    expiresAt: int,
    leaseHash: string,
    signature: string)

  /** What the session takes from outside: hashing, URI splitting, frame parsing, signatures, identifiers. */
  datatype Env = Env(
    sha256: Bytes -> string,
    scheme: string -> string,
    host: string -> string,
    frame: Bytes -> Option<set<string>>,
    scope: string,
    signed: Lease -> bool,
    identifier: Id -> bool)

  datatype Record = Record(
    session: Id,
    candidate: Id,
    requestUri: string,
    finalUri: string,
    hops: seq<string>,
    retrievedAt: int,
    bytes: nat,
    sha256: string)

  datatype Response = Response(status: int, finalUri: string, hops: seq<string>, body: Bytes)

  datatype CensusError =
    | Scope | Registry | Ceiling | LeaseNotValid | Signature | InvalidFrame | StoreExists
    | FailedGate | NotHttps | OutsideFrame | Transport | BadStatus | TooManyHops | OverCeiling | InvalidRecord

  function InWindow(lease: Lease, moment: int): bool {
    lease.notBefore <= moment < lease.expiresAt
  }

  /** None, or why the lease is refused. */
  function VerifyLease(env: Env, lease: Lease, registry: Bytes, at: int): Option<CensusError> {
    if lease.scope != env.scope then Some(Scope)
    else if lease.registrySha256 != env.sha256(registry) then Some(Registry)
    else if
      || lease.maxCpuSeconds != CEILING_CPU_SECONDS as real || lease.maxWallSeconds != CEILING_WALL_SECONDS as real
      || lease.maxPeakMemoryBytes != CEILING_PEAK_MEMORY_BYTES || lease.maxRetrievedBytes != CEILING_RETRIEVED_BYTES
      || lease.maxPeakStagedBytes != CEILING_PEAK_STAGED_BYTES then Some(Ceiling)
    else if !InWindow(lease, at) then Some(LeaseNotValid)
    else if !env.signed(lease) then Some(Signature)
    else None
  }

  // ----- one session as a state machine

  datatype State = State(
    bytes: nat,
    failed: set<Id>,
    records: seq<Record>,
    blobs: map<string, Bytes>,
    manifest: seq<Record>)

  const EMPTY: State := State(0, {}, [], map[], [])

  /** A session's fixed part: the environment, the lease and the hosts of the frame. */
  datatype Setting = Setting(env: Env, lease: Lease, hosts: set<string>)

  /** A retrieval with the time it runs at and what the transport would answer; None when it raises. */
  datatype Request = Request(candidate: Id, uri: string, moment: int, response: Option<Response>)

  datatype Op = FailGate(candidate: Id) | Retrieve(request: Request)

  /** The refusal of a request, if any, before anything is stored. */
  function Refusal(g: Setting, s: State, q: Request): Option<CensusError> {
    if !InWindow(g.lease, q.moment) then Some(LeaseNotValid)
    else if q.candidate in s.failed then Some(FailedGate)
    else if g.env.scheme(q.uri) != "https" then Some(NotHttps)
    else if g.env.host(q.uri) !in g.hosts then Some(OutsideFrame)
    else if q.response.None? then Some(Transport)
    else if q.response.value.status != 200 then Some(BadStatus)
    else if |q.response.value.hops| > MAX_REDIRECT_HOPS then Some(TooManyHops)
    else if s.bytes + |q.response.value.body| > g.lease.maxRetrievedBytes then Some(OverCeiling)
    else None
  }

  /** The record's own field contract. */
  predicate WellTyped(g: Setting, q: Request) {
    g.env.identifier(q.candidate) && q.uri != "" && (q.response.Some? ==> q.response.value.finalUri != "")
  }

  function RecordOf(g: Setting, q: Request): Record
    requires q.response.Some?
  {
    var r := q.response.value;
    Record(g.lease.sessionId, q.candidate, q.uri, r.finalUri, r.hops, q.moment, |r.body|, g.env.sha256(r.body))
  }

  function Store(blobs: map<string, Bytes>, digest: string, body: Bytes): map<string, Bytes> {
    if digest in blobs then blobs else blobs[digest := body]
  }

  /** Bytes are counted and the body is stored before the record is built. */
  function Retrieved(g: Setting, s: State, q: Request): (State, Result<Record, CensusError>) {
    var refusal := Refusal(g, s, q);
    if refusal.Some? then (s, Err(refusal.value))
    else
      var body := q.response.value.body;
      var stored := s.(bytes := s.bytes + |body|, blobs := Store(s.blobs, g.env.sha256(body), body));
      if !WellTyped(g, q) then (stored, Err(InvalidRecord))
      else
        var record := RecordOf(g, q);
        (stored.(records := s.records + [record], manifest := s.manifest + [record]), Ok(record))
  }

  function Step(g: Setting, s: State, op: Op): State {
    match op
    case FailGate(candidate) => s.(failed := s.failed + {candidate})
    case Retrieve(request) => Retrieved(g, s, request).0
  }

  function Run(g: Setting, ops: seq<Op>): State {
    if ops == [] then EMPTY else Step(g, Run(g, ops[..|ops| - 1]), ops[|ops| - 1])
  }

  // ----- the session object over a shared disk

  datatype SessionStore = SessionStore(blobs: map<string, Bytes>, manifest: seq<Record>)

  class Disk {
    var registry: Bytes
    var stores: map<Id, SessionStore>

    constructor (registry: Bytes)
      ensures this.registry == registry && stores == map[]
    {
      this.registry := registry;
      stores := map[];
    }
  }

  class CensusSession {
    const setting: Setting
    const disk: Disk
    var retrievedBytes: nat
    var failed: set<Id>
    var records: seq<Record>

    ghost predicate Valid() reads this, disk {
      setting.lease.sessionId in disk.stores && Invariant(setting, Contents())
    }

    ghost function Contents(): State
      reads this, disk
      requires setting.lease.sessionId in disk.stores
    {
      var store := disk.stores[setting.lease.sessionId];
      State(retrievedBytes, failed, records, store.blobs, store.manifest)
    }

    constructor Opened(setting: Setting, disk: Disk)
      requires setting.lease.sessionId in disk.stores && disk.stores[setting.lease.sessionId] == SessionStore(map[], [])
      ensures this.setting == setting && this.disk == disk && Contents() == EMPTY && Valid()
    {
      this.setting := setting;
      this.disk := disk;
      retrievedBytes, failed, records := 0, {}, [];
    }

    method RecordFailedGate(candidate: Id)
      requires Valid()
      modifies this`failed
      ensures Valid() && Contents() == Step(setting, old(Contents()), FailGate(candidate))
    {
      StepKeepsInvariant(setting, Contents(), FailGate(candidate));
      failed := failed + {candidate};
    }

    /** Refusals change nothing; a success adds one record, one manifest line and the body's blob. */
    method Retrieve(q: Request) returns (r: Result<Record, CensusError>)
      requires Valid()
      modifies this, disk`stores
      ensures Valid() && (Contents(), r) == Retrieved(setting, old(Contents()), q)
      ensures r.Err? && r.error != InvalidRecord ==>
                disk.stores == old(disk.stores) && unchanged(this)
      ensures disk.stores.Keys == old(disk.stores).Keys
      ensures forall id :: id in disk.stores && id != setting.lease.sessionId ==>
              disk.stores[id] == old(disk.stores)[id]
    {
      hide Invariant;
      var lease := setting.lease;
      var env := setting.env;
      var id := lease.sessionId;
      StepKeepsInvariant(setting, Contents(), Op.Retrieve(q));
      if !InWindow(lease, q.moment) {
        return Err(LeaseNotValid);
      }
      if q.candidate in failed {
        return Err(FailedGate);
      }
      if env.scheme(q.uri) != "https" {
        return Err(NotHttps);
      }
      if env.host(q.uri) !in setting.hosts {
        return Err(OutsideFrame);
      }
      if q.response.None? {
        return Err(Transport);
      }
      var response := q.response.value;
      if response.status != 200 {
        return Err(BadStatus);
      }
      if |response.hops| > MAX_REDIRECT_HOPS {
        return Err(TooManyHops);
      }
      if retrievedBytes + |response.body| > lease.maxRetrievedBytes {
        return Err(OverCeiling);
      }
      retrievedBytes := retrievedBytes + |response.body|;
      var digest := env.sha256(response.body);
      var store := disk.stores[id];
      if digest !in store.blobs {
        store := store.(blobs := store.blobs[digest := response.body]);
        disk.stores := disk.stores[id := store];
      }
      if !WellTyped(setting, q) {
        return Err(InvalidRecord);
      }
      var record := Record(id, q.candidate, q.uri, response.finalUri, response.hops, q.moment, |response.body|, digest);
      records := records + [record];
      disk.stores := disk.stores[id := store.(manifest := store.manifest + [record])];
      r := Ok(record);
    }

    /** What an executed report is bound to. */
    method ExecutionBinding() returns (session: Id, leaseHash: string, registrySha256: string, count: nat, bytes: nat)
      requires Valid()
      ensures session == setting.lease.sessionId && leaseHash == setting.lease.leaseHash
      ensures registrySha256 == setting.lease.registrySha256
      ensures count == |disk.stores[setting.lease.sessionId].manifest|
      ensures Sum(Sizes(disk.stores[setting.lease.sessionId].manifest)) <= bytes <= setting.lease.maxRetrievedBytes
    {
      hide Sizes;
      return setting.lease.sessionId, setting.lease.leaseHash, setting.lease.registrySha256, |records|, retrievedBytes;
    }
  }

  /** The hosts a session opens with, or the refusal; an existing store is never reopened. */
  function Opening(env: Env, lease: Lease, registry: Bytes, stores: set<Id>, at: int)
    : Result<set<string>, CensusError> {
    var refusal := VerifyLease(env, lease, registry, at);
    if refusal.Some? then Err(refusal.value)
    else if env.frame(registry).None? then Err(InvalidFrame)
    else if lease.sessionId in stores then Err(StoreExists)
    else Ok(env.frame(registry).value)
  }

  method Open(env: Env, lease: Lease, disk: Disk, at: int) returns (r: Result<CensusSession, CensusError>)
    modifies disk`stores
    ensures r.Ok? <==> Opening(env, lease, disk.registry, old(disk.stores.Keys), at).Ok?
    ensures r.Err? ==>
              && disk.stores == old(disk.stores)
              && Err(r.error) == Opening(env, lease, disk.registry, old(disk.stores.Keys), at)
    ensures r.Ok? ==>
              && fresh(r.value) && r.value.Valid() && r.value.Contents() == EMPTY && r.value.disk == disk
              && r.value.setting == Setting(env, lease, env.frame(disk.registry).value)
              && lease.sessionId !in old(disk.stores) && lease.maxRetrievedBytes == CEILING_RETRIEVED_BYTES
              && disk.stores == old(disk.stores)[lease.sessionId := SessionStore(map[], [])]
  {
    var hosts := Opening(env, lease, disk.registry, disk.stores.Keys, at);
    if hosts.Err? {
      return Err(hosts.error);
    }
    disk.stores := disk.stores[lease.sessionId := SessionStore(map[], [])];
    var session := new CensusSession.Opened(Setting(env, lease, hosts.value), disk);
    r := Ok(session);
  }

  // ----- what every step keeps

  function Sizes(records: seq<Record>): (r: seq<int>)
    ensures |r| == |records|
  {
    seq(|records|, i requires 0 <= i < |records| => records[i].bytes)
  }

  lemma SizesSnoc(records: seq<Record>, r: Record)
    ensures Sum(Sizes(records + [r])) == Sum(Sizes(records)) + r.bytes
  {
    assert Sizes(records + [r]) == Sizes(records) + [r.bytes];
    SumSnoc(Sizes(records), r.bytes);
  }

  predicate RecordOk(g: Setting, blobs: map<string, Bytes>, r: Record) {
    && r.session == g.lease.sessionId && InWindow(g.lease, r.retrievedAt) && r.sha256 in blobs
    && g.env.scheme(r.requestUri) == "https" && g.env.host(r.requestUri) in g.hosts && |r.hops| <= MAX_REDIRECT_HOPS
  }

  /** The accounting, the manifest, the store's addressing and the window, in every reachable state. */
  ghost predicate Invariant(g: Setting, s: State) {
    && Sum(Sizes(s.records)) <= s.bytes <= g.lease.maxRetrievedBytes
    && s.manifest == s.records
    && (forall d :: d in s.blobs ==> g.env.sha256(s.blobs[d]) == d)
    && forall r :: r in s.records ==> RecordOk(g, s.blobs, r)
  }

  lemma StepKeepsInvariant(g: Setting, s: State, op: Op)
    requires Invariant(g, s)
    ensures Invariant(g, Step(g, s, op))
    ensures s.records <= Step(g, s, op).records && s.failed <= Step(g, s, op).failed
    ensures forall d :: d in s.blobs ==> d in Step(g, s, op).blobs && Step(g, s, op).blobs[d] == s.blobs[d]
  {
    hide Sizes;
    if op.Retrieve? && Refusal(g, s, op.request) == None && WellTyped(g, op.request) {
      SizesSnoc(s.records, RecordOf(g, op.request));
    }
  }

  /** The refusals decided before the transport is called. */
  predicate BeforeContact(e: CensusError) {
    e.LeaseNotValid? || e.FailedGate? || e.NotHttps? || e.OutsideFrame?
  }

  /** Window, stop rule, scheme and frame all let the request through to the transport. */
  predicate Contacts(g: Setting, s: State, q: Request) {
    && InWindow(g.lease, q.moment) && q.candidate !in s.failed
    && g.env.scheme(q.uri) == "https" && g.env.host(q.uri) in g.hosts
  }

  /**
   A request that does not reach the transport is refused alike whatever the transport would have
   answered; one that does is refused, if at all, for its answer.
   */
  lemma ContactExactly(g: Setting, s: State, q: Request)
    ensures !Contacts(g, s, q) <==> Refusal(g, s, q).Some? && BeforeContact(Refusal(g, s, q).value)
    ensures !Contacts(g, s, q) ==> forall r :: Refusal(g, s, q.(response := r)) == Refusal(g, s, q)
    ensures Contacts(g, s, q) ==> Refusal(g, s, q.(response := None)) == Some(CensusError.Transport)
  {
  }

  /**
   The byte ceiling refuses only after contact: the same request is refused for a body that does not
   fit and let through for an empty one, in every reachable state.
   */
  lemma CeilingNeedsResponse(g: Setting, ops: seq<Op>, q: Request)
    requires Refusal(g, Run(g, ops), q) == Some(OverCeiling)
    ensures Contacts(g, Run(g, ops), q)
    ensures var empty := q.response.value.(body := "");
            Refusal(g, Run(g, ops), q.(response := Some(empty))) == None
  {
    RunKeepsInvariant(g, ops, |ops|);
  }

  /** After redirects only the requested host has been held against the frame: any final URI is let through alike. */
  lemma FinalHostUnchecked(g: Setting, s: State, q: Request, finalUri: string)
    requires Retrieved(g, s, q).1.Ok? && finalUri != ""
    ensures var moved := q.(response := Some(q.response.value.(finalUri := finalUri)));
            && Retrieved(g, s, moved).1.Ok? && Retrieved(g, s, moved).1.value.finalUri == finalUri
            && Retrieved(g, s, moved).0.bytes == Retrieved(g, s, q).0.bytes
  {
  }

  // ----- whole runs

  /** Every reachable state of a session keeps the invariant; records, failed gates and blobs are never lost. */
  lemma {:induction false} RunKeepsInvariant(g: Setting, ops: seq<Op>, i: nat)
    requires i <= |ops|
    ensures Invariant(g, Run(g, ops))
    ensures Run(g, ops[..i]).records <= Run(g, ops).records && Run(g, ops[..i]).failed <= Run(g, ops).failed
    ensures forall d :: d in Run(g, ops[..i]).blobs ==>
            d in Run(g, ops).blobs && Run(g, ops).blobs[d] == Run(g, ops[..i]).blobs[d]
  {
    hide Invariant, Step;
    EmptyInvariant(g);
    if i == |ops| {
      assert ops[..i] == ops;
      if ops != [] {
        var init := ops[..|ops| - 1];
        RunKeepsInvariant(g, init, |init|);
        StepKeepsInvariant(g, Run(g, init), ops[|ops| - 1]);
      }
    } else {
      var init := ops[..|ops| - 1];
      assert init[..i] == ops[..i];
      RunKeepsInvariant(g, init, i);
      StepKeepsInvariant(g, Run(g, init), ops[|ops| - 1]);
    }
  }

  lemma EmptyInvariant(g: Setting)
    ensures Invariant(g, EMPTY)
  {
  }

  /** The bytes of the last operation if it was counted but left no record. */
  function SpoiledLast(g: Setting, s: State, op: Op): nat {
    if op.Retrieve? && Retrieved(g, s, op.request).1 == Err(InvalidRecord) then |op.request.response.value.body| else 0
  }

  /** Bytes counted for responses whose record could not be built. */
  function Spoiled(g: Setting, ops: seq<Op>): nat {
    if ops == [] then 0
    else Spoiled(g, ops[..|ops| - 1]) + SpoiledLast(g, Run(g, ops[..|ops| - 1]), ops[|ops| - 1])
  }

  /** Exact accounting: the counter is the recorded sizes plus the bytes of unrecordable responses. */
  lemma {:induction false} BytesExactly(g: Setting, ops: seq<Op>)
    ensures Run(g, ops).bytes == Sum(Sizes(Run(g, ops).records)) + Spoiled(g, ops)
  {
    hide Sizes;
    if ops == [] {
      assert Sizes([]) == [];
    } else {
      var init, op := ops[..|ops| - 1], ops[|ops| - 1];
      var s := Run(g, init);
      BytesExactly(g, init);
      if op.Retrieve? && Refusal(g, s, op.request) == None {
        SizesSnoc(s.records, RecordOf(g, op.request));
      }
    }
  }

  /** After a candidate's failed gate no record is ever made for it. */
  lemma {:induction false} FailedGateStops(g: Setting, ops: seq<Op>, i: nat)
    requires i < |ops| && ops[i].FailGate?
    ensures var before, after := Run(g, ops[..i + 1]).records, Run(g, ops).records;
            |before| <= |after| && forall r :: r in after[|before|..] ==> r.candidate != ops[i].candidate
    decreases |ops|
  {
    hide Invariant;
    var before := Run(g, ops[..i + 1]).records;
    RunKeepsInvariant(g, ops, i + 1);
    if i + 1 < |ops| {
      var init := ops[..|ops| - 1];
      assert init[..i + 1] == ops[..i + 1];
      FailedGateStops(g, init, i);
      FailedGateIsKept(g, init, i);
      var s, t := Run(g, init), Run(g, ops);
      assert t.records == s.records || t.records[|before|..] == s.records[|before|..] + [t.records[|t.records| - 1]];
    } else {
      assert ops[..i + 1] == ops;
    }
  }

  lemma FailedGateIsKept(g: Setting, ops: seq<Op>, i: nat)
    requires i < |ops| && ops[i].FailGate?
    ensures ops[i].candidate in Run(g, ops).failed
  {
    hide Invariant;
    RunKeepsInvariant(g, ops, i + 1);
    assert ops[..i + 1][..i] == ops[..i];
    assert Run(g, ops[..i + 1]) == Step(g, Run(g, ops[..i]), ops[i]);
  }

  /** Operation i is a retrieval whose body is counted and stored. */
  predicate Counted(g: Setting, ops: seq<Op>, i: nat)
    requires i < |ops|
  {
    ops[i].Retrieve? && Refusal(g, Run(g, ops[..i]), ops[i].request) == None
  }

  function BodyAt(g: Setting, ops: seq<Op>, i: nat): Bytes
    requires i < |ops| && Counted(g, ops, i)
  {
    ops[i].request.response.value.body
  }

  /** Every counted response whose record could not be built was empty. */
  ghost predicate NothingSpoiled(g: Setting, ops: seq<Op>) {
    forall i :: 0 <= i < |ops| && Counted(g, ops, i) && !WellTyped(g, ops[i].request) ==> BodyAt(g, ops, i) == ""
  }

  lemma NothingSpoiledSnoc(g: Setting, ops: seq<Op>)
    requires ops != []
    ensures var n := |ops| - 1;
            NothingSpoiled(g, ops) <==>
            NothingSpoiled(g, ops[..n]) && SpoiledLast(g, Run(g, ops[..n]), ops[n]) == 0
  {
    hide Run;
    var n := |ops| - 1;
    var init := ops[..n];
    forall i | 0 <= i < n
      ensures Counted(g, init, i) <==> Counted(g, ops, i)
      ensures Counted(g, ops, i) ==> BodyAt(g, init, i) == BodyAt(g, ops, i)
    {
      assert init[..i] == ops[..i] && init[i] == ops[i];
    }
    hide Refusal;
    LastSpoils(g, Run(g, init), ops[n]);
  }

  /** The last operation spoils bytes exactly when it is let through, ill typed and not empty. */
  lemma LastSpoils(g: Setting, s: State, op: Op)
    ensures SpoiledLast(g, s, op) != 0 <==>
            && op.Retrieve? && Refusal(g, s, op.request) == None
            && !WellTyped(g, op.request) && op.request.response.value.body != ""
  {
  }

  lemma {:induction false} SpoiledExactly(g: Setting, ops: seq<Op>)
    ensures Spoiled(g, ops) == 0 <==> NothingSpoiled(g, ops)
  {
    hide Run, SpoiledLast;
    if ops != [] {
      SpoiledExactly(g, ops[..|ops| - 1]);
      NothingSpoiledSnoc(g, ops);
      hide NothingSpoiled;
    }
  }

  /**
   The counter is the sum of the recorded sizes if and only if every counted response with an ill-typed
   request or final URI was empty; in particular when every request is well typed.
   */
  lemma WellTypedAccounting(g: Setting, ops: seq<Op>)
    ensures Run(g, ops).bytes == Sum(Sizes(Run(g, ops).records)) <==> NothingSpoiled(g, ops)
    ensures (forall op :: op in ops && op.Retrieve? ==> WellTyped(g, op.request)) ==>
              Spoiled(g, ops) == 0 && Run(g, ops).bytes == Sum(Sizes(Run(g, ops).records))
  {
    hide Sizes, Run, Refusal, WellTyped;
    BytesExactly(g, ops);
    SpoiledExactly(g, ops);
    if forall op :: op in ops && op.Retrieve? ==> WellTyped(g, op.request) {
      assert forall i :: 0 <= i < |ops| ==> ops[i] in ops;
      assert NothingSpoiled(g, ops);
    }
  }

  /** body is what some counted operation retrieved. */
  ghost predicate WasRetrieved(g: Setting, ops: seq<Op>, body: Bytes) {
    exists j :: 0 <= j < |ops| && Counted(g, ops, j) && BodyAt(g, ops, j) == body
  }

  lemma RetrievedBefore(g: Setting, ops: seq<Op>, n: nat, body: Bytes)
    requires n <= |ops| && WasRetrieved(g, ops[..n], body)
    ensures exists j :: 0 <= j < n && Counted(g, ops, j) && BodyAt(g, ops, j) == body
  {
    hide Refusal, Run;
    var j :| 0 <= j < n && Counted(g, ops[..n], j) && BodyAt(g, ops[..n], j) == body;
    assert ops[..n][..j] == ops[..j];
    assert Counted(g, ops, j);
  }

  /** Every blob of the store is the body of a counted retrieval. */
  lemma {:induction false} BlobsWereRetrieved(g: Setting, ops: seq<Op>)
    ensures forall d :: d in Run(g, ops).blobs ==> WasRetrieved(g, ops, Run(g, ops).blobs[d])
  {
    hide Refusal, WasRetrieved;
    if ops != [] {
      var n := |ops| - 1;
      var s := Run(g, ops[..n]);
      BlobsWereRetrieved(g, ops[..n]);
      forall d | d in Run(g, ops).blobs
        ensures WasRetrieved(g, ops, Run(g, ops).blobs[d])
      {
        if d in s.blobs {
          RetrievedBefore(g, ops, n, s.blobs[d]);
          var j :| 0 <= j < n && Counted(g, ops, j) && BodyAt(g, ops, j) == s.blobs[d];
          RetrievedAt(g, ops, j);
        } else {
          RetrievedAt(g, ops, n);
        }
      }
    }
  }

  lemma RetrievedAt(g: Setting, ops: seq<Op>, j: nat)
    requires j < |ops| && Counted(g, ops, j)
    ensures WasRetrieved(g, ops, BodyAt(g, ops, j))
  {
    hide Refusal, Run;
  }

  /** An earlier counted body differs from i's, has its digest, and is the one in the store. */
  ghost predicate ShadowedAt(g: Setting, ops: seq<Op>, i: nat, j: nat, stored: Bytes)
    requires j < i < |ops| && Counted(g, ops, i)
  {
    && Counted(g, ops, j) && BodyAt(g, ops, j) == stored && BodyAt(g, ops, j) != BodyAt(g, ops, i)
    && g.env.sha256(BodyAt(g, ops, j)) == g.env.sha256(BodyAt(g, ops, i))
  }

  /**
   Through the whole run the store holds every counted body under its digest, unless an earlier counted
   body with the same digest stands there.
   */
  lemma BodyStaysStored(g: Setting, ops: seq<Op>, i: nat)
    requires i < |ops| && Counted(g, ops, i)
    ensures var digest := g.env.sha256(BodyAt(g, ops, i));
            && digest in Run(g, ops).blobs
            && (|| Run(g, ops).blobs[digest] == BodyAt(g, ops, i)
                || exists j :: 0 <= j < i && ShadowedAt(g, ops, i, j, Run(g, ops).blobs[digest]))
  {
    hide Refusal, Invariant;
    var body := BodyAt(g, ops, i);
    var digest := g.env.sha256(body);
    var s := Run(g, ops[..i]);
    RunKeepsInvariant(g, ops, i + 1);
    StoredAt(g, ops, i);
    if digest in s.blobs && s.blobs[digest] != body {
      BlobsWereRetrieved(g, ops[..i]);
      RetrievedBefore(g, ops, i, s.blobs[digest]);
      var j :| 0 <= j < i && Counted(g, ops, j) && BodyAt(g, ops, j) == s.blobs[digest];
      BlobAddress(g, ops[..i], digest);
      assert ShadowedAt(g, ops, i, j, s.blobs[digest]);
    }
  }

  lemma StoredAt(g: Setting, ops: seq<Op>, i: nat)
    requires i < |ops| && Counted(g, ops, i)
    ensures var body := BodyAt(g, ops, i);
            Run(g, ops[..i + 1]).blobs == Store(Run(g, ops[..i]).blobs, g.env.sha256(body), body)
  {
    hide Refusal;
    assert ops[..i + 1][..i] == ops[..i];
    assert Run(g, ops[..i + 1]) == Step(g, Run(g, ops[..i]), ops[i]);
  }

  lemma BlobAddress(g: Setting, ops: seq<Op>, digest: string)
    requires digest in Run(g, ops).blobs
    ensures g.env.sha256(Run(g, ops).blobs[digest]) == digest
  {
    RunKeepsInvariant(g, ops, |ops|);
  }

  // ----- what the three disagreements with the prose look like

  /** A frame of one host, with one valid identifier and a constant digest. */
  function SmallFrame(): Setting {
    Setting(
      Env(b => "digest", u => "https", u => if u == "https://in" then "in" else "out", b => Some({"in"}), "scope",
          l => true, id => id == "candidate"),
      Lease("session", "scope", "digest", CEILING_CPU_SECONDS as real, CEILING_WALL_SECONDS as real,
            CEILING_PEAK_MEMORY_BYTES, CEILING_RETRIEVED_BYTES, CEILING_PEAK_STAGED_BYTES, 0, 1, "hash", "signature"),
      {"in"})
  }

  function Fetch(candidate: Id, finalUri: string, body: Bytes): Request {
    Request(candidate, "https://in", 0, Some(Response(200, finalUri, [], body)))
  }

  /** The setting is one a session opens with. */
  lemma SmallFrameOpens()
    ensures Opening(SmallFrame().env, SmallFrame().lease, "", {}, 0) == Ok(SmallFrame().hosts)
  {
  }

  /** A candidate ID that is no identifier: its bytes are counted and stored, and nothing is recorded. */
  lemma IllTypedIsCounted()
    ensures var s := Run(SmallFrame(), [Op.Retrieve(Fetch("!", "https://in", "xy"))]);
            s.bytes == 2 && s.records == [] && s.blobs == map["digest" := "xy"]
    ensures !NothingSpoiled(SmallFrame(), [Op.Retrieve(Fetch("!", "https://in", "xy"))])
  {
    var ops := [Op.Retrieve(Fetch("!", "https://in", "xy"))];
    OneOperation(SmallFrame(), ops[0]);
    assert Refusal(SmallFrame(), EMPTY, Fetch("!", "https://in", "xy")) == None;
    assert Sizes([]) == [];
    WellTypedAccounting(SmallFrame(), ops);
  }

  lemma OneOperation(g: Setting, op: Op)
    ensures Run(g, [op]) == Step(g, EMPTY, op) && Run(g, []) == EMPTY
  {
    assert [op][..0] == [];
  }

  /** The first request of a session can be refused by the ceiling, after its whole body was received. */
  lemma CeilingRefusesReceived()
    ensures var q := Fetch("candidate", "https://in", seq(CEILING_RETRIEVED_BYTES + 1, i => 'x'));
            && Refusal(SmallFrame(), Run(SmallFrame(), []), q) == Some(OverCeiling)
            && Contacts(SmallFrame(), Run(SmallFrame(), []), q)
  {
    OneOperation(SmallFrame(), FailGate(""));
    var q := Fetch("candidate", "https://in", seq(CEILING_RETRIEVED_BYTES + 1, i => 'x'));
    assert |q.response.value.body| == CEILING_RETRIEVED_BYTES + 1;
  }

  /** A retrieval redirected to a host outside the frame is recorded. */
  lemma RedirectedOutIsRecorded()
    ensures var q := Fetch("candidate", "https://elsewhere", "xy");
            && SmallFrame().env.host(q.response.value.finalUri) !in SmallFrame().hosts
            && Retrieved(SmallFrame(), EMPTY, q).1.Ok?
            && Retrieved(SmallFrame(), EMPTY, q).1.value.finalUri == "https://elsewhere"
  {
    assert |"https://elsewhere"| != |"https://in"|;
    assert Refusal(SmallFrame(), EMPTY, Fetch("candidate", "https://elsewhere", "xy")) == None;
  }

  /** The request succeeded in every respect and is what the record says. */
  predicate Succeeded(g: Setting, q: Request, r: Record) {
    q.response.Some? &&
    var a := q.response.value;
    && g.lease.notBefore <= q.moment < g.lease.expiresAt && g.env.scheme(q.uri) == "https"
    && g.env.host(q.uri) in g.hosts && a.status == 200 && |a.hops| <= 5
    && g.env.identifier(q.candidate) && q.uri != "" && a.finalUri != ""
    && r == Record(g.lease.sessionId, q.candidate, q.uri, a.finalUri, a.hops, q.moment, |a.body|, g.env.sha256(a.body))
  }

  /** The first i operations failed no gate of this candidate. */
  predicate NotFailed(ops: seq<Op>, i: nat, candidate: Id)
    requires i <= |ops|
  {
    forall j :: 0 <= j < i && ops[j].FailGate? ==> ops[j].candidate != candidate
  }

  lemma {:induction false} FailedExactly(g: Setting, ops: seq<Op>, candidate: Id)
    ensures candidate in Run(g, ops).failed <==> !NotFailed(ops, |ops|, candidate)
  {
    hide Refusal;
    if ops != [] {
      var n := |ops| - 1;
      FailedExactly(g, ops[..n], candidate);
      assert forall j :: 0 <= j < n ==> ops[..n][j] == ops[j];
    }
  }

  /** Operation i is a request that succeeded, stayed under the ceiling, and whose candidate had failed no gate. */
  ghost predicate Records(g: Setting, ops: seq<Op>, i: nat, r: Record)
    requires i < |ops|
  {
    && ops[i].Retrieve? && Succeeded(g, ops[i].request, r) && NotFailed(ops, i, r.candidate)
    && Run(g, ops[..i]).bytes + r.bytes <= g.lease.maxRetrievedBytes
  }

  /** One more operation appends a record exactly when it is such a request. */
  lemma LastRecords(g: Setting, ops: seq<Op>)
    requires ops != []
    ensures var n := |ops| - 1;
            var before, after := Run(g, ops[..n]).records, Run(g, ops).records;
            && (forall r :: Records(g, ops, n, r) ==> after == before + [r])
            && ((forall r :: !Records(g, ops, n, r)) ==> after == before)
  {
    var n := |ops| - 1;
    var s := Run(g, ops[..n]);
    if ops[n].Retrieve? {
      FailedExactly(g, ops[..n], ops[n].request.candidate);
      assert forall j :: 0 <= j < n ==> ops[..n][j] == ops[j];
      var q := ops[n].request;
      if Refusal(g, s, q) == None && WellTyped(g, q) {
        assert Records(g, ops, n, RecordOf(g, q));
      }
    }
  }

  /** Every record of a run stems from an operation that succeeded in every respect at its place. */
  lemma {:induction false} RecordsStem(g: Setting, ops: seq<Op>, r: Record)
    ensures r in Run(g, ops).records <==> exists i :: 0 <= i < |ops| && Records(g, ops, i, r)
  {
    hide Run, Succeeded, NotFailed;
    if ops == [] {
      NoOperations(g);
    } else {
      var n := |ops| - 1;
      RecordsStem(g, ops[..n], r);
      LastRecords(g, ops);
      forall i | 0 <= i < n
        ensures Records(g, ops[..n], i, r) <==> Records(g, ops, i, r)
      {
        SamePlace(g, ops, n, i, r);
      }
      if r in Run(g, ops).records && r !in Run(g, ops[..n]).records {
        assert exists x :: Records(g, ops, n, x);
      }
    }
  }

  lemma NoOperations(g: Setting)
    ensures Run(g, []).records == []
  {
  }

  lemma SamePlace(g: Setting, ops: seq<Op>, n: nat, i: nat, r: Record)
    requires i < n <= |ops|
    ensures Records(g, ops[..n], i, r) <==> Records(g, ops, i, r)
  {
    hide Run, Succeeded;
    assert ops[..n][..i] == ops[..i] && ops[..n][i] == ops[i];
    assert forall j :: 0 <= j < i ==> ops[..n][j] == ops[j];
  }

  // ----- openings

  /**
   A session opens exactly on an unused ID, under a signed lease of the approved scope that binds the
   registry, restates every frozen ceiling and is in its window, over a registry that parses.
   */
  lemma OpensExactly(env: Env, lease: Lease, registry: Bytes, stores: set<Id>, at: int)
    ensures Opening(env, lease, registry, stores, at).Ok? <==>
            && lease.sessionId !in stores && env.frame(registry).Some? && env.signed(lease)
            && lease.scope == env.scope && lease.registrySha256 == env.sha256(registry)
            && lease.notBefore <= at && at < lease.expiresAt
            && lease.maxCpuSeconds == 14400.0 && lease.maxWallSeconds == 7200.0
            && lease.maxPeakMemoryBytes == 17179869184 && lease.maxRetrievedBytes == 1073741824
            && lease.maxPeakStagedBytes == 2147483648
    ensures Opening(env, lease, registry, stores, at).Ok? ==>
              Some(Opening(env, lease, registry, stores, at).value) == env.frame(registry)
  {
  }

  datatype Attempt = Attempt(lease: Lease, at: int)

  /** The stores after a series of openings. */
  function StoresAfter(env: Env, registry: Bytes, attempts: seq<Attempt>): set<Id> {
    if attempts == [] then {}
    else
      var stores, last := StoresAfter(env, registry, attempts[..|attempts| - 1]), attempts[|attempts| - 1];
      if Opening(env, last.lease, registry, stores, last.at).Ok? then stores + {last.lease.sessionId} else stores
  }

  predicate Opens(env: Env, registry: Bytes, attempts: seq<Attempt>, i: nat)
    requires i < |attempts|
  {
    Opening(env, attempts[i].lease, registry, StoresAfter(env, registry, attempts[..i]), attempts[i].at).Ok?
  }

  lemma {:induction false} StoresGrow(env: Env, registry: Bytes, attempts: seq<Attempt>, i: nat)
    requires i <= |attempts|
    ensures StoresAfter(env, registry, attempts[..i]) <= StoresAfter(env, registry, attempts)
  {
    hide Opening;
    if i < |attempts| {
      var init := attempts[..|attempts| - 1];
      assert init[..i] == attempts[..i];
      StoresGrow(env, registry, init, i);
    } else {
      assert attempts[..i] == attempts;
    }
  }

  /** A session ID opens at most once on one store, whatever leases are presented and when. */
  lemma OpensOnce(env: Env, registry: Bytes, attempts: seq<Attempt>, i: nat, j: nat)
    requires i < j < |attempts| && Opens(env, registry, attempts, i) && Opens(env, registry, attempts, j)
    ensures attempts[i].lease.sessionId != attempts[j].lease.sessionId
  {
    StoresGrow(env, registry, attempts[..j], i + 1);
    assert attempts[..j][..i + 1] == attempts[..i + 1] && attempts[..i + 1][..i] == attempts[..i];
    assert attempts[i].lease.sessionId in StoresAfter(env, registry, attempts[..i + 1]);
  }
}
