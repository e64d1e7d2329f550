/**
 The research-memory ledger: LF framing, canonical records, the hash chain, identities, references
 and Git anchors.  `Accepts` is the cold reading of one ledger; the caches are in AnchorCache.dfy.
 */
module Ledger {
  import opened Prelude
  import opened Sorting
  import opened Decimal
  import opened LineText
  import opened JsonText
  import opened CanonicalJson

  // ----- record fields

  function Lit(s: string): (r: Str)
    ensures |r| == |s|
    ensures forall i :: 0 <= i < |s| ==> r[i] == s[i] as int
  {
    seq(|s|, i requires 0 <= i < |s| => s[i] as int)
  }

  predicate HasKey(ms: seq<Member>, key: Str) {
    exists m :: m in ms && m.key == key
  }

  /** The value of a member, null when absent. */
  function Get(ms: seq<Member>, key: Str): Json {
    if ms == [] then JNull else if ms[0].key == key then ms[0].value else Get(ms[1..], key)
  }

  function Drop(ms: seq<Member>, key: Str): seq<Member> {
    if ms == [] then []
    else if ms[0].key == key then Drop(ms[1..], key)
    else [ms[0]] + Drop(ms[1..], key)
  }

  function KeySet(ms: seq<Member>): set<Str> {
    set m | m in ms :: m.key
  }

  predicate IsLowerHex(s: Str) {
    forall i :: 0 <= i < |s| ==> '0' as int <= s[i] <= '9' as int || 'a' as int <= s[i] <= 'f' as int
  }

  /** A full Git object ID: 40 or 64 lower-case hexadecimal digits. */
  predicate IsOid(s: Str) {
    (|s| == 40 || |s| == 64) && IsLowerHex(s)
  }

  predicate IsSha256(s: Str) {
    |s| == 64 && IsLowerHex(s)
  }

  predicate IsAlnum(c: int) {
    || 'A' as int <= c <= 'Z' as int || 'a' as int <= c <= 'z' as int || '0' as int <= c <= '9' as int
  }

  /** [A-Za-z0-9][A-Za-z0-9._:-]{0,127} */
  predicate IsIdentifier(s: Str) {
    && 1 <= |s| <= 128 && IsAlnum(s[0])
    && forall i :: 1 <= i < |s| ==> IsAlnum(s[i]) || s[i] in {46, 95, 58, 45}
  }

  predicate Identifier(v: Json) {
    v.JStr? && IsIdentifier(v.s)
  }

  const Fields: set<Str> :=
    set name | name in {
      "access", "actor", "corrects_event_id", "cost_usd", "engine_requirement", "epistemic_phase",
      "event_hash", "event_id", "event_type", "evidence", "links", "manual_minutes", "mission_id",
      "occurred_at", "payload", "previous_event_hash", "recorded_at", "recurrence_key",
      "schema_version", "sequence", "source_commit", "stage", "status", "summary"} :: Lit(name)

  const EvidenceFields: set<Str> :=
    set name | name in {"access", "git_commit", "label_access", "media_type", "role", "sha256", "uri"} ::
      Lit(name)

  /** Payload members each event type must carry; an unknown type has no entry. */
  const RequiredPayload: map<string, set<string>> :=
    map["source" := {"source"}, "decision" := {"decision"}, "protocol" := {"protocol"},
        "execution" := {"action", "outcome"}, "finding" := {"finding"}, "failure" := {"failure"},
        "correction" := {"old", "corrected"}, "resource" := {"resource"}, "manual_work" := {"task"},
        "handoff" := {"state", "next_action"}, "naming" := {"candidate", "verdict"}]

  // ----- the world a ledger is read in

  /** How a URI splits: malformed, external, or a path inside the repository. */
  datatype Uri = Malformed | External(safeHttps: bool) | InRepository(safePath: bool)

  /** Git answers about immutable objects: does a commit resolve, is it an ancestor, what is a blob. */
  datatype Repo = Repo(
    resolves: Str -> bool,
    ancestor: (Str, Str) -> bool,
    blob: (Str, Str) -> Option<string>)

  /** Foreign functions: the hash, URI splitting, case folding, and the single-field validators. */
  datatype Env = Env(
    sha: string -> Str,
    split: Str -> Uri,
    fold: Str -> Str,
    fieldsOk: Json -> bool)

  const MaxEvidenceBlob := 16 * 1024 * 1024

  predicate AnchorOk(repo: Repo, anchor: Str, containing: Str) {
    IsOid(anchor) && repo.resolves(anchor) && repo.ancestor(anchor, containing)
  }

  predicate BlobOk(repo: Repo, commit: Str, path: Str) {
    var b := repo.blob(commit, path);
    b.Some? && |b.value| <= MaxEvidenceBlob
  }

  function BlobDigest(env: Env, repo: Repo, commit: Str, path: Str): Str
    requires BlobOk(repo, commit, path)
  {
    env.sha(repo.blob(commit, path).value)
  }

  predicate In(v: Json, names: set<string>) {
    v.JStr? && exists n | n in names :: Lit(n) == v.s
  }

  /** The checks of one evidence item that ask Git nothing. */
  predicate EvidenceShape(env: Env, v: Json) {
    v.JObj? && KeySet(v.members) == EvidenceFields &&
    var ms := v.members;
    var uri, sha, commit := Get(ms, Lit("uri")), Get(ms, Lit("sha256")), Get(ms, Lit("git_commit"));
    var access, labels := Get(ms, Lit("access")), Get(ms, Lit("label_access"));
    && In(Get(ms, Lit("role")), {"input", "raw", "derived", "verifier", "source", "approval"})
    && uri.JStr? && uri.s != []
    && Get(ms, Lit("media_type")).JStr? && Get(ms, Lit("media_type")).s != []
    && (sha.JNull? || (sha.JStr? && IsSha256(sha.s)))
    && (commit.JNull? || (commit.JStr? && IsOid(commit.s)))
    && In(access, {"public", "internal", "restricted"})
    && In(labels, {"none", "development", "sealed_heldout"})
    && !(access.s == Lit("public") && labels.s == Lit("sealed_heldout"))
    && match env.split(uri.s)
       case Malformed => false
       case External(safe) => safe && sha.JStr? && commit.JNull?
       case InRepository(safe) => safe && commit.JStr?
  }

  predicate Anchored(env: Env, v: Json)
    requires EvidenceShape(env, v)
  {
    env.split(Get(v.members, Lit("uri")).s).InRepository?
  }

  predicate EvidenceOk(env: Env, repo: Repo, containing: Str, v: Json) {
    EvidenceShape(env, v) &&
    (Anchored(env, v) ==>
       var commit, uri, sha :=
         Get(v.members, Lit("git_commit")).s, Get(v.members, Lit("uri")).s, Get(v.members, Lit("sha256"));
       && AnchorOk(repo, commit, containing)
       && BlobOk(repo, commit, uri)
       && (sha.JStr? ==> BlobDigest(env, repo, commit, uri) == sha.s))
  }

  // ----- sensitive payload keys

  predicate EndsWith(s: Str, t: Str) {
    |t| <= |s| && s[|s| - |t|..] == t
  }

  predicate StartsWith(s: Str, t: Str) {
    |t| <= |s| && s[..|t|] == t
  }

  predicate Contains(s: Str, t: Str) {
    StartsWith(s, t) || (s != [] && Contains(s[1..], t))
  }

  predicate SensitiveKey(env: Env, key: Str) {
    var folded := env.fold(key);
    && !(exists t | t in {"_ref", "_reference", "_hash"} :: EndsWith(folded, Lit(t)))
    && exists t | t in {"credential", "hidden_label", "password", "private_key", "secret", "token"} ::
         Contains(folded, Lit(t))
  }

  /** No object key at any depth is sensitive. */
  predicate Clean(env: Env, v: Json) {
    match v
    case JArr(items) => forall x | x in items :: Clean(env, x)
    case JObj(ms) => forall m | m in ms :: !SensitiveKey(env, m.key) && Clean(env, m.value)
    case _ => true
  }

  function Size(v: Json): nat
    decreases v
  {
    match v
    case JArr(items) => 1 + SizeAll(items)
    case JObj(ms) => 1 + SizeMembers(ms)
    case _ => 1
  }

  function SizeAll(vs: seq<Json>): nat
    decreases vs
  {
    if vs == [] then 0 else Size(vs[0]) + SizeAll(vs[1..])
  }

  function SizeMembers(ms: seq<Member>): nat
    decreases ms
  {
    if ms == [] then 0 else Size(ms[0].value) + SizeMembers(ms[1..])
  }

  lemma {:induction false} SizeAppend(a: seq<Json>, b: seq<Json>)
    ensures SizeAll(a + b) == SizeAll(a) + SizeAll(b)
  {
    if a == [] {
      assert a + b == b;
    } else {
      assert (a + b)[1..] == a[1..] + b;
      SizeAppend(a[1..], b);
    }
  }

  function MemberValues(ms: seq<Member>): (r: seq<Json>)
    ensures |r| == |ms| && forall i :: 0 <= i < |ms| ==> r[i] == ms[i].value
  {
    seq(|ms|, i requires 0 <= i < |ms| => ms[i].value)
  }

  lemma {:induction false} SizeOfValues(ms: seq<Member>)
    ensures SizeAll(MemberValues(ms)) == SizeMembers(ms)
  {
    if ms != [] {
      assert MemberValues(ms)[1..] == MemberValues(ms[1..]);
      SizeOfValues(ms[1..]);
    }
  }

  predicate AllClean(env: Env, vs: seq<Json>) {
    forall x | x in vs :: Clean(env, x)
  }

  lemma AllCleanAppend(env: Env, a: seq<Json>, b: seq<Json>)
    ensures AllClean(env, a + b) <==> AllClean(env, a) && AllClean(env, b)
  {
    assert forall x :: x in a ==> x in a + b;
    assert forall x :: x in b ==> x in a + b;
  }

  lemma OneClean(env: Env, v: Json)
    ensures AllClean(env, [v]) <==> Clean(env, v)
  {
    assert v in [v];
  }

  lemma CleanScalar(env: Env, v: Json)
    requires !v.JArr? && !v.JObj?
    ensures Clean(env, v)
  {
  }

  lemma CleanArray(env: Env, items: seq<Json>)
    ensures Clean(env, JArr(items)) <==> AllClean(env, items)
  {
  }

  lemma CleanObject(env: Env, ms: seq<Member>)
    ensures Clean(env, JObj(ms)) <==>
            !(exists m | m in ms :: SensitiveKey(env, m.key)) && AllClean(env, MemberValues(ms))
  {
    var values := MemberValues(ms);
    forall m | m in ms
      ensures m.value in values
    {
      var i :| 0 <= i < |ms| && ms[i] == m;
      assert values[i] == m.value;
    }
    forall v | v in values
      ensures exists m :: m in ms && m.value == v
    {
      var i :| 0 <= i < |values| && values[i] == v;
      assert ms[i] in ms && ms[i].value == v;
    }
  }

  /** The worklist search of the payload, last in first out. */
  method PayloadIsClean(env: Env, payload: Json) returns (clean: bool)
    ensures clean <==> Clean(env, payload)
  {
    var pending := [payload];
    OneClean(env, payload);
    assert AllClean(env, []);
    hide Clean, AllClean, SensitiveKey;
    while pending != []
      invariant Clean(env, payload) <==> AllClean(env, pending)
      decreases SizeAll(pending)
    {
      var value, rest := pending[|pending| - 1], pending[..|pending| - 1];
      assert pending == rest + [value];
      SizeAppend(rest, [value]);
      AllCleanAppend(env, rest, [value]);
      OneClean(env, value);
      match value {
        case JObj(ms) =>
          CleanObject(env, ms);
          if exists m | m in ms :: SensitiveKey(env, m.key) {
            return false;
          }
          SizeOfValues(ms);
          SizeAppend(rest, MemberValues(ms));
          AllCleanAppend(env, rest, MemberValues(ms));
          pending := rest + MemberValues(ms);
        case JArr(items) =>
          CleanArray(env, items);
          SizeAppend(rest, items);
          AllCleanAppend(env, rest, items);
          pending := rest + items;
        case _ =>
          CleanScalar(env, value);
          pending := rest;
      }
    }
    clean := true;
  }

  // ----- one record

  datatype State = State(previous: Str, ids: set<Str>, inbar: bool)

  const Genesis: State := State(Lit("0000000000000000000000000000000000000000000000000000000000000000"), {}, false)

  /** The line is one canonical record with exactly the ledger's fields. */
  predicate CanonicalRecord(line: string, ms: seq<Member>) {
    && Loads(line) == Some(JObj(ms))
    && KeySet(ms) == Fields
    && Dumps(JObj(ms)) == line
  }

  predicate ChainOk(env: Env, ms: seq<Member>, sequence: nat, previous: Str) {
    var claimedPrevious, claimedHash := Get(ms, Lit("previous_event_hash")), Get(ms, Lit("event_hash"));
    && Get(ms, Lit("sequence")) == JNum(Dec(sequence))
    && claimedPrevious == JStr(previous) && IsSha256(previous)
    && claimedHash.JStr? && IsSha256(claimedHash.s)
    && env.sha(Dumps(JObj(Drop(ms, Lit("event_hash"))))) == claimedHash.s
  }

  predicate IdentityOk(ms: seq<Member>, inbar: bool) {
    var version, mission := Get(ms, Lit("schema_version")), Get(ms, Lit("mission_id"));
    || (version == JStr(Lit("daniel.research-memory.v2")) && mission == JStr(Lit("inbar")))
    || (version == JStr(Lit("daniel.research-memory.v1")) && mission == JStr(Lit("fieldtrue")) && !inbar)
  }

  /** Links and corrections name earlier events; exactly the corrections correct something. */
  predicate ReferencesOk(ms: seq<Member>, ids: set<Str>) {
    var id, links, correction := Get(ms, Lit("event_id")), Get(ms, Lit("links")), Get(ms, Lit("corrects_event_id"));
    && Identifier(id) && id.s !in ids
    && links.JObj?
    && (forall m | m in links.members :: IsIdentifier(m.key) && Identifier(m.value) && m.value.s in ids)
    && (!correction.JNull? ==> Identifier(correction) && correction.s in ids)
    && (Get(ms, Lit("event_type")) == JStr(Lit("correction")) <==> !correction.JNull?)
  }

  predicate PayloadShape(env: Env, ms: seq<Member>) {
    var payload, kind := Get(ms, Lit("payload")), Get(ms, Lit("event_type"));
    && payload.JObj? && kind.JStr?
    && (exists k | k in RequiredPayload ::
          Lit(k) == kind.s && forall name | name in RequiredPayload[k] :: HasKey(payload.members, Lit(name)))
    && (kind.s == Lit("manual_work") ==> !Get(ms, Lit("recurrence_key")).JNull?)
    && env.fieldsOk(JObj(ms))
  }

  predicate PayloadOk(env: Env, ms: seq<Member>) {
    PayloadShape(env, ms) && Clean(env, Get(ms, Lit("payload")))
  }

  predicate AnchorsOk(env: Env, repo: Repo, containing: Str, ms: seq<Member>) {
    var source, evidence := Get(ms, Lit("source_commit")), Get(ms, Lit("evidence"));
    && source.JStr? && AnchorOk(repo, source.s, containing)
    && evidence.JArr? && forall v | v in evidence.items :: EvidenceOk(env, repo, containing, v)
  }

  /** Everything one record must satisfy, given the state its predecessors left. */
  predicate RecordOk(env: Env, repo: Repo, containing: Str, line: string, ms: seq<Member>, n: nat, st: State) {
    && CanonicalRecord(line, ms)
    && ChainOk(env, ms, n, st.previous)
    && IdentityOk(ms, st.inbar)
    && ReferencesOk(ms, st.ids)
    && PayloadOk(env, ms)
    && AnchorsOk(env, repo, containing, ms)
  }

  function Members(line: string): seq<Member> {
    match Loads(line)
    case Some(JObj(ms)) => ms
    case _ => []
  }

  function Next(ms: seq<Member>, st: State): State
    requires Get(ms, Lit("event_hash")).JStr? && Get(ms, Lit("event_id")).JStr?
  {
    State(
      Get(ms, Lit("event_hash")).s,
      st.ids + {Get(ms, Lit("event_id")).s},
      st.inbar || Get(ms, Lit("mission_id")) == JStr(Lit("inbar")))
  }

  /** The state after all lines, if every record is accepted. */
  function Run(env: Env, repo: Repo, containing: Str, lines: seq<string>): Option<State> {
    if lines == [] then Some(Genesis)
    else
      var n := |lines| - 1;
      var before := Run(env, repo, containing, lines[..n]);
      var ms := Members(lines[n]);
      if before.Some? && RecordOk(env, repo, containing, lines[n], ms, n, before.value)
      then Some(Next(ms, before.value))
      else None
  }

  /** The cold reading of a ledger's bytes at a commit. */
  predicate Accepts(env: Env, repo: Repo, containing: Str, data: string) {
    Framed(data) && Run(env, repo, containing, Lines(data)).Some?
  }

  lemma RunButLast(env: Env, repo: Repo, containing: Str, lines: seq<string>)
    requires lines != [] && Run(env, repo, containing, lines).Some?
    ensures Run(env, repo, containing, lines[..|lines| - 1]).Some?
  {
    hide RecordOk;
  }

  /** Every prefix of an accepted ledger's records is accepted. */
  lemma {:induction false} RunPrefix(env: Env, repo: Repo, containing: Str, lines: seq<string>, k: nat)
    requires k <= |lines| && Run(env, repo, containing, lines).Some?
    ensures Run(env, repo, containing, lines[..k]).Some?
  {
    hide *;
    if k < |lines| {
      var n := |lines| - 1;
      RunButLast(env, repo, containing, lines);
      RunPrefix(env, repo, containing, lines[..n], k);
      assert lines[..n][..k] == lines[..k];
    } else {
      assert lines[..k] == lines;
    }
  }

  // ----- the final hash determines the whole ledger

  /** The text whose hash a record carries. */
  function BodyText(line: string): string {
    Dumps(JObj(Drop(Members(line), Lit("event_hash"))))
  }

  /** The bodies of two records differ and yet have one hash. */
  predicate BodiesClash(env: Env, x: string, y: string) {
    BodyText(x) != BodyText(y) && env.sha(BodyText(x)) == env.sha(BodyText(y))
  }

  /** A record of the one ledger and a record of the other clash. */
  ghost predicate LedgersClash(env: Env, a: seq<string>, b: seq<string>) {
    exists i, j :: 0 <= i < |a| && 0 <= j < |b| && BodiesClash(env, a[i], b[j])
  }

  lemma DistinctTail(ms: seq<Member>)
    requires ms != [] && Distinct(Keys(ms))
    ensures Distinct(Keys(ms[1..])) && !HasKey(ms[1..], ms[0].key)
  {
    var rest := ms[1..];
    assert forall i :: 0 <= i < |rest| ==> Keys(rest)[i] == Keys(ms)[i + 1];
    assert forall i :: 0 <= i < |rest| ==> rest[i].key == Keys(ms)[i + 1] && Keys(ms)[0] == ms[0].key;
  }

  lemma {:induction false} DropCounts(ms: seq<Member>, key: Str)
    requires Distinct(Keys(ms)) && HasKey(ms, key)
    ensures multiset(ms) == multiset(Drop(ms, key)) + multiset{Member(key, Get(ms, key))}
  {
    hide Distinct;
    var rest := ms[1..];
    assert ms == [ms[0]] + rest;
    DistinctTail(ms);
    if ms[0].key == key {
      assert Member(key, ms[0].value) == ms[0];
      DropAbsent(rest, key);
    } else {
      assert HasKey(rest, key);
      DropCounts(rest, key);
    }
  }

  lemma {:induction false} DropAbsent(ms: seq<Member>, key: Str)
    requires !HasKey(ms, key)
    ensures Drop(ms, key) == ms
  {
    if ms != [] {
      assert ms[0] in ms;
      assert !HasKey(ms[1..], key);
      DropAbsent(ms[1..], key);
    }
  }

  lemma {:induction false} DropMembers(ms: seq<Member>, key: Str)
    ensures forall m :: m in Drop(ms, key) ==> m in ms
  {
    if ms != [] {
      DropMembers(ms[1..], key);
    }
  }

  /** Equal canonical bodies and an equal dropped member give equal canonical records. */
  lemma BodyDeterminesRecord(a: seq<Member>, b: seq<Member>, key: Str)
    requires WF(JObj(a)) && WF(JObj(b)) && HasKey(a, key) && HasKey(b, key)
    requires Get(a, key) == Get(b, key)
    requires Dumps(JObj(Drop(a, key))) == Dumps(JObj(Drop(b, key)))
    ensures Dumps(JObj(a)) == Dumps(JObj(b))
  {
    BodyWF(a, key);
    BodyWF(b, key);
    DumpsInjective(JObj(Drop(a, key)), JObj(Drop(b, key)));
    SortPermutes(CanonMembers(Drop(a, key)), KeyLeq);
    SortPermutes(CanonMembers(Drop(b, key)), KeyLeq);
    CanonCounts(a, key);
    CanonCounts(b, key);
    assert multiset(CanonMembers(a)) == multiset(CanonMembers(b));
    CanonKeysSort(a, b);
  }

  lemma BodyWF(ms: seq<Member>, key: Str)
    requires WF(JObj(ms)) && HasKey(ms, key)
    ensures WF(JObj(Drop(ms, key)))
  {
    DropMembers(ms, key);
    DropCounts(ms, key);
    var d := Drop(ms, key);
    PermutedKeys(ms, d + [Member(key, Get(ms, key))]);
    var all := Keys(d + [Member(key, Get(ms, key))]);
    assert forall i :: 0 <= i < |d| ==> Keys(d)[i] == all[i];
  }

  function CanonMember(m: Member): Member {
    Member(m.key, Canon(m.value))
  }

  lemma CanonCounts(ms: seq<Member>, key: Str)
    requires Distinct(Keys(ms)) && HasKey(ms, key)
    ensures multiset(CanonMembers(ms)) ==
            multiset(CanonMembers(Drop(ms, key))) + multiset{CanonMember(Member(key, Get(ms, key)))}
  {
    var d, m := Drop(ms, key), Member(key, Get(ms, key));
    DropCounts(ms, key);
    hide *;
    CanonImage(ms);
    CanonImage(d);
    SnocCounts(ms, d, m);
  }

  lemma CanonImage(ms: seq<Member>)
    ensures Image(ms, CanonMember) == CanonMembers(ms)
  {
  }

  lemma SnocCounts(ms: seq<Member>, d: seq<Member>, m: Member)
    requires multiset(ms) == multiset(d) + multiset{m}
    ensures multiset(Image(ms, CanonMember)) == multiset(Image(d, CanonMember)) + multiset{CanonMember(m)}
  {
    hide CanonMember;
    assert multiset(d + [m]) == multiset(ms);
    ImageOfPermutation(ms, d + [m], CanonMember);
    assert Image(d + [m], CanonMember) == Image(d, CanonMember) + [CanonMember(m)];
  }

  lemma CanonKeysSort(a: seq<Member>, b: seq<Member>)
    requires Distinct(Keys(a)) && multiset(CanonMembers(a)) == multiset(CanonMembers(b))
    ensures Canon(JObj(a)) == Canon(JObj(b))
  {
    KeyOrder();
    CanonKeyed(a);
    hide KeyLeq;
    SortOfPermutation(CanonMembers(a), CanonMembers(b), KeyLeq);
  }

  lemma KeyDetermines(ms: seq<Member>, x: Member, y: Member)
    requires Distinct(Keys(ms)) && x in ms && y in ms && x.key == y.key
    ensures x == y
  {
    var i :| 0 <= i < |ms| && x == ms[i];
    var j :| 0 <= j < |ms| && y == ms[j];
    assert Keys(ms)[i] == Keys(ms)[j];
    assert i == j;
  }

  lemma CanonKeyed(ms: seq<Member>)
    requires Distinct(Keys(ms))
    ensures forall x, y :: x in CanonMembers(ms) && y in CanonMembers(ms) && x.key == y.key ==> x == y
  {
    var cs := CanonMembers(ms);
    assert Keys(cs) == Keys(ms);
    hide *;
    forall x, y | x in cs && y in cs && x.key == y.key
      ensures x == y
    {
      KeyDetermines(cs, x, y);
    }
  }

  /** Two accepted records with the same event hash are the same line, or their bodies clash. */
  lemma SameHashSameLine(env: Env, x: string, a: seq<Member>, n: nat, p: Str, y: string, b: seq<Member>, m: nat, q: Str)
    requires CanonicalRecord(x, a) && ChainOk(env, a, n, p)
    requires CanonicalRecord(y, b) && ChainOk(env, b, m, q)
    requires Get(a, Lit("event_hash")) == Get(b, Lit("event_hash"))
    ensures BodiesClash(env, x, y) || (x == y && n == m && p == q)
  {
    var key := Lit("event_hash");
    var s, t := Dumps(JObj(Drop(a, key))), Dumps(JObj(Drop(b, key)));
    assert Members(x) == a && Members(y) == b;
    assert BodyText(x) == s && BodyText(y) == t && env.sha(s) == env.sha(t);
    if s == t {
      LoadsWF(x);
      LoadsWF(y);
      assert key in Fields;
      assert key in KeySet(a) && key in KeySet(b);
      BodyDeterminesRecord(a, b, key);
      assert JObj(a) == JObj(b);
      DecInjective(n, m);
    }
  }

  /** What acceptance says about the last line, apart from its contents. */
  lemma LastRecord(env: Env, repo: Repo, c: Str, lines: seq<string>) returns (ms: seq<Member>, before: State)
    requires lines != [] && Run(env, repo, c, lines).Some?
    ensures Run(env, repo, c, lines[..|lines| - 1]) == Some(before)
    ensures CanonicalRecord(lines[|lines| - 1], ms) && ms == Members(lines[|lines| - 1])
    ensures ChainOk(env, ms, |lines| - 1, before.previous)
    ensures ReferencesOk(ms, before.ids)
    ensures Run(env, repo, c, lines) == Some(Next(ms, before))
  {
    var n := |lines| - 1;
    before := Run(env, repo, c, lines[..n]).value;
    ms := Members(lines[n]);
  }

  lemma {:induction false} FinalHashDeterminesLines(
    env: Env, repo: Repo, world: Repo, c: Str, d: Str, a: seq<string>, b: seq<string>)
    requires Run(env, repo, c, a).Some? && Run(env, world, d, b).Some?
    requires a != [] && b != []
    requires Run(env, repo, c, a).value.previous == Run(env, world, d, b).value.previous
    ensures LedgersClash(env, a, b) || a == b
    decreases |a|
  {
    hide *;
    var n, m := |a| - 1, |b| - 1;
    var x, before := LastRecord(env, repo, c, a);
    var y, after := LastRecord(env, world, d, b);
    EventHash(env, x, n, before);
    EventHash(env, y, m, after);
    SameHashSameLine(env, a[n], x, n, before.previous, b[m], y, m, after.previous);
    if BodiesClash(env, a[n], b[m]) {
      ClashAt(env, a, b, n, m);
    } else {
      assert a == a[..n] + [a[n]] && b == b[..m] + [b[m]];
      if n > 0 {
        FinalHashDeterminesLines(env, repo, world, c, d, a[..n], b[..m]);
        if LedgersClash(env, a[..n], b[..n]) {
          ClashInPrefix(env, a, b, n);
        }
      } else {
        assert a[..n] == b[..m];
      }
    }
  }

  lemma ClashAt(env: Env, a: seq<string>, b: seq<string>, i: nat, j: nat)
    requires i < |a| && j < |b| && BodiesClash(env, a[i], b[j])
    ensures LedgersClash(env, a, b)
  {
    hide BodiesClash;
  }

  lemma ClashInPrefix(env: Env, a: seq<string>, b: seq<string>, n: nat)
    requires n <= |a| && n <= |b| && LedgersClash(env, a[..n], b[..n])
    ensures LedgersClash(env, a, b)
  {
    hide BodiesClash;
    var i, j :| 0 <= i < n && 0 <= j < n && BodiesClash(env, a[..n][i], b[..n][j]);
    assert BodiesClash(env, a[i], b[j]);
  }

  lemma EventHash(env: Env, ms: seq<Member>, n: nat, st: State)
    requires ChainOk(env, ms, n, st.previous) && ReferencesOk(ms, st.ids)
    ensures Get(ms, Lit("event_hash")) == JStr(Next(ms, st).previous)
  {
  }

  /** The event hash the last record of a nonempty accepted ledger carries. */
  function FinalHash(env: Env, repo: Repo, containing: Str, data: string): Str
    requires Accepts(env, repo, containing, data)
  {
    Run(env, repo, containing, Lines(data)).value.previous
  }

  /**
   Accepted nonempty ledgers with one final event hash are byte-identical, or a record body of each clash,
   whatever repositories and commits they were accepted in.
   */
  lemma FinalHashDeterminesLedger(env: Env, repo: Repo, world: Repo, c: Str, d: Str, x: string, y: string)
    requires Accepts(env, repo, c, x) && Accepts(env, world, d, y) && x != "" && y != ""
    requires FinalHash(env, repo, c, x) == FinalHash(env, world, d, y)
    ensures x == y || LedgersClash(env, Lines(x), Lines(y))
  {
    FinalHashDeterminesLines(env, repo, world, c, d, Lines(x), Lines(y));
    FrameOfLines(x);
    FrameOfLines(y);
  }

  // ----- references point strictly back

  function EventId(line: string): Json {
    Get(Members(line), Lit("event_id"))
  }

  function Corrects(line: string): Json {
    Get(Members(line), Lit("corrects_event_id"))
  }

  predicate IsCorrection(line: string) {
    Get(Members(line), Lit("event_type")) == JStr(Lit("correction"))
  }

  ghost predicate Holds(lines: seq<string>, n: nat, id: Str)
    requires n <= |lines|
  {
    exists j :: 0 <= j < n && EventId(lines[j]) == JStr(id)
  }

  /** The IDs are exactly the event IDs of the lines, and those are all different. */
  ghost predicate IdsMatch(lines: seq<string>, ids: set<Str>) {
    && (forall id :: id in ids <==> Holds(lines, |lines|, id))
    && (forall i, j :: 0 <= i < j < |lines| ==> EventId(lines[i]) != EventId(lines[j]))
    && (forall j :: 0 <= j < |lines| ==> EventId(lines[j]).JStr?)
  }

  lemma {:induction false} IdsAreEarlier(env: Env, repo: Repo, c: Str, lines: seq<string>)
    requires Run(env, repo, c, lines).Some?
    ensures IdsMatch(lines, Run(env, repo, c, lines).value.ids)
  {
    hide *;
    if lines == [] {
      RunEmpty(env, repo, c);
    } else {
      var n := |lines| - 1;
      var before := LastIds(env, repo, c, lines);
      IdsAreEarlier(env, repo, c, lines[..n]);
      assert lines == lines[..n] + [lines[n]];
      SnocIds(lines[..n], lines[n], before);
    }
  }

  lemma RunEmpty(env: Env, repo: Repo, c: Str)
    ensures Run(env, repo, c, []) == Some(Genesis)
    ensures IdsMatch([], Genesis.ids)
  {
  }

  lemma LastIds(env: Env, repo: Repo, c: Str, lines: seq<string>) returns (before: set<Str>)
    requires lines != [] && Run(env, repo, c, lines).Some?
    ensures Run(env, repo, c, lines[..|lines| - 1]).Some?
    ensures before == Run(env, repo, c, lines[..|lines| - 1]).value.ids
    ensures EventId(lines[|lines| - 1]).JStr? && EventId(lines[|lines| - 1]).s !in before
    ensures Run(env, repo, c, lines).value.ids == before + {EventId(lines[|lines| - 1]).s}
  {
    hide Run, CanonicalRecord, ChainOk;
    var ms, st := LastRecord(env, repo, c, lines);
    before := st.ids;
  }

  lemma SnocIds(p: seq<string>, last: string, ids: set<Str>)
    requires IdsMatch(p, ids)
    requires EventId(last).JStr? && EventId(last).s !in ids
    ensures IdsMatch(p + [last], ids + {EventId(last).s})
  {
    hide EventId;
    var n, lines := |p|, p + [last];
    assert forall j :: 0 <= j < n ==> p[j] == lines[j];
    forall id
      ensures id in ids + {EventId(last).s} <==> Holds(lines, n + 1, id)
    {
      if Holds(p, n, id) {
        var j :| 0 <= j < n && EventId(p[j]) == JStr(id);
        assert EventId(lines[j]) == JStr(id);
      }
      if id == EventId(last).s {
        assert EventId(lines[n]) == JStr(id);
      }
      if Holds(lines, n + 1, id) {
        var j :| 0 <= j < n + 1 && EventId(lines[j]) == JStr(id);
        assert j < n ==> EventId(p[j]) == JStr(id);
      }
    }
    forall i, j | 0 <= i < j < |lines|
      ensures EventId(lines[i]) != EventId(lines[j])
    {
      assert p[i] == lines[i];
      if j == n {
        assert Holds(p, n, EventId(p[i]).s);
      } else {
        assert p[j] == lines[j];
      }
    }
  }

  lemma IdsInPrefix(env: Env, repo: Repo, c: Str, lines: seq<string>, i: nat)
    requires i <= |lines| && Run(env, repo, c, lines[..i]).Some?
    ensures forall id :: id in Run(env, repo, c, lines[..i]).value.ids ==> Holds(lines, i, id)
  {
    hide Run, EventId;
    IdsAreEarlier(env, repo, c, lines[..i]);
    forall id | id in Run(env, repo, c, lines[..i]).value.ids
      ensures Holds(lines, i, id)
    {
      assert Holds(lines[..i], i, id);
      HoldsInPrefix(lines, i, id);
    }
  }

  lemma RecordAt(env: Env, repo: Repo, c: Str, lines: seq<string>, i: nat) returns (ms: seq<Member>, st: State)
    requires Run(env, repo, c, lines).Some? && i < |lines|
    ensures ms == Members(lines[i]) && ReferencesOk(ms, st.ids)
    ensures forall id :: id in st.ids ==> Holds(lines, i, id)
  {
    hide *;
    RunPrefix(env, repo, c, lines, i + 1);
    var p := lines[..i + 1];
    ms, st := LastRecord(env, repo, c, p);
    assert p[..i] == lines[..i] && p[i] == lines[i];
    IdsInPrefix(env, repo, c, lines, i);
  }

  lemma HoldsInPrefix(lines: seq<string>, i: nat, id: Str)
    requires i <= |lines| && Holds(lines[..i], i, id)
    ensures Holds(lines, i, id)
  {
    var j :| 0 <= j < i && EventId(lines[..i][j]) == JStr(id);
    assert EventId(lines[j]) == JStr(id);
  }

  /** Every link and every correction of record i names the event of some record before i. */
  lemma ReferencesPointBack(env: Env, repo: Repo, c: Str, lines: seq<string>, i: nat)
    requires Run(env, repo, c, lines).Some? && i < |lines|
    ensures Get(Members(lines[i]), Lit("links")).JObj?
    ensures forall m | m in Get(Members(lines[i]), Lit("links")).members ::
              m.value.JStr? && Holds(lines, i, m.value.s)
    ensures IsCorrection(lines[i]) <==> !Corrects(lines[i]).JNull?
    ensures IsCorrection(lines[i]) ==> Corrects(lines[i]).JStr? && Holds(lines, i, Corrects(lines[i]).s)
  {
    var ms, st := RecordAt(env, repo, c, lines, i);
    assert ReferencesOk(ms, st.ids);
  }

  /** Record i corrects the event of record j. */
  predicate CorrectsRecord(lines: seq<string>, i: nat, j: nat) {
    i < |lines| && j < |lines| && IsCorrection(lines[i]) && EventId(lines[j]) == Corrects(lines[i])
  }

  /** A correction chain: each record corrects the event of the next. */
  predicate CorrectionChain(lines: seq<string>, chain: seq<nat>) {
    match |chain|
    case 0 => false
    case 1 => chain[0] < |lines|
    case _ => CorrectsRecord(lines, chain[0], chain[1]) && CorrectionChain(lines, chain[1..])
  }

  predicate Descending(chain: seq<nat>) {
    forall i, j :: 0 <= i < j < |chain| ==> chain[j] < chain[i]
  }

  lemma CorrectedRecord(env: Env, repo: Repo, c: Str, lines: seq<string>, i: nat) returns (j: nat)
    requires Run(env, repo, c, lines).Some? && i < |lines| && IsCorrection(lines[i])
    ensures j < i && CorrectsRecord(lines, i, j)
    ensures forall k :: CorrectsRecord(lines, i, k) ==> k == j
  {
    ReferencesPointBack(env, repo, c, lines, i);
    IdsAreEarlier(env, repo, c, lines);
    hide Run, EventId, Corrects, IsCorrection;
    j :| 0 <= j < i && EventId(lines[j]) == JStr(Corrects(lines[i]).s);
  }

  lemma ChainOne(lines: seq<string>, i: nat)
    requires i < |lines|
    ensures CorrectionChain(lines, [i])
  {
  }

  lemma ChainCons(lines: seq<string>, i: nat, rest: seq<nat>)
    requires rest != [] && CorrectionChain(lines, rest) && CorrectsRecord(lines, i, rest[0])
    ensures CorrectionChain(lines, [i] + rest)
  {
    hide CorrectsRecord;
    assert ([i] + rest)[1..] == rest;
  }

  lemma ChainNonempty(lines: seq<string>, chain: seq<nat>)
    requires CorrectionChain(lines, chain)
    ensures chain != [] && forall k :: 0 <= k < |chain| ==> chain[k] < |lines|
  {
    if |chain| > 1 {
      ChainNonempty(lines, chain[1..]);
    }
  }

  /** From every record a correction chain leads to a record that corrects nothing. */
  lemma {:induction false} CorrectionsEnd(env: Env, repo: Repo, c: Str, lines: seq<string>, i: nat)
    returns (chain: seq<nat>)
    requires Run(env, repo, c, lines).Some? && i < |lines|
    ensures chain != [] && chain[0] == i && forall k :: 0 <= k < |chain| ==> chain[k] < |lines|
    ensures CorrectionChain(lines, chain)
    ensures !IsCorrection(lines[chain[|chain| - 1]])
    decreases i
  {
    hide *;
    chain := [i];
    ChainOne(lines, i);
    if IsCorrection(lines[i]) {
      var j := CorrectedRecord(env, repo, c, lines, i);
      var rest := CorrectionsEnd(env, repo, c, lines, j);
      ChainCons(lines, i, rest);
      chain := [i] + rest;
    }
  }

  lemma DescendingOne(i: nat)
    ensures Descending([i])
  {
  }

  lemma DescendingCons(i: nat, rest: seq<nat>)
    requires rest != [] && rest[0] < i && Descending(rest)
    ensures Descending([i] + rest)
  {
    var chain := [i] + rest;
    forall a, b | 0 <= a < b < |chain|
      ensures chain[b] < chain[a]
    {
      assert chain[b] == rest[b - 1];
      assert b > 1 ==> rest[b - 1] < rest[0];
      if a > 0 {
        assert chain[a] == rest[a - 1];
      }
    }
  }

  /** Every correction chain strictly descends, so none is longer than its first index plus one. */
  lemma {:induction false} ChainsDescend(env: Env, repo: Repo, c: Str, lines: seq<string>, chain: seq<nat>)
    requires Run(env, repo, c, lines).Some? && CorrectionChain(lines, chain)
    ensures Descending(chain)
    ensures chain != [] && chain[0] < |lines| && |chain| <= chain[0] + 1
  {
    hide *;
    ChainNonempty(lines, chain);
    if |chain| == 1 {
      assert chain == [chain[0]];
      DescendingOne(chain[0]);
    } else {
      ChainHead(lines, chain);
      var rest := chain[1..];
      ChainsDescend(env, repo, c, lines, rest);
      var j := CorrectedRecord(env, repo, c, lines, chain[0]);
      assert rest[0] == chain[1] == j;
      assert chain == [chain[0]] + rest;
      DescendingCons(chain[0], rest);
    }
  }

  lemma ChainHead(lines: seq<string>, chain: seq<nat>)
    requires |chain| > 1 && CorrectionChain(lines, chain)
    ensures chain[0] < |lines| && IsCorrection(lines[chain[0]])
    ensures CorrectsRecord(lines, chain[0], chain[1]) && CorrectionChain(lines, chain[1..])
  {
  }
}
