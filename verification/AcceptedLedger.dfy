/** What acceptance of a ledger says about the raw fields of its records. */
module AcceptedLedger {
  import opened Prelude
  import opened Decimal
  import opened JsonText
  import opened CanonicalJson
  import opened Ledger
  import O = OrderLaws

  function Field(line: string, name: string): Json {
    Get(Members(line), Lit(name))
  }

  /** Every record of an accepted ledger passed its checks in the state its predecessors left. */
  lemma AcceptedAt(env: Env, repo: Repo, c: Str, lines: seq<string>, i: nat) returns (st: State)
    requires Run(env, repo, c, lines).Some? && i < |lines|
    ensures Run(env, repo, c, lines[..i]) == Some(st)
    ensures RecordOk(env, repo, c, lines[i], Members(lines[i]), i, st)
    ensures Get(Members(lines[i]), Lit("event_hash")).JStr? && Get(Members(lines[i]), Lit("event_id")).JStr?
    ensures Run(env, repo, c, lines[..i + 1]) == Some(Next(Members(lines[i]), st))
  {
    hide *;
    RunPrefix(env, repo, c, lines, i + 1);
    var p := lines[..i + 1];
    LastAccepted(env, repo, c, p);
    assert p[..i] == lines[..i] && p[i] == lines[i];
    st := Run(env, repo, c, lines[..i]).value;
  }

  lemma LastAccepted(env: Env, repo: Repo, c: Str, lines: seq<string>)
    requires lines != [] && Run(env, repo, c, lines).Some?
    ensures var n := |lines| - 1;
            && Run(env, repo, c, lines[..n]).Some?
            && RecordOk(env, repo, c, lines[n], Members(lines[n]), n, Run(env, repo, c, lines[..n]).value)
            && Get(Members(lines[n]), Lit("event_hash")).JStr? && Get(Members(lines[n]), Lit("event_id")).JStr?
            && Run(env, repo, c, lines) == Some(Next(Members(lines[n]), Run(env, repo, c, lines[..n]).value))
  {
    hide CanonicalRecord, IdentityOk, PayloadOk, AnchorsOk, Members;
  }

  // ----- identities

  predicate OfInbar(line: string) {
    Field(line, "mission_id") == JStr(Lit("inbar"))
  }

  /** The state remembers exactly whether some record so far had the mission inbar. */
  lemma {:induction false} InbarRemembered(env: Env, repo: Repo, c: Str, lines: seq<string>)
    requires Run(env, repo, c, lines).Some?
    ensures Run(env, repo, c, lines).value.inbar <==> exists i :: 0 <= i < |lines| && OfInbar(lines[i])
  {
    hide *;
    if lines == [] {
      NothingRemembered(env, repo, c);
    } else {
      var n := |lines| - 1;
      LastAccepted(env, repo, c, lines);
      InbarRemembered(env, repo, c, lines[..n]);
      NextInbar(lines[n], Run(env, repo, c, lines[..n]).value);
      assert forall i :: 0 <= i < n ==> lines[..n][i] == lines[i];
    }
  }

  lemma NothingRemembered(env: Env, repo: Repo, c: Str)
    ensures Run(env, repo, c, []).Some? && !Run(env, repo, c, []).value.inbar
  {
  }

  lemma NextInbar(line: string, st: State)
    requires Get(Members(line), Lit("event_hash")).JStr? && Get(Members(line), Lit("event_id")).JStr?
    ensures Next(Members(line), st).inbar <==> st.inbar || OfInbar(line)
  {
    hide Members;
  }

  lemma RecordIdentity(env: Env, repo: Repo, c: Str, line: string, n: nat, st: State)
    requires RecordOk(env, repo, c, line, Members(line), n, st)
    ensures || (&& Field(line, "schema_version") == JStr(Lit("daniel.research-memory.v2"))
                && Field(line, "mission_id") == JStr(Lit("inbar")))
            || (&& Field(line, "schema_version") == JStr(Lit("daniel.research-memory.v1"))
                && Field(line, "mission_id") == JStr(Lit("fieldtrue")) && !OfInbar(line))
    ensures st.inbar ==> OfInbar(line)
  {
    hide CanonicalRecord, ChainOk, ReferencesOk, PayloadOk, AnchorsOk, Members;
    assert |Lit("inbar")| != |Lit("fieldtrue")|;
  }

  /**
   Every accepted record has one of the two identities, and once a record has the mission inbar so has
   every later one: the legacy identity never resumes.
   */
  lemma IdentityNeverResumes(env: Env, repo: Repo, c: Str, lines: seq<string>)
    requires Run(env, repo, c, lines).Some?
    ensures forall i :: 0 <= i < |lines| ==>
              || (&& Field(lines[i], "schema_version") == JStr(Lit("daniel.research-memory.v2"))
                  && Field(lines[i], "mission_id") == JStr(Lit("inbar")))
              || (&& Field(lines[i], "schema_version") == JStr(Lit("daniel.research-memory.v1"))
                  && Field(lines[i], "mission_id") == JStr(Lit("fieldtrue")))
    ensures forall i, j :: 0 <= i < j < |lines| && Field(lines[i], "mission_id") == JStr(Lit("inbar")) ==>
              Field(lines[j], "mission_id") == JStr(Lit("inbar"))
  {
    hide Run, RecordOk, Members, Lit;
    forall i | 0 <= i < |lines|
      ensures || (&& Field(lines[i], "schema_version") == JStr(Lit("daniel.research-memory.v2"))
                  && Field(lines[i], "mission_id") == JStr(Lit("inbar")))
              || (&& Field(lines[i], "schema_version") == JStr(Lit("daniel.research-memory.v1"))
                  && Field(lines[i], "mission_id") == JStr(Lit("fieldtrue")))
    {
      var st := AcceptedAt(env, repo, c, lines, i);
      RecordIdentity(env, repo, c, lines[i], i, st);
    }
    forall i, j | 0 <= i < j < |lines| && OfInbar(lines[i])
      ensures OfInbar(lines[j])
    {
      var st := AcceptedAt(env, repo, c, lines, j);
      InbarRemembered(env, repo, c, lines[..j]);
      assert lines[..j][i] == lines[i];
      RecordIdentity(env, repo, c, lines[j], j, st);
    }
  }

  // ----- the chain

  const ZEROS: string := "0000000000000000000000000000000000000000000000000000000000000000"

  /** Sequence numbers count from zero, each record names its predecessor's hash, and carries its body's. */
  lemma ChainSpelled(env: Env, repo: Repo, c: Str, lines: seq<string>, i: nat)
    requires Run(env, repo, c, lines).Some? && i < |lines|
    ensures Field(lines[i], "sequence") == JNum(Dec(i))
    ensures Field(lines[i], "previous_event_hash") ==
            if i == 0 then JStr(Lit(ZEROS)) else Field(lines[i - 1], "event_hash")
    ensures Field(lines[i], "event_hash") == JStr(env.sha(BodyText(lines[i])))
  {
    hide Run, RecordOk, Members, Lit, Dec;
    var st := AcceptedAt(env, repo, c, lines, i);
    RecordChain(env, repo, c, lines[i], i, st);
    if i > 0 {
      var before := AcceptedAt(env, repo, c, lines, i - 1);
      NextPrevious(lines[i - 1], before);
      assert lines[..i] == lines[..i - 1 + 1];
    } else {
      assert lines[..0] == [];
      StartsAtZeros(env, repo, c);
    }
  }

  lemma StartsAtZeros(env: Env, repo: Repo, c: Str)
    ensures Run(env, repo, c, []).Some? && Run(env, repo, c, []).value.previous == Lit(ZEROS)
  {
  }

  lemma NextPrevious(line: string, st: State)
    requires Get(Members(line), Lit("event_hash")).JStr? && Get(Members(line), Lit("event_id")).JStr?
    ensures JStr(Next(Members(line), st).previous) == Field(line, "event_hash")
  {
    hide Members;
  }

  lemma RecordChain(env: Env, repo: Repo, c: Str, line: string, n: nat, st: State)
    requires RecordOk(env, repo, c, line, Members(line), n, st)
    ensures Field(line, "sequence") == JNum(Dec(n))
    ensures Field(line, "previous_event_hash") == JStr(st.previous)
    ensures Field(line, "event_hash") == JStr(env.sha(BodyText(line)))
  {
    hide CanonicalRecord, IdentityOk, ReferencesOk, PayloadOk, AnchorsOk, Members, Dec;
  }

  // ----- lines and identifiers

  const FIELD_NAMES: set<string> := {
    "access", "actor", "corrects_event_id", "cost_usd", "engine_requirement", "epistemic_phase", "event_hash",
    "event_id", "event_type", "evidence", "links", "manual_minutes", "mission_id", "occurred_at", "payload",
    "previous_event_hash", "recorded_at", "recurrence_key", "schema_version", "sequence", "source_commit", "stage",
    "status", "summary"}

  /**
   Every accepted line is the canonical text of one object with the twenty-four fields and no other, whose
   members stand in ascending key order, as do those of every object inside.
   */
  lemma RecordSpelled(env: Env, repo: Repo, c: Str, lines: seq<string>, i: nat)
    requires Run(env, repo, c, lines).Some? && i < |lines|
    ensures Loads(lines[i]) == Some(JObj(Members(lines[i]))) && Dumps(JObj(Members(lines[i]))) == lines[i]
    ensures O.KeysAscend(JObj(Members(lines[i])))
    ensures forall key :: HasKey(Members(lines[i]), key) <==> exists name :: name in FIELD_NAMES && key == Lit(name)
  {
    hide *;
    var st := AcceptedAt(env, repo, c, lines, i);
    var v := JObj(Members(lines[i]));
    RecordLine(env, repo, c, lines[i], i, st);
    LoadsWF(lines[i]);
    LoadsDumpsExactly(v);
    O.CanonSortsKeys(v);
    FieldsAre(Members(lines[i]));
  }

  lemma RecordLine(env: Env, repo: Repo, c: Str, line: string, n: nat, st: State)
    requires RecordOk(env, repo, c, line, Members(line), n, st)
    ensures Loads(line) == Some(JObj(Members(line))) && Dumps(JObj(Members(line))) == line
    ensures KeySet(Members(line)) == Fields
  {
    hide Loads, Dumps, ChainOk, IdentityOk, ReferencesOk, PayloadOk, AnchorsOk, Fields;
  }

  lemma FieldsAre(ms: seq<Member>)
    requires KeySet(ms) == Fields
    ensures forall key :: HasKey(ms, key) <==> exists name :: name in FIELD_NAMES && key == Lit(name)
  {
    assert forall key :: HasKey(ms, key) <==> key in KeySet(ms);
    assert Fields == set name | name in FIELD_NAMES :: Lit(name);
  }

  predicate LetterOrDigit(c: int) {
    || c in Lit("ABCDEFGHIJKLMNOPQRSTUVWXYZ") || c in Lit("abcdefghijklmnopqrstuvwxyz") || c in Lit("0123456789")
  }

  /** One to 128 letters, digits and the four signs, the first a letter or a digit. */
  predicate NameText(s: Str) {
    && 1 <= |s| <= 128 && LetterOrDigit(s[0])
    && forall k :: 0 <= k < |s| ==> LetterOrDigit(s[k]) || s[k] in Lit("._:-")
  }

  lemma Letters(c: int)
    ensures c in Lit("ABCDEFGHIJKLMNOPQRSTUVWXYZ") <==> 65 <= c <= 90
    ensures c in Lit("abcdefghijklmnopqrstuvwxyz") <==> 97 <= c <= 122
  {
    var capitals, small := "ABCDEFGHIJKLMNOPQRSTUVWXYZ", "abcdefghijklmnopqrstuvwxyz";
    assert forall k :: 0 <= k < 26 ==> capitals[k] as int == 65 + k;
    assert forall k :: 0 <= k < 26 ==> small[k] as int == 97 + k;
    Consecutive(capitals, 65, c);
    Consecutive(small, 97, c);
  }

  lemma Consecutive(letters: string, first: nat, c: int)
    requires forall k :: 0 <= k < |letters| ==> letters[k] as int == first + k
    ensures c in Lit(letters) <==> first <= c < first + |letters|
  {
    if first <= c < first + |letters| {
      assert Lit(letters)[c - first] == c;
    }
  }

  lemma DigitsAndSigns(c: int)
    ensures c in Lit("0123456789") <==> 48 <= c <= 57
    ensures c in Lit("._:-") <==> c in {46, 95, 58, 45}
  {
    var digits, signs := Lit("0123456789"), Lit("._:-");
    if 48 <= c <= 57 {
      assert digits[c - 48] == c;
    }
    assert signs[0] == 46 && signs[1] == 95 && signs[2] == 58 && signs[3] == 45;
  }

  /** Identifiers: at most 128 ASCII letters, digits and signs, beginning with a letter or a digit. */
  lemma IdentifierSpelled(s: Str)
    ensures IsIdentifier(s) <==> NameText(s)
  {
    forall c: int
      ensures LetterOrDigit(c) <==> IsAlnum(c)
      ensures c in Lit("._:-") <==> c in {46, 95, 58, 45}
    {
      Letters(c);
      DigitsAndSigns(c);
    }
    hide Lit, LetterOrDigit, IsAlnum;
  }

  // ----- anchors and evidence

  /** Forty or sixty-four characters out of the sixteen. */
  predicate HexText(s: Str, lengths: set<nat>) {
    |s| in lengths && forall k :: 0 <= k < |s| ==> s[k] in Lit("0123456789abcdef")
  }

  lemma HexDigits(s: Str)
    ensures IsOid(s) <==> HexText(s, {40, 64})
    ensures IsSha256(s) <==> HexText(s, {64})
  {
    var digits := Lit("0123456789abcdef");
    forall d: int
      ensures d in digits <==> 48 <= d <= 57 || 97 <= d <= 102
    {
      if 48 <= d <= 57 {
        assert digits[d - 48] == d;
      }
      if 97 <= d <= 102 {
        assert digits[d - 87] == d;
      }
    }
  }

  /** The commit is a full object ID that resolves to an ancestor of the containing commit. */
  predicate AnchoredAt(repo: Repo, anchor: Json, containing: Str) {
    anchor.JStr? && HexText(anchor.s, {40, 64}) && repo.resolves(anchor.s) && repo.ancestor(anchor.s, containing)
  }

  function Item(v: Json, name: string): Json {
    if v.JObj? then Get(v.members, Lit(name)) else JNull
  }

  /** The evidence names a blob of at most 16 MiB at an ancestor commit, with its hash if it states one. */
  predicate NamesBlob(env: Env, repo: Repo, containing: Str, v: Json) {
    var commit, uri, sha := Item(v, "git_commit"), Item(v, "uri"), Item(v, "sha256");
    && AnchoredAt(repo, commit, containing) && uri.JStr?
    && match repo.blob(commit.s, uri.s)
       case None => false
       case Some(b) => |b| <= 16777216 && (sha == JNull || sha == JStr(env.sha(b)))
  }

  lemma EvidenceSpelled(env: Env, repo: Repo, containing: Str, v: Json)
    requires EvidenceOk(env, repo, containing, v)
    ensures Item(v, "uri").JStr? && !env.split(Item(v, "uri").s).Malformed?
    ensures env.split(Item(v, "uri").s).External? ==>
              && env.split(Item(v, "uri").s).safeHttps && Item(v, "git_commit") == JNull
              && Item(v, "sha256").JStr? && HexText(Item(v, "sha256").s, {64})
    ensures env.split(Item(v, "uri").s).InRepository? ==>
              env.split(Item(v, "uri").s).safePath && NamesBlob(env, repo, containing, v)
    ensures !(Item(v, "access") == JStr(Lit("public")) && Item(v, "label_access") == JStr(Lit("sealed_heldout")))
  {
    var ms := v.members;
    var sha, commit := Get(ms, Lit("sha256")), Get(ms, Lit("git_commit"));
    if sha.JStr? {
      HexDigits(sha.s);
    }
    if commit.JStr? {
      HexDigits(commit.s);
    }
    hide IsOid, IsSha256, HexText, Lit, Get;
  }

  /** Every accepted record is anchored at an ancestor commit, and so is every piece of its evidence. */
  lemma AnchorsSpelled(env: Env, repo: Repo, c: Str, lines: seq<string>, i: nat)
    requires Run(env, repo, c, lines).Some? && i < |lines|
    ensures AnchoredAt(repo, Field(lines[i], "source_commit"), c)
    ensures Field(lines[i], "evidence").JArr?
    ensures forall v | v in Field(lines[i], "evidence").items ::
              && Item(v, "uri").JStr? && !env.split(Item(v, "uri").s).Malformed?
              && (env.split(Item(v, "uri").s).External? ==>
                    && env.split(Item(v, "uri").s).safeHttps && Item(v, "git_commit") == JNull
                    && Item(v, "sha256").JStr? && HexText(Item(v, "sha256").s, {64}))
              && (env.split(Item(v, "uri").s).InRepository? ==>
                    env.split(Item(v, "uri").s).safePath && NamesBlob(env, repo, c, v))
              && !(&& Item(v, "access") == JStr(Lit("public"))
                   && Item(v, "label_access") == JStr(Lit("sealed_heldout")))
  {
    hide Run, RecordOk, Members, Lit, Item, NamesBlob, HexText, EvidenceOk;
    var st := AcceptedAt(env, repo, c, lines, i);
    RecordAnchors(env, repo, c, lines[i], i, st);
    HexDigits(Field(lines[i], "source_commit").s);
    forall v | v in Field(lines[i], "evidence").items
      ensures Item(v, "uri").JStr? && !env.split(Item(v, "uri").s).Malformed?
      ensures env.split(Item(v, "uri").s).External? ==>
                && env.split(Item(v, "uri").s).safeHttps && Item(v, "git_commit") == JNull
                && Item(v, "sha256").JStr? && HexText(Item(v, "sha256").s, {64})
      ensures env.split(Item(v, "uri").s).InRepository? ==>
                env.split(Item(v, "uri").s).safePath && NamesBlob(env, repo, c, v)
      ensures !(Item(v, "access") == JStr(Lit("public")) && Item(v, "label_access") == JStr(Lit("sealed_heldout")))
    {
      EvidenceSpelled(env, repo, c, v);
    }
  }

  lemma RecordAnchors(env: Env, repo: Repo, c: Str, line: string, n: nat, st: State)
    requires RecordOk(env, repo, c, line, Members(line), n, st)
    ensures Field(line, "source_commit").JStr? && IsOid(Field(line, "source_commit").s)
    ensures repo.resolves(Field(line, "source_commit").s) && repo.ancestor(Field(line, "source_commit").s, c)
    ensures Field(line, "evidence").JArr?
    ensures forall v | v in Field(line, "evidence").items :: EvidenceOk(env, repo, c, v)
  {
    hide CanonicalRecord, IdentityOk, ChainOk, ReferencesOk, PayloadOk, Members, EvidenceOk, IsOid;
  }

  // ----- payloads

  /** The payload members each event type must carry. */
  const REQUIRED: set<(string, string)> :=
    {("source", "source"), ("decision", "decision"), ("protocol", "protocol"), ("execution", "action"),
     ("execution", "outcome"), ("finding", "finding"), ("failure", "failure"), ("correction", "old"),
     ("correction", "corrected"), ("resource", "resource"), ("manual_work", "task"), ("handoff", "state"),
     ("handoff", "next_action"), ("naming", "candidate"), ("naming", "verdict")}

  /** The key stands in some object of the value, at any depth. */
  predicate KeyOccurs(v: Json, key: Str) {
    match v
    case JArr(items) => exists x | x in items :: KeyOccurs(x, key)
    case JObj(ms) => exists m | m in ms :: m.key == key || KeyOccurs(m.value, key)
    case _ => false
  }

  /** No key that occurs in the value is sensitive. */
  ghost predicate Harmless(env: Env, v: Json) {
    forall key :: KeyOccurs(v, key) ==> !SensitiveKey(env, key)
  }

  lemma HarmlessArray(env: Env, items: seq<Json>)
    ensures Harmless(env, JArr(items)) <==> forall x | x in items :: Harmless(env, x)
  {
    hide SensitiveKey;
    if Harmless(env, JArr(items)) {
      forall x, key | x in items && KeyOccurs(x, key)
        ensures !SensitiveKey(env, key)
      {
        assert KeyOccurs(JArr(items), key);
      }
    }
  }

  lemma HarmlessObject(env: Env, ms: seq<Member>)
    ensures Harmless(env, JObj(ms)) <==> forall m | m in ms :: !SensitiveKey(env, m.key) && Harmless(env, m.value)
  {
    hide SensitiveKey;
    if Harmless(env, JObj(ms)) {
      forall m | m in ms
        ensures !SensitiveKey(env, m.key)
      {
        assert KeyOccurs(JObj(ms), m.key);
      }
      forall m, key | m in ms && KeyOccurs(m.value, key)
        ensures !SensitiveKey(env, key)
      {
        assert KeyOccurs(JObj(ms), key);
      }
    }
  }

  lemma {:induction false} CleanExactly(env: Env, v: Json)
    ensures Clean(env, v) <==> Harmless(env, v)
    decreases v
  {
    match v
    case JArr(items) =>
      HarmlessArray(env, items);
      hide Harmless;
      forall x | x in items
        ensures Clean(env, x) <==> Harmless(env, x)
      {
        CleanExactly(env, x);
      }
    case JObj(ms) =>
      HarmlessObject(env, ms);
      hide Harmless;
      forall m | m in ms
        ensures Clean(env, m.value) <==> Harmless(env, m.value)
      {
        CleanExactly(env, m.value);
      }
    case _ =>
  }

  /** t stands somewhere in s. */
  predicate Inside(s: Str, t: Str) {
    exists i :: 0 <= i <= |s| && InsideAt(s, t, i)
  }

  predicate InsideAt(s: Str, t: Str, i: int) {
    0 <= i <= |s| - |t| && s[i..i + |t|] == t
  }

  lemma InsideTail(s: Str, t: Str)
    requires s != []
    ensures Inside(s, t) <==> StartsWith(s, t) || Inside(s[1..], t)
  {
    var rest := s[1..];
    if StartsWith(s, t) {
      assert InsideAt(s, t, 0);
    }
    if Inside(rest, t) {
      var i :| 0 <= i <= |rest| && InsideAt(rest, t, i);
      assert s[i + 1..i + 1 + |t|] == rest[i..i + |t|];
      assert InsideAt(s, t, i + 1);
    }
    if Inside(s, t) {
      var i :| 0 <= i <= |s| && InsideAt(s, t, i);
      if i > 0 {
        assert rest[i - 1..i - 1 + |t|] == s[i..i + |t|];
        assert InsideAt(rest, t, i - 1);
      }
    }
  }

  lemma {:induction false} ContainsExactly(s: Str, t: Str)
    ensures Contains(s, t) <==> Inside(s, t)
  {
    if s == [] {
      InsideNothing(t);
    } else {
      hide Inside, StartsWith;
      InsideTail(s, t);
      ContainsExactly(s[1..], t);
    }
  }

  lemma InsideNothing(t: Str)
    ensures Inside([], t) <==> StartsWith([], t)
  {
    if t == [] {
      assert InsideAt([], t, 0);
    }
  }

  /** A folded key that holds one of the six words and does not end like a reference. */
  predicate Sensitive(folded: Str) {
    && (|| Inside(folded, Lit("credential")) || Inside(folded, Lit("hidden_label"))
        || Inside(folded, Lit("password")) || Inside(folded, Lit("private_key")) || Inside(folded, Lit("secret"))
        || Inside(folded, Lit("token")))
    && !(Ends(folded, Lit("_ref")) || Ends(folded, Lit("_reference")) || Ends(folded, Lit("_hash")))
  }

  predicate Ends(s: Str, t: Str) {
    exists i :: 0 <= i <= |s| && s[i..] == t
  }

  lemma EndsExactly(s: Str, t: Str)
    ensures EndsWith(s, t) <==> Ends(s, t)
  {
    if EndsWith(s, t) {
      assert s[|s| - |t|..] == t;
    }
  }

  lemma SensitiveExactly(env: Env, key: Str)
    ensures SensitiveKey(env, key) <==> Sensitive(env.fold(key))
  {
    hide Contains, Inside, EndsWith, Ends, Lit;
    var folded := env.fold(key);
    forall t: Str
      ensures Contains(folded, t) <==> Inside(folded, t)
      ensures EndsWith(folded, t) <==> Ends(folded, t)
    {
      ContainsExactly(folded, t);
      EndsExactly(folded, t);
    }
  }

  /**
   The payload of every accepted record is an object with the members its event type requires and without
   a sensitive key at any depth; manual work names its recurrence.
   */
  lemma PayloadSpelled(env: Env, repo: Repo, c: Str, lines: seq<string>, i: nat)
    requires Run(env, repo, c, lines).Some? && i < |lines|
    ensures Field(lines[i], "payload").JObj?
    ensures exists kind, name :: (kind, name) in REQUIRED && Field(lines[i], "event_type") == JStr(Lit(kind))
    ensures forall kind, name :: (kind, name) in REQUIRED && Field(lines[i], "event_type") == JStr(Lit(kind)) ==>
              HasKey(Field(lines[i], "payload").members, Lit(name))
    ensures Field(lines[i], "event_type") == JStr(Lit("manual_work")) ==> Field(lines[i], "recurrence_key") != JNull
    ensures forall key :: KeyOccurs(Field(lines[i], "payload"), key) ==> !Sensitive(env.fold(key))
  {
    hide Run, RecordOk, Members, PayloadShape, Sensitive, Clean, SensitiveKey, KeyOccurs, HasKey;
    var st := AcceptedAt(env, repo, c, lines, i);
    RecordPayload(env, repo, c, lines[i], i, st);
    RequiredMembers(env, Members(lines[i]));
    CleanExactly(env, Field(lines[i], "payload"));
    forall key | KeyOccurs(Field(lines[i], "payload"), key)
      ensures !Sensitive(env.fold(key))
    {
      SensitiveExactly(env, key);
    }
  }

  lemma RecordPayload(env: Env, repo: Repo, c: Str, line: string, n: nat, st: State)
    requires RecordOk(env, repo, c, line, Members(line), n, st)
    ensures PayloadShape(env, Members(line)) && Clean(env, Field(line, "payload"))
  {
    hide CanonicalRecord, IdentityOk, ChainOk, ReferencesOk, AnchorsOk, Members, PayloadShape, Clean;
  }

  lemma LitInjective(a: string, b: string)
    requires Lit(a) == Lit(b)
    ensures a == b
  {
    forall i | 0 <= i < |a|
      ensures a[i] == b[i]
    {
      assert Lit(a)[i] == a[i] as int && Lit(b)[i] == b[i] as int;
    }
  }

  lemma RequiredMembers(env: Env, ms: seq<Member>)
    requires PayloadShape(env, ms)
    ensures Get(ms, Lit("payload")).JObj?
    ensures exists kind, name :: (kind, name) in REQUIRED && Get(ms, Lit("event_type")) == JStr(Lit(kind))
    ensures forall kind, name :: (kind, name) in REQUIRED && Get(ms, Lit("event_type")) == JStr(Lit(kind)) ==>
              HasKey(Get(ms, Lit("payload")).members, Lit(name))
    ensures Get(ms, Lit("event_type")) == JStr(Lit("manual_work")) ==> Get(ms, Lit("recurrence_key")) != JNull
  {
    var kind := Get(ms, Lit("event_type"));
    var k :| k in RequiredPayload && Lit(k) == kind.s
             && forall name | name in RequiredPayload[k] :: HasKey(Get(ms, Lit("payload")).members, Lit(name));
    forall other, name | (other, name) in REQUIRED && kind == JStr(Lit(other))
      ensures HasKey(Get(ms, Lit("payload")).members, Lit(name))
    {
      LitInjective(k, other);
      SameTable(other, name);
    }
    KnownTypes(k);
  }

  lemma SameTable(kind: string, name: string)
    ensures (kind, name) in REQUIRED ==> kind in RequiredPayload && name in RequiredPayload[kind]
  {
  }

  lemma KnownTypes(kind: string)
    requires kind in RequiredPayload
    ensures exists name :: (kind, name) in REQUIRED
  {
  }
}
