/**
 The bounded cache of immutable Git facts shared by all ledger snapshots, and the ledger verifier
 that reads through it.  Every outcome through the cache is justified by the cold reading.
 */
module AnchorCaches {
  import opened Prelude
  import opened LineText
  import opened JsonText
  import opened CanonicalJson
  import opened Ledger

  const MaxAnchorCommits := 4096
  const MaxAnchorRelations := 32 * 1024
  const MaxAnchorBlobs := 8192
  const MaxAnchorBlobBytes := 256 * 1024 * 1024

  /** OverBound: a review bound was reached, so the cold answer is not known. */
  datatype Outcome = Accepted | Rejected | OverBound

  type BlobKey = (Str, Str)

  function BlobSize(repo: Repo, key: BlobKey): nat {
    var b := repo.blob(key.0, key.1);
    if b.Some? then |b.value| else 0
  }

  ghost function TotalSize(repo: Repo, keys: set<BlobKey>): nat {
    if keys == {} then 0
    else
      var k :| k in keys;
      BlobSize(repo, k) + TotalSize(repo, keys - {k})
  }

  lemma {:induction false} TotalSizeAny(repo: Repo, keys: set<BlobKey>, k: BlobKey)
    requires k in keys
    ensures TotalSize(repo, keys) == BlobSize(repo, k) + TotalSize(repo, keys - {k})
  {
    var j :| j in keys && TotalSize(repo, keys) == BlobSize(repo, j) + TotalSize(repo, keys - {j});
    if j != k {
      TotalSizeAny(repo, keys - {j}, k);
      TotalSizeAny(repo, keys - {k}, j);
      assert keys - {j} - {k} == keys - {k} - {j};
    }
  }

  predicate DigestOk(env: Env, repo: Repo, key: BlobKey, digest: Str) {
    BlobOk(repo, key.0, key.1) && digest == BlobDigest(env, repo, key.0, key.1)
  }

  lemma AddDigest(env: Env, repo: Repo, digests: map<BlobKey, Str>, key: BlobKey)
    requires key !in digests && BlobOk(repo, key.0, key.1)
    requires forall k :: k in digests ==> DigestOk(env, repo, k, digests[k])
    ensures var more := digests[key := BlobDigest(env, repo, key.0, key.1)];
            && (forall k :: k in more ==> DigestOk(env, repo, k, more[k]))
            && TotalSize(repo, more.Keys) == BlobSize(repo, key) + TotalSize(repo, digests.Keys)
            && |more| == |digests| + 1
  {
    var more := digests[key := BlobDigest(env, repo, key.0, key.1)];
    assert more.Keys == digests.Keys + {key};
    TotalSizeAny(repo, more.Keys, key);
    assert more.Keys - {key} == digests.Keys;
    assert |more| == |more.Keys| && |digests| == |digests.Keys|;
  }

  class AnchorCache {
    var resolved: set<Str>
    var relations: set<(Str, Str)>
    var digests: map<BlobKey, Str>
    var blobBytes: nat

    constructor ()
      ensures resolved == {} && relations == {} && digests == map[] && blobBytes == 0
    {
      resolved, relations, digests, blobBytes := {}, {}, map[], 0;
    }

    /**
     Cached commits resolve, cached relations are true ancestries, cached digests are the hashes of
     their blobs, and blobBytes is the total size of the cached blobs, all within their bounds.
     */
    ghost predicate Coherent(env: Env, repo: Repo)
      reads this
    {
      && (forall c :: c in resolved ==> IsOid(c) && repo.resolves(c))
      && (forall r :: r in relations ==> repo.ancestor(r.0, r.1))
      && (forall k :: k in digests ==>
            DigestOk(env, repo, k, digests[k]))
      && blobBytes == TotalSize(repo, digests.Keys)
      && blobBytes <= MaxAnchorBlobBytes
      && |resolved| <= MaxAnchorCommits && |relations| <= MaxAnchorRelations && |digests| <= MaxAnchorBlobs
    }

    /** Some review bound stops the next new fact. */
    ghost predicate Exhausted(repo: Repo)
      reads this
    {
      || |resolved| == MaxAnchorCommits
      || |relations| == MaxAnchorRelations
      || |digests| == MaxAnchorBlobs
      || exists key: BlobKey ::
           key !in digests && BlobSize(repo, key) <= MaxEvidenceBlob &&
           blobBytes + BlobSize(repo, key) > MaxAnchorBlobBytes
    }

    method VerifyAnchorCommit(env: Env, repo: Repo, anchor: Str, containing: Str) returns (o: Outcome)
      requires Coherent(env, repo)
      modifies this
      ensures Coherent(env, repo)
      ensures o == Accepted ==> AnchorOk(repo, anchor, containing)
      ensures o == Rejected ==> !AnchorOk(repo, anchor, containing)
      ensures o == OverBound ==> Exhausted(repo)
      ensures o == OverBound ==>
                || (anchor !in old(resolved) && |old(resolved)| == MaxAnchorCommits)
                || ((anchor, containing) !in old(relations) && |old(relations)| == MaxAnchorRelations)
      ensures resolved == old(resolved) || resolved == old(resolved) + {anchor}
      ensures relations == if o == Accepted then old(relations) + {(anchor, containing)} else old(relations)
      ensures digests == old(digests) && blobBytes == old(blobBytes)
      ensures o == Accepted && (anchor, containing) !in old(relations) ==> anchor in resolved
    {
      if anchor !in resolved {
        if |resolved| >= MaxAnchorCommits {
          return OverBound;
        }
        if !IsOid(anchor) || !repo.resolves(anchor) {
          return Rejected;
        }
        resolved := resolved + {anchor};
      }
      if (anchor, containing) in relations {
        assert relations == old(relations) + {(anchor, containing)};
        return Accepted;
      }
      if |relations| >= MaxAnchorRelations {
        return OverBound;
      }
      if !repo.ancestor(anchor, containing) {
        return Rejected;
      }
      relations := relations + {(anchor, containing)};
      o := Accepted;
    }

    method RepositoryBlobDigest(env: Env, repo: Repo, commit: Str, path: Str) returns (o: Outcome, digest: Str)
      requires Coherent(env, repo)
      modifies this
      ensures Coherent(env, repo)
      ensures o == Accepted ==> BlobOk(repo, commit, path) && digest == BlobDigest(env, repo, commit, path)
      ensures o == Rejected ==> !BlobOk(repo, commit, path)
      ensures o == OverBound ==> Exhausted(repo)
      ensures o == OverBound ==>
                (commit, path) !in old(digests) &&
                (|old(digests)| == MaxAnchorBlobs ||
                 old(blobBytes) + BlobSize(repo, (commit, path)) > MaxAnchorBlobBytes)
      ensures resolved == old(resolved) && relations == old(relations)
      ensures digests == if o == Accepted then old(digests)[(commit, path) := digest] else old(digests)
    {
      digest := [];
      var key := (commit, path);
      if key in digests {
        assert digests == digests[key := digests[key]];
        return Accepted, digests[key];
      }
      if |digests| >= MaxAnchorBlobs {
        return OverBound, [];
      }
      var blob := repo.blob(commit, path);
      if blob.None? || |blob.value| > MaxEvidenceBlob {
        return Rejected, [];
      }
      var size := |blob.value|;
      if blobBytes + size > MaxAnchorBlobBytes {
        return OverBound, [];
      }
      digest := env.sha(blob.value);
      AddDigest(env, repo, digests, key);
      digests := digests[key := digest];
      blobBytes := blobBytes + size;
      o := Accepted;
    }

    method VerifyEvidenceItem(env: Env, repo: Repo, containing: Str, v: Json) returns (o: Outcome)
      requires Coherent(env, repo)
      modifies this
      ensures Coherent(env, repo)
      ensures o == Accepted ==> EvidenceOk(env, repo, containing, v)
      ensures o == Rejected ==> !EvidenceOk(env, repo, containing, v)
      ensures o == OverBound ==> Exhausted(repo)
    {
      if !EvidenceShape(env, v) {
        return Rejected;
      }
      if !Anchored(env, v) {
        return Accepted;
      }
      var commit, uri, sha :=
        Get(v.members, Lit("git_commit")).s, Get(v.members, Lit("uri")).s, Get(v.members, Lit("sha256"));
      o := VerifyAnchorCommit(env, repo, commit, containing);
      if o != Accepted {
        return;
      }
      var digest;
      o, digest := RepositoryBlobDigest(env, repo, commit, uri);
      if o == Accepted && sha.JStr? && digest != sha.s {
        o := Rejected;
      }
    }

    method VerifyEvidence(env: Env, repo: Repo, containing: Str, items: seq<Json>) returns (o: Outcome)
      requires Coherent(env, repo)
      modifies this
      ensures Coherent(env, repo)
      ensures o == Accepted ==> forall v | v in items :: EvidenceOk(env, repo, containing, v)
      ensures o == Rejected ==> !(forall v | v in items :: EvidenceOk(env, repo, containing, v))
      ensures o == OverBound ==> Exhausted(repo)
    {
      for i := 0 to |items|
        invariant Coherent(env, repo)
        invariant forall v | v in items[..i] :: EvidenceOk(env, repo, containing, v)
      {
        o := VerifyEvidenceItem(env, repo, containing, items[i]);
        if o != Accepted {
          return;
        }
        assert items[..i + 1] == items[..i] + [items[i]];
      }
      assert items[..|items|] == items;
      o := Accepted;
    }

    /** One record, read through the cache, in the verifier's order of checks. */
    method VerifyRecord(env: Env, repo: Repo, containing: Str, line: string, n: nat, st: State) returns (o: Outcome)
      requires Coherent(env, repo)
      modifies this
      ensures Coherent(env, repo)
      ensures o == Accepted ==> RecordOk(env, repo, containing, line, Members(line), n, st)
      ensures o == Rejected ==> !RecordOk(env, repo, containing, line, Members(line), n, st)
      ensures o == OverBound ==> Exhausted(repo)
    {
      var ms := Members(line);
      if !CanonicalRecord(line, ms) || !IdentityOk(ms, st.inbar) {
        return Rejected;
      }
      var source, evidence := Get(ms, Lit("source_commit")), Get(ms, Lit("evidence"));
      if !source.JStr? {
        return Rejected;
      }
      o := VerifyAnchorCommit(env, repo, source.s, containing);
      if o != Accepted {
        return;
      }
      if !ChainOk(env, ms, n, st.previous) || !PayloadShape(env, ms) || !evidence.JArr? {
        return Rejected;
      }
      var clean := PayloadIsClean(env, Get(ms, Lit("payload")));
      if !clean {
        return Rejected;
      }
      o := VerifyEvidence(env, repo, containing, evidence.items);
      if o == Accepted && !ReferencesOk(ms, st.ids) {
        o := Rejected;
      }
    }

    method VerifyMemoryBytes(env: Env, repo: Repo, containing: Str, data: string) returns (o: Outcome)
      requires Coherent(env, repo)
      modifies this
      ensures Coherent(env, repo)
      ensures o == Accepted ==> Accepts(env, repo, containing, data)
      ensures o == Rejected ==> !Accepts(env, repo, containing, data)
      ensures o == OverBound ==> Exhausted(repo)
    {
      if !Framed(data) {
        return Rejected;
      }
      var lines := Lines(data);
      var st := Genesis;
      RunNone(env, repo, containing);
      for n := 0 to |lines|
        invariant Coherent(env, repo)
        invariant Run(env, repo, containing, lines[..n]) == Some(st)
      {
        hide *;
        o := VerifyRecord(env, repo, containing, lines[n], n, st);
        if o == Rejected {
          RunStops(env, repo, containing, lines, n, st);
        }
        if o != Accepted {
          return;
        }
        RunSteps(env, repo, containing, lines, n, st);
        var ms := Members(lines[n]);
        st := Next(ms, st);
      }
      assert lines[..|lines|] == lines;
      o := Accepted;
    }
  }

  lemma RunNone(env: Env, repo: Repo, c: Str)
    ensures Run(env, repo, c, []) == Some(Genesis)
  {
  }

  lemma RecordStrings(env: Env, repo: Repo, c: Str, line: string, ms: seq<Member>, n: nat, st: State)
    requires RecordOk(env, repo, c, line, ms, n, st)
    ensures Get(ms, Lit("event_hash")).JStr? && Get(ms, Lit("event_id")).JStr?
  {
    hide CanonicalRecord, IdentityOk, PayloadOk, AnchorsOk;
  }

  lemma RunSteps(env: Env, repo: Repo, c: Str, lines: seq<string>, n: nat, st: State)
    requires n < |lines| && Run(env, repo, c, lines[..n]) == Some(st)
    requires RecordOk(env, repo, c, lines[n], Members(lines[n]), n, st)
    ensures Get(Members(lines[n]), Lit("event_hash")).JStr? && Get(Members(lines[n]), Lit("event_id")).JStr?
    ensures Run(env, repo, c, lines[..n + 1]) == Some(Next(Members(lines[n]), st))
  {
    hide RecordOk, Members;
    RecordStrings(env, repo, c, lines[n], Members(lines[n]), n, st);
    assert lines[..n + 1][..n] == lines[..n];
    assert lines[..n + 1][n] == lines[n];
  }

  lemma RunStops(env: Env, repo: Repo, c: Str, lines: seq<string>, n: nat, st: State)
    requires n < |lines| && Run(env, repo, c, lines[..n]) == Some(st)
    requires !RecordOk(env, repo, c, lines[n], Members(lines[n]), n, st)
    ensures Run(env, repo, c, lines).None?
  {
    hide RecordOk, Members;
    assert lines[..n + 1][..n] == lines[..n];
    assert lines[..n + 1][n] == lines[n];
    assert Run(env, repo, c, lines[..n + 1]).None?;
    if Run(env, repo, c, lines).Some? {
      RunPrefix(env, repo, c, lines, n + 1);
    }
  }
}
