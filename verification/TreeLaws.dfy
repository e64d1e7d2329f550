/** What acceptance of ranges, receipts and trees says in commits, paths and numbers. */
module TreeLaws {
  import opened Prelude
  import F = Finalization
  import H = History
  import J = JsonText
  import L = Ledger
  import W = RecoveryWalk

  // ----- recovery walk

  const ROOTS: set<string> := {".git", ".local", ".venv", "data", "dist"}
  const CACHE_NAMES: set<string> :=
    {".cache", ".hypothesis", ".mypy_cache", ".pytest_cache", ".ruff_cache", "__pycache__", "htmlcov"}
  const SKIPPED: set<W.Path> := {["HANDOFF.md"], ["memory", "research_engine_extraction.jsonl"], [".coverage"]}

  lemma SkippedExactly(path: W.Path)
    ensures W.Special(path) <==> path in SKIPPED
  {
  }

  lemma SameNames()
    ensures W.EXCLUDED_ROOTS == ROOTS && W.CACHES == CACHE_NAMES
  {
  }

  /** The flat rule: not under an excluded root, no cache directory above, and none of the three paths. */
  lemma SelectedSpelled(path: W.Path)
    requires path != []
    ensures W.Selected(path) <==>
            path[0] !in ROOTS && path !in SKIPPED && forall k :: 0 <= k < |path| - 1 ==> path[k] !in CACHE_NAMES
  {
    SameNames();
    SkippedExactly(path);
  }

  /**
   The walk reaches exactly the leaves that are not under an excluded root, have no cache directory above
   them, and are neither one of the three paths nor below one.
   */
  lemma VisitedSpelled(tree: seq<W.Entry>)
    ensures forall l :: l in W.AllLeaves(tree, []) ==> l.path != []
    ensures forall l :: l in W.VisitedLeaves(tree, []) <==>
              && l in W.AllLeaves(tree, []) && l.path[0] !in ROOTS
              && (forall k :: 0 <= k < |l.path| - 1 ==> l.path[k] !in CACHE_NAMES)
              && forall k :: 0 < k <= |l.path| ==> l.path[..k] !in SKIPPED
  {
    W.VisitedExactly(tree);
    W.LeavesBelow(tree, []);
    hide W.AllLeaves, W.VisitedLeaves, W.Selected, W.UnderSpecial, ROOTS, CACHE_NAMES, SKIPPED;
    forall l | l in W.AllLeaves(tree, [])
      ensures W.Selected(l.path) && !W.UnderSpecial(l.path) <==>
              && l.path[0] !in ROOTS
              && (forall k :: 0 <= k < |l.path| - 1 ==> l.path[k] !in CACHE_NAMES)
              && forall k :: 0 < k <= |l.path| ==> l.path[..k] !in SKIPPED
    {
      SelectedSpelled(l.path);
      UnderSpelled(l.path);
    }
  }

  lemma UnderSpelled(path: W.Path)
    requires path != []
    ensures path !in SKIPPED && !W.UnderSpecial(path) <==> forall k :: 0 < k <= |path| ==> path[..k] !in SKIPPED
  {
    assert path[..|path|] == path;
    forall k | 0 < k <= |path|
      ensures W.Special(path[..k]) <==> path[..k] in SKIPPED
    {
      SkippedExactly(path[..k]);
    }
    hide W.Special;
  }

  lemma PosixSpelled()
    ensures W.Posix(["a", "b", "c"]) == "a/b/c" && W.Posix(["a"]) == "a" && W.Posix([]) == ""
  {
    assert ["a", "b", "c"][1..] == ["b", "c"] && ["b", "c"][1..] == ["c"];
    assert W.Posix(["b", "c"]) == "b" + "/" + "c";
  }

  /** The depth tally is the length of the longest visited directory path below. */
  lemma {:induction false} DepthIsLongest(entries: seq<W.Entry>, path: W.Path)
    ensures forall d :: d in W.DirectoriesUnder(entries, path) ==>
              |d.path| <= |path| + W.TallyUnder(entries, path).depth
    ensures W.TallyUnder(entries, path).depth > 0 ==>
              exists d :: d in W.DirectoriesUnder(entries, path) &&
                          |d.path| == |path| + W.TallyUnder(entries, path).depth
    decreases entries
  {
    hide W.TallyOf, W.DirectoriesOf;
    if entries != [] {
      var init, last := entries[..|entries| - 1], entries[|entries| - 1];
      DepthIsLongest(init, path);
      DepthOfOne(last, path);
    }
  }

  lemma {:induction false} DepthOfOne(entry: W.Entry, path: W.Path)
    ensures forall d :: d in W.DirectoriesOf(entry, path) ==> |d.path| <= |path| + W.TallyOf(entry, path).depth
    ensures W.TallyOf(entry, path).depth > 0 ==>
              exists d :: d in W.DirectoriesOf(entry, path) && |d.path| == |path| + W.TallyOf(entry, path).depth
    decreases entry
  {
    hide W.Excluded, W.TallyUnder, W.DirectoriesUnder;
    var child := path + [entry.name];
    if !W.Excluded(child, entry.node.Dir?) && entry.node.Dir? {
      var own := W.Directory(child, W.Included(entry.node.entries, child));
      DepthIsLongest(entry.node.entries, child);
      assert W.DirectoriesOf(entry, path) == W.DirectoriesUnder(entry.node.entries, child) + [own];
      assert own in W.DirectoriesOf(entry, path);
    }
  }

  /** What a tree within the limits has: readable files, and at most so many of everything. */
  lemma LimitsSpelled(tree: seq<W.Entry>)
    ensures W.TreeFits(tree) <==>
            && (forall l :: l in W.VisitedLeaves(tree, []) ==> l.node.File? && l.node.size <= 16777216)
            && |W.VisitedLeaves(tree, [])| <= 4096 && Sum(W.Sizes(W.VisitedLeaves(tree, []))) <= 67108864
            && |W.DirectoriesUnder(tree, [])| + 1 <= 4096 && |tree| + W.TallyUnder(tree, []).names <= 8192
            && forall d :: d in W.DirectoriesUnder(tree, []) ==> |d.path| <= 64
  {
    W.TallyCounts(tree, []);
    DepthIsLongest(tree, []);
    hide W.TallyUnder, W.VisitedLeaves, W.DirectoriesUnder, W.Sizes;
    var t := W.TallyUnder(tree, []);
    assert t.readable <==> forall l :: l in W.VisitedLeaves(tree, []) ==> l.node.File? && l.node.size <= 16777216;
    assert t.depth <= 64 <==> forall d :: d in W.DirectoriesUnder(tree, []) ==> |d.path| <= 64;
  }

  // ----- receipts

  predicate RegularBlob(t: F.Tree, path: string) {
    path in t && t[path].mode == "100644" && |t[path].content| <= 16777216
  }

  /**
   Where an accepted receipt's commits stand: the evidence is the subject's only child in line; HEAD is the
   evidence, or its final child, or a merge of a proper ancestor of the evidence with that child, and then
   the ledger and the handoff are regular files at the final commit.
   */
  lemma AcceptedLineage(
    repo: F.Repo, worktree: map<string, string>, subject: string, evidence: string, receiptId: string,
    bundle: seq<F.Artifact>)
    requires F.ReceiptChecks(repo, worktree, subject, evidence, receiptId, bundle).Ok?
    ensures repo.parents(evidence) == [subject]
    ensures repo.head != evidence ==>
              exists final ::
                && repo.parents(final) == [evidence]
                && (|| final == repo.head
                    || exists base :: && repo.parents(repo.head) == [base, final]
                                      && base != evidence && repo.ancestor(base, evidence)
                                      && repo.treeId(repo.tree(repo.head)) == repo.treeId(repo.tree(final)))
                && RegularBlob(repo.tree(evidence), "memory/research_engine_extraction.jsonl")
                && RegularBlob(repo.tree(final), "memory/research_engine_extraction.jsonl")
                && RegularBlob(repo.tree(final), "HANDOFF.md")
  {
    hide F.Topology, F.Finalizes;
    F.TopologyExactly(repo, evidence);
    var topology := F.Topology(repo, evidence);
    if topology.value {
      assert topology == Ok(true);
    } else {
      assert topology == Ok(false);
      var final := F.Finalized(repo);
      FinalBlobs(repo.tree(evidence), repo.tree(final));
      if |repo.parents(repo.head)| == 2 {
        assert repo.parents(repo.head) == [repo.parents(repo.head)[0], final];
      }
    }
  }

  lemma FinalBlobs(before: F.Tree, after: F.Tree)
    requires F.Finalizes(before, after)
    ensures RegularBlob(before, "memory/research_engine_extraction.jsonl")
    ensures RegularBlob(after, "memory/research_engine_extraction.jsonl") && RegularBlob(after, "HANDOFF.md")
  {
  }

  // ----- ranges

  /** Every commit and every edge of an accepted range passed each policy, and every ledger is a bounded blob. */
  lemma RangeSpelled(
    env: L.Env, repo: L.Repo, policy: H.Policy, base: J.Str, head: J.Str, rows: seq<H.Row>, row: H.Row)
    requires H.HistoryOk(env, repo, policy, base, head, rows) && row in rows
    ensures repo.resolves(base) && repo.resolves(head) && repo.ancestor(base, head) && 1 <= |rows| <= 512
    ensures policy.ceremonyOk && policy.commitOk(row.commit) && policy.treeOk(row.commit) && row.parents != []
    ensures forall p | p in row.parents :: policy.edgeOk(p, row.commit) && policy.whitespaceOk(p, row.commit)
    ensures forall c | c == row.commit || c in row.parents ::
              match repo.blob(c, L.Lit("memory/research_engine_extraction.jsonl"))
              case None => false
              case Some(data) => |data| <= 16777216 && L.Accepts(env, repo, c, data)
  {
    hide L.Accepts;
    assert H.RowOk(env, repo, policy, row);
    forall p | p in row.parents
      ensures H.EdgeOk(env, repo, policy, p, row.commit)
    {
    }
  }
}
