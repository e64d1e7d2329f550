/** Finalization of a validated commit: the commits after it change exactly what they may. */
module Finalization {
  import opened Prelude

  type Commit = string
  type Path = string

  datatype Object = Object(mode: string, content: string)

  /** Every file of a commit, by path. */
  type Tree = map<Path, Object>

  datatype Repo = Repo(
    head: Commit,
    parents: Commit -> seq<Commit>,
    tree: Commit -> Tree,
    treeId: Tree -> string,
    ancestor: (Commit, Commit) -> bool)

  datatype FinalizationError =
    | NotSingleChild | UnexpectedChanges | NotABlob | NotAnAppend
    | BadIntegrationBase | WrapperChangesTree | BadTopology
    | NotChildOfSubject | BundleDiffers | UnlistedArtifact | OutsideBundle

  const HANDOFF: Path := "HANDOFF.md"
  const MEMORY: Path := "memory/research_engine_extraction.jsonl"
  const MAX_INPUT_BYTES: nat := 16 * 1024 * 1024

  function At(t: Tree, p: Path): Option<Object> {
    if p in t then Some(t[p]) else None
  }

  /** The paths whose mode or content differs, or that only one side has. */
  function ChangedPaths(before: Tree, after: Tree): (r: set<Path>)
    ensures forall p :: p in r <==> At(before, p) != At(after, p)
  {
    set p | p in before.Keys + after.Keys && At(before, p) != At(after, p)
  }

  /** A regular non-executable file within the size bound. */
  function Blob(t: Tree, p: Path, limit: nat): Option<string> {
    if p in t && t[p].mode == "100644" && |t[p].content| <= limit then Some(t[p].content) else None
  }

  predicate StrictPrefix(a: string, b: string) {
    |a| < |b| && a <= b
  }

  /** None, or the reason the commit is not the evidence's final handoff. */
  function FinalHandoff(repo: Repo, evidence: Commit, final: Commit): Option<FinalizationError> {
    var was, now := repo.tree(evidence), repo.tree(final);
    if repo.parents(final) != [evidence] then Some(NotSingleChild)
    else if ChangedPaths(was, now) != {MEMORY, HANDOFF} then Some(UnexpectedChanges)
    else if Blob(was, MEMORY, MAX_INPUT_BYTES).None? then Some(NotABlob)
    else if Blob(now, MEMORY, MAX_INPUT_BYTES).None? then Some(NotABlob)
    else if Blob(now, HANDOFF, MAX_INPUT_BYTES).None? then Some(NotABlob)
    else if !StrictPrefix(was[MEMORY].content, now[MEMORY].content) then Some(NotAnAppend)
    else None
  }

  /** Ok(true) when HEAD is still the evidence commit, Ok(false) when it is finalized. */
  function Topology(repo: Repo, evidence: Commit): Result<bool, FinalizationError> {
    var parents := repo.parents(repo.head);
    if repo.head == evidence then Ok(true)
    else if |parents| == 1 then Checked(FinalHandoff(repo, evidence, repo.head))
    else if |parents| == 2 then
      if parents[0] == evidence || !repo.ancestor(parents[0], evidence) then Err(BadIntegrationBase)
      else if repo.treeId(repo.tree(repo.head)) != repo.treeId(repo.tree(parents[1])) then Err(WrapperChangesTree)
      else Checked(FinalHandoff(repo, evidence, parents[1]))
    else Err(BadTopology)
  }

  function Checked(e: Option<FinalizationError>): Result<bool, FinalizationError> {
    if e.Some? then Err(e.value) else Ok(false)
  }

  // ----- the receipt's commit

  /** A committed artifact with its size bound. */
  datatype Artifact = Artifact(path: Path, limit: nat)

  function Paths(artifacts: seq<Artifact>): (r: set<Path>)
    ensures forall p :: p in r <==> exists a :: a in artifacts && a.path == p
  {
    set a | a in artifacts :: a.path
  }

  predicate Below(root: Path, p: Path) {
    p == root || root + "/" <= p
  }

  function TreePaths(t: Tree, root: Path): (r: set<Path>)
    ensures forall p :: p in r <==> p in t && Below(root, p)
  {
    set p | p in t && Below(root, p)
  }

  function EvidenceRoot(receiptId: string): Path {
    "evidence/validation/" + receiptId
  }

  /** The commit checks of a receipt whose bundle is the receipt file and its artifacts. */
  function ReceiptChecks(
    repo: Repo, worktree: map<Path, string>, subject: Commit, evidence: Commit, receiptId: string,
    bundle: seq<Artifact>)
    : Result<bool, FinalizationError>
  {
    var t := repo.tree(evidence);
    if repo.parents(evidence) != [subject] then Err(NotChildOfSubject)
    else
      var topology := Topology(repo, evidence);
      if topology.Err? then topology
      else if exists a | a in bundle :: a.path !in worktree || Blob(t, a.path, a.limit) != Some(worktree[a.path])
      then Err(BundleDiffers)
      else if TreePaths(t, EvidenceRoot(receiptId)) != Paths(bundle) then Err(UnlistedArtifact)
      else if ChangedPaths(repo.tree(subject), t) != Paths(bundle) then Err(OutsideBundle)
      else topology
  }

  // ----- what acceptance means

  /** HEAD is a two-parent commit whose tree differs from its second parent's under one object ID. */
  predicate WrapperClash(repo: Repo) {
    var head, final := repo.tree(repo.head), repo.tree(Finalized(repo));
    |repo.parents(repo.head)| == 2 && head != final && repo.treeId(head) == repo.treeId(final)
  }

  /** after is before with the ledger strictly extended, HANDOFF.md changed, and nothing else. */
  predicate Finalizes(before: Tree, after: Tree) {
    && (forall p :: p in before.Keys + after.Keys && p != MEMORY && p != HANDOFF ==> At(before, p) == At(after, p))
    && At(before, HANDOFF) != At(after, HANDOFF) && Blob(after, HANDOFF, MAX_INPUT_BYTES).Some?
    && Blob(before, MEMORY, MAX_INPUT_BYTES).Some? && Blob(after, MEMORY, MAX_INPUT_BYTES).Some?
    && StrictPrefix(before[MEMORY].content, after[MEMORY].content)
  }

  lemma FinalHandoffExactly(repo: Repo, evidence: Commit, final: Commit)
    ensures FinalHandoff(repo, evidence, final) == None <==>
            repo.parents(final) == [evidence] && Finalizes(repo.tree(evidence), repo.tree(final))
  {
    var was, now := repo.tree(evidence), repo.tree(final);
    if FinalHandoff(repo, evidence, final) == None {
      forall p | p in was.Keys + now.Keys && p != MEMORY && p != HANDOFF
        ensures At(was, p) == At(now, p)
      {
        assert p !in ChangedPaths(was, now);
      }
      assert HANDOFF in ChangedPaths(was, now);
    }
    if Finalizes(was, now) {
      assert At(was, MEMORY) != At(now, MEMORY);
      forall p
        ensures p in ChangedPaths(was, now) <==> p in {MEMORY, HANDOFF}
      {
        if p !in was.Keys + now.Keys {
          assert At(was, p) == At(now, p);
        }
      }
    }
  }

  /** The finalized commit HEAD stands for: itself, or the second parent of a two-parent wrapper. */
  function Finalized(repo: Repo): Commit {
    var parents := repo.parents(repo.head);
    if |parents| == 2 then parents[1] else repo.head
  }

  predicate Wrapper(repo: Repo, evidence: Commit) {
    var parents := repo.parents(repo.head);
    && |parents| == 2 && parents[0] != evidence && repo.ancestor(parents[0], evidence)
    && repo.treeId(repo.tree(repo.head)) == repo.treeId(repo.tree(parents[1]))
  }

  /** The topology is accepted in exactly three shapes. */
  lemma TopologyExactly(repo: Repo, evidence: Commit)
    ensures Topology(repo, evidence) == Ok(true) <==> repo.head == evidence
    ensures Topology(repo, evidence) == Ok(false) <==>
            && repo.head != evidence
            && (|repo.parents(repo.head)| == 1 || Wrapper(repo, evidence))
            && repo.parents(Finalized(repo)) == [evidence] && Finalizes(repo.tree(evidence), repo.tree(Finalized(repo)))
  {
    hide FinalHandoff, Finalizes;
    FinalHandoffExactly(repo, evidence, Finalized(repo));
  }

  /** A wrapper is accepted exactly when its second parent, as HEAD, is a plain final commit: one wrapper, never two. */
  lemma WrapperIsTransparent(repo: Repo, evidence: Commit)
    requires Wrapper(repo, evidence) && Finalized(repo) != evidence && repo.head != evidence
    ensures Topology(repo, evidence) == Ok(false) <==>
            |repo.parents(Finalized(repo))| == 1 && Topology(repo.(head := Finalized(repo)), evidence) == Ok(false)
    ensures WrapperClash(repo) || repo.tree(repo.head) == repo.tree(Finalized(repo))
  {
    hide Finalizes;
    TopologyExactly(repo, evidence);
    TopologyExactly(repo.(head := Finalized(repo)), evidence);
  }

  lemma BundleApart(receiptId: string, p: Path)
    requires Below(EvidenceRoot(receiptId), p)
    ensures p != MEMORY && p != HANDOFF
  {
    assert EvidenceRoot(receiptId)[0] == 'e';
    assert p[0] == 'e';
  }

  /**
   When the receipt's commit checks accept, unless HEAD's and its parent's trees clash: outside the bundle,
   the ledger and HANDOFF.md every path is at HEAD as in the validated subject; the bundle at HEAD is
   the evidence commit's and the one read from the worktree; and HEAD's ledger is the subject's while
   HEAD is the evidence commit, and strictly extends it afterwards.
   */
  lemma AcceptedHeadCarriesSubject(
    repo: Repo, worktree: map<Path, string>, subject: Commit, evidence: Commit, receiptId: string,
    bundle: seq<Artifact>)
    requires ReceiptChecks(repo, worktree, subject, evidence, receiptId, bundle).Ok?
    ensures WrapperClash(repo) ||
            var head, start := repo.tree(repo.head), repo.tree(subject);
            && (forall p :: p !in Paths(bundle) && p != MEMORY && p != HANDOFF ==> At(head, p) == At(start, p))
            && (forall p :: p in Paths(bundle) ==>
                  && p in worktree && At(head, p) == Some(Object("100644", worktree[p]))
                  && At(head, p) == At(repo.tree(evidence), p) && At(head, p) != At(start, p))
            && (repo.head == evidence ==>
                 At(head, MEMORY) == At(start, MEMORY) && At(head, HANDOFF) == At(start, HANDOFF))
            && (repo.head != evidence ==>
                  && MEMORY in start && MEMORY in head && StrictPrefix(start[MEMORY].content, head[MEMORY].content)
                  && HANDOFF in head && At(head, HANDOFF) != At(start, HANDOFF))
  {
    hide Topology, Finalizes, Below;
    var t := repo.tree(evidence);
    TopologyExactly(repo, evidence);
    var topology := Topology(repo, evidence);
    if topology.value {
      assert topology == Ok(true);
    } else {
      assert topology == Ok(false);
    }
    if !WrapperClash(repo) {
      forall p | p in Paths(bundle)
        ensures p != MEMORY && p != HANDOFF && p in worktree && At(t, p) == Some(Object("100644", worktree[p]))
      {
        assert p in TreePaths(t, EvidenceRoot(receiptId));
        BundleApart(receiptId, p);
        var a :| a in bundle && a.path == p;
      }
      assert MEMORY !in Paths(bundle) && HANDOFF !in Paths(bundle);
      if repo.head != evidence {
        HeadTree(repo, evidence);
        FinalizedPaths(t, repo.tree(repo.head));
      }
    }
  }

  lemma HeadTree(repo: Repo, evidence: Commit)
    requires Topology(repo, evidence) == Ok(false) && !WrapperClash(repo)
    ensures Finalizes(repo.tree(evidence), repo.tree(repo.head))
  {
    hide Finalizes;
    TopologyExactly(repo, evidence);
    if Wrapper(repo, evidence) {
      assert repo.tree(repo.head) == repo.tree(Finalized(repo));
    }
  }

  lemma FinalizedPaths(before: Tree, after: Tree)
    requires Finalizes(before, after)
    ensures forall p :: p != MEMORY && p != HANDOFF ==> At(before, p) == At(after, p)
    ensures MEMORY in before && MEMORY in after && StrictPrefix(before[MEMORY].content, after[MEMORY].content)
    ensures HANDOFF in after && At(before, HANDOFF) != At(after, HANDOFF)
  {
    forall p | p != MEMORY && p != HANDOFF
      ensures At(before, p) == At(after, p)
    {
      assert p in before.Keys + after.Keys ==> At(before, p) == At(after, p);
    }
  }
}
