/** Append-only verification of the ledger over every commit and edge of an exact Git range. */
module History {
  import opened Prelude
  import opened LineText
  import opened JsonText
  import opened Ledger
  import opened AnchorCaches

  const MemoryPath: Str := Lit("memory/research_engine_extraction.jsonl")
  const MaxMemoryBytes := 16 * 1024 * 1024
  const MaxCommits := 512

  /** One line of rev-list --parents: a commit and its parents. */
  datatype Row = Row(commit: Str, parents: seq<Str>)

  /** The policies that read no ledger: commit objects, trees, protected paths, whitespace, bootstrap. */
  datatype Policy = Policy(
    commitOk: Str -> bool,
    treeOk: Str -> bool,
    edgeOk: (Str, Str) -> bool,
    whitespaceOk: (Str, Str) -> bool,
    ceremonyOk: bool)

  /** The ledger at a commit is present, bounded and accepted by the cold reading. */
  predicate MemoryOk(env: Env, repo: Repo, commit: Str) {
    var b := repo.blob(commit, MemoryPath);
    b.Some? && |b.value| <= MaxMemoryBytes && Accepts(env, repo, commit, b.value)
  }

  function Memory(repo: Repo, commit: Str): string {
    var b := repo.blob(commit, MemoryPath);
    if b.Some? then b.value else ""
  }

  function Records(repo: Repo, commit: Str): seq<string> {
    Lines(Memory(repo, commit))
  }

  predicate EdgeOk(env: Env, repo: Repo, policy: Policy, parent: Str, commit: Str) {
    && policy.edgeOk(parent, commit)
    && MemoryOk(env, repo, parent)
    && Memory(repo, parent) <= Memory(repo, commit)
    && policy.whitespaceOk(parent, commit)
  }

  predicate RowOk(env: Env, repo: Repo, policy: Policy, row: Row) {
    && IsOid(row.commit) && (forall p | p in row.parents :: IsOid(p)) && row.parents != []
    && policy.commitOk(row.commit) && policy.treeOk(row.commit)
    && MemoryOk(env, repo, row.commit)
    && forall p | p in row.parents :: EdgeOk(env, repo, policy, p, row.commit)
  }

  predicate RangeOk(repo: Repo, base: Str, head: Str, rows: seq<Row>) {
    && IsOid(base) && repo.resolves(base) && IsOid(head) && repo.resolves(head)
    && repo.ancestor(base, head)
    && 0 < |rows| <= MaxCommits
  }

  /** The cold verdict on a range. */
  predicate HistoryOk(env: Env, repo: Repo, policy: Policy, base: Str, head: Str, rows: seq<Row>) {
    && RangeOk(repo, base, head, rows)
    && policy.ceremonyOk
    && RowsOk(env, repo, policy, rows)
  }

  function EdgeCount(rows: seq<Row>): nat {
    if rows == [] then 0 else EdgeCount(rows[..|rows| - 1]) + |rows[|rows| - 1].parents|
  }

  // ----- the verifier and its two caches

  class MemoryCache {
    var blobs: map<Str, string>

    constructor ()
      ensures blobs == map[]
    {
      blobs := map[];
    }

    /** Every cached ledger is the commit's own and was accepted. */
    ghost predicate Coherent(env: Env, repo: Repo)
      reads this
    {
      forall c :: c in blobs ==> MemoryOk(env, repo, c) && blobs[c] == Memory(repo, c)
    }

    method MemoryBlob(env: Env, repo: Repo, commit: Str, anchors: AnchorCache) returns (o: Outcome, data: string)
      requires Coherent(env, repo) && anchors.Coherent(env, repo)
      modifies this, anchors
      ensures Coherent(env, repo) && anchors.Coherent(env, repo)
      ensures o == Accepted ==> MemoryOk(env, repo, commit) && data == Memory(repo, commit)
      ensures o == Rejected ==> !MemoryOk(env, repo, commit)
      ensures o == OverBound ==> anchors.Exhausted(repo)
      ensures blobs == if o == Accepted then old(blobs)[commit := data] else old(blobs)
    {
      hide Accepts, AnchorCache.Coherent, AnchorCache.Exhausted;
      data := "";
      if commit in blobs {
        assert blobs == blobs[commit := blobs[commit]];
        return Accepted, blobs[commit];
      }
      var blob := repo.blob(commit, MemoryPath);
      if blob.None? || |blob.value| > MaxMemoryBytes {
        return Rejected, "";
      }
      o := anchors.VerifyMemoryBytes(env, repo, commit, blob.value);
      if o == Accepted {
        data := blob.value;
        blobs := blobs[commit := data];
      }
    }
  }

  method VerifyRow(env: Env, repo: Repo, policy: Policy, row: Row, cache: MemoryCache, anchors: AnchorCache)
    returns (o: Outcome, edges: nat)
    requires cache.Coherent(env, repo) && anchors.Coherent(env, repo)
    modifies cache, anchors
    ensures cache.Coherent(env, repo) && anchors.Coherent(env, repo)
    ensures o == Accepted ==> RowOk(env, repo, policy, row) && edges == |row.parents|
    ensures o == Rejected ==> !RowOk(env, repo, policy, row)
    ensures o == OverBound ==> anchors.Exhausted(repo)
  {
    hide MemoryOk, Memory, MemoryCache.Coherent, AnchorCache.Coherent, AnchorCache.Exhausted;
    edges := 0;
    var commit, parents := row.commit, row.parents;
    if !IsOid(commit) || !(forall p | p in parents :: IsOid(p)) || parents == [] {
      return Rejected, 0;
    }
    if !policy.commitOk(commit) || !policy.treeOk(commit) {
      return Rejected, 0;
    }
    var current;
    o, current := cache.MemoryBlob(env, repo, commit, anchors);
    if o != Accepted {
      return;
    }
    for i := 0 to |parents|
      invariant cache.Coherent(env, repo) && anchors.Coherent(env, repo)
      invariant forall p | p in parents[..i] :: EdgeOk(env, repo, policy, p, commit)
      invariant edges == i
    {
      var parent := parents[i];
      assert parent in parents;
      if !policy.edgeOk(parent, commit) {
        return Rejected, edges;
      }
      var before;
      o, before := cache.MemoryBlob(env, repo, parent, anchors);
      if o != Accepted {
        return;
      }
      if !(before <= current) || !policy.whitespaceOk(parent, commit) {
        return Rejected, edges;
      }
      edges := edges + 1;
      assert parents[..i + 1] == parents[..i] + [parent];
    }
    assert parents[..|parents|] == parents;
    o := Accepted;
  }

  method VerifyHistory(env: Env, repo: Repo, policy: Policy, base: Str, head: Str, rows: seq<Row>)
    returns (o: Outcome, commits: nat, edges: nat, ghost anchors: AnchorCache)
    ensures o == Accepted ==>
              HistoryOk(env, repo, policy, base, head, rows) && commits == |rows| && edges == EdgeCount(rows)
    ensures o == Rejected ==> !HistoryOk(env, repo, policy, base, head, rows)
    ensures fresh(anchors) && anchors.Coherent(env, repo)
    ensures o == OverBound ==> anchors.Exhausted(repo)
  {
    var cache := new MemoryCache();
    var facts := new AnchorCache();
    anchors := facts;
    commits, edges := 0, 0;
    if !RangeOk(repo, base, head, rows) || !policy.ceremonyOk {
      o := Rejected;
      return;
    }
    hide RowsOk, RangeOk, MemoryCache.Coherent, AnchorCache.Coherent, AnchorCache.Exhausted;
    NothingCached(env, repo, cache, facts);
    o, edges := VerifyRows(env, repo, policy, rows, cache, facts);
    commits := |rows|;
  }

  lemma NothingCached(env: Env, repo: Repo, cache: MemoryCache, facts: AnchorCache)
    requires cache.blobs == map[]
    requires facts.resolved == {} && facts.relations == {} && facts.digests == map[] && facts.blobBytes == 0
    ensures cache.Coherent(env, repo) && facts.Coherent(env, repo)
  {
  }

  /** The rows in order, with the two caches shared between them. */
  method VerifyRows(env: Env, repo: Repo, policy: Policy, rows: seq<Row>, cache: MemoryCache, anchors: AnchorCache)
    returns (o: Outcome, edges: nat)
    requires cache.Coherent(env, repo) && anchors.Coherent(env, repo)
    modifies cache, anchors
    ensures cache.Coherent(env, repo) && anchors.Coherent(env, repo)
    ensures o == Accepted ==> RowsOk(env, repo, policy, rows) && edges == EdgeCount(rows)
    ensures o == Rejected ==> !RowsOk(env, repo, policy, rows)
    ensures o == OverBound ==> anchors.Exhausted(repo)
  {
    hide RowOk, MemoryCache.Coherent, AnchorCache.Coherent, AnchorCache.Exhausted;
    edges := 0;
    for i := 0 to |rows|
      invariant cache.Coherent(env, repo) && anchors.Coherent(env, repo)
      invariant RowsOk(env, repo, policy, rows[..i])
      invariant edges == EdgeCount(rows[..i])
    {
      var added;
      o, added := VerifyRow(env, repo, policy, rows[i], cache, anchors);
      if o != Accepted {
        assert rows[i] in rows;
        return;
      }
      edges := edges + added;
      RowsSnoc(env, repo, policy, rows, i);
    }
    assert rows[..|rows|] == rows;
    o := Accepted;
  }

  predicate RowsOk(env: Env, repo: Repo, policy: Policy, rows: seq<Row>) {
    forall row | row in rows :: RowOk(env, repo, policy, row)
  }

  lemma RowsSnoc(env: Env, repo: Repo, policy: Policy, rows: seq<Row>, i: nat)
    requires i < |rows| && RowsOk(env, repo, policy, rows[..i]) && RowOk(env, repo, policy, rows[i])
    ensures RowsOk(env, repo, policy, rows[..i + 1])
    ensures EdgeCount(rows[..i + 1]) == EdgeCount(rows[..i]) + |rows[i].parents|
  {
    hide RowOk;
    assert rows[..i + 1] == rows[..i] + [rows[i]];
    assert rows[..i + 1][..i] == rows[..i];
  }

  // ----- paths in the commit graph

  type Graph = Str -> seq<Str>

  /** A path from an ancestor (first) to a descendant (last) along parent links. */
  predicate Path(g: Graph, path: seq<Str>) {
    path != [] && forall i :: 0 < i < |path| ==> path[i - 1] in g(path[i])
  }

  ghost predicate Reaches(g: Graph, a: Str, d: Str) {
    exists path :: Path(g, path) && path[0] == a && path[|path| - 1] == d
  }

  ghost predicate Acyclic(g: Graph) {
    forall path :: Path(g, path) && |path| > 1 ==> path[0] != path[|path| - 1]
  }

  predicate InRange(rows: seq<Row>, c: Str) {
    exists row :: row in rows && row.commit == c
  }

  /** What rev-list base..head --parents lists, and that Git's ancestry answer is the graph's. */
  ghost predicate Listed(g: Graph, repo: Repo, base: Str, head: Str, rows: seq<Row>) {
    && Acyclic(g)
    && (forall row :: row in rows ==> row.parents == g(row.commit))
    && (forall c :: InRange(rows, c) <==> Reaches(g, c, head) && !Reaches(g, c, base))
    && (repo.ancestor(base, head) <==> Reaches(g, base, head))
  }

  lemma PathJoin(g: Graph, p: seq<Str>, q: seq<Str>)
    requires Path(g, p) && Path(g, q) && p[|p| - 1] == q[0]
    ensures Path(g, p + q[1..])
    ensures (p + q[1..])[0] == p[0] && (p + q[1..])[|p + q[1..]| - 1] == q[|q| - 1]
  {
    var r := p + q[1..];
    forall i | 0 < i < |r|
      ensures r[i - 1] in g(r[i])
    {
      if i >= |p| {
        assert r[i] == q[i - |p| + 1];
        assert r[i - 1] == q[i - |p| + 1 - 1];
      }
    }
  }

  lemma PathPieces(g: Graph, p: seq<Str>, i: nat)
    requires Path(g, p) && i < |p|
    ensures Path(g, p[..i + 1]) && Path(g, p[i..])
    ensures Reaches(g, p[0], p[i]) && Reaches(g, p[i], p[|p| - 1])
  {
    var a, b := p[..i + 1], p[i..];
    forall k | 0 < k < |b|
      ensures b[k - 1] in g(b[k])
    {
      assert b[k] == p[i + k] && b[k - 1] == p[i + k - 1];
    }
    assert a[0] == p[0] && a[|a| - 1] == p[i];
    assert b[0] == p[i] && b[|b| - 1] == p[|p| - 1];
  }

  lemma ReachesTransitive(g: Graph, a: Str, b: Str, c: Str)
    requires Reaches(g, a, b) && Reaches(g, b, c)
    ensures Reaches(g, a, c)
  {
    var p :| Path(g, p) && p[0] == a && p[|p| - 1] == b;
    var q :| Path(g, q) && q[0] == b && q[|q| - 1] == c;
    PathJoin(g, p, q);
  }

  // ----- ancestors' ledgers are prefixes

  /** A byte prefix of an accepted ledger is a prefix of its record list. */
  lemma PrefixLiftsToRecords(x: string, y: string)
    requires Framed(x) && x <= y
    ensures Lines(x) <= Lines(y)
  {
    assert y == x + y[|x|..];
    LinesAppend(x, y[|x|..]);
  }

  /** a's ledger is a prefix of d's, in bytes and in records, and both are accepted. */
  predicate Extends(env: Env, repo: Repo, a: Str, d: Str) {
    && MemoryOk(env, repo, a) && MemoryOk(env, repo, d)
    && Memory(repo, a) <= Memory(repo, d)
    && Records(repo, a) <= Records(repo, d)
  }

  lemma EdgeExtends(
    env: Env, repo: Repo, policy: Policy, g: Graph, base: Str, head: Str, rows: seq<Row>, p: Str, c: Str)
    requires HistoryOk(env, repo, policy, base, head, rows) && Listed(g, repo, base, head, rows)
    requires InRange(rows, c) && p in g(c)
    ensures Extends(env, repo, p, c)
  {
    hide Accepts;
    var row :| row in rows && row.commit == c;
    assert RowOk(env, repo, policy, row);
    assert EdgeOk(env, repo, policy, p, c);
    assert MemoryOk(env, repo, p);
    MemoryFramed(env, repo, p);
    PrefixLiftsToRecords(Memory(repo, p), Memory(repo, c));
  }

  lemma MemoryFramed(env: Env, repo: Repo, c: Str)
    requires MemoryOk(env, repo, c)
    ensures Framed(Memory(repo, c))
  {
    hide Run;
  }

  lemma ExtendsTransitive(env: Env, repo: Repo, a: Str, b: Str, c: Str)
    requires Extends(env, repo, a, b) && Extends(env, repo, b, c)
    ensures Extends(env, repo, a, c)
  {
    hide MemoryOk, Memory, Records;
  }

  /** Along every parent path whose commits after the first are in the verified range. */
  lemma {:induction false} PathExtends(
    env: Env, repo: Repo, policy: Policy, g: Graph, base: Str, head: Str, rows: seq<Row>, path: seq<Str>)
    requires HistoryOk(env, repo, policy, base, head, rows) && Listed(g, repo, base, head, rows)
    requires Path(g, path) && |path| > 1
    requires forall i :: 0 < i < |path| ==> InRange(rows, path[i])
    ensures Extends(env, repo, path[0], path[|path| - 1])
  {
    hide HistoryOk, Listed, InRange, Extends;
    var n := |path| - 1;
    EdgeExtends(env, repo, policy, g, base, head, rows, path[n - 1], path[n]);
    if n > 1 {
      PathPieces(g, path, n - 1);
      var shorter := path[..n];
      PathExtends(env, repo, policy, g, base, head, rows, shorter);
      ExtendsTransitive(env, repo, path[0], path[n - 1], path[n]);
    }
  }

  /** Every commit of a path from an in-range commit to head is in range. */
  lemma PathStaysInRange(g: Graph, repo: Repo, base: Str, head: Str, rows: seq<Row>, path: seq<Str>, i: nat)
    requires Listed(g, repo, base, head, rows)
    requires Path(g, path) && path[|path| - 1] == head && i < |path|
    requires InRange(rows, path[0]) || (path[0] == base && i > 0)
    ensures InRange(rows, path[i])
  {
    hide Path, InRange;
    PathPieces(g, path, i);
    if Reaches(g, path[i], base) {
      if path[0] == base && i > 0 {
        BaseNotBelow(g, base, path, i);
      }
      ReachesTransitive(g, path[0], path[i], base);
    }
  }

  lemma BaseNotBelow(g: Graph, base: Str, path: seq<Str>, i: nat)
    requires Acyclic(g) && Path(g, path) && path[0] == base && 0 < i < |path|
    ensures !Reaches(g, path[i], base)
  {
    if Reaches(g, path[i], base) {
      var q :| Path(g, q) && q[0] == path[i] && q[|q| - 1] == base;
      PathPieces(g, path, i);
      PathJoin(g, path[..i + 1], q);
    }
  }

  /** A commit whose ledger the range constrains: base, a listed commit, or a parent of one. */
  ghost predicate Touched(g: Graph, base: Str, rows: seq<Row>, c: Str) {
    c == base || InRange(rows, c) || exists d :: InRange(rows, d) && c in g(d)
  }

  lemma InRangeExtendsToHead(
    env: Env, repo: Repo, policy: Policy, g: Graph, base: Str, head: Str, rows: seq<Row>, c: Str)
    requires HistoryOk(env, repo, policy, base, head, rows) && Listed(g, repo, base, head, rows)
    requires InRange(rows, c) || (c == base && base != head)
    ensures Extends(env, repo, c, head)
  {
    assert Reaches(g, c, head);
    var path :| Path(g, path) && path[0] == c && path[|path| - 1] == head;
    if |path| == 1 {
      HeadExtends(env, repo, policy, base, head, rows, c);
    } else {
      forall i | 0 < i < |path|
        ensures InRange(rows, path[i])
      {
        PathStaysInRange(g, repo, base, head, rows, path, i);
      }
      hide HistoryOk, Listed, InRange, Extends;
      PathExtends(env, repo, policy, g, base, head, rows, path);
    }
  }

  lemma HeadExtends(env: Env, repo: Repo, policy: Policy, base: Str, head: Str, rows: seq<Row>, c: Str)
    requires HistoryOk(env, repo, policy, base, head, rows) && InRange(rows, c)
    ensures Extends(env, repo, c, c)
  {
    hide Accepts;
    var row :| row in rows && row.commit == c;
    assert RowOk(env, repo, policy, row);
  }

  /** Every ledger the range touches, base's included, is a prefix of head's in bytes and records. */
  lemma TouchedExtendsToHead(
    env: Env, repo: Repo, policy: Policy, g: Graph, base: Str, head: Str, rows: seq<Row>, c: Str)
    requires HistoryOk(env, repo, policy, base, head, rows) && Listed(g, repo, base, head, rows)
    requires Touched(g, base, rows, c)
    ensures Extends(env, repo, c, head)
  {
    RangeNotTrivial(g, repo, base, head, rows);
    if c == base || InRange(rows, c) {
      InRangeExtendsToHead(env, repo, policy, g, base, head, rows, c);
    } else {
      var d :| InRange(rows, d) && c in g(d);
      InRangeExtendsToHead(env, repo, policy, g, base, head, rows, d);
      EdgeExtends(env, repo, policy, g, base, head, rows, c, d);
      ExtendsTransitive(env, repo, c, d, head);
    }
  }

  lemma RangeNotTrivial(g: Graph, repo: Repo, base: Str, head: Str, rows: seq<Row>)
    requires Listed(g, repo, base, head, rows) && rows != []
    ensures base != head
  {
    assert rows[0] in rows;
    assert InRange(rows, rows[0].commit);
  }

  /** Any two touched ledgers are comparable: one is a prefix of the other, even across merges. */
  lemma TouchedComparable(
    env: Env, repo: Repo, policy: Policy, g: Graph, base: Str, head: Str, rows: seq<Row>, c: Str, d: Str)
    requires HistoryOk(env, repo, policy, base, head, rows) && Listed(g, repo, base, head, rows)
    requires Touched(g, base, rows, c) && Touched(g, base, rows, d)
    ensures Extends(env, repo, c, d) || Extends(env, repo, d, c)
  {
    hide *;
    TouchedExtendsToHead(env, repo, policy, g, base, head, rows, c);
    TouchedExtendsToHead(env, repo, policy, g, base, head, rows, d);
    PrefixesComparable(env, repo, c, d, head);
  }

  lemma PrefixesComparable(env: Env, repo: Repo, c: Str, d: Str, head: Str)
    requires Extends(env, repo, c, head) && Extends(env, repo, d, head)
    ensures Extends(env, repo, c, d) || Extends(env, repo, d, c)
  {
    MemoryFramed(env, repo, c);
    MemoryFramed(env, repo, d);
    hide MemoryOk, Memory, Framed, Lines;
    var x, y := Memory(repo, c), Memory(repo, d);
    PrefixChoice(x, y, Memory(repo, head));
    if x <= y {
      PrefixLiftsToRecords(x, y);
    } else {
      PrefixLiftsToRecords(y, x);
    }
  }
}
