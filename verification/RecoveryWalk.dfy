/**
 The recovery inventory: a pruned recursive walk of a worktree, and a flat filter over the paths of a
 committed tree.
 */
module RecoveryWalk {
  import opened Prelude
  import opened Sorting

  type Path = seq<string>

  /** Links, devices and hard-linked files are Irregular. */
  datatype Node = Dir(entries: seq<Entry>) | File(size: nat, executable: bool, sha256: string) | Irregular

  datatype Entry = Entry(name: string, node: Node)

  datatype Leaf = Leaf(path: Path, node: Node)

  /** A visited directory with the names that were not excluded. */
  datatype Directory = Directory(path: Path, entries: seq<string>)

  const HANDOFF: string := "HANDOFF.md"
  const MEMORY: Path := ["memory", "research_engine_extraction.jsonl"]
  const COVERAGE: string := ".coverage"
  const EXCLUDED_ROOTS: set<string> := {".git", ".local", ".venv", "data", "dist"}
  const CACHES: set<string> :=
    {".cache", ".hypothesis", ".mypy_cache", ".pytest_cache", ".ruff_cache", "__pycache__", "htmlcov"}

  const MAX_DEPTH: nat := 64
  const MAX_ENTRIES: nat := 8192
  const MAX_FILES: nat := 4096
  const MAX_DIRECTORIES: nat := 4096
  const MAX_TOTAL_BYTES: nat := 64 * 1024 * 1024
  const MAX_FILE_BYTES: nat := 16 * 1024 * 1024

  /** The paths the walk skips whether they name a file or a directory. */
  predicate Special(path: Path) {
    path == [HANDOFF] || path == MEMORY || path == [COVERAGE]
  }

  predicate Excluded(path: Path, directory: bool) {
    if path == [] then false
    else if path[0] in EXCLUDED_ROOTS then true
    else if directory && path[|path| - 1] in CACHES then true
    else if path == [HANDOFF] || path == MEMORY then true
    else |path| == 1 && path[0] == COVERAGE
  }

  /** The flat rule: the path itself and no cache directory above it. */
  predicate Selected(path: Path) {
    !Excluded(path, false) && forall k :: 0 <= k < |path| - 1 ==> path[k] !in CACHES
  }

  // ----- leaves

  function LeavesOf(node: Node, path: Path): seq<Leaf>
    decreases node
  {
    match node
    case Dir(entries) => AllLeaves(entries, path)
    case _ => [Leaf(path, node)]
  }

  /** Every leaf below a directory, nothing pruned. */
  function AllLeaves(entries: seq<Entry>, path: Path): seq<Leaf>
    decreases entries
  {
    if entries == [] then []
    else
      var last := entries[|entries| - 1];
      AllLeaves(entries[..|entries| - 1], path) + LeavesOf(last.node, path + [last.name])
  }

  function VisitedOf(entry: Entry, path: Path): seq<Leaf>
    decreases entry
  {
    var child := path + [entry.name];
    if Excluded(child, entry.node.Dir?) then []
    else match entry.node
         case Dir(entries) => VisitedLeaves(entries, child)
         case _ => [Leaf(child, entry.node)]
  }

  /** The leaves the pruned walk reaches. */
  function VisitedLeaves(entries: seq<Entry>, path: Path): seq<Leaf>
    decreases entries
  {
    if entries == [] then []
    else VisitedLeaves(entries[..|entries| - 1], path) + VisitedOf(entries[|entries| - 1], path)
  }

  function Filter(leaves: seq<Leaf>, keep: Path -> bool): (r: seq<Leaf>)
    ensures forall l :: l in r <==> l in leaves && keep(l.path)
  {
    if leaves == [] then []
    else (if keep(leaves[0].path) then [leaves[0]] else []) + Filter(leaves[1..], keep)
  }

  lemma {:induction false} FilterAppend(a: seq<Leaf>, b: seq<Leaf>, keep: Path -> bool)
    ensures Filter(a + b, keep) == Filter(a, keep) + Filter(b, keep)
  {
    if a == [] {
      assert a + b == b;
    } else {
      assert (a + b)[1..] == a[1..] + b;
      FilterAppend(a[1..], b, keep);
    }
  }

  lemma {:induction false} FilterAll(a: seq<Leaf>, keep: Path -> bool)
    ensures (forall l :: l in a ==> keep(l.path)) ==> Filter(a, keep) == a
    ensures (forall l :: l in a ==> !keep(l.path)) ==> Filter(a, keep) == []
  {
    if a != [] {
      FilterAll(a[1..], keep);
      assert a[0] in a;
    }
  }

  /** Of two rules, one implying the other, both keep the same list exactly when no element tells them apart. */
  lemma {:induction false} FilterSameExactly(a: seq<Leaf>, p: Path -> bool, q: Path -> bool)
    requires forall x :: p(x) ==> q(x)
    ensures |Filter(a, p)| <= |Filter(a, q)|
    ensures Filter(a, p) == Filter(a, q) <==> forall l :: l in a ==> (q(l.path) ==> p(l.path))
  {
    if a != [] {
      FilterSameExactly(a[1..], p, q);
      assert a == [a[0]] + a[1..];
      if q(a[0].path) && !p(a[0].path) {
        assert |Filter(a, p)| < |Filter(a, q)|;
      }
    }
  }

  // ----- the walk as a filter

  /** The walk does not stop at any path of length above n on the way. */
  predicate Open(path: Path, n: nat) {
    forall k :: n < k <= |path| ==> !Excluded(path[..k], k < |path|)
  }

  function OpenBelow(n: nat): Path -> bool {
    (path: Path) => Open(path, n)
  }

  lemma {:induction false} LeavesExtend(node: Node, path: Path)
    ensures forall l :: l in LeavesOf(node, path) ==>
            path <= l.path && (node.Dir? ==> |path| < |l.path|) && !l.node.Dir?
    decreases node
  {
    if node.Dir? {
      LeavesBelow(node.entries, path);
    }
  }

  lemma {:induction false} LeavesBelow(entries: seq<Entry>, path: Path)
    ensures forall l :: l in AllLeaves(entries, path) ==> path <= l.path && |path| < |l.path| && !l.node.Dir?
    decreases entries
  {
    if entries != [] {
      var last := entries[|entries| - 1];
      LeavesBelow(entries[..|entries| - 1], path);
      LeavesExtend(last.node, path + [last.name]);
    }
  }

  /** The pruned walk reaches exactly the leaves no exclusion stands above, in the same order. */
  lemma {:induction false} VisitedIsFilter(entries: seq<Entry>, path: Path)
    ensures VisitedLeaves(entries, path) == Filter(AllLeaves(entries, path), OpenBelow(|path|))
    decreases entries
  {
    if entries != [] {
      var init, last := entries[..|entries| - 1], entries[|entries| - 1];
      VisitedIsFilter(init, path);
      VisitedOneIsFilter(last, path);
      FilterAppend(AllLeaves(init, path), LeavesOf(last.node, path + [last.name]), OpenBelow(|path|));
    }
  }

  lemma {:induction false} VisitedOneIsFilter(entry: Entry, path: Path)
    ensures VisitedOf(entry, path) == Filter(LeavesOf(entry.node, path + [entry.name]), OpenBelow(|path|))
    decreases entry
  {
    hide Excluded, Open;
    var child := path + [entry.name];
    var leaves := LeavesOf(entry.node, child);
    LeavesExtend(entry.node, child);
    if Excluded(child, entry.node.Dir?) {
      forall l | l in leaves
        ensures !Open(l.path, |path|)
      {
        OpenAtChild(child, |path|, l.path);
      }
      FilterAll(leaves, OpenBelow(|path|));
    } else if entry.node.Dir? {
      VisitedIsFilter(entry.node.entries, child);
      forall l | l in leaves
        ensures Open(l.path, |path|) <==> Open(l.path, |child|)
      {
        OpenAtChild(child, |path|, l.path);
      }
      FilterAgree(leaves, OpenBelow(|path|), OpenBelow(|child|));
    } else {
      OpenAtChild(child, |path|, child);
      NothingLeft(child);
      FilterAll(leaves, OpenBelow(|path|));
    }
  }

  /** Openness above a directory is that of the child on the way and openness above it. */
  lemma OpenAtChild(child: Path, n: nat, path: Path)
    requires |child| == n + 1 && child <= path
    ensures Open(path, n) <==> !Excluded(child, |child| < |path|) && Open(path, |child|)
  {
    hide Excluded;
    assert path[..|child|] == child;
  }

  lemma NothingLeft(path: Path)
    ensures Open(path, |path|)
  {
  }

  lemma {:induction false} FilterAgree(a: seq<Leaf>, p: Path -> bool, q: Path -> bool)
    requires forall l :: l in a ==> (p(l.path) <==> q(l.path))
    ensures Filter(a, p) == Filter(a, q)
  {
    if a != [] {
      FilterAgree(a[1..], p, q);
      assert a[0] in a;
    }
  }

  // ----- walk and flat rule compared

  /** A path strictly below one of the three special paths. */
  predicate UnderSpecial(path: Path) {
    exists k :: 0 < k < |path| && Special(path[..k])
  }

  /** On one path, the walk's rule is the flat rule without what lies under a special path. */
  lemma OpenExactly(path: Path)
    requires path != []
    ensures Open(path, 0) <==> Selected(path) && !UnderSpecial(path)
  {
    assert path[..|path|] == path;
    if Open(path, 0) {
      forall k | 0 <= k < |path| - 1
        ensures path[k] !in CACHES
      {
        assert !Excluded(path[..k + 1], true);
      }
      forall k | 0 < k < |path|
        ensures !Special(path[..k])
      {
        assert !Excluded(path[..k], true);
      }
    }
    if Selected(path) && !UnderSpecial(path) {
      forall k | 0 < k <= |path|
        ensures !Excluded(path[..k], k < |path|)
      {
        if k < |path| {
          assert !Special(path[..k]) && path[k - 1] !in CACHES;
        }
      }
    }
  }

  function Flat(): Path -> bool {
    (path: Path) => Selected(path)
  }

  /** The walk and the flat filter agree if and only if no selected leaf lies under a special path. */
  lemma WalkAgreesExactly(tree: seq<Entry>)
    ensures VisitedLeaves(tree, []) == Filter(AllLeaves(tree, []), Flat())
            <==> forall l :: l in AllLeaves(tree, []) ==> !(Selected(l.path) && UnderSpecial(l.path))
  {
    hide Open, Selected, UnderSpecial;
    VisitedIsFilter(tree, []);
    LeavesBelow(tree, []);
    var leaves := AllLeaves(tree, []);
    forall l | l in leaves
      ensures Open(l.path, 0) <==> Selected(l.path) && !UnderSpecial(l.path)
    {
      OpenExactly(l.path);
    }
    FilterAgree(leaves, OpenBelow(0), Both());
    FilterSameExactly(leaves, Both(), Flat());
  }

  function Both(): Path -> bool {
    (path: Path) => Selected(path) && !UnderSpecial(path)
  }

  /** Some directory of the tree has this path. */
  predicate IsDirectory(entries: seq<Entry>, path: Path)
    decreases |path|
  {
    && path != []
    && exists e :: e in entries && e.name == path[0] && e.node.Dir? &&
         (|path| == 1 || IsDirectory(e.node.entries, path[1..]))
  }

  lemma {:induction false} AncestorsAreDirectories(entries: seq<Entry>, base: Path, l: Leaf, k: nat)
    requires l in AllLeaves(entries, base) && |base| < k < |l.path|
    ensures IsDirectory(entries, l.path[|base|..k])
    decreases entries
  {
    var init, last := entries[..|entries| - 1], entries[|entries| - 1];
    var child := base + [last.name];
    if l in AllLeaves(init, base) {
      AncestorsAreDirectories(init, base, l, k);
      MoreEntries(init, entries, l.path[|base|..k]);
    } else {
      LeavesExtend(last.node, child);
      assert last in entries && l.path[..|child|] == child;
      assert l.path[|base|] == child[|base|] == last.name;
      assert last.node.Dir?;
      if k > |child| {
        AncestorsAreDirectories(last.node.entries, child, l, k);
        assert l.path[|base|..k][1..] == l.path[|child|..k];
      }
    }
  }

  lemma MoreEntries(entries: seq<Entry>, more: seq<Entry>, path: Path)
    requires (forall e :: e in entries ==> e in more) && IsDirectory(entries, path)
    ensures IsDirectory(more, path)
  {
  }

  /** When none of the three special paths is a directory, the walk and the flat filter agree. */
  lemma WalkAgrees(tree: seq<Entry>)
    requires !IsDirectory(tree, [HANDOFF]) && !IsDirectory(tree, MEMORY) && !IsDirectory(tree, [COVERAGE])
    ensures VisitedLeaves(tree, []) == Filter(AllLeaves(tree, []), Flat())
  {
    hide Selected;
    forall l | l in AllLeaves(tree, [])
      ensures !UnderSpecial(l.path)
    {
      forall k | 0 < k < |l.path|
        ensures !Special(l.path[..k])
      {
        AncestorsAreDirectories(tree, [], l, k);
        assert l.path[0..k] == l.path[..k];
      }
    }
    WalkAgreesExactly(tree);
  }

  function Misplaced(file: Node): seq<Entry> {
    [Entry(HANDOFF, Dir([Entry("x", file)]))]
  }

  lemma HandoffSelected()
    ensures Selected([HANDOFF, "x"])
  {
    assert |HANDOFF| == 10;
    assert forall s :: s in EXCLUDED_ROOTS ==> |s| != 10 && |s| != 1;
    assert forall s :: s in CACHES ==> |s| != 10;
  }

  /** A directory named HANDOFF.md at the root is skipped by the walk and listed by the flat rule. */
  lemma MisplacedDiffers(file: Node)
    requires !file.Dir?
    ensures VisitedLeaves(Misplaced(file), []) == []
    ensures Filter(AllLeaves(Misplaced(file), []), Flat()) == [Leaf([HANDOFF, "x"], file)]
  {
    hide Selected;
    var inner := [Entry("x", file)];
    assert inner[..0] == [] && AllLeaves([], [HANDOFF]) == [];
    assert AllLeaves(inner, [HANDOFF]) == [] + LeavesOf(file, [HANDOFF] + ["x"]);
    assert [HANDOFF] + ["x"] == [HANDOFF, "x"];
    assert LeavesOf(file, [HANDOFF, "x"]) == [Leaf([HANDOFF, "x"], file)];
    assert AllLeaves(inner, [HANDOFF]) == [Leaf([HANDOFF, "x"], file)];
    var tree := Misplaced(file);
    assert tree[..0] == [] && AllLeaves([], []) == [] && VisitedLeaves([], []) == [];
    assert [] + [HANDOFF] == [HANDOFF];
    assert AllLeaves(tree, []) == [] + LeavesOf(Dir(inner), [HANDOFF]);
    assert VisitedOf(tree[0], []) == [];
    HandoffSelected();
    FilterAll(AllLeaves(tree, []), Flat());
  }

  // ----- totals of a walk

  /** What a walk adds to its totals. */
  datatype Tally = Tally(files: nat, bytes: nat, directories: nat, names: nat, depth: nat, readable: bool) {
    function Plus(other: Tally): Tally {
      Tally(files + other.files, bytes + other.bytes, directories + other.directories, names + other.names,
            Max(depth, other.depth), readable && other.readable)
    }

    /** The tally of a directory with these contents and `own` names. */
    function Inside(own: nat): Tally {
      Tally(files, bytes, directories + 1, names + own, depth + 1, readable)
    }

    /** No total is larger, and nothing unreadable is hidden. */
    predicate AtMost(other: Tally) {
      && files <= other.files && bytes <= other.bytes && directories <= other.directories
      && names <= other.names && depth <= other.depth && (other.readable ==> readable)
    }
  }

  const NOTHING: Tally := Tally(0, 0, 0, 0, 0, true)

  function TallyOf(entry: Entry, path: Path): Tally
    decreases entry
  {
    var child := path + [entry.name];
    if Excluded(child, entry.node.Dir?) then NOTHING
    else match entry.node
         case Dir(entries) =>
           TallyUnder(entries, child).Inside(|entries|)
         case File(size, _, _) => Tally(1, size, 0, 0, 0, size <= MAX_FILE_BYTES)
         case Irregular => Tally(0, 0, 0, 0, 0, false)
  }

  function TallyUnder(entries: seq<Entry>, path: Path): Tally
    decreases entries
  {
    if entries == [] then NOTHING
    else TallyUnder(entries[..|entries| - 1], path).Plus(TallyOf(entries[|entries| - 1], path))
  }

  function DirectoriesOf(entry: Entry, path: Path): seq<Directory>
    decreases entry
  {
    var child := path + [entry.name];
    if Excluded(child, entry.node.Dir?) || !entry.node.Dir? then []
    else DirectoriesUnder(entry.node.entries, child) + [Directory(child, Included(entry.node.entries, child))]
  }

  /** The directories visited below, children before parents. */
  function DirectoriesUnder(entries: seq<Entry>, path: Path): seq<Directory>
    decreases entries
  {
    if entries == [] then []
    else DirectoriesUnder(entries[..|entries| - 1], path) + DirectoriesOf(entries[|entries| - 1], path)
  }

  function Included(entries: seq<Entry>, path: Path): seq<string> {
    if entries == [] then []
    else
      var last := entries[|entries| - 1];
      Included(entries[..|entries| - 1], path) +
      (if Excluded(path + [last.name], last.node.Dir?) then [] else [last.name])
  }

  function Sizes(leaves: seq<Leaf>): (r: seq<int>)
    ensures |r| == |leaves|
  {
    seq(|leaves|, i requires 0 <= i < |leaves| => if leaves[i].node.File? then leaves[i].node.size else 0)
  }

  lemma SizesAppend(a: seq<Leaf>, b: seq<Leaf>)
    ensures Sum(Sizes(a + b)) == Sum(Sizes(a)) + Sum(Sizes(b))
  {
    assert Sizes(a + b) == Sizes(a) + Sizes(b);
    SumAppend(Sizes(a), Sizes(b));
  }

  predicate Readable(leaves: seq<Leaf>) {
    forall l :: l in leaves ==> l.node.File? && l.node.size <= MAX_FILE_BYTES
  }

  /** The tally counts what is visited: the files, their sizes and the directories. */
  lemma {:induction false} TallyCounts(entries: seq<Entry>, path: Path)
    ensures var t := TallyUnder(entries, path);
            && t.readable == Readable(VisitedLeaves(entries, path))
            && (t.readable ==> t.files == |VisitedLeaves(entries, path)|)
            && t.bytes == Sum(Sizes(VisitedLeaves(entries, path)))
            && t.directories == |DirectoriesUnder(entries, path)|
    decreases entries
  {
    if entries != [] {
      var init, last := entries[..|entries| - 1], entries[|entries| - 1];
      TallyCounts(init, path);
      TallyCountsOne(last, path);
      SizesAppend(VisitedLeaves(init, path), VisitedOf(last, path));
    }
  }

  lemma {:induction false} TallyCountsOne(entry: Entry, path: Path)
    ensures var t := TallyOf(entry, path);
            && t.readable == Readable(VisitedOf(entry, path))
            && (t.readable ==> t.files == |VisitedOf(entry, path)|)
            && t.bytes == Sum(Sizes(VisitedOf(entry, path)))
            && t.directories == |DirectoriesOf(entry, path)|
    decreases entry
  {
    hide Excluded;
    var child := path + [entry.name];
    if !Excluded(child, entry.node.Dir?) {
      if entry.node.Dir? {
        TallyCounts(entry.node.entries, child);
      } else {
        var leaf := Leaf(child, entry.node);
        assert VisitedOf(entry, path) == [leaf] && leaf in [leaf];
        assert Sizes([leaf])[1..] == [];
      }
    }
  }

  lemma {:induction false} TallyGrows(entries: seq<Entry>, i: nat, path: Path)
    requires i <= |entries|
    ensures TallyUnder(entries[..i], path).AtMost(TallyUnder(entries, path))
    decreases |entries|
  {
    hide TallyOf;
    if i < |entries| {
      var init := entries[..|entries| - 1];
      TallyGrows(init, i, path);
      assert init[..i] == entries[..i];
    } else {
      assert entries[..i] == entries;
    }
  }

  // ----- the walk itself

  /** Running totals against which a further tally is checked. */
  datatype Totals = Totals(files: nat, bytes: nat, directories: nat, entries: nat) {
    predicate Within() {
      files <= MAX_FILES && bytes <= MAX_TOTAL_BYTES && directories <= MAX_DIRECTORIES && entries <= MAX_ENTRIES
    }

    function Plus(t: Tally): Totals {
      Totals(files + t.files, bytes + t.bytes, directories + t.directories, entries + t.names)
    }

    /** A further visit, at this depth, stays within every limit and meets nothing unreadable. */
    predicate Fits(t: Tally, depth: int) {
      t.readable && depth + t.depth <= MAX_DEPTH && Plus(t).Within()
    }
  }

  /** What fits after a part fits in all. */
  lemma FitsInTwoSteps(b: Totals, t: Tally, u: Tally, depth: nat)
    requires b.Fits(t, depth)
    ensures b.Plus(t).Fits(u, depth) <==> b.Fits(t.Plus(u), depth)
    ensures b.Plus(t).Plus(u) == b.Plus(t.Plus(u))
  {
  }

  lemma FitsLess(b: Totals, t: Tally, u: Tally, depth: nat)
    requires t.AtMost(u) && b.Fits(u, depth)
    ensures b.Fits(t, depth)
  {
  }

  lemma UnderNone(entries: seq<Entry>, path: Path)
    ensures VisitedLeaves(entries[..0], path) == [] && DirectoriesUnder(entries[..0], path) == []
    ensures Included(entries[..0], path) == [] && TallyUnder(entries[..0], path) == NOTHING
  {
  }

  lemma UnderSnoc(entries: seq<Entry>, i: nat, path: Path)
    requires i < |entries|
    ensures VisitedLeaves(entries[..i + 1], path) == VisitedLeaves(entries[..i], path) + VisitedOf(entries[i], path)
    ensures DirectoriesUnder(entries[..i + 1], path) ==
            DirectoriesUnder(entries[..i], path) + DirectoriesOf(entries[i], path)
    ensures TallyUnder(entries[..i + 1], path) == TallyUnder(entries[..i], path).Plus(TallyOf(entries[i], path))
    ensures Included(entries[..i + 1], path) == Included(entries[..i], path) +
              (if Excluded(path + [entries[i].name], entries[i].node.Dir?) then [] else [entries[i].name])
  {
    hide VisitedOf, DirectoriesOf, TallyOf, Excluded;
    assert entries[..i + 1][..i] == entries[..i];
  }

  class Walker {
    var files: seq<Leaf>
    var directories: seq<Directory>
    var totalBytes: nat
    var totalEntries: nat

    function Counts(): Totals reads this {
      Totals(|files|, totalBytes, |directories|, totalEntries)
    }

    predicate Valid() reads this {
      totalBytes == Sum(Sizes(files)) && Counts().Within()
    }

    constructor ()
      ensures Valid() && files == [] && directories == [] && totalEntries == 0
    {
      files, directories, totalBytes, totalEntries := [], [], 0, 0;
    }

    /** Visits one directory; false stands for the refusal of the whole inventory. */
    method Walk(entries: seq<Entry>, path: Path, depth: nat) returns (ok: bool)
      requires Valid()
      modifies this
      ensures ok <==> depth <= MAX_DEPTH && old(Counts()).Fits(TallyUnder(entries, path).Inside(|entries|), depth - 1)
      ensures ok ==>
                && Valid() && Counts() == old(Counts()).Plus(TallyUnder(entries, path).Inside(|entries|))
                && files == old(files) + VisitedLeaves(entries, path)
                && directories ==
                   old(directories) + DirectoriesUnder(entries, path) + [Directory(path, Included(entries, path))]
      decreases entries
    {
      hide Excluded, TallyOf, VisitedOf, DirectoriesOf, Sizes, Totals.Fits, Totals.Plus, Tally.AtMost, Tally.Inside,
           TallyUnder, VisitedLeaves, DirectoriesUnder, Included;
      UnderNone(entries, path);
      FitsInside(old(Counts()), TallyUnder(entries, path), |entries|, depth);
      if depth > MAX_DEPTH || |entries| > MAX_ENTRIES - totalEntries {
        return false;
      }
      totalEntries := totalEntries + |entries|;
      ghost var base := Counts();
      Nothing(base, depth);
      var included: seq<string> := [];
      for i := 0 to |entries|
        invariant Valid() && included == Included(entries[..i], path)
        invariant files == old(files) + VisitedLeaves(entries[..i], path)
        invariant directories == old(directories) + DirectoriesUnder(entries[..i], path)
        invariant base.Fits(TallyUnder(entries[..i], path), depth)
        invariant Counts() == base.Plus(TallyUnder(entries[..i], path))
      {
        var entry := entries[i];
        UnderSnoc(entries, i, path);
        TallyGrows(entries, i + 1, path);
        FitsInTwoSteps(base, TallyUnder(entries[..i], path), TallyOf(entry, path), depth);
        var step := Visit(entry, path, depth);
        if !step {
          if base.Fits(TallyUnder(entries, path), depth) {
            FitsLess(base, TallyUnder(entries[..i + 1], path), TallyUnder(entries, path), depth);
          }
          return false;
        }
        if !Excluded(path + [entry.name], entry.node.Dir?) {
          included := included + [entry.name];
        }
      }
      assert entries[..|entries|] == entries;
      directories := directories + [Directory(path, included)];
      ok := |directories| <= MAX_DIRECTORIES;
    }

    /** One directory entry. */
    method Visit(entry: Entry, path: Path, depth: nat) returns (ok: bool)
      requires Valid() && depth <= MAX_DEPTH
      modifies this
      ensures ok <==> old(Counts()).Fits(TallyOf(entry, path), depth)
      ensures ok ==>
                && Valid() && Counts() == old(Counts()).Plus(TallyOf(entry, path))
                && files == old(files) + VisitedOf(entry, path)
                && directories == old(directories) + DirectoriesOf(entry, path)
      decreases entry
    {
      hide Excluded, Sizes;
      var child := path + [entry.name];
      if Excluded(child, entry.node.Dir?) {
        return true;
      }
      match entry.node
      case Dir(entries) =>
        ok := Walk(entries, child, depth + 1);
      case File(size, _, _) =>
        if size > MAX_FILE_BYTES {
          return false;
        }
        SizesAppend(files, [Leaf(child, entry.node)]);
        OneSize(Leaf(child, entry.node));
        files := files + [Leaf(child, entry.node)];
        totalBytes := totalBytes + size;
        ok := |files| <= MAX_FILES && totalBytes <= MAX_TOTAL_BYTES;
      case Irregular =>
        ok := false;
    }
  }

  /** A directory fits exactly when its names, then its contents, then its own record fit. */
  lemma FitsInside(b: Totals, t: Tally, own: nat, depth: nat)
    ensures var next := Totals(b.files, b.bytes, b.directories, b.entries + own);
            && (depth <= MAX_DEPTH && b.Fits(t.Inside(own), depth - 1) <==>
                  && depth <= MAX_DEPTH && b.entries + own <= MAX_ENTRIES
                  && next.Fits(t, depth) && next.Plus(t).directories + 1 <= MAX_DIRECTORIES)
            && b.Plus(t.Inside(own)) == next.Plus(t).(directories := next.Plus(t).directories + 1)
  {
  }

  lemma Nothing(b: Totals, depth: nat)
    requires b.Within() && depth <= MAX_DEPTH
    ensures b.Fits(NOTHING, depth) && b.Plus(NOTHING) == b
  {
  }

  lemma OneSize(leaf: Leaf)
    requires leaf.node.File?
    ensures Sum(Sizes([leaf])) == leaf.node.size
  {
    assert Sizes([leaf])[1..] == [];
  }

  // ----- the manifest, the committed inventory and their binding

  datatype RecoveryError = Refused | NotRegular | Ambiguous | EmptyInventory | TooLarge | Differs

  datatype Manifest = Manifest(files: seq<Leaf>, directories: seq<Directory>, totalBytes: nat, totalEntries: nat)

  function Posix(path: Path): string {
    if path == [] then "" else if |path| == 1 then path[0] else path[0] + "/" + Posix(path[1..])
  }

  predicate LeafLeq(a: Leaf, b: Leaf) {
    TextLeq(Posix(a.path), Posix(b.path))
  }

  predicate DirectoryLeq(a: Directory, b: Directory) {
    TextLeq(Posix(a.path), Posix(b.path))
  }

  const START: Totals := Totals(0, 0, 0, 0)

  /** The limits a whole tree meets. */
  predicate TreeFits(tree: seq<Entry>) {
    START.Fits(TallyUnder(tree, []).Inside(|tree|), -1)
  }

  /** The manifest holds the visited files, sorted by path, and the sum of their sizes. */
  method RecoveryManifest(tree: seq<Entry>) returns (r: Result<Manifest, RecoveryError>)
    ensures r.Ok? <==> TreeFits(tree)
    ensures r.Ok? ==>
              && multiset(r.value.files) == multiset(VisitedLeaves(tree, [])) && Ascending(r.value.files, LeafLeq)
              && Readable(r.value.files) && |r.value.files| <= MAX_FILES
              && r.value.totalBytes == Sum(Sizes(VisitedLeaves(tree, []))) && r.value.totalBytes <= MAX_TOTAL_BYTES
              && multiset(r.value.directories) ==
                   multiset(DirectoriesUnder(tree, []) + [Directory([], Included(tree, []))])
  {
    hide VisitedLeaves, DirectoriesUnder, Included, TallyUnder, Sizes, Sort, LeafLeq;
    var walker := new Walker();
    var ok := walker.Walk(tree, [], 0);
    if !ok {
      return Err(Refused);
    }
    assert walker.files == VisitedLeaves(tree, []);
    ManifestFacts(tree);
    SortedLeaves(walker.files);
    SortPermutes(walker.directories, DirectoryLeq);
    r := Ok(Manifest(Sort(walker.files, LeafLeq), Sort(walker.directories, DirectoryLeq),
                     walker.totalBytes, walker.totalEntries));
  }

  lemma ManifestFacts(tree: seq<Entry>)
    requires TreeFits(tree)
    ensures Readable(VisitedLeaves(tree, []))
  {
    TallyCounts(tree, []);
  }

  lemma SortedLeaves(files: seq<Leaf>)
    ensures multiset(Sort(files, LeafLeq)) == multiset(files) && |Sort(files, LeafLeq)| == |files|
    ensures Ascending(Sort(files, LeafLeq), LeafLeq)
    ensures Readable(files) ==> Readable(Sort(files, LeafLeq))
  {
    TextOrder();
    SortPermutes(files, LeafLeq);
    SortAscending(files, LeafLeq);
    hide Sort, LeafLeq;
    assert forall l :: l in Sort(files, LeafLeq) <==> l in multiset(Sort(files, LeafLeq));
  }

  /** The leaves by path, a later one replacing an earlier one. */
  function MapOf(leaves: seq<Leaf>): map<Path, Node> {
    if leaves == [] then map[]
    else MapOf(leaves[..|leaves| - 1])[leaves[|leaves| - 1].path := leaves[|leaves| - 1].node]
  }

  predicate DistinctPaths(leaves: seq<Leaf>) {
    forall i, j :: 0 <= i < j < |leaves| ==> leaves[i].path != leaves[j].path
  }

  lemma {:induction false} MapOfHolds(leaves: seq<Leaf>)
    requires DistinctPaths(leaves)
    ensures forall l :: l in leaves ==> l.path in MapOf(leaves) && MapOf(leaves)[l.path] == l.node
    ensures forall p :: p in MapOf(leaves) ==> Leaf(p, MapOf(leaves)[p]) in leaves
  {
    if leaves != [] {
      var init, last := leaves[..|leaves| - 1], leaves[|leaves| - 1];
      LastPathIsNew(leaves);
      hide DistinctPaths;
      MapOfHolds(init);
      assert leaves == init + [last];
    }
  }

  lemma LastPathIsNew(leaves: seq<Leaf>)
    requires leaves != [] && DistinctPaths(leaves)
    ensures DistinctPaths(leaves[..|leaves| - 1])
    ensures forall l :: l in leaves[..|leaves| - 1] ==> l.path != leaves[|leaves| - 1].path
  {
    var init := leaves[..|leaves| - 1];
    forall l | l in init
      ensures l.path != leaves[|leaves| - 1].path
    {
      var i :| 0 <= i < |init| && init[i] == l;
      assert leaves[i] == l;
    }
  }

  lemma SameMaps(a: seq<Leaf>, b: seq<Leaf>)
    requires DistinctPaths(a) && DistinctPaths(b) && forall l :: l in a <==> l in b
    ensures MapOf(a) == MapOf(b)
  {
    MapOfHolds(a);
    MapOfHolds(b);
    forall p
      ensures p in MapOf(a) <==> p in MapOf(b)
    {
    }
  }

  /** The selected leaves of a committed tree's listing, with every refusal. */
  method GitEligibleFiles(listing: seq<Leaf>) returns (r: Result<map<Path, Node>, RecoveryError>)
    ensures r.Ok? <==>
              var chosen := Filter(listing, Flat());
              && Readable(chosen) && DistinctPaths(chosen) && chosen != [] && Sum(Sizes(chosen)) <= MAX_TOTAL_BYTES
    ensures r.Ok? ==> r.value == MapOf(Filter(listing, Flat()))
  {
    hide Selected, Sizes, Filter, Kept, MapOf, DistinctPaths;
    var objects: map<Path, Node> := map[];
    var total := 0;
    ghost var all := Filter(listing, Flat());
    NothingKept(listing);
    for i := 0 to |listing|
      invariant Kept(Filter(listing[..i], Flat()), objects, total)
      invariant Filter(listing[..i], Flat()) <= all
    {
      var l := listing[i];
      ghost var chosen := Filter(listing[..i], Flat());
      FilterSnoc(listing, i);
      FilterPrefix(listing, i + 1);
      if Selected(l.path) {
        if !l.node.File? {
          assert all[|chosen|] == l;
          return Err(NotRegular);
        }
        if l.path in objects {
          Repeats(all, chosen, l, objects, total);
          return Err(Ambiguous);
        }
        Keep(chosen, l, objects, total);
        objects := objects[l.path := l.node];
        total := total + l.node.size;
      } else {
        assert chosen + [] == chosen;
      }
    }
    assert listing[..|listing|] == listing;
    KeptAll(all, objects, total);
    if objects == map[] {
      return Err(EmptyInventory);
    }
    if exists p :: p in objects && objects[p].File? && objects[p].size > MAX_FILE_BYTES {
      return Err(TooLarge);
    }
    if total > MAX_TOTAL_BYTES {
      return Err(TooLarge);
    }
    r := Ok(objects);
  }

  /** The accumulated inventory is that of these leaves. */
  ghost predicate Kept(leaves: seq<Leaf>, objects: map<Path, Node>, total: int) {
    && DistinctPaths(leaves) && (forall l :: l in leaves ==> l.node.File?)
    && objects == MapOf(leaves) && total == Sum(Sizes(leaves)) >= 0
  }

  lemma NothingKept(listing: seq<Leaf>)
    ensures Filter(listing[..0], Flat()) == [] && Kept([], map[], 0)
  {
  }

  lemma Keep(leaves: seq<Leaf>, l: Leaf, objects: map<Path, Node>, total: int)
    requires Kept(leaves, objects, total) && l.node.File? && l.path !in objects
    ensures Kept(leaves + [l], objects[l.path := l.node], total + l.node.size)
  {
    hide Sizes;
    MapOfHolds(leaves);
    SizesAppend(leaves, [l]);
    OneSize(l);
    assert (leaves + [l])[..|leaves|] == leaves;
  }

  lemma Repeats(all: seq<Leaf>, chosen: seq<Leaf>, l: Leaf, objects: map<Path, Node>, total: int)
    requires Kept(chosen, objects, total) && l.path in objects && chosen + [l] <= all
    ensures !DistinctPaths(all)
  {
    hide Sizes, MapOf;
    MapOfHolds(chosen);
    var j :| 0 <= j < |chosen| && chosen[j].path == l.path;
    assert (chosen + [l])[j] == all[j] && (chosen + [l])[|chosen|] == all[|chosen|];
  }

  lemma KeptAll(all: seq<Leaf>, objects: map<Path, Node>, total: int)
    requires Kept(all, objects, total)
    ensures DistinctPaths(all) && objects == MapOf(all) && total == Sum(Sizes(all))
    ensures objects == map[] <==> all == []
    ensures Readable(all) <==> !exists p :: p in objects && objects[p].File? && objects[p].size > MAX_FILE_BYTES
  {
    hide Sizes;
    MapOfHolds(all);
    if all != [] {
      assert all[0].path in objects;
    }
  }

  lemma FilterOne(l: Leaf, keep: Path -> bool)
    ensures Filter([l], keep) == if keep(l.path) then [l] else []
  {
    assert Filter([l][1..], keep) == [];
  }

  lemma FilterSnoc(listing: seq<Leaf>, i: nat)
    requires i < |listing|
    ensures Filter(listing[..i + 1], Flat()) ==
            Filter(listing[..i], Flat()) + (if Selected(listing[i].path) then [listing[i]] else [])
  {
    hide Selected, Filter;
    FilterAppend(listing[..i], [listing[i]], Flat());
    assert listing[..i + 1] == listing[..i] + [listing[i]];
    FilterOne(listing[i], Flat());
  }

  lemma FilterPrefix(listing: seq<Leaf>, i: nat)
    requires i <= |listing|
    ensures Filter(listing[..i], Flat()) <= Filter(listing, Flat())
  {
    hide Filter;
    FilterAppend(listing[..i], listing[i..], Flat());
    assert listing == listing[..i] + listing[i..];
  }

  /** The worktree manifest and the committed inventory must be the same map. */
  predicate Bound(expected: map<Path, Node>, files: seq<Leaf>) {
    DistinctPaths(files) && MapOf(files) == expected
  }

  // ----- a clean worktree passes

  predicate NamesDistinct(node: Node)
    decreases node
  {
    node.Dir? ==>
      && (forall i, j :: 0 <= i < j < |node.entries| ==> node.entries[i].name != node.entries[j].name)
      && forall e :: e in node.entries ==> NamesDistinct(e.node)
  }

  lemma {:induction false} PathsDistinct(entries: seq<Entry>, path: Path)
    requires NamesDistinct(Dir(entries))
    ensures DistinctPaths(AllLeaves(entries, path))
    ensures forall l :: l in AllLeaves(entries, path) ==>
            |path| < |l.path| && exists e :: e in entries && e.name == l.path[|path|]
    decreases entries
  {
    if entries != [] {
      var init, last := entries[..|entries| - 1], entries[|entries| - 1];
      var child := path + [last.name];
      assert NamesDistinct(Dir(init));
      PathsDistinct(init, path);
      LeavesExtend(last.node, child);
      assert last in entries;
      if last.node.Dir? {
        PathsDistinct(last.node.entries, child);
      }
      forall a, b | a in AllLeaves(init, path) && b in LeavesOf(last.node, child)
        ensures a.path != b.path
      {
        var e :| e in init && e.name == a.path[|path|];
        var i :| 0 <= i < |init| && init[i] == e;
        assert entries[i].name != last.name;
        assert b.path[|path|] == child[|path|];
      }
      forall l | l in AllLeaves(entries, path)
        ensures |path| < |l.path| && exists e :: e in entries && e.name == l.path[|path|]
      {
        if l in LeavesOf(last.node, child) {
          assert l.path[|path|] == child[|path|];
        }
      }
    }
  }

  lemma {:induction false} FilterKeepsDistinct(leaves: seq<Leaf>, keep: Path -> bool)
    requires DistinctPaths(leaves)
    ensures DistinctPaths(Filter(leaves, keep))
  {
    if leaves != [] {
      assert DistinctPaths(leaves[1..]);
      FilterKeepsDistinct(leaves[1..], keep);
      forall l | l in Filter(leaves[1..], keep)
        ensures l.path != leaves[0].path
      {
        var i :| 0 <= i < |leaves[1..]| && leaves[1..][i] == l;
      }
    }
  }

  /** No selected leaf lies under a special path. */
  predicate NothingMisplaced(tree: seq<Entry>) {
    forall l :: l in AllLeaves(tree, []) ==> !(Selected(l.path) && UnderSpecial(l.path))
  }

  /** A leaf of the tree is visited exactly when it is selected and not under a special path. */
  lemma VisitedExactly(tree: seq<Entry>)
    ensures forall l :: l in VisitedLeaves(tree, []) <==>
              l in AllLeaves(tree, []) && Selected(l.path) && !UnderSpecial(l.path)
  {
    hide Open, Selected, UnderSpecial;
    VisitedIsFilter(tree, []);
    LeavesBelow(tree, []);
    forall l | l in AllLeaves(tree, [])
      ensures Open(l.path, 0) <==> Selected(l.path) && !UnderSpecial(l.path)
    {
      OpenExactly(l.path);
    }
  }

  lemma SpecialFilesOnly(tree: seq<Entry>)
    requires !IsDirectory(tree, [HANDOFF]) && !IsDirectory(tree, MEMORY) && !IsDirectory(tree, [COVERAGE])
    ensures NothingMisplaced(tree)
  {
    hide Selected;
    WalkAgrees(tree);
    WalkAgreesExactly(tree);
  }

  /**
   A clean worktree: when the worktree is the committed tree, in whatever order its leaves are listed,
   the manifest's map is the inventory's if and only if no selected leaf lies under a special path; in
   particular when no special path is a directory.
   */
  lemma CleanWorktreeIsBound(tree: seq<Entry>, listing: seq<Leaf>, files: seq<Leaf>)
    requires NamesDistinct(Dir(tree)) && multiset(listing) == multiset(AllLeaves(tree, []))
    requires multiset(files) == multiset(VisitedLeaves(tree, []))
    ensures Bound(MapOf(Filter(listing, Flat())), files) <==> NothingMisplaced(tree)
    ensures !IsDirectory(tree, [HANDOFF]) && !IsDirectory(tree, MEMORY) && !IsDirectory(tree, [COVERAGE]) ==>
              Bound(MapOf(Filter(listing, Flat())), files)
  {
    hide Selected, UnderSpecial, IsDirectory, AllLeaves, VisitedLeaves, MapOf, NothingMisplaced;
    var all, visited, chosen := AllLeaves(tree, []), VisitedLeaves(tree, []), Filter(listing, Flat());
    PathsDistinct(tree, []);
    DistinctPathsPermuted(all, listing);
    FilterKeepsDistinct(listing, Flat());
    VisitedIsFilter(tree, []);
    FilterKeepsDistinct(all, OpenBelow(0));
    DistinctPathsPermuted(visited, files);
    assert forall l :: (l in listing <==> l in multiset(listing)) && (l in all <==> l in multiset(all));
    assert forall l :: (l in files <==> l in multiset(files)) && (l in visited <==> l in multiset(visited));
    VisitedExactly(tree);
    SameMapsExactly(chosen, files);
    SameLeavesExactly(tree, all, chosen, files);
    if !IsDirectory(tree, [HANDOFF]) && !IsDirectory(tree, MEMORY) && !IsDirectory(tree, [COVERAGE]) {
      SpecialFilesOnly(tree);
    }
  }

  lemma SameMapsExactly(a: seq<Leaf>, b: seq<Leaf>)
    requires DistinctPaths(a) && DistinctPaths(b)
    ensures MapOf(a) == MapOf(b) <==> forall l :: l in a <==> l in b
  {
    hide DistinctPaths, MapOf;
    MapOfHolds(a);
    MapOfHolds(b);
    if forall l :: l in a <==> l in b {
      SameMaps(a, b);
    }
  }

  lemma SameLeavesExactly(tree: seq<Entry>, all: seq<Leaf>, chosen: seq<Leaf>, files: seq<Leaf>)
    requires all == AllLeaves(tree, [])
    requires forall l :: l in chosen <==> l in all && Selected(l.path)
    requires forall l :: l in files <==> l in all && Selected(l.path) && !UnderSpecial(l.path)
    ensures (forall l :: l in chosen <==> l in files) <==> NothingMisplaced(tree)
  {
    hide Selected, UnderSpecial, AllLeaves;
  }

  function PathOf(): Leaf -> Path {
    (l: Leaf) => l.path
  }

  lemma DistinctPathsPermuted(a: seq<Leaf>, b: seq<Leaf>)
    requires multiset(a) == multiset(b) && DistinctPaths(a)
    ensures DistinctPaths(b)
  {
    var p, q := Image(a, PathOf()), Image(b, PathOf());
    ImageOfPermutation(a, b, PathOf());
    DistinctCounts(p);
    DistinctCounts(q);
    assert forall i, j :: 0 <= i < j < |p| ==> p[i] != p[j];
    assert forall i :: 0 <= i < |b| ==> q[i] == b[i].path;
  }
}
