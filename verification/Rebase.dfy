/** `git rebase` as a replay of commits with a per-path three-way merge whose
    conflict function on `.gpg` files is the take-theirs driver. */
module Rebase {
  import opened Options
  import opened CommitGraph
  import opened Audit

  /** What git decides outside this repository: its line merge of other files
      (`None` for conflict markers), the header of a replayed commit, the byte
      size of a pack, which deleted paths of a commit it lists under their new
      names only, whether it can list or replay the changes of a commit whose
      trees are held in part, and whether the ancestry test of two commits
      fails where a history is held in part. */
  datatype Git = Git(
    textMerge: (Bytes, Bytes, Bytes) -> Option<Bytes>,
    restamp: (Commit, Commit) -> nat,
    packSize: Objects -> nat,
    renamedAway: (Commit, Path) -> bool,
    listsPartial: Commit -> bool,
    replaysPartial: Commit -> bool,
    ancestryFails: (Commit, Commit) -> bool)

  datatype Merged = Settled(value: Option<Bytes>) | Conflict

  /** The tree a commit's changes are measured against. */
  function BaseTree(c: Commit): Tree {
    if c.parents == [] then map[] else c.parents[0].tree
  }

  function Touched(c: Commit): set<Path> {
    set p | p in c.tree.Keys + BaseTree(c).Keys && At(c.tree, p) != At(BaseTree(c), p)
  }

  /** The merge driver: whatever ours holds, theirs replaces it. */
  function TakeTheirs(ancestor: Bytes, ours: Bytes, theirs: Bytes): Bytes {
    theirs
  }

  /** One path of a three-way merge.  The driver takes every conflict on a
      `.gpg` file, which is what the store's `merge=` attribute is for. */
  function MergePath(p: Path, base: Option<Bytes>, ours: Option<Bytes>, theirs: Option<Bytes>, git: Git): Merged {
    if theirs == base then Settled(ours)
    else if ours == base || ours == theirs then Settled(theirs)
    else if ours.None? || theirs.None? then Conflict
    else
      var ancestor := if base.Some? then base.value else [];
      if IsGpg(p) then Settled(Some(TakeTheirs(ancestor, ours.value, theirs.value)))
      else match git.textMerge(ancestor, ours.value, theirs.value)
        case None => Conflict
        case Some(bytes) => Settled(Some(bytes))
  }

  function MergeAt(p: Path, base: Tree, ours: Tree, theirs: Tree, git: Git): Merged {
    MergePath(p, At(base, p), At(ours, p), At(theirs, p), git)
  }

  /** The path lies in the directory `dir`. */
  predicate Inside(p: Path, dir: Path) {
    dir + "/" <= p
  }

  predicate IsDirectory(p: Path, paths: set<Path>) {
    exists q :: q in paths && Inside(q, p)
  }

  /** A path of the set is a directory of another one. */
  predicate Clashes(paths: set<Path>) {
    exists p :: p in paths && IsDirectory(p, paths)
  }

  /** The merge of the paths that settle. */
  function SettledTree(base: Tree, ours: Tree, theirs: Tree, git: Git): Tree {
    map p | p in base.Keys + ours.Keys + theirs.Keys && MergeAt(p, base, ours, theirs, git).Settled? &&
            MergeAt(p, base, ours, theirs, git).value.Some? ::
      MergeAt(p, base, ours, theirs, git).value.value
  }

  /** A path in conflict, or a file where there is also a directory, stops the
      merge. */
  function MergeTrees(base: Tree, ours: Tree, theirs: Tree, git: Git): Option<Tree> {
    var merged := SettledTree(base, ours, theirs, git);
    if exists p :: p in base.Keys + ours.Keys + theirs.Keys && MergeAt(p, base, ours, theirs, git).Conflict? then None
    else if Clashes(merged.Keys) then None
    else Some(merged)
  }

  lemma MergeTreesAt(base: Tree, ours: Tree, theirs: Tree, git: Git, p: Path)
    requires MergeTrees(base, ours, theirs, git).Some?
    ensures MergeAt(p, base, ours, theirs, git) == Settled(At(MergeTrees(base, ours, theirs, git).value, p))
  {
    var paths := base.Keys + ours.Keys + theirs.Keys;
    if p in paths {
      assert !MergeAt(p, base, ours, theirs, git).Conflict?;
    }
  }

  /** Replay one commit on `tip`.  A change the tip already has is dropped. */
  function Pick(tip: Commit, c: Commit, git: Git): Option<Commit> {
    match MergeTrees(BaseTree(c), tip.tree, c.tree, git)
    case None => None
    case Some(tree) =>
      if tree == tip.tree && c.tree != BaseTree(c) then Some(tip)
      else Some(Commit([tip], tree, git.restamp(tip, c)))
  }

  function Replay(onto: Commit, todo: seq<Commit>, git: Git): Option<Commit> {
    if todo == [] then Some(onto) else
      match Replay(onto, todo[..|todo| - 1], git)
      case None => None
      case Some(tip) => Pick(tip, todo[|todo| - 1], git)
  }

  lemma ReplayMore(onto: Commit, todo: seq<Commit>, i: nat, git: Git)
    requires i < |todo|
    ensures var before := Replay(onto, todo[..i], git);
            Replay(onto, todo[..i + 1], git) == if before.None? then None else Pick(before.value, todo[i], git)
  {
    assert todo[..i + 1][..i] == todo[..i];
  }

  function Without(s: seq<Commit>, t: seq<Commit>): seq<Commit> {
    if s == [] then [] else
      (if s[0] in t then [] else [s[0]]) + Without(s[1..], t)
  }

  /** The commits `upstream..c`, parents first, merge commits left out. */
  function Todo(c: Commit, upstream: set<Commit>): seq<Commit>
    decreases c
  {
    if c in upstream then [] else
      TodoOfParents(c, c.parents, upstream) + if |c.parents| > 1 then [] else [c]
  }

  function TodoOfParents(c: Commit, parents: seq<Commit>, upstream: set<Commit>): seq<Commit>
    requires forall p :: p in parents ==> p in c.parents
    decreases c, |parents|
  {
    if parents == [] then [] else
      var first := TodoOfParents(c, parents[..|parents| - 1], upstream);
      assert parents[|parents| - 1] in parents;
      first + Without(Todo(parents[|parents| - 1], upstream), first)
  }

  /** No merge commit between `c` and `upstream`. */
  ghost predicate MergeFree(c: Commit, upstream: set<Commit>) {
    forall x :: x in Ancestors(c) - upstream ==> |x.parents| <= 1
  }

  lemma MergeFreeParent(c: Commit, upstream: set<Commit>)
    requires MergeFree(c, upstream) && c !in upstream && c.parents != []
    ensures |c.parents| == 1 && c.parents[0] in c.parents
    ensures MergeFree(c.parents[0], upstream)
    ensures Ancestors(c) == {c} + Ancestors(c.parents[0])
  {
    assert c in Ancestors(c) - upstream;
    assert c.parents == [c.parents[0]];
    assert Ancestors(c) == {c} + Ancestors(c.parents[0]);
  }

  /** The commit where the first-parent line of `c` enters `upstream`. */
  ghost function Fork(c: Commit, upstream: set<Commit>): Option<Commit> {
    if c in upstream then Some(c)
    else if c.parents == [] then None
    else Fork(c.parents[0], upstream)
  }

  ghost function ForkTree(c: Commit, upstream: set<Commit>): Tree {
    match Fork(c, upstream)
    case None => map[]
    case Some(f) => f.tree
  }

  lemma {:induction false} ForkIsNewestShared(c: Commit, upstream: set<Commit>)
    requires MergeFree(c, upstream)
    ensures Fork(c, upstream).None? ==> Ancestors(c) !! upstream
    ensures var f := Fork(c, upstream);
            f.Some? ==> (f.value in upstream && f.value in Ancestors(c) &&
                         Ancestors(c) * upstream <= Ancestors(f.value))
    decreases c
  {
    if c !in upstream && c.parents != [] {
      MergeFreeParent(c, upstream);
      ForkIsNewestShared(c.parents[0], upstream);
    }
  }

  /** Both sides of a divergence branch off at the same commit. */
  lemma ForkSymmetric(a: Commit, b: Commit)
    requires MergeFree(a, Ancestors(b)) && MergeFree(b, Ancestors(a))
    ensures Fork(a, Ancestors(b)) == Fork(b, Ancestors(a))
  {
    ForkIsNewestShared(a, Ancestors(b));
    ForkIsNewestShared(b, Ancestors(a));
    var f, g := Fork(a, Ancestors(b)), Fork(b, Ancestors(a));
    if f.Some? && g.Some? {
      AncestryAntisymmetric(f.value, g.value);
    }
  }

  lemma {:induction false} WithoutNothing(s: seq<Commit>)
    ensures Without(s, []) == s
  {
    if s != [] { WithoutNothing(s[1..]); }
  }

  lemma TodoStep(c: Commit, upstream: set<Commit>)
    requires MergeFree(c, upstream) && c !in upstream
    ensures Todo(c, upstream) == (if c.parents == [] then [] else Todo(c.parents[0], upstream)) + [c]
  {
    if c.parents != [] {
      MergeFreeParent(c, upstream);
      WithoutNothing(Todo(c.parents[0], upstream));
      assert c.parents[..0] == [];
      assert TodoOfParents(c, [], upstream) == [];
      assert TodoOfParents(c, c.parents, upstream) == [] + Without(Todo(c.parents[0], upstream), []);
    }
  }

  /** What a merge-free range replays is the range itself. */
  lemma {:induction false} TodoIsRange(c: Commit, upstream: set<Commit>)
    requires MergeFree(c, upstream) && ParentClosed(upstream)
    ensures forall x :: x in Todo(c, upstream) <==> x in Ancestors(c) - upstream
    decreases c
  {
    if c in upstream {
      ClosedHoldsHistory(c, upstream);
    } else {
      TodoStep(c, upstream);
      if c.parents != [] {
        MergeFreeParent(c, upstream);
        TodoIsRange(c.parents[0], upstream);
      }
    }
  }

  lemma {:induction false} WithoutMembers(s: seq<Commit>, t: seq<Commit>, x: Commit)
    ensures x in Without(s, t) <==> x in s && x !in t
  {
    if s != [] { WithoutMembers(s[1..], t, x); }
  }

  /** For any history, merges included, the commits replayed are those of the
      range that are no merges. */
  lemma {:induction false} TodoMembers(c: Commit, upstream: set<Commit>, x: Commit)
    requires ParentClosed(upstream)
    ensures x in Todo(c, upstream) <==> x in Ancestors(c) - upstream && |x.parents| <= 1
    decreases c, |c.parents| + 1
  {
    if c in upstream {
      ClosedHoldsHistory(c, upstream);
    } else {
      TodoOfParentsMembers(c, c.parents, upstream, x);
    }
  }

  lemma {:induction false} TodoOfParentsMembers(c: Commit, parents: seq<Commit>, upstream: set<Commit>, x: Commit)
    requires ParentClosed(upstream) && forall p :: p in parents ==> p in c.parents
    ensures x in TodoOfParents(c, parents, upstream) <==>
              exists p :: p in parents && x in Ancestors(p) - upstream && |x.parents| <= 1
    decreases c, |parents|
  {
    if parents != [] {
      var init, last := parents[..|parents| - 1], parents[|parents| - 1];
      assert parents == init + [last] && last in c.parents;
      TodoOfParentsMembers(c, init, upstream, x);
      TodoMembers(last, upstream, x);
      WithoutMembers(Todo(last, upstream), TodoOfParents(c, init, upstream), x);
    }
  }

  /** No commit comes before one it descends from, and none comes twice. */
  ghost predicate ParentsFirst(s: seq<Commit>) {
    forall i, j :: 0 <= i < j < |s| ==> s[j] !in Ancestors(s[i])
  }

  lemma {:induction false} TodoParentsFirst(c: Commit, upstream: set<Commit>)
    requires ParentClosed(upstream)
    ensures ParentsFirst(Todo(c, upstream))
    decreases c, |c.parents| + 1
  {
    if c !in upstream {
      TodoOfParentsOrdered(c, c.parents, upstream);
      var before := TodoOfParents(c, c.parents, upstream);
      forall i | 0 <= i < |before| ensures c !in Ancestors(before[i]) {
        TodoOfParentsMembers(c, c.parents, upstream, before[i]);
        var p :| p in c.parents && before[i] in Ancestors(p);
        AncestorsTransitive(p, before[i]);
        Acyclic(c, p);
      }
    }
  }

  lemma {:induction false} TodoOfParentsOrdered(c: Commit, parents: seq<Commit>, upstream: set<Commit>)
    requires ParentClosed(upstream) && forall p :: p in parents ==> p in c.parents
    ensures ParentsFirst(TodoOfParents(c, parents, upstream))
    decreases c, |parents|
  {
    if parents != [] {
      var init, last := parents[..|parents| - 1], parents[|parents| - 1];
      assert last in c.parents;
      TodoOfParentsOrdered(c, init, upstream);
      TodoParentsFirst(last, upstream);
      var first, second := TodoOfParents(c, init, upstream), Todo(last, upstream);
      WithoutParentsFirst(second, first);
      forall x, y | x in first && y in Without(second, first) ensures y !in Ancestors(x) {
        WithoutMembers(second, first, y);
        TodoMembers(last, upstream, y);
        TodoOfParentsMembers(c, init, upstream, x);
        TodoOfParentsMembers(c, init, upstream, y);
        var p :| p in init && x in Ancestors(p);
        if y in Ancestors(x) { AncestorsTransitive(p, x); }
      }
      JoinedParentsFirst(first, Without(second, first));
    }
  }

  lemma {:induction false} WithoutParentsFirst(s: seq<Commit>, t: seq<Commit>)
    requires ParentsFirst(s)
    ensures ParentsFirst(Without(s, t))
  {
    if s != [] {
      WithoutParentsFirst(s[1..], t);
      if s[0] !in t {
        var rest := Without(s[1..], t);
        forall y | y in rest ensures y !in Ancestors(s[0]) {
          WithoutMembers(s[1..], t, y);
        }
        JoinedParentsFirst([s[0]], rest);
      }
    }
  }

  lemma JoinedParentsFirst(a: seq<Commit>, b: seq<Commit>)
    requires ParentsFirst(a) && ParentsFirst(b) && forall x, y :: x in a && y in b ==> y !in Ancestors(x)
    ensures ParentsFirst(a + b)
  {
    var s := a + b;
    forall i, j | 0 <= i < j < |s| ensures s[j] !in Ancestors(s[i]) {
      if i < |a| <= j { assert s[i] in a && s[j] in b; }
    }
  }

  ghost predicate TouchedIn(p: Path, todo: seq<Commit>) {
    exists x :: x in todo && p in Touched(x)
  }

  /** A path no commit of the range touched still reads as at the fork. */
  lemma {:induction false} UntouchedSinceFork(c: Commit, upstream: set<Commit>, p: Path)
    requires MergeFree(c, upstream) && !TouchedIn(p, Todo(c, upstream))
    ensures At(c.tree, p) == At(ForkTree(c, upstream), p)
    decreases c
  {
    if c !in upstream {
      TodoStep(c, upstream);
      assert c in Todo(c, upstream);
      assert At(c.tree, p) == At(BaseTree(c), p);
      if c.parents != [] {
        MergeFreeParent(c, upstream);
        UntouchedSinceFork(c.parents[0], upstream, p);
      }
    }
  }

  lemma {:induction false} PickAt(tip: Commit, c: Commit, git: Git, p: Path)
    requires Pick(tip, c, git).Some?
    ensures MergeAt(p, BaseTree(c), tip.tree, c.tree, git) == Settled(At(Pick(tip, c, git).value.tree, p))
  {
    MergeTreesAt(BaseTree(c), tip.tree, c.tree, git, p);
  }

  /** One replayed commit decides the paths it touched and no other. */
  lemma PickContent(tip: Commit, c: Commit, git: Git, p: Path)
    requires Pick(tip, c, git).Some?
    ensures var result := Pick(tip, c, git).value.tree;
            if p in Touched(c)
            then (At(result, p).Some? == At(c.tree, p).Some?) && (IsGpg(p) ==> At(result, p) == At(c.tree, p))
            else At(result, p) == At(tip.tree, p)
  {
    PickAt(tip, c, git, p);
    assert p in Touched(c) <==> At(c.tree, p) != At(BaseTree(c), p);
  }

  /** What the last replayed commit that touched `p` made of it; `None` when
      no commit did. */
  ghost function LastEdit(todo: seq<Commit>, p: Path): Option<Option<Bytes>> {
    if todo == [] then None else
      var last := todo[|todo| - 1];
      if p in Touched(last) then Some(At(last.tree, p)) else LastEdit(todo[..|todo| - 1], p)
  }

  lemma {:induction false} LastEditTouched(todo: seq<Commit>, p: Path)
    ensures LastEdit(todo, p).Some? <==> TouchedIn(p, todo)
  {
    if todo != [] {
      var init, last := todo[..|todo| - 1], todo[|todo| - 1];
      assert todo == init + [last];
      LastEditTouched(init, p);
    }
  }

  /** The content of a successful replay of any commits, whatever their shape:
      on every path the last edit decides whether the file exists and, for a
      `.gpg` file, its content; a path without edits stays the upstream's. */
  lemma {:induction false} ReplayKeepsLastEdit(onto: Commit, todo: seq<Commit>, git: Git, p: Path)
    requires Replay(onto, todo, git).Some?
    ensures var result := At(Replay(onto, todo, git).value.tree, p);
            match LastEdit(todo, p)
            case None => result == At(onto.tree, p)
            case Some(file) => result.Some? == file.Some? && (IsGpg(p) ==> result == file)
  {
    if todo != [] {
      var init, last := todo[..|todo| - 1], todo[|todo| - 1];
      ReplayKeepsLastEdit(onto, init, git, p);
      PickContent(Replay(onto, init, git).value, last, git, p);
    }
  }

  /** On a merge-free range the last edit of a path is the local head's file. */
  lemma {:induction false} LastEditIsLocal(c: Commit, upstream: set<Commit>, p: Path)
    requires MergeFree(c, upstream) && LastEdit(Todo(c, upstream), p).Some?
    ensures LastEdit(Todo(c, upstream), p).value == At(c.tree, p)
    decreases c
  {
    if c in upstream { return; }
    TodoStep(c, upstream);
    var todo := Todo(c, upstream);
    var before := if c.parents == [] then [] else Todo(c.parents[0], upstream);
    assert todo[|todo| - 1] == c && todo[..|todo| - 1] == before;
    if p !in Touched(c) && c.parents != [] {
      MergeFreeParent(c, upstream);
      LastEditIsLocal(c.parents[0], upstream, p);
    }
  }

  /** The content of a successful rebase, for any number of replayed commits
      and any line merge of the other files:
      a path some replayed commit touched (even if it was changed back) exists
      exactly when the local head has it, with the local head's ciphertext if
      it is a `.gpg` file; every other path reads as the upstream left it.
      As in `MergePath`, files are matched by path: git's rename detection,
      which can settle a byte-identical move against an edit, is not modelled. */
  lemma ReplayContent(onto: Commit, c: Commit, upstream: set<Commit>, git: Git, p: Path)
    requires MergeFree(c, upstream)
    requires Replay(onto, Todo(c, upstream), git).Some?
    ensures var result := Replay(onto, Todo(c, upstream), git).value.tree;
            if TouchedIn(p, Todo(c, upstream))
            then (At(result, p).Some? == At(c.tree, p).Some?) && (IsGpg(p) ==> At(result, p) == At(c.tree, p))
            else At(result, p) == At(onto.tree, p)
  {
    var todo := Todo(c, upstream);
    ReplayKeepsLastEdit(onto, todo, git, p);
    LastEditTouched(todo, p);
    if LastEdit(todo, p).Some? { LastEditIsLocal(c, upstream, p); }
  }

  ghost predicate OnlyEdit(k: Commit, p: Path, todo: seq<Commit>) {
    k in todo && p in Touched(k) && forall x :: x in todo && p in Touched(x) ==> x == k
  }

  lemma LastReplayed(onto: Commit, c: Commit, upstream: set<Commit>, git: Git)
    requires MergeFree(c, upstream) && c !in upstream
    ensures var before := Replay(onto, if c.parents == [] then [] else Todo(c.parents[0], upstream), git);
            Replay(onto, Todo(c, upstream), git) == if before.None? then None else Pick(before.value, c, git)
  {
    TodoStep(c, upstream);
    var before := if c.parents == [] then [] else Todo(c.parents[0], upstream);
    assert Todo(c, upstream)[..|before|] == before && Todo(c, upstream)[|before|] == c;
  }

  /** One three-way merge: an edit made on one side, or alike on both, is
      taken; a file edited differently on both is still there on both, and holds
      the local ciphertext or, if it is not a `.gpg` file, git's line merge. */
  ghost predicate MergedOnce(p: Path, fork: Option<Bytes>, ours: Option<Bytes>, theirs: Option<Bytes>,
                             result: Option<Bytes>, git: Git) {
    && (theirs == fork ==> result == ours)
    && (ours == fork || ours == theirs ==> result == theirs)
    && (theirs != fork && ours != fork && ours != theirs ==>
          && ours.Some? && theirs.Some? && result.Some?
          && if IsGpg(p) then result == theirs
             else result == git.textMerge(if fork.Some? then fork.value else [], ours.value, theirs.value))
  }

  lemma MergesOnce(p: Path, base: Tree, ours: Tree, theirs: Tree, git: Git, result: Option<Bytes>)
    requires MergeAt(p, base, ours, theirs, git) == Settled(result)
    ensures MergedOnce(p, At(base, p), At(ours, p), At(theirs, p), result, git)
  {
  }

  /** Where one commit of the range edits a path, a successful rebase merges
      the fork's, the upstream's and the local file once. */
  lemma {:induction false} OneEditMerges(onto: Commit, c: Commit, upstream: set<Commit>, git: Git, p: Path, k: Commit)
    requires MergeFree(c, upstream) && OnlyEdit(k, p, Todo(c, upstream))
    requires Replay(onto, Todo(c, upstream), git).Some?
    ensures At(c.tree, p) != At(ForkTree(c, upstream), p)
    ensures MergedOnce(p, At(ForkTree(c, upstream), p), At(onto.tree, p), At(c.tree, p),
                       At(Replay(onto, Todo(c, upstream), git).value.tree, p), git)
    decreases c
  {
    LastReplayed(onto, c, upstream, git);
    var tip := Replay(onto, if c.parents == [] then [] else Todo(c.parents[0], upstream), git).value;
    if p in Touched(c) {
      TodoStep(c, upstream);
      assert c in Todo(c, upstream);
      EditedLast(onto, c, upstream, git, p, tip);
      PickAt(tip, c, git, p);
      MergesOnce(p, BaseTree(c), tip.tree, c.tree, git, At(Pick(tip, c, git).value.tree, p));
    } else {
      EditedBefore(c, upstream, p, k);
      OneEditMerges(onto, c.parents[0], upstream, git, p, k);
      PickContent(tip, c, git, p);
    }
  }

  lemma EditedBefore(c: Commit, upstream: set<Commit>, p: Path, k: Commit)
    requires MergeFree(c, upstream) && OnlyEdit(k, p, Todo(c, upstream)) && p !in Touched(c)
    ensures c !in upstream && c.parents != []
    ensures MergeFree(c.parents[0], upstream) && OnlyEdit(k, p, Todo(c.parents[0], upstream))
    ensures At(c.tree, p) == At(c.parents[0].tree, p) && ForkTree(c, upstream) == ForkTree(c.parents[0], upstream)
  {
    TodoStep(c, upstream);
    assert At(c.tree, p) == At(BaseTree(c), p);
    if c.parents != [] { MergeFreeParent(c, upstream); }
  }

  lemma EditedLast(onto: Commit, c: Commit, upstream: set<Commit>, git: Git, p: Path, tip: Commit)
    requires MergeFree(c, upstream) && c !in upstream
    requires p in Touched(c) && forall x :: x in Todo(c, upstream) && p in Touched(x) ==> x == c
    requires var before := if c.parents == [] then [] else Todo(c.parents[0], upstream);
             Replay(onto, before, git) == Some(tip)
    ensures At(tip.tree, p) == At(onto.tree, p) && At(BaseTree(c), p) == At(ForkTree(c, upstream), p)
  {
    TodoStep(c, upstream);
    if c.parents != [] {
      MergeFreeParent(c, upstream);
      var parent := c.parents[0];
      assert !TouchedIn(p, Todo(parent, upstream)) by {
        HereNotBelow(c, parent, upstream);
        assert forall x :: x in Todo(parent, upstream) ==> x in Todo(c, upstream);
      }
      ReplayContent(onto, parent, upstream, git, p);
      UntouchedSinceFork(parent, upstream, p);
    }
  }

  lemma HereNotBelow(c: Commit, parent: Commit, upstream: set<Commit>)
    requires parent in c.parents && MergeFree(parent, upstream)
    ensures c !in Todo(parent, upstream)
  {
    Acyclic(c, parent);
    TodoReaches(parent, upstream);
  }

  lemma {:induction false} TodoReaches(c: Commit, upstream: set<Commit>)
    requires MergeFree(c, upstream)
    ensures forall x :: x in Todo(c, upstream) ==> x in Ancestors(c)
    decreases c
  {
    if c !in upstream {
      TodoStep(c, upstream);
      if c.parents != [] {
        MergeFreeParent(c, upstream);
        TodoReaches(c.parents[0], upstream);
      }
    }
  }

  /** The file was edited differently on both sides since the fork, and it is
      gone on one of them or git cannot merge it line by line. */
  ghost predicate Disputed(onto: Commit, c: Commit, upstream: set<Commit>, git: Git, p: Path) {
    var fork, ours, theirs := At(ForkTree(c, upstream), p), At(onto.tree, p), At(c.tree, p);
    && ours != fork && ours != theirs
    && (ours.None? || theirs.None? ||
        (!IsGpg(p) && git.textMerge(if fork.Some? then fork.value else [], ours.value, theirs.value).None?))
  }

  /** A dispute over a path edited by one commit of the range stops the rebase. */
  lemma DisputeStopsReplay(onto: Commit, c: Commit, upstream: set<Commit>, git: Git, p: Path, k: Commit)
    requires MergeFree(c, upstream) && OnlyEdit(k, p, Todo(c, upstream)) && Disputed(onto, c, upstream, git, p)
    ensures Replay(onto, Todo(c, upstream), git).None?
  {
    if Replay(onto, Todo(c, upstream), git).Some? { OneEditMerges(onto, c, upstream, git, p, k); }
  }

  /** A commit on `.gpg` files is dropped exactly when it changes something and
      the tip has all of it already; otherwise it becomes a child of the tip. */
  lemma PickDropsExactly(tip: Commit, c: Commit, git: Git)
    requires Pick(tip, c, git).Some? && forall p :: p in Touched(c) ==> IsGpg(p)
    ensures Pick(tip, c, git) == Some(tip) <==>
              Touched(c) != {} && forall p :: p in Touched(c) ==> At(tip.tree, p) == At(c.tree, p)
    ensures var r := Pick(tip, c, git).value;
            r == tip || r == Commit([tip], r.tree, git.restamp(tip, c))
  {
    var r := Pick(tip, c, git).value;
    forall p ensures At(r.tree, p) == if p in Touched(c) then At(c.tree, p) else At(tip.tree, p) {
      PickContent(tip, c, git, p);
    }
    SameTreeExactly(r.tree, tip.tree);
    SameTreeExactly(c.tree, BaseTree(c));
    assert Touched(c) == {} <==> c.tree == BaseTree(c) by {
      forall p ensures p in Touched(c) <==> At(c.tree, p) != At(BaseTree(c), p) {
      }
    }
    if r.parents == [tip] { assert tip in r.parents; Acyclic(r, tip); }
  }

  lemma SameTreeExactly(s: Tree, t: Tree)
    ensures s == t <==> forall p :: At(s, p) == At(t, p)
  {
    if forall p :: At(s, p) == At(t, p) {
      forall p ensures p in s <==> p in t {
        assert At(s, p) == At(t, p);
      }
      forall p | p in s ensures s[p] == t[p] {
        assert At(s, p) == At(t, p);
      }
    }
  }

  /** The result of a rebase descends from, or is, the commit it lands on. */
  lemma {:induction false} ReplayDescends(onto: Commit, todo: seq<Commit>, git: Git)
    requires Replay(onto, todo, git).Some?
    ensures onto in Ancestors(Replay(onto, todo, git).value)
  {
    if todo != [] {
      ReplayDescends(onto, todo[..|todo| - 1], git);
    }
  }

  /** The local value of `p` after the first commit of the range that touched
      it; `None` when no commit did. */
  ghost function FirstEdit(c: Commit, upstream: set<Commit>, p: Path): Option<Option<Bytes>> {
    if c in upstream then None else
      var before := if c.parents == [] then None else FirstEdit(c.parents[0], upstream, p);
      if before.Some? then before
      else if p in Touched(c) then Some(At(c.tree, p))
      else None
  }

  /** One side deleted the file, the other changed it, and they disagree. */
  ghost predicate DeleteModify(onto: Commit, c: Commit, upstream: set<Commit>, p: Path) {
    var edit := FirstEdit(c, upstream, p);
    var theirs := At(onto.tree, p);
    edit.Some? && theirs != At(ForkTree(c, upstream), p) && theirs != edit.value
    && (theirs.None? || edit.value.None?)
  }

  lemma {:induction false} FirstEditTouched(c: Commit, upstream: set<Commit>, p: Path)
    requires MergeFree(c, upstream)
    ensures FirstEdit(c, upstream, p).Some? <==> TouchedIn(p, Todo(c, upstream))
    decreases c
  {
    if c !in upstream {
      TodoStep(c, upstream);
      assert c in Todo(c, upstream);
      if c.parents != [] {
        MergeFreeParent(c, upstream);
        FirstEditTouched(c.parents[0], upstream, p);
      }
    }
  }

  lemma GpgConflictExactly(p: Path, base: Option<Bytes>, ours: Option<Bytes>, theirs: Option<Bytes>, git: Git)
    requires theirs != base ==> IsGpg(p)
    ensures MergePath(p, base, ours, theirs, git).Conflict? <==>
              theirs != base && ours != base && ours != theirs && (ours.None? || theirs.None?)
  {
  }

  /** One more replayed commit conflicts exactly on the paths it is the first
      to touch and that are in a delete/modify disagreement. */
  lemma PickConflict(onto: Commit, c: Commit, upstream: set<Commit>, tip: Commit, git: Git, p: Path)
    requires MergeFree(c, upstream) && c !in upstream
    requires forall q :: q in Touched(c) ==> IsGpg(q)
    requires var before := if c.parents == [] then [] else Todo(c.parents[0], upstream);
             Replay(onto, before, git) == Some(tip)
    ensures MergeAt(p, BaseTree(c), tip.tree, c.tree, git).Conflict? <==>
              DeleteModify(onto, c, upstream, p) &&
              (c.parents == [] || !DeleteModify(onto, c.parents[0], upstream, p))
  {
    assert p in Touched(c) <==> At(c.tree, p) != At(BaseTree(c), p);
    GpgConflictExactly(p, At(BaseTree(c), p), At(tip.tree, p), At(c.tree, p), git);
    if c.parents != [] {
      MergeFreeParent(c, upstream);
      BeforeLastPick(onto, c.parents[0], upstream, tip, git, p, p in Touched(c));
    }
  }

  /** Up to here the replayed and the local file agree if some commit touched
      the path, and are the upstream's and the fork's if none did. */
  lemma BeforeLastPick(onto: Commit, c: Commit, upstream: set<Commit>, tip: Commit, git: Git, p: Path, gpg: bool)
    requires MergeFree(c, upstream) && Replay(onto, Todo(c, upstream), git) == Some(tip) && (gpg ==> IsGpg(p))
    ensures if FirstEdit(c, upstream, p).Some? then gpg ==> At(tip.tree, p) == At(c.tree, p)
            else At(tip.tree, p) == At(onto.tree, p) && At(c.tree, p) == At(ForkTree(c, upstream), p)
  {
    FirstEditTouched(c, upstream, p);
    ReplayContent(onto, c, upstream, git, p);
    if FirstEdit(c, upstream, p).None? { UntouchedSinceFork(c, upstream, p); }
  }

  lemma PickSucceedsExactly(tip: Commit, c: Commit, git: Git)
    ensures Pick(tip, c, git).Some? <==>
              && (forall p :: !MergeAt(p, BaseTree(c), tip.tree, c.tree, git).Conflict?)
              && !Clashes(SettledTree(BaseTree(c), tip.tree, c.tree, git).Keys)
  {
    forall p | MergeAt(p, BaseTree(c), tip.tree, c.tree, git).Conflict?
      ensures p in BaseTree(c).Keys + tip.tree.Keys + c.tree.Keys
    {
    }
  }

  /** The paths there are once the commits up to `c` have been replayed. */
  ghost function Overlay(onto: Commit, c: Commit, upstream: set<Commit>): set<Path> {
    set p | p in onto.tree.Keys + c.tree.Keys &&
            if TouchedIn(p, Todo(c, upstream)) then p in c.tree else p in onto.tree
  }

  lemma SettledAt(base: Tree, ours: Tree, theirs: Tree, git: Git, p: Path)
    requires !MergeAt(p, base, ours, theirs, git).Conflict?
    ensures At(SettledTree(base, ours, theirs, git), p) == MergeAt(p, base, ours, theirs, git).value
  {
  }

  lemma SettledIsOverlay(onto: Commit, c: Commit, upstream: set<Commit>, tip: Commit, git: Git)
    requires MergeFree(c, upstream) && c !in upstream
    requires var before := if c.parents == [] then [] else Todo(c.parents[0], upstream);
             Replay(onto, before, git) == Some(tip)
    requires forall p :: !MergeAt(p, BaseTree(c), tip.tree, c.tree, git).Conflict?
    ensures SettledTree(BaseTree(c), tip.tree, c.tree, git).Keys == Overlay(onto, c, upstream)
  {
    var keys := SettledTree(BaseTree(c), tip.tree, c.tree, git).Keys;
    TodoStep(c, upstream);
    forall p ensures p in keys <==> p in Overlay(onto, c, upstream) {
      SettledAt(BaseTree(c), tip.tree, c.tree, git, p);
      OverlayStep(onto, c, upstream, tip, git, p);
    }
  }

  lemma OverlayStep(onto: Commit, c: Commit, upstream: set<Commit>, tip: Commit, git: Git, p: Path)
    requires MergeFree(c, upstream) && c !in upstream
    requires var before := if c.parents == [] then [] else Todo(c.parents[0], upstream);
             Replay(onto, before, git) == Some(tip)
    ensures p in Overlay(onto, c, upstream) <==> if p in Touched(c) then p in c.tree else p in tip.tree
  {
    TodoStep(c, upstream);
    var before := if c.parents == [] then [] else Todo(c.parents[0], upstream);
    assert Todo(c, upstream) == before + [c];
    assert TouchedIn(p, Todo(c, upstream)) <==> TouchedIn(p, before) || p in Touched(c);
    assert p in Touched(c) <==> At(c.tree, p) != At(BaseTree(c), p);
    if c.parents != [] {
      MergeFreeParent(c, upstream);
      ReplayContent(onto, c.parents[0], upstream, git, p);
    }
  }

  lemma DeleteModifyStays(onto: Commit, c: Commit, upstream: set<Commit>, p: Path)
    requires c !in upstream && c.parents != [] && DeleteModify(onto, c.parents[0], upstream, p)
    ensures DeleteModify(onto, c, upstream, p)
  {
  }

  /** The replay of one of the range's commits would leave a file where there
      is also a directory. */
  ghost predicate DirectoryClash(onto: Commit, c: Commit, upstream: set<Commit>) {
    exists x :: x in Todo(c, upstream) && Clashes(Overlay(onto, x, upstream))
  }

  lemma DirectoryClashStep(onto: Commit, c: Commit, upstream: set<Commit>)
    requires MergeFree(c, upstream) && c !in upstream
    ensures DirectoryClash(onto, c, upstream) <==>
              || Clashes(Overlay(onto, c, upstream))
              || (c.parents != [] && DirectoryClash(onto, c.parents[0], upstream))
  {
    TodoStep(c, upstream);
    var before := if c.parents == [] then [] else Todo(c.parents[0], upstream);
    assert forall x :: x in Todo(c, upstream) <==> x in before || x == c;
  }

  /** When the range touches `.gpg` files only, a rebase succeeds exactly when
      no path is in a delete/modify disagreement with the upstream and no
      replayed commit leaves a file where there is a directory. */
  lemma {:induction false} ReplaySucceedsExactly(onto: Commit, c: Commit, upstream: set<Commit>, git: Git)
    requires MergeFree(c, upstream)
    requires forall x, p :: x in Todo(c, upstream) && p in Touched(x) ==> IsGpg(p)
    ensures Replay(onto, Todo(c, upstream), git).Some? <==>
              (forall p :: !DeleteModify(onto, c, upstream, p)) && !DirectoryClash(onto, c, upstream)
    decreases c
  {
    if c in upstream { return; }
    TodoStep(c, upstream);
    DirectoryClashStep(onto, c, upstream);
    var before := if c.parents == [] then [] else Todo(c.parents[0], upstream);
    assert c in Todo(c, upstream) && Todo(c, upstream)[..|before|] == before;
    if c.parents != [] {
      MergeFreeParent(c, upstream);
      ReplaySucceedsExactly(onto, c.parents[0], upstream, git);
    }
    if Replay(onto, before, git).None? {
      if !DirectoryClash(onto, c.parents[0], upstream) {
        var p :| DeleteModify(onto, c.parents[0], upstream, p);
        DeleteModifyStays(onto, c, upstream, p);
      }
    } else {
      LastPickSucceedsExactly(onto, c, upstream, Replay(onto, before, git).value, git);
    }
  }

  lemma LastPickSucceedsExactly(onto: Commit, c: Commit, upstream: set<Commit>, tip: Commit, git: Git)
    requires MergeFree(c, upstream) && c !in upstream
    requires forall q :: q in Touched(c) ==> IsGpg(q)
    requires var before := if c.parents == [] then [] else Todo(c.parents[0], upstream);
             Replay(onto, before, git) == Some(tip)
    requires c.parents != [] ==> forall p :: !DeleteModify(onto, c.parents[0], upstream, p)
    ensures Pick(tip, c, git).Some? <==>
              (forall p :: !DeleteModify(onto, c, upstream, p)) && !Clashes(Overlay(onto, c, upstream))
  {
    PickSucceedsExactly(tip, c, git);
    forall p ensures MergeAt(p, BaseTree(c), tip.tree, c.tree, git).Conflict? <==> DeleteModify(onto, c, upstream, p) {
      PickConflict(onto, c, upstream, tip, git, p);
    }
    if forall p :: !MergeAt(p, BaseTree(c), tip.tree, c.tree, git).Conflict? {
      SettledIsOverlay(onto, c, upstream, tip, git);
    }
  }
}
