/** The auto-commit of the store's repository. */
module Vcs {
  import opened Options
  import opened GpgId

  /** A commit of the store: its parent and the tree it records. */
  datatype Snapshot = Snapshot(parent: Option<Snapshot>, tree: Files)

  /** `busy` is an unfinished merge, rebase or the like. */
  datatype Repo = Repo(initialised: bool, busy: bool, index: Files, head: Option<Snapshot>)

  function FileAt(files: Files, p: string): Option<Blob> {
    if p in files then Some(files[p]) else None
  }

  function HeadTree(repo: Repo): Files {
    if repo.head.None? then map[] else repo.head.value.tree
  }

  function StageOne(index: Files, worktree: Files, p: string): Files {
    if p in worktree then index[p := worktree[p]] else index - {p}
  }

  function Stage(index: Files, worktree: Files, paths: seq<string>): Files {
    if paths == [] then index
    else StageOne(Stage(index, worktree, paths[..|paths| - 1]), worktree, paths[|paths| - 1])
  }

  lemma {:induction false} StageAt(index: Files, worktree: Files, paths: seq<string>, p: string)
    ensures FileAt(Stage(index, worktree, paths), p) == FileAt(if p in paths then worktree else index, p)
  {
    if paths != [] {
      StageAt(index, worktree, paths[..|paths| - 1], p);
      assert paths == paths[..|paths| - 1] + [paths[|paths| - 1]];
    }
  }

  /** The repository after a commit request, and whether it was accepted. */
  function CommitPaths(repo: Repo, worktree: Files, paths: seq<string>): (Repo, bool) {
    if paths == [] || !repo.initialised then (repo, true)
    else if repo.busy then (repo, false)
    else
      var index := Stage(repo.index, worktree, paths);
      if repo.head.Some? && repo.head.value.tree == index then (repo.(index := index), true)
      else (repo.(index := index, head := Some(Snapshot(repo.head, index))), true)
  }

  /** Without a repository, or without paths, there is nothing to do; in the
      middle of something else the commit is refused and nothing changes. */
  lemma CommitSkips(repo: Repo, worktree: Files, paths: seq<string>)
    ensures !repo.initialised || paths == [] ==> CommitPaths(repo, worktree, paths) == (repo, true)
    ensures repo.initialised && paths != [] && repo.busy ==> CommitPaths(repo, worktree, paths) == (repo, false)
    ensures repo.initialised && paths != [] && !repo.busy ==> CommitPaths(repo, worktree, paths).1
  {
  }

  class Git2Vcs {
    var initialised: bool
    var busy: bool
    var index: Files
    var head: Option<Snapshot>

    ghost function State(): Repo
      reads this
    {
      Repo(initialised, busy, index, head)
    }

    constructor ()
      ensures State() == Repo(false, false, map[], None)
    {
      initialised, busy, index, head := false, false, map[], None;
    }

    method Commit(worktree: Files, paths: seq<string>) returns (ok: bool)
      modifies this
      ensures (State(), ok) == CommitPaths(old(State()), worktree, paths)
    {
      if paths == [] || !initialised { return true; }
      if busy { return false; }
      var staged := index;
      for i := 0 to |paths|
        invariant staged == Stage(old(index), worktree, paths[..i])
        invariant unchanged(this)
      {
        assert paths[..i + 1][..i] == paths[..i];
        if paths[i] in worktree {
          staged := staged[paths[i] := worktree[paths[i]]];
        } else {
          staged := staged - {paths[i]};
        }
      }
      assert paths[..|paths|] == paths;
      index := staged;
      if head.Some? && head.value.tree == staged { return true; }
      head := Some(Snapshot(head, staged));
      ok := true;
    }
  }
}
