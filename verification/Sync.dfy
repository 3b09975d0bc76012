/** One peer sync: pack exchange, leak audit, reconciliation. */
module Sync {
  import opened Options
  import opened CommitGraph
  import opened Order
  import opened Audit
  import opened Quoting
  import opened Rebase

  const MAX_PACK_BYTES := 50 * 1024 * 1024

  /** `head` is unborn when `None`. */
  datatype Peer = Peer(id: string, objects: Objects, head: Option<Commit>)

  /** A pack may carry any objects at all, commits without their trees too. */
  datatype Reply =
    | Pack(peerHead: Option<Commit>, objects: Objects)
    | Refusal

  datatype Outcome =
    | UpToDate
    | FastForwarded(from: Option<Commit>, to: Commit)
    | PeerBehind
    | Rebased(onto: Commit)
    | AwaitingPeerRebase
    | RejectedLeak(issues: seq<LeakIssue>)
    | Failed

  const NO_OBJECTS := Objects({}, {})

  /** A peer's own history, trees included, is in its object database. */
  ghost predicate HoldsHistory(x: Peer) {
    x.objects.Hold(History(x.head))
  }

  // ----- responder ------------------------------------------------------

  function HeadSeen(x: Peer, seen: Option<Commit>): bool {
    seen.Some? && seen.value in x.objects.commits
  }

  /** Reachable from our head and not from the head the peer saw, which is
      ignored when we do not know it. */
  function PackCommits(x: Peer, seen: Option<Commit>): set<Commit> {
    History(x.head) - (if HeadSeen(x, seen) then Ancestors(seen.value) else {})
  }

  /** Those commits and their trees, except for the tree the peer saw. */
  function PackFor(x: Peer, seen: Option<Commit>): Objects {
    var commits := PackCommits(x, seen);
    Objects(commits, (set c | c in commits :: c.tree) - if HeadSeen(x, seen) then {seen.value.tree} else {})
  }

  function Unseen(c: Commit, known: set<Commit>): set<Commit> {
    (set p | p in c.parents) - known
  }

  /** The revision walk: what was emitted and what is queued lie in the range,
      and every parent of an emitted commit is queued, emitted or hidden. */
  ghost predicate Walking(top: Commit, hidden: set<Commit>, pack: set<Commit>, pending: set<Commit>) {
    && pending !! pack
    && pack + pending <= Ancestors(top) - hidden
    && top in pack + pending + hidden
    && forall c, p :: c in pack && p in c.parents ==> p in pack + pending + hidden
  }

  lemma WalkStep(top: Commit, hidden: set<Commit>, pack: set<Commit>, pending: set<Commit>, c: Commit)
    requires Walking(top, hidden, pack, pending) && c in pending
    ensures Walking(top, hidden, pack + {c}, pending + Unseen(c, hidden + pack) - {c})
  {
    AncestorsTransitive(top, c);
    forall p | p in c.parents ensures p in Ancestors(top) {
      assert p in Ancestors(p);
    }
  }

  function Serve(x: Peer, seen: Option<Commit>, git: Git): Reply {
    if git.packSize(PackFor(x, seen)) > MAX_PACK_BYTES then Refusal
    else Pack(x.head, PackFor(x, seen))
  }

  /** Ingesting the pack cut for the seen head completes a store that has it:
      the commits are parent-closed, our head is one of them, and every commit
      has its tree.  The pack has no commits exactly when the seen head has
      everything. */
  lemma PackCompletes(x: Peer, seen: Option<Commit>, store: Objects)
    requires HoldsHistory(x) && x.head.Some?
    requires ParentClosed(store.commits) && store.Hold(store.commits) && (seen.Some? ==> seen.value in store.commits)
    ensures var whole := store.Plus(PackFor(x, seen));
            ParentClosed(whole.commits) && whole.Hold(whole.commits) && x.head.value in whole.commits
    ensures PackFor(x, seen).commits == {} <==>
              seen.Some? && seen.value in x.objects.commits && x.head.value in Ancestors(seen.value)
    ensures PackFor(x, seen).commits <= x.objects.commits && PackFor(x, seen).trees <= x.objects.trees
  {
    var head := x.head.value;
    HistoryParentClosed(x.head);
    if seen.Some? { ClosedHoldsHistory(seen.value, store.commits); }
    assert head in Ancestors(head);
    if seen.Some? && head in Ancestors(seen.value) {
      AncestorsTransitive(seen.value, head);
    }
  }

  /** What a pack carries: the commits reachable from our head but not from a
      seen head we know, and their trees other than that head's own. */
  lemma PackCarriesExactly(x: Peer, seen: Option<Commit>, c: Commit, t: Tree)
    ensures c in PackFor(x, seen).commits <==>
              && x.head.Some? && c in Ancestors(x.head.value)
              && !(seen.Some? && seen.value in x.objects.commits && c in Ancestors(seen.value))
    ensures t in PackFor(x, seen).trees <==>
              && (exists d :: d in PackFor(x, seen).commits && d.tree == t)
              && !(seen.Some? && seen.value in x.objects.commits && t == seen.value.tree)
  {
    assert forall d :: d in PackFor(x, seen).commits <==> d in PackCommits(x, seen);
  }

  // ----- audit ----------------------------------------------------------

  /** The commits `git log local..peerHead` walks. */
  function Incoming(local: Option<Commit>, peerHead: Commit): set<Commit> {
    Ancestors(peerHead) - History(local)
  }

  /** The paths its commits changed: none for a merge commit. */
  function ChangedPaths(range: set<Commit>): set<Path> {
    set c, p | c in range && |c.parents| <= 1 && p in Touched(c) :: p
  }

  /** The paths it lists: a path some commit deleted may be left out as the
      old name of a renamed file. */
  function ListedPaths(range: set<Commit>, git: Git): set<Path> {
    set c, p | c in range && |c.parents| <= 1 && p in Touched(c) && (p in c.tree || !git.renamedAway(c, p)) :: p
  }

  /** The lines it prints, each of which is then looked up as a path. */
  function LoggedPaths(range: set<Commit>, git: Git): set<Path> {
    set p | p in ListedPaths(range, git) :: Printed(p)
  }

  /** The changes of a commit can be told: its tree and its parent's are there,
      or enough of them. */
  predicate Readable(c: Commit, trees: set<Tree>, partial: Commit -> bool) {
    || (c.tree in trees && (c.parents == [] || c.parents[0].tree in trees))
    || partial(c)
  }

  predicate AllReadable(range: set<Commit>, trees: set<Tree>, partial: Commit -> bool) {
    forall c :: c in range && |c.parents| <= 1 ==> Readable(c, trees, partial)
  }

  /** `git log --name-only` goes through: every commit of the range is there,
      and the changes of those it lists changes of can be told. */
  predicate Walkable(objects: Objects, local: Option<Commit>, peerHead: Commit, git: Git) {
    && Incoming(local, peerHead) <= objects.commits
    && AllReadable(Incoming(local, peerHead), objects.trees, git.listsPartial)
  }

  /** How the description of a directory begins; the check reads no further. */
  const DIRECTORY: Bytes := [0x74, 0x72, 0x65, 0x65, 0x20]

  /** `git show`: the file at a path, or the description of the directory. */
  function Lookup(p: Path, t: Tree): Option<Bytes> {
    if p in t then Some(t[p])
    else if IsDirectory(p, t.Keys) then Some(DIRECTORY)
    else None
  }

  function PresentFiles(paths: seq<Path>, t: Tree): seq<(Path, Bytes)> {
    if paths == [] then [] else
      var p := paths[|paths| - 1];
      PresentFiles(paths[..|paths| - 1], t) +
      match Lookup(p, t)
      case None => []
      case Some(bytes) => [(p, bytes)]
  }

  /** A failing `git log` counts as nothing to audit, and a failing `git show`
      as a deleted file. */
  function AuditIncoming(objects: Objects, local: Option<Commit>, peerHead: Commit, git: Git): seq<LeakIssue> {
    if !Walkable(objects, local, peerHead, git) || peerHead.tree !in objects.trees then []
    else CheckAll(PresentFiles(Sorted(LoggedPaths(Incoming(local, peerHead), git)), peerHead.tree))
  }

  lemma {:induction false} PresentFilesMember(paths: seq<Path>, t: Tree, f: (Path, Bytes))
    ensures f in PresentFiles(paths, t) <==> f.0 in paths && Lookup(f.0, t) == Some(f.1)
  {
    if paths != [] {
      var init, last := paths[..|paths| - 1], paths[|paths| - 1];
      PresentFilesMember(init, t, f);
      assert paths == init + [last];
    }
  }

  /** What the audit verdict covers: it is empty exactly when the log or every
      lookup fails, or whatever a printed path leads to at the peer head, a
      directory included, passes the check. */
  lemma AuditCovers(objects: Objects, local: Option<Commit>, peerHead: Commit, git: Git)
    ensures AuditIncoming(objects, local, peerHead, git) == [] <==>
              (Walkable(objects, local, peerHead, git) && peerHead.tree in objects.trees ==>
                forall p :: p in LoggedPaths(Incoming(local, peerHead), git) && Lookup(p, peerHead.tree).Some? ==>
                  CheckFile(p, Lookup(p, peerHead.tree).value) == None)
  {
    var paths := Sorted(LoggedPaths(Incoming(local, peerHead), git));
    var files := PresentFiles(paths, peerHead.tree);
    CheckAllReports(files);
    forall f: (Path, Bytes) ensures f in files <==> f.0 in paths && Lookup(f.0, peerHead.tree) == Some(f.1) {
      PresentFilesMember(paths, peerHead.tree, f);
    }
    forall p | p in paths && Lookup(p, peerHead.tree).Some?
      ensures (p, Lookup(p, peerHead.tree).value) in files
    {
    }
  }

  // ----- initiator ------------------------------------------------------

  /** A rebase compares the changes of both sides and checks out the upstream. */
  predicate Replayable(objects: Objects, local: Commit, peerHead: Commit, git: Git) {
    && peerHead.tree in objects.trees
    && AllReadable(Incoming(Some(local), peerHead), objects.trees, git.replaysPartial)
    && AllReadable(Incoming(Some(peerHead), local), objects.trees, git.replaysPartial)
  }

  function Rebasing(x: Peer, peerHead: Commit, git: Git): (r: (Peer, Outcome))
    requires x.head.Some?
    ensures r.0.id == x.id
  {
    if !Replayable(x.objects, x.head.value, peerHead, git) then (x, Failed)
    else match Replay(peerHead, Todo(x.head.value, Ancestors(peerHead)), git)
      case None => (x, Failed)
      case Some(tip) =>
        (Peer(x.id, x.objects.Plus(Whole(Ancestors(tip) - Ancestors(peerHead))), Some(tip)), Rebased(peerHead))
  }

  /** `git reset --hard` reads the target and its tree, and nothing below. */
  predicate CanReset(objects: Objects, target: Commit) {
    target in objects.commits && target.tree in objects.trees
  }

  /** The ancestry test fails when a commit it has to look at is missing. */
  predicate AncestryKnown(objects: Objects, local: Commit, peerHead: Commit, git: Git) {
    && Incoming(Some(local), peerHead) <= objects.commits
    && (Ancestors(local) <= objects.commits || !git.ancestryFails(local, peerHead))
  }

  function Reconcile(x: Peer, peerHead: Commit, remoteId: string, git: Git): (r: (Peer, Outcome))
    ensures r.0.id == x.id
  {
    match x.head
    case None =>
      if CanReset(x.objects, peerHead) then (x.(head := Some(peerHead)), FastForwarded(None, peerHead)) else (x, Failed)
    case Some(local) =>
      if local == peerHead then (x, UpToDate)
      else if !AncestryKnown(x.objects, local, peerHead, git) then (x, Failed)
      else if local in Ancestors(peerHead) then
        if CanReset(x.objects, peerHead) then (x.(head := Some(peerHead)), FastForwarded(x.head, peerHead)) else (x, Failed)
      else if peerHead in Ancestors(local) then (x, PeerBehind)
      else if Less(x.id, remoteId) then Rebasing(x, peerHead, git)
      else (x, AwaitingPeerRebase)
  }

  function SyncStep(x: Peer, reply: Reply, remoteId: string, git: Git): (r: (Peer, Outcome))
    ensures r.0.id == x.id
  {
    match reply
    case Refusal => (x, Failed)
    case Pack(peerHead, objects) =>
      if git.packSize(objects) > MAX_PACK_BYTES then (x, Failed)
      else if peerHead.None? then (x, UpToDate)
      else if objects == NO_OBJECTS && x.head == peerHead then (x, UpToDate)
      else
        var got := x.(objects := x.objects.Plus(objects));
        var issues := AuditIncoming(got.objects, x.head, peerHead.value, git);
        if issues != [] then (got, RejectedLeak(issues))
        else Reconcile(got, peerHead.value, remoteId, git)
  }

  lemma {:induction false} IssuesNamed(paths: seq<Path>, t: Tree, issue: LeakIssue)
    ensures issue in CheckAll(PresentFiles(paths, t)) <==>
              exists p :: p in paths && Lookup(p, t).Some? && CheckFile(p, Lookup(p, t).value) == Some(issue)
  {
    var files := PresentFiles(paths, t);
    CheckAllNames(files, issue);
    forall f: (Path, Bytes) ensures f in files <==> f.0 in paths && Lookup(f.0, t) == Some(f.1) {
      PresentFilesMember(paths, t, f);
    }
    if exists p :: p in paths && Lookup(p, t).Some? && CheckFile(p, Lookup(p, t).value) == Some(issue) {
      var p :| p in paths && Lookup(p, t).Some? && CheckFile(p, Lookup(p, t).value) == Some(issue);
      assert (p, Lookup(p, t).value) in files;
    }
  }

  /** A rejection names exactly what failed the check. */
  lemma RejectionNames(x: Peer, peerHead: Commit, pack: Objects, remoteId: string, git: Git, issue: LeakIssue)
    requires SyncStep(x, Pack(Some(peerHead), pack), remoteId, git).1.RejectedLeak?
    ensures issue in SyncStep(x, Pack(Some(peerHead), pack), remoteId, git).1.issues <==>
              exists p :: p in LoggedPaths(Incoming(x.head, peerHead), git) && Lookup(p, peerHead.tree).Some?
                          && CheckFile(p, Lookup(p, peerHead.tree).value) == Some(issue)
  {
    var paths := LoggedPaths(Incoming(x.head, peerHead), git);
    RejectedIssues(x, peerHead, pack, remoteId, git);
    IssuesNamed(Sorted(paths), peerHead.tree, issue);
    assert forall p :: p in Sorted(paths) <==> p in paths;
  }

  lemma RejectedIssues(x: Peer, peerHead: Commit, pack: Objects, remoteId: string, git: Git)
    requires SyncStep(x, Pack(Some(peerHead), pack), remoteId, git).1.RejectedLeak?
    ensures SyncStep(x, Pack(Some(peerHead), pack), remoteId, git).1.issues ==
              CheckAll(PresentFiles(Sorted(LoggedPaths(Incoming(x.head, peerHead), git)), peerHead.tree))
  {
    ReconcileRejectsNothing(x.(objects := x.objects.Plus(pack)), peerHead, remoteId, git);
  }

  lemma ReconcileRejectsNothing(x: Peer, peerHead: Commit, remoteId: string, git: Git)
    ensures !Reconcile(x, peerHead, remoteId, git).1.RejectedLeak?
  {
    if x.head.Some? {
      assert !Rebasing(x, peerHead, git).1.RejectedLeak?;
    }
  }

  /** What a pull past the audit reports, by how the two heads are related:
      everything that has to be read is there. */
  lemma OutcomeExactly(x: Peer, peerHead: Commit, remoteId: string, git: Git)
    requires x.objects.Hold(History(x.head)) && x.objects.Hold(Ancestors(peerHead))
    ensures var (y, outcome) := Reconcile(x, peerHead, remoteId, git);
            && (x.head.None? ==> outcome == FastForwarded(None, peerHead) && y.head == Some(peerHead))
            && (x.head.Some? ==>
                  var local := x.head.value;
                  && (outcome == UpToDate <==> local == peerHead)
                  && (outcome == FastForwarded(x.head, peerHead) <==> local != peerHead && local in Ancestors(peerHead))
                  && (outcome == PeerBehind <==> local != peerHead && peerHead in Ancestors(local))
                  && (outcome == AwaitingPeerRebase <==>
                        local !in Ancestors(peerHead) && peerHead !in Ancestors(local) && !Less(x.id, remoteId))
                  && (outcome == Rebased(peerHead) || outcome == Failed <==>
                        local !in Ancestors(peerHead) && peerHead !in Ancestors(local) && Less(x.id, remoteId))
                  && (outcome == FastForwarded(x.head, peerHead) ==> y.head == Some(peerHead)))
  {
    assert peerHead in Ancestors(peerHead);
    if x.head.Some? {
      assert x.head.value in Ancestors(x.head.value);
      if x.head.value in Ancestors(peerHead) && peerHead in Ancestors(x.head.value) {
        AncestryAntisymmetric(x.head.value, peerHead);
      }
    }
  }

  /** A pack over 50 MiB is refused and changes nothing; the cap itself is
      still allowed. */
  lemma CapExactly(x: Peer, y: Peer, seen: Option<Commit>, peerHead: Option<Commit>, pack: Objects, remoteId: string, git: Git)
    ensures git.packSize(pack) > 52_428_800 ==> SyncStep(x, Pack(peerHead, pack), remoteId, git) == (x, Failed)
    ensures git.packSize(pack) <= 52_428_800 && peerHead.None? ==>
              SyncStep(x, Pack(peerHead, pack), remoteId, git) == (x, UpToDate)
    ensures Serve(y, seen, git) == Refusal <==> git.packSize(PackFor(y, seen)) > 52_428_800
    ensures Serve(y, seen, git).Pack? ==> Serve(y, seen, git) == Pack(y.head, PackFor(y, seen))
  {
  }

  /** HEAD only moves to a commit that is there with its tree. */
  lemma MovesToHeld(x: Peer, peerHead: Commit, remoteId: string, git: Git)
    requires Reconcile(x, peerHead, remoteId, git).0.head != x.head
    ensures var y := Reconcile(x, peerHead, remoteId, git).0;
            && y.head.Some? && y.head.value.tree in y.objects.trees
            && (x.head.None? || x.head.value in Ancestors(peerHead) ==> y.head.value in y.objects.commits)
            && x.objects.commits <= y.objects.commits && x.objects.trees <= y.objects.trees
  {
    if x.head.Some? && x.head.value !in Ancestors(peerHead) {
      var tip := Replay(peerHead, Todo(x.head.value, Ancestors(peerHead)), git).value;
      assert tip in Ancestors(tip);
      if tip in Ancestors(peerHead) {
        ReplayDescends(peerHead, Todo(x.head.value, Ancestors(peerHead)), git);
        AncestryAntisymmetric(tip, peerHead);
      }
    }
  }

  /** A device with a head does not move it when a commit of the range is
      missing, or when a commit on either side of a divergence cannot be read. */
  lemma MissingStops(x: Peer, peerHead: Commit, remoteId: string, git: Git, c: Commit)
    requires x.head.Some? && x.head.value != peerHead
    requires
      || (c in Incoming(x.head, peerHead) && c !in x.objects.commits)
      || (x.head.value !in Ancestors(peerHead) && !git.replaysPartial(c) && |c.parents| <= 1
          && (c in Incoming(x.head, peerHead) || c in Incoming(Some(peerHead), x.head.value))
          && (c.tree !in x.objects.trees || (c.parents != [] && c.parents[0].tree !in x.objects.trees)))
    ensures Reconcile(x, peerHead, remoteId, git).0 == x
    ensures c in Incoming(x.head, peerHead) && c !in x.objects.commits ==>
              Reconcile(x, peerHead, remoteId, git) == (x, Failed)
  {
  }

  /** A device without a head takes over the peer's exactly when it is there
      with its tree. */
  lemma AdoptsExactly(x: Peer, peerHead: Commit, remoteId: string, git: Git)
    requires x.head.None?
    ensures var there := peerHead in x.objects.commits && peerHead.tree in x.objects.trees;
            Reconcile(x, peerHead, remoteId, git) ==
              if there then (Peer(x.id, x.objects, Some(peerHead)), FastForwarded(None, peerHead)) else (x, Failed)
  {
  }

  /** A pull from a peer with our own head reports that, whatever the pack. */
  lemma SameHeadUpToDate(x: Peer, peerHead: Commit, pack: Objects, remoteId: string, git: Git)
    requires x.head == Some(peerHead) && git.packSize(pack) <= MAX_PACK_BYTES
    ensures var (y, outcome) := SyncStep(x, Pack(Some(peerHead), pack), remoteId, git);
            outcome == UpToDate && y.head == x.head && y.objects == x.objects.Plus(pack)
  {
    assert Incoming(x.head, peerHead) == {};
    assert LoggedPaths({}, git) == {};
    AuditCovers(x.objects.Plus(pack), x.head, peerHead, git);
    assert x.objects.Plus(NO_OBJECTS) == x.objects;
  }

  /** A rebase adds the replayed commits and no others. */
  lemma RebaseAddsExactly(x: Peer, peerHead: Commit, git: Git, c: Commit)
    requires x.head.Some? && Rebasing(x, peerHead, git).1 == Rebased(peerHead)
    ensures var y := Rebasing(x, peerHead, git).0;
            && y.head.Some? && Replay(peerHead, Todo(x.head.value, Ancestors(peerHead)), git) == y.head
            && (c in y.objects.commits <==>
                  c in x.objects.commits || (c in Ancestors(y.head.value) && c !in Ancestors(peerHead)))
  {
  }

  /** When a head that extends ours is taken over: its new commits and its own
      tree are there, whatever trees in between are not, and so is our history
      unless git can do without it. */
  lemma FastForwardsExactly(x: Peer, peerHead: Commit, remoteId: string, git: Git)
    requires x.head.Some? && x.head.value != peerHead && x.head.value in Ancestors(peerHead)
    ensures Reconcile(x, peerHead, remoteId, git).1 == FastForwarded(x.head, peerHead) <==>
              && (forall c :: c in Ancestors(peerHead) && c !in Ancestors(x.head.value) ==> c in x.objects.commits)
              && peerHead.tree in x.objects.trees
              && ((forall c :: c in Ancestors(x.head.value) ==> c in x.objects.commits)
                  || !git.ancestryFails(x.head.value, peerHead))
    ensures Reconcile(x, peerHead, remoteId, git).1 == FastForwarded(x.head, peerHead)
            || Reconcile(x, peerHead, remoteId, git) == (x, Failed)
  {
    assert peerHead in Ancestors(peerHead);
    if peerHead in Ancestors(x.head.value) { AncestryAntisymmetric(x.head.value, peerHead); }
  }

  /** A range of which git can list every commit, with its trees or without, is
      audited: one bad file is enough to keep it out. */
  lemma PartialListingAudits(objects: Objects, local: Option<Commit>, peerHead: Commit, git: Git, p: Path)
    requires Incoming(local, peerHead) <= objects.commits && peerHead.tree in objects.trees
    requires forall c :: c in Incoming(local, peerHead) && |c.parents| <= 1 ==>
               git.listsPartial(c) || (c.tree in objects.trees && (c.parents == [] || c.parents[0].tree in objects.trees))
    requires p in LoggedPaths(Incoming(local, peerHead), git) && Lookup(p, peerHead.tree).Some?
    requires CheckFile(p, Lookup(p, peerHead.tree).value).Some?
    ensures AuditIncoming(objects, local, peerHead, git) != []
  {
    AuditCovers(objects, local, peerHead, git);
  }

  /** Where our own history is held in part, git may fail to compare the two
      heads, and then nothing happens. */
  lemma PartialHistoryMayStop(x: Peer, peerHead: Commit, remoteId: string, git: Git)
    requires x.head.Some? && x.head.value != peerHead
    requires !(Ancestors(x.head.value) <= x.objects.commits) && git.ancestryFails(x.head.value, peerHead)
    ensures Reconcile(x, peerHead, remoteId, git) == (x, Failed)
  {
  }

  /** A path that a commit deleted is listed unless git takes it for the old
      name of a renamed file; a path that it left there always is. */
  lemma ListedExactly(c: Commit, git: Git, p: Path)
    requires |c.parents| <= 1
    ensures p in ListedPaths({c}, git) <==>
              p in Touched(c) && (p in c.tree || !git.renamedAway(c, p))
  {
    assert c in {c};
  }

  /** A dispute leaves HEAD alone: the rebase fails and is undone, and with a
      peer of a lower id, or after a rejected audit, it is not even tried. */
  lemma DisputeFailsSync(x: Peer, peerHead: Commit, pack: Objects, remoteId: string, git: Git, p: Path, k: Commit)
    requires x.head.Some? && MergeFree(x.head.value, Ancestors(peerHead))
    requires x.head.value !in Ancestors(peerHead) && peerHead !in Ancestors(x.head.value)
    requires OnlyEdit(k, p, Todo(x.head.value, Ancestors(peerHead)))
    requires Disputed(peerHead, x.head.value, Ancestors(peerHead), git, p)
    ensures Rebasing(x, peerHead, git) == (x, Failed)
    ensures var (y, outcome) := SyncStep(x, Pack(Some(peerHead), pack), remoteId, git);
            y.head == x.head && (outcome.Failed? || outcome.RejectedLeak? || (outcome.AwaitingPeerRebase? && !Less(x.id, remoteId)))
  {
    DisputeStopsReplay(peerHead, x.head.value, Ancestors(peerHead), git, p, k);
  }

  /** The device the daemon and `bypass sync` act on. */
  class Device {
    const id: string
    var objects: Objects
    var head: Option<Commit>

    ghost function State(): Peer
      reads this
    {
      Peer(id, objects, head)
    }

    constructor (id: string)
      ensures State() == Peer(id, NO_OBJECTS, None)
    {
      this.id, objects, head := id, NO_OBJECTS, None;
    }

    /** Walk from our head, hiding what the peer's head reaches. */
    method BuildPack(seen: Option<Commit>) returns (pack: Objects)
      ensures pack == PackFor(State(), seen)
    {
      var commits: set<Commit> := {};
      if head.None? { return NO_OBJECTS; }
      var known := seen.Some? && seen.value in objects.commits;
      var hidden := if known then Ancestors(seen.value) else {};
      if seen.Some? { HistoryParentClosed(seen); }
      var pending := {head.value} - hidden;
      while pending != {}
        invariant Walking(head.value, hidden, commits, pending)
        decreases Ancestors(head.value) - commits
      {
        var c :| c in pending;
        WalkStep(head.value, hidden, commits, pending, c);
        pending := pending + Unseen(c, hidden + commits) - {c};
        commits := commits + {c};
      }
      ClosedHoldsHistory(head.value, commits + hidden);
      assert commits == PackCommits(State(), seen);
      var trees := set c | c in commits :: c.tree;
      pack := Objects(commits, trees - if known then {seen.value.tree} else {});
    }

    method IngestPack(pack: Objects)
      modifies this`objects
      ensures objects == old(objects).Plus(pack)
    {
      objects := objects.Plus(pack);
    }

    method Audit(peerHead: Commit, git: Git) returns (issues: seq<LeakIssue>)
      ensures issues == AuditIncoming(objects, head, peerHead, git)
    {
      if !Walkable(objects, head, peerHead, git) { return []; }
      var paths := Sorted(LoggedPaths(Incoming(head, peerHead), git));
      var held := peerHead.tree in objects.trees;
      var pairs := [];
      for i := 0 to |paths|
        invariant pairs == if held then PresentFiles(paths[..i], peerHead.tree) else []
      {
        assert paths[..i + 1][..i] == paths[..i];
        if held {
          match Lookup(paths[i], peerHead.tree)
          case None =>
          case Some(bytes) => pairs := pairs + [(paths[i], bytes)];
        }
      }
      assert paths[..|paths|] == paths;
      issues := CheckFiles(pairs);
    }

    method FastForward(target: Commit) returns (ok: bool)
      modifies this`head
      ensures ok <==> CanReset(objects, target)
      ensures head == if ok then Some(target) else old(head)
    {
      ok := CanReset(objects, target);
      if ok { head := Some(target); }
    }

    method RebaseOnto(peerHead: Commit, git: Git) returns (outcome: Outcome)
      requires head.Some?
      modifies this`objects, this`head
      ensures (State(), outcome) == Rebasing(old(State()), peerHead, git)
    {
      if !Replayable(objects, head.value, peerHead, git) { return Failed; }
      var todo := Todo(head.value, Ancestors(peerHead));
      var tip := Some(peerHead);
      for i := 0 to |todo|
        invariant tip == Replay(peerHead, todo[..i], git)
        invariant unchanged(this)
      {
        ReplayMore(peerHead, todo, i, git);
        if tip.Some? {
          tip := Pick(tip.value, todo[i], git);
        }
      }
      assert todo[..|todo|] == todo;
      if tip.None? { return Failed; }
      objects := objects.Plus(Whole(Ancestors(tip.value) - Ancestors(peerHead)));
      head := tip;
      outcome := Rebased(peerHead);
    }

    method ReconcileWith(peerHead: Commit, remoteId: string, git: Git) returns (outcome: Outcome)
      modifies this`objects, this`head
      ensures (State(), outcome) == Reconcile(old(State()), peerHead, remoteId, git)
    {
      if head.None? {
        var ok := FastForward(peerHead);
        return if ok then FastForwarded(None, peerHead) else Failed;
      }
      var local := head;
      if local == Some(peerHead) { return UpToDate; }
      if !AncestryKnown(objects, local.value, peerHead, git) { return Failed; }
      if local.value in Ancestors(peerHead) {
        var ok := FastForward(peerHead);
        return if ok then FastForwarded(local, peerHead) else Failed;
      }
      if peerHead in Ancestors(local.value) { return PeerBehind; }
      if Less(id, remoteId) {
        outcome := RebaseOnto(peerHead, git);
      } else {
        outcome := AwaitingPeerRebase;
      }
    }

    method SyncWithPeer(reply: Reply, remoteId: string, git: Git) returns (outcome: Outcome)
      modifies this`objects, this`head
      ensures (State(), outcome) == SyncStep(old(State()), reply, remoteId, git)
    {
      match reply {
        case Refusal =>
          outcome := Failed;
        case Pack(peerHead, pack) =>
          if git.packSize(pack) > MAX_PACK_BYTES { return Failed; }
          if peerHead.None? { return UpToDate; }
          if pack == NO_OBJECTS && head == peerHead { return UpToDate; }
          if pack != NO_OBJECTS { IngestPack(pack); }
          assert objects == old(objects).Plus(pack);
          var issues := Audit(peerHead.value, git);
          if issues != [] { return RejectedLeak(issues); }
          outcome := ReconcileWith(peerHead.value, remoteId, git);
      }
    }
  }
}
