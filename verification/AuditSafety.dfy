/** The leak audit keeps every device's HEAD tree clean over whole runs. */
module AuditSafety {
  import opened Options
  import opened CommitGraph
  import opened Audit
  import opened Quoting
  import opened Rebase
  import opened Sync

  ghost predicate CleanHead(x: Peer) {
    x.head.Some? ==> CleanTree(x.head.value.tree)
  }

  /** A file, if there is one, that the check lets through. */
  ghost predicate Passes(p: Path, file: Option<Bytes>) {
    file.Some? ==> CheckFile(p, file.value) == None
  }

  /** A directory of the tree whose description the check turns down. */
  ghost predicate BadDirectory(p: Path, t: Tree) {
    p !in t && IsDirectory(p, t.Keys) && CheckFile(p, DIRECTORY).Some?
  }

  /** The audit looks at `p` at the peer's head. */
  ghost predicate Audited(objects: Objects, local: Option<Commit>, peerHead: Commit, git: Git, p: Path) {
    && Walkable(objects, local, peerHead, git) && peerHead.tree in objects.trees
    && p in LoggedPaths(Incoming(local, peerHead), git)
  }

  /** A clean peer head is turned down exactly when a path the audit looks at
      is a directory whose description is. */
  lemma CleanPassesExactly(objects: Objects, local: Option<Commit>, peerHead: Commit, git: Git)
    requires CleanTree(peerHead.tree)
    ensures AuditIncoming(objects, local, peerHead, git) == [] <==>
              forall p :: Audited(objects, local, peerHead, git, p) ==> !BadDirectory(p, peerHead.tree)
  {
    AuditCovers(objects, local, peerHead, git);
    forall p
      ensures (Lookup(p, peerHead.tree).Some? ==> CheckFile(p, Lookup(p, peerHead.tree).value) == None) <==>
                !BadDirectory(p, peerHead.tree)
    {
    }
  }

  // ----- what one pull lets through -------------------------------------

  /** The commits that moving from `local` to or onto `peerHead` replays: none
      when the head is unborn or the peer's head descends from it. */
  function Replayed(local: Option<Commit>, peerHead: Commit): seq<Commit> {
    match local
    case None => []
    case Some(c) => Todo(c, Ancestors(peerHead))
  }

  /** The unaudited file at `p` that would be taken over is fine: the last
      replayed edit of the path or, where none touched it, the peer's file. */
  ghost predicate FineAt(objects: Objects, local: Option<Commit>, peerHead: Commit, git: Git, p: Path) {
    match LastEdit(Replayed(local, peerHead), p)
    case Some(file) => Passes(p, file)
    case None => !Audited(objects, local, peerHead, git, p) ==> Passes(p, At(peerHead.tree, p))
  }

  ghost predicate UnauditedFine(objects: Objects, local: Option<Commit>, peerHead: Commit, git: Git) {
    forall p :: FineAt(objects, local, peerHead, git, p)
  }

  lemma CleanTreeAt(t: Tree)
    ensures CleanTree(t) <==> forall p :: Passes(p, At(t, p))
  {
    if forall p :: Passes(p, At(t, p)) {
      forall p | p in t ensures CheckFile(p, t[p]) == None {
        assert Passes(p, At(t, p));
      }
    }
  }

  lemma CheckIsByName(p: Path, a: Bytes, b: Bytes)
    requires !IsGpg(p)
    ensures CheckFile(p, a) == None <==> CheckFile(p, b) == None
  {
  }

  lemma NewHeadFileFine(objects: Objects, local: Option<Commit>, peerHead: Commit, git: Git, p: Path)
    requires AuditIncoming(objects, local, peerHead, git) == []
    requires Replay(peerHead, Replayed(local, peerHead), git).Some?
    ensures Passes(p, At(Replay(peerHead, Replayed(local, peerHead), git).value.tree, p)) <==>
              FineAt(objects, local, peerHead, git, p)
  {
    var todo := Replayed(local, peerHead);
    ReplayKeepsLastEdit(peerHead, todo, git, p);
    AuditCovers(objects, local, peerHead, git);
    var result, edit := At(Replay(peerHead, todo, git).value.tree, p), LastEdit(todo, p);
    if edit.Some? && edit.value.Some? && !IsGpg(p) {
      CheckIsByName(p, result.value, edit.value.value);
    }
  }

  /** An accepted head gives a clean tree exactly when every file it brings in
      unaudited, or out of the replayed commits, is fine.  Nothing is assumed
      of either side's history. */
  lemma NewHeadCleanExactly(objects: Objects, local: Option<Commit>, peerHead: Commit, git: Git)
    requires AuditIncoming(objects, local, peerHead, git) == []
    requires Replay(peerHead, Replayed(local, peerHead), git).Some?
    ensures CleanTree(Replay(peerHead, Replayed(local, peerHead), git).value.tree) <==>
              UnauditedFine(objects, local, peerHead, git)
  {
    var tree := Replay(peerHead, Replayed(local, peerHead), git).value.tree;
    forall p ensures Passes(p, At(tree, p)) <==> FineAt(objects, local, peerHead, git, p) {
      NewHeadFileFine(objects, local, peerHead, git, p);
    }
    CleanTreeAt(tree);
  }

  /** Where nothing is replayed that is exactly the unaudited files of the
      peer's head. */
  lemma AdoptedCleanExactly(objects: Objects, local: Option<Commit>, peerHead: Commit, git: Git)
    requires AuditIncoming(objects, local, peerHead, git) == []
    ensures CleanTree(peerHead.tree) <==>
              forall p :: !Audited(objects, local, peerHead, git, p) ==> Passes(p, At(peerHead.tree, p))
    ensures local.None? || local.value in Ancestors(peerHead) ==>
              (UnauditedFine(objects, local, peerHead, git) <==> CleanTree(peerHead.tree))
  {
    AuditCovers(objects, local, peerHead, git);
    CleanTreeAt(peerHead.tree);
    forall p ensures Audited(objects, local, peerHead, git, p) ==> Passes(p, At(peerHead.tree, p)) {
    }
    if local.None? || local.value in Ancestors(peerHead) {
      assert Replayed(local, peerHead) == [];
      assert forall p :: FineAt(objects, local, peerHead, git, p) <==>
               (!Audited(objects, local, peerHead, git, p) ==> Passes(p, At(peerHead.tree, p)));
    }
  }

  /** A head that a pull moves becomes the replay onto the audited peer head. */
  lemma ReconcileLands(x: Peer, peerHead: Commit, remoteId: string, git: Git)
    requires Reconcile(x, peerHead, remoteId, git).0.head != x.head
    ensures Reconcile(x, peerHead, remoteId, git).0.head == Replay(peerHead, Replayed(x.head, peerHead), git)
    ensures x.head.Some? ==> Incoming(x.head, peerHead) <= x.objects.commits
  {
  }

  lemma PullLands(x: Peer, reply: Reply, remoteId: string, git: Git)
    requires SyncStep(x, reply, remoteId, git).0.head != x.head
    ensures reply.Pack? && reply.peerHead.Some?
    ensures var peerHead, objects := reply.peerHead.value, x.objects.Plus(reply.objects);
            && AuditIncoming(objects, x.head, peerHead, git) == []
            && SyncStep(x, reply, remoteId, git).0.head == Replay(peerHead, Replayed(x.head, peerHead), git)
  {
    ReconcileLands(x.(objects := x.objects.Plus(reply.objects)), reply.peerHead.value, remoteId, git);
  }

  /** A pull keeps the HEAD tree clean exactly when it leaves HEAD alone or
      what it takes over unaudited is fine. */
  ghost predicate PullFine(x: Peer, reply: Reply, remoteId: string, git: Git) {
    SyncStep(x, reply, remoteId, git).0.head != x.head && reply.Pack? && reply.peerHead.Some? ==>
      UnauditedFine(x.objects.Plus(reply.objects), x.head, reply.peerHead.value, git)
  }

  lemma PullKeepsCleanExactly(x: Peer, reply: Reply, remoteId: string, git: Git)
    requires CleanHead(x)
    ensures CleanHead(SyncStep(x, reply, remoteId, git).0) <==> PullFine(x, reply, remoteId, git)
  {
    if SyncStep(x, reply, remoteId, git).0.head != x.head {
      PullLands(x, reply, remoteId, git);
      NewHeadCleanExactly(x.objects.Plus(reply.objects), x.head, reply.peerHead.value, git);
    }
  }

  // ----- ranges that are audited in full --------------------------------

  /** Everything the peer changed is looked at: its range has no merge commit,
      and git prints the names it changed as they are. */
  ghost predicate FullyLogged(local: Option<Commit>, peerHead: Commit) {
    && MergeFree(peerHead, History(local))
    && forall p :: p in ChangedPaths(Incoming(local, peerHead)) ==> Verbatim(p)
  }

  lemma {:induction false} LastEditor(todo: seq<Commit>, p: Path) returns (c: Commit)
    requires LastEdit(todo, p).Some?
    ensures c in todo && p in Touched(c) && LastEdit(todo, p) == Some(At(c.tree, p))
  {
    c := todo[|todo| - 1];
    if p !in Touched(c) { c := LastEditor(todo[..|todo| - 1], p); }
  }

  /** The last edit of a file that is still there is listed. */
  lemma EditedIsLogged(local: Option<Commit>, peerHead: Commit, git: Git, p: Path)
    requires FullyLogged(local, peerHead) && p in peerHead.tree && LastEdit(Todo(peerHead, History(local)), p).Some?
    ensures p in LoggedPaths(Incoming(local, peerHead), git)
  {
    var range := Incoming(local, peerHead);
    var c := LastEditor(Todo(peerHead, History(local)), p);
    HistoryParentClosed(local);
    TodoIsRange(peerHead, History(local));
    LastEditIsLocal(peerHead, History(local), p);
    assert c in range && p in c.tree;
    assert p in ChangedPaths(range) && p in ListedPaths(range, git);
    assert Printed(p) in LoggedPaths(range, git);
  }

  /** On a fully logged range a file the audit does not look at has not moved
      since the fork. */
  lemma UnauditedAsAtFork(objects: Objects, local: Option<Commit>, peerHead: Commit, git: Git, p: Path)
    requires FullyLogged(local, peerHead) && Walkable(objects, local, peerHead, git) && peerHead.tree in objects.trees
    requires !Audited(objects, local, peerHead, git, p) && p in peerHead.tree
    ensures At(peerHead.tree, p) == At(ForkTree(peerHead, History(local)), p)
  {
    var upstream := History(local);
    var todo := Todo(peerHead, upstream);
    LastEditTouched(todo, p);
    if LastEdit(todo, p).Some? {
      EditedIsLogged(local, peerHead, git, p);
      assert false;
    }
    UntouchedSinceFork(peerHead, upstream, p);
  }

  /** On merge-free ranges a clean local tree is all it takes, even when
      commits before the fork were not clean. */
  lemma FullyLoggedSuffices(objects: Objects, local: Option<Commit>, peerHead: Commit, git: Git)
    requires FullyLogged(local, peerHead) && Walkable(objects, local, peerHead, git) && peerHead.tree in objects.trees
    requires local.Some? ==> MergeFree(local.value, Ancestors(peerHead)) && CleanTree(local.value.tree)
    ensures UnauditedFine(objects, local, peerHead, git)
  {
    forall p ensures FineAt(objects, local, peerHead, git, p) {
      var todo := Replayed(local, peerHead);
      LastEditTouched(todo, p);
      if LastEdit(todo, p).Some? {
        LastEditIsLocal(local.value, Ancestors(peerHead), p);
      } else if !Audited(objects, local, peerHead, git, p) && p in peerHead.tree {
        UnauditedAsAtFork(objects, local, peerHead, git, p);
        if local.Some? {
          ForkSymmetric(local.value, peerHead);
          UntouchedSinceFork(local.value, Ancestors(peerHead), p);
        } else {
          ForkIsNewestShared(peerHead, {});
        }
      }
    }
  }

  /** For a fully logged range that extends our clean head, or fills an unborn
      one, the audit is empty exactly when the peer's whole tree is clean and no
      path it looks at is a directory whose description is turned down. */
  lemma AuditDecidesExtension(objects: Objects, local: Option<Commit>, peerHead: Commit, git: Git)
    requires FullyLogged(local, peerHead) && Walkable(objects, local, peerHead, git) && peerHead.tree in objects.trees
    requires local.Some? ==> local.value in Ancestors(peerHead) && CleanTree(local.value.tree)
    ensures AuditIncoming(objects, local, peerHead, git) == [] <==>
              && CleanTree(peerHead.tree)
              && forall p :: Audited(objects, local, peerHead, git, p) ==> !BadDirectory(p, peerHead.tree)
  {
    if AuditIncoming(objects, local, peerHead, git) == [] {
      if local.Some? { AncestorsTransitive(peerHead, local.value); }
      FullyLoggedSuffices(objects, local, peerHead, git);
      AdoptedCleanExactly(objects, local, peerHead, git);
    }
    if CleanTree(peerHead.tree) { CleanPassesExactly(objects, local, peerHead, git); }
  }

  /** After a divergence the audited range also suffices for the tree the
      rebase produces, even when commits before the fork were not clean. */
  lemma AuditSufficesForRebase(objects: Objects, local: Commit, peerHead: Commit, git: Git)
    requires FullyLogged(Some(local), peerHead) && MergeFree(local, Ancestors(peerHead))
    requires Walkable(objects, Some(local), peerHead, git) && peerHead.tree in objects.trees
    requires AuditIncoming(objects, Some(local), peerHead, git) == []
    requires CleanTree(local.tree)
    requires Replay(peerHead, Todo(local, Ancestors(peerHead)), git).Some?
    ensures CleanTree(Replay(peerHead, Todo(local, Ancestors(peerHead)), git).value.tree)
  {
    FullyLoggedSuffices(objects, Some(local), peerHead, git);
    NewHeadCleanExactly(objects, Some(local), peerHead, git);
  }

  // ----- runs -----------------------------------------------------------

  datatype Event =
    | LocalCommit(tree: Tree, stamp: nat)
    | Pull(reply: Reply, remoteId: string, git: Git)

  function Committed(x: Peer, tree: Tree, stamp: nat): Commit {
    Commit(if x.head.None? then [] else [x.head.value], tree, stamp)
  }

  function Step(x: Peer, e: Event): Peer {
    match e
    case LocalCommit(tree, stamp) =>
      var c := Committed(x, tree, stamp);
      Peer(x.id, x.objects.Plus(Whole({c})), Some(c))
    case Pull(reply, remoteId, git) => SyncStep(x, reply, remoteId, git).0
  }

  function Run(x: Peer, events: seq<Event>): Peer {
    if events == [] then x else Step(Run(x, events[..|events| - 1]), events[|events| - 1])
  }

  ghost predicate StepFine(x: Peer, e: Event) {
    match e
    case LocalCommit(tree, _) => CleanTree(tree)
    case Pull(reply, remoteId, git) => PullFine(x, reply, remoteId, git)
  }

  lemma StepKeepsCleanExactly(x: Peer, e: Event)
    requires CleanHead(x)
    ensures CleanHead(Step(x, e)) <==> StepFine(x, e)
  {
    if e.Pull? { PullKeepsCleanExactly(x, e.reply, e.remoteId, e.git); }
  }

  ghost predicate CleanThroughout(x: Peer, events: seq<Event>) {
    CleanHead(Run(x, events)) && (events != [] ==> CleanThroughout(x, events[..|events| - 1]))
  }

  ghost predicate FineThroughout(x: Peer, events: seq<Event>) {
    events != [] ==>
      && FineThroughout(x, events[..|events| - 1])
      && StepFine(Run(x, events[..|events| - 1]), events[|events| - 1])
  }

  /** The HEAD tree stays clean over a run exactly when every local commit is
      clean and every pull that moves HEAD takes over fine files only where
      the audit does not look. */
  lemma {:induction false} RunCleanExactly(x: Peer, events: seq<Event>)
    requires CleanHead(x)
    ensures CleanThroughout(x, events) <==> FineThroughout(x, events)
  {
    if events != [] {
      var init, last := events[..|events| - 1], events[|events| - 1];
      RunCleanExactly(x, init);
      if CleanThroughout(x, init) { StepKeepsCleanExactly(Run(x, init), last); }
    }
  }

  /** Local commits are clean.  A reply may carry any commits at all; but where
      it moves HEAD neither side of the fork has a merge commit, git prints the
      names the peer changed as they are, and the commits that were missing
      come with their trees. */
  ghost predicate Admissible(x: Peer, e: Event) {
    match e
    case LocalCommit(tree, _) => CleanTree(tree)
    case Pull(Refusal, _, _) => true
    case Pull(Pack(peerHead, objects), remoteId, git) =>
      peerHead.Some? && Step(x, e).head != x.head ==>
        && FullyLogged(x.head, peerHead.value)
        && (x.head.Some? ==> MergeFree(x.head.value, Ancestors(peerHead.value)))
        && x.objects.Plus(objects).Hold(Incoming(x.head, peerHead.value))
  }

  ghost predicate AdmissibleRun(x: Peer, events: seq<Event>) {
    events != [] ==>
      && AdmissibleRun(x, events[..|events| - 1])
      && Admissible(Run(x, events[..|events| - 1]), events[|events| - 1])
  }

  ghost predicate Sound(x: Peer) {
    HoldsHistory(x) && CleanHead(x)
  }

  /** A new head's history is held whenever the old one's and the range are. */
  lemma ReconcileHoldsHistory(x: Peer, peerHead: Commit, remoteId: string, git: Git)
    requires HoldsHistory(x)
    requires Reconcile(x, peerHead, remoteId, git).0.head == x.head || x.objects.Hold(Incoming(x.head, peerHead))
    ensures HoldsHistory(Reconcile(x, peerHead, remoteId, git).0)
  {
    var y := Reconcile(x, peerHead, remoteId, git).0;
    if y.head != x.head {
      forall c | c in History(y.head) ensures c in y.objects.commits && c.tree in y.objects.trees {
        assert c in Ancestors(peerHead) ==> c in Incoming(x.head, peerHead) || c in History(x.head);
      }
    }
  }

  /** Holding both our history and the range, git can walk the range. */
  lemma HeldIsWalkable(objects: Objects, local: Option<Commit>, peerHead: Commit, git: Git)
    requires objects.Hold(History(local)) && objects.Hold(Incoming(local, peerHead))
    ensures Walkable(objects, local, peerHead, git) && peerHead.tree in objects.trees
  {
    var range := Incoming(local, peerHead);
    HistoryParentClosed(Some(peerHead));
    forall c | c in range && c.parents != [] ensures c.parents[0].tree in objects.trees {
      assert c.parents[0] in c.parents && c.parents[0] in Ancestors(peerHead);
      assert c.parents[0] in range || c.parents[0] in History(local);
    }
    assert peerHead in range || peerHead in History(local);
  }

  /** Adopt, fast-forward, rebase and every quiet outcome after an empty audit
      keep HEAD clean and its history held. */
  lemma ReconcileKeepsSound(x: Peer, peerHead: Commit, remoteId: string, git: Git)
    requires Sound(x) && AuditIncoming(x.objects, x.head, peerHead, git) == []
    requires Reconcile(x, peerHead, remoteId, git).0.head != x.head ==>
               && FullyLogged(x.head, peerHead)
               && (x.head.Some? ==> MergeFree(x.head.value, Ancestors(peerHead)))
               && x.objects.Hold(Incoming(x.head, peerHead))
    ensures Sound(Reconcile(x, peerHead, remoteId, git).0)
  {
    ReconcileHoldsHistory(x, peerHead, remoteId, git);
    if Reconcile(x, peerHead, remoteId, git).0.head != x.head {
      ReconcileLands(x, peerHead, remoteId, git);
      HeldIsWalkable(x.objects, x.head, peerHead, git);
      FullyLoggedSuffices(x.objects, x.head, peerHead, git);
      NewHeadCleanExactly(x.objects, x.head, peerHead, git);
    }
  }

  lemma StepKeepsSound(x: Peer, e: Event)
    requires Sound(x) && Admissible(x, e)
    ensures Sound(Step(x, e))
  {
    match e
    case LocalCommit(tree, stamp) =>
      var c := Committed(x, tree, stamp);
      assert Ancestors(c) == {c} + History(x.head);
    case Pull(Refusal, _, _) =>
    case Pull(Pack(peerHead, objects), remoteId, git) =>
      var got := x.(objects := x.objects.Plus(objects));
      if peerHead.Some? && AuditIncoming(got.objects, got.head, peerHead.value, git) == [] && Step(x, e).head != x.head {
        ReconcileKeepsSound(got, peerHead.value, remoteId, git);
      }
  }

  /** Every run of clean local commits and pulls keeps every file of the HEAD
      tree clean, whatever the peers committed. */
  lemma {:induction false} RunKeepsHeadClean(x: Peer, events: seq<Event>)
    requires Sound(x) && AdmissibleRun(x, events)
    ensures Sound(Run(x, events))
  {
    if events != [] {
      RunKeepsHeadClean(x, events[..|events| - 1]);
      StepKeepsSound(Run(x, events[..|events| - 1]), events[|events| - 1]);
    }
  }

  // ----- where the conditions are needed ----------------------------------

  /** A range git cannot walk is not audited. */
  lemma UnwalkableIsAccepted(x: Peer, peerHead: Commit, pack: Objects, remoteId: string, git: Git)
    requires git.packSize(pack) <= MAX_PACK_BYTES
    requires var objects := x.objects.Plus(pack);
             && CanReset(objects, peerHead) && !Walkable(objects, x.head, peerHead, git)
             && (x.head.Some? ==>
                   && x.head.value != peerHead && x.head.value in Ancestors(peerHead)
                   && AncestryKnown(objects, x.head.value, peerHead, git))
    ensures SyncStep(x, Pack(Some(peerHead), pack), remoteId, git).0.head == Some(peerHead)
  {
  }

  /** One commit of the range, not a merge, whose own tree or whose parent's is
      missing is enough, unless git can do with what is there of them. */
  lemma UnreadableIsAccepted(x: Peer, peerHead: Commit, c: Commit, pack: Objects, remoteId: string, git: Git)
    requires Sound(x) && x.head.Some? && x.head.value != peerHead && x.head.value in Ancestors(peerHead)
    requires c in Incoming(x.head, peerHead) && |c.parents| <= 1 && !git.listsPartial(c)
    requires git.packSize(pack) <= MAX_PACK_BYTES
    requires var objects := x.objects.Plus(pack);
             && Incoming(x.head, peerHead) <= objects.commits && peerHead.tree in objects.trees
             && (c.tree !in objects.trees || (c.parents != [] && c.parents[0].tree !in objects.trees))
    ensures SyncStep(x, Pack(Some(peerHead), pack), remoteId, git).0.head == Some(peerHead)
  {
    var objects := x.objects.Plus(pack);
    assert !Readable(c, objects.trees, git.listsPartial);
    assert CanReset(objects, peerHead) by {
      assert peerHead in Ancestors(peerHead);
      if peerHead in Ancestors(x.head.value) { AncestryAntisymmetric(x.head.value, peerHead); }
    }
    UnwalkableIsAccepted(x, peerHead, pack, remoteId, git);
  }

  /** Without its whole history, an unborn device adopts any offered head it
      can check out: no tree is turned down. */
  lemma IncompleteAdoption(x: Peer, peerHead: Commit, pack: Objects, remoteId: string, git: Git)
    requires x.head.None? && git.packSize(pack) <= MAX_PACK_BYTES
    requires CanReset(x.objects.Plus(pack), peerHead) && !(Ancestors(peerHead) <= x.objects.commits + pack.commits)
    ensures SyncStep(x, Pack(Some(peerHead), pack), remoteId, git).0.head == Some(peerHead)
  {
    UnwalkableIsAccepted(x, peerHead, pack, remoteId, git);
  }

  lemma TwoMore(local: Commit, middle: Commit, last: Commit)
    requires middle.parents == [local] && last.parents == [middle]
    ensures local in Ancestors(last) && last != local && last !in Ancestors(local)
    ensures Incoming(Some(local), last) == {middle, last}
  {
    assert local in middle.parents && middle in last.parents;
    assert Ancestors(middle) == {middle} + Ancestors(local);
    assert Ancestors(last) == {last} + Ancestors(middle);
    assert middle in Ancestors(middle) && local in Ancestors(local);
    Acyclic(last, middle);
    Acyclic(middle, local);
  }

  /** The commits of a linear range are not enough: with one tree in between
      missing, a device that has a clean head fast-forwards to any tree. */
  lemma MissingTreeEscapes(x: Peer, middle: Commit, last: Commit, remoteId: string, git: Git)
    requires Sound(x) && x.head.Some? && middle.parents == [x.head.value] && last.parents == [middle]
    requires middle.tree !in x.objects.trees + {last.tree} && !git.listsPartial(middle)
    requires git.packSize(Objects({middle, last}, {last.tree})) <= MAX_PACK_BYTES
    ensures SyncStep(x, Pack(Some(last), Objects({middle, last}, {last.tree})), remoteId, git).0.head == Some(last)
  {
    var local, pack := x.head.value, Objects({middle, last}, {last.tree});
    TwoMore(local, middle, last);
    assert middle in Incoming(x.head, last) && !Readable(middle, x.objects.Plus(pack).trees, git.listsPartial);
    UnwalkableIsAccepted(x, last, pack, remoteId, git);
  }

  /** A range made of merge commits only is never audited. */
  lemma MergesAreNotAudited(objects: Objects, local: Option<Commit>, peerHead: Commit, git: Git)
    requires forall c :: c in Incoming(local, peerHead) ==> |c.parents| > 1
    ensures AuditIncoming(objects, local, peerHead, git) == []
  {
    AuditCovers(objects, local, peerHead, git);
    assert LoggedPaths(Incoming(local, peerHead), git) == {};
  }

  /** So a merge commit on top of our head is fast-forwarded to, whatever
      files it brings. */
  lemma MergeEscapesAudit(x: Peer, other: Commit, tree: Tree, git: Git)
    requires Sound(x) && x.head.Some? && other in Ancestors(x.head.value)
    requires git.packSize(Whole({Commit([x.head.value, other], tree, 0)})) <= MAX_PACK_BYTES
    ensures var merge := Commit([x.head.value, other], tree, 0);
            SyncStep(x, Pack(Some(merge), Whole({merge})), "", git).0.head == Some(merge)
  {
    var local := x.head.value;
    var merge := Commit([local, other], tree, 0);
    var objects := x.objects.Plus(Whole({merge}));
    MergeRange(local, other, merge);
    MergesAreNotAudited(objects, x.head, merge, git);
    assert CanReset(objects, merge) && AncestryKnown(objects, local, merge, git);
  }

  lemma MergeRange(local: Commit, other: Commit, merge: Commit)
    requires merge.parents == [local, other] && other in Ancestors(local)
    ensures local in Ancestors(merge) && local != merge && Incoming(Some(local), merge) == {merge}
  {
    AncestorsTransitive(local, other);
    assert local in merge.parents && other in merge.parents;
    assert Ancestors(merge) == {merge} + Ancestors(local);
    Acyclic(merge, local);
  }

  /** One commit on top of our head that adds one file. */
  function Adding(local: Commit, p: Path, bytes: Bytes): Commit {
    Commit([local], local.tree[p := bytes], 0)
  }

  lemma AddedRange(local: Commit, p: Path, bytes: Bytes, git: Git)
    requires p !in local.tree
    ensures var c := Adding(local, p, bytes);
            && local in Ancestors(c) && c != local
            && Incoming(Some(local), c) == {c}
            && LoggedPaths({c}, git) == {Printed(p)}
  {
    var c := Adding(local, p, bytes);
    assert local in c.parents && local in Ancestors(local);
    Acyclic(c, local);
    assert Ancestors(c) == {c} + Ancestors(local);
    assert Touched(c) == {p};
    assert ListedPaths({c}, git) == {p} by {
      assert c in {c} && p in Touched(c) && p in c.tree;
    }
    assert LoggedPaths({c}, git) == {Printed(p)} by {
      assert p in ListedPaths({c}, git);
    }
  }

  /** A linear, complete range that adds one file the check turns down is
      accepted exactly when git quotes the file's name. */
  lemma QuotedNameEscapesExactly(x: Peer, p: Path, bytes: Bytes, remoteId: string, git: Git)
    requires HoldsHistory(x) && x.head.Some? && p !in x.head.value.tree && CheckFile(p, bytes).Some?
    requires Lookup(Printed(p), x.head.value.tree).None?
    requires git.packSize(Whole({Adding(x.head.value, p, bytes)})) <= MAX_PACK_BYTES
    ensures var c := Adding(x.head.value, p, bytes);
            SyncStep(x, Pack(Some(c), Whole({c})), remoteId, git).0.head == (if Verbatim(p) then x.head else Some(c))
  {
    var local, c := x.head.value, Adding(x.head.value, p, bytes);
    AddedRange(local, p, bytes, git);
    HeldIsWalkable(x.objects.Plus(Whole({c})), x.head, c, git);
    AddedLookup(local, p, bytes);
    OneLogged(x.objects.Plus(Whole({c})), x.head, c, git, Printed(p));
    if Verbatim(p) { PrintedExactly(p); }
  }

  /** What the audit looks up when a commit adds one file. */
  lemma AddedLookup(local: Commit, p: Path, bytes: Bytes)
    requires p !in local.tree && Lookup(Printed(p), local.tree).None?
    ensures Lookup(Printed(p), Adding(local, p, bytes).tree) == if Verbatim(p) then Some(bytes) else None
  {
    PrintedExactly(p);
    PrintedIsNoPrefix(p);
    DirectoryWithOneMore(Printed(p), local.tree.Keys, p);
    assert local.tree[p := bytes].Keys == local.tree.Keys + {p};
  }

  lemma DirectoryWithOneMore(dir: Path, paths: set<Path>, p: Path)
    ensures IsDirectory(dir, paths + {p}) <==> IsDirectory(dir, paths) || Inside(p, dir)
  {
    assert Inside(p, dir) ==> p in paths + {p};
    assert forall q :: q in paths ==> q in paths + {p};
  }

  lemma OneLogged(objects: Objects, local: Option<Commit>, peerHead: Commit, git: Git, line: Path)
    requires Walkable(objects, local, peerHead, git) && peerHead.tree in objects.trees
    requires LoggedPaths(Incoming(local, peerHead), git) == {line}
    ensures AuditIncoming(objects, local, peerHead, git) == [] <==>
              (Lookup(line, peerHead.tree).Some? ==> CheckFile(line, Lookup(line, peerHead.tree).value) == None)
  {
    AuditCovers(objects, local, peerHead, git);
  }

  lemma PrintedIsNoPrefix(p: Path)
    ensures |p| <= |Printed(p)|
  {
    EscapeAllGrows(p);
  }

  lemma AccentedNames(p: Path)
    requires p == "\U{e9}.txt"
    ensures !Verbatim(p) && Printed(p) == "\"\\303\\251.txt\""
    ensures forall bytes :: CheckFile(p, bytes).Some? && CheckFile(Printed(p), bytes).Some?
  {
    AccentedPrinted(p);
    var printed := "\"\\303\\251.txt\"";
    assert p[0] == '\U{e9}' && p[|p| - 1] == 't' && printed[0] == '"' && printed[|printed| - 1] == '"';
    assert '/' !in p && '/' !in printed;
    forall bytes ensures CheckFile(p, bytes).Some? && CheckFile(printed, bytes).Some? {
      UnknownName(p, bytes);
      UnknownName(printed, bytes);
    }
  }

  lemma AccentedPrinted(p: Path)
    requires p == "\U{e9}.txt"
    ensures !Verbatim(p) && Printed(p) == "\"\\303\\251.txt\""
  {
    var tail := ".txt";
    assert !Plain(p[0]);
    AccentedIsQuoted(tail);
    assert ['\U{e9}'] + tail == p;
    assert "\\303\\251" + tail == "\\303\\251.txt";
  }

  /** So a device with a clean tree takes over a plaintext file named `é.txt`. */
  lemma AccentedPlaintextEscapes(x: Peer, bytes: Bytes, remoteId: string, git: Git)
    requires Sound(x) && x.head.Some? && !IsDirectory("\"\\303\\251.txt\"", x.head.value.tree.Keys)
    requires git.packSize(Whole({Adding(x.head.value, "\U{e9}.txt", bytes)})) <= MAX_PACK_BYTES
    ensures var c := Adding(x.head.value, "\U{e9}.txt", bytes);
            var y := SyncStep(x, Pack(Some(c), Whole({c})), remoteId, git).0;
            y.head == Some(c) && !CleanHead(y)
  {
    var p := "\U{e9}.txt";
    AccentedNames(p);
    QuotedNameEscapesExactly(x, p, bytes, remoteId, git);
    assert p in Adding(x.head.value, p, bytes).tree;
  }

  // ----- where a clean head is turned down --------------------------------

  /** A path that was a file and became a directory keeps a clean head out: it
      is still in the log, and the description of a directory is no OpenPGP
      data. */
  lemma {:induction false} FormerFileKeepsOut(x: Peer, p: Path, bytes: Bytes, last: Commit, pack: Objects,
                                              remoteId: string, git: Git)
    requires HoldsHistory(x) && x.head.Some? && p !in x.head.value.tree && Verbatim(p)
    requires Adding(x.head.value, p, bytes) in Ancestors(last) && BadDirectory(p, last.tree)
    requires x.objects.Plus(pack).Hold(Incoming(x.head, last)) && git.packSize(pack) <= MAX_PACK_BYTES
    ensures SyncStep(x, Pack(Some(last), pack), remoteId, git).1.RejectedLeak?
  {
    var objects := x.objects.Plus(pack);
    assert Walkable(objects, x.head, last, git) && last.tree in objects.trees by {
      HeldIsWalkable(objects, x.head, last, git);
    }
    assert p in LoggedPaths(Incoming(x.head, last), git) && last != x.head.value by {
      AddedIsLogged(x.head.value, p, bytes, last, git);
    }
    AuditFinds(objects, x.head, last, git, p);
    FoundIsRejected(x, last, pack, remoteId, git);
  }

  lemma {:induction false} FoundIsRejected(x: Peer, peerHead: Commit, pack: Objects, remoteId: string, git: Git)
    requires git.packSize(pack) <= MAX_PACK_BYTES && x.head != Some(peerHead)
    requires AuditIncoming(x.objects.Plus(pack), x.head, peerHead, git) != []
    ensures SyncStep(x, Pack(Some(peerHead), pack), remoteId, git).1.RejectedLeak?
  {
  }

  lemma {:induction false} AddedIsLogged(local: Commit, p: Path, bytes: Bytes, last: Commit, git: Git)
    requires p !in local.tree && Verbatim(p) && Adding(local, p, bytes) in Ancestors(last)
    ensures p in LoggedPaths(Incoming(Some(local), last), git) && last != local
  {
    var range, added := Incoming(Some(local), last), Adding(local, p, bytes);
    AddedRange(local, p, bytes, git);
    Acyclic(added, local);
    assert added in range && p in Touched(added) && p in added.tree;
    assert p in ListedPaths(range, git);
    assert Printed(p) in LoggedPaths(range, git);
  }

  lemma {:induction false} AuditFinds(objects: Objects, local: Option<Commit>, peerHead: Commit, git: Git, p: Path)
    requires Audited(objects, local, peerHead, git, p) && BadDirectory(p, peerHead.tree)
    ensures AuditIncoming(objects, local, peerHead, git) != []
  {
    AuditCovers(objects, local, peerHead, git);
    assert Lookup(p, peerHead.tree) == Some(DIRECTORY);
  }

  lemma {:induction false} FileThenDirectory(x: Peer, p: Path, q: Path, before: Bytes, after: Bytes, remoteId: string, git: Git)
    requires Sound(x) && x.head.Some? && p !in x.head.value.tree && Verbatim(p) && p != q && Inside(q, p)
    requires CheckFile(p, before) == None && CheckFile(q, after) == None && CheckFile(p, DIRECTORY).Some?
    ensures var local := x.head.value;
            var inserted := Adding(local, p, before);
            var removed := Commit([inserted], local.tree, 1);
            var last := Adding(removed, q, after);
            var pack := Whole({inserted, removed, last});
            && CleanTree(inserted.tree) && CleanTree(removed.tree) && CleanTree(last.tree)
            && (git.packSize(pack) <= MAX_PACK_BYTES ==>
                  SyncStep(x, Pack(Some(last), pack), remoteId, git).1.RejectedLeak?)
  {
    var local := x.head.value;
    var inserted := Adding(local, p, before);
    var removed := Commit([inserted], local.tree, 1);
    var last := Adding(removed, q, after);
    ThreeMore(local, inserted, removed, last);
    BecomesDirectory(local.tree, p, q, after);
    if git.packSize(Whole({inserted, removed, last})) <= MAX_PACK_BYTES {
      FormerFileKeepsOut(x, p, before, last, Whole({inserted, removed, last}), remoteId, git);
    }
  }

  /** Inserting the entry `x`, removing it and inserting `x.gpg/y` is such a
      history, clean from beginning to end. */
  lemma {:induction false} InsertRemoveInsertKeepsOut(x: Peer, p: Path, q: Path, before: Bytes, after: Bytes,
                                                      remoteId: string, git: Git)
    requires p == "x.gpg" && q == "x.gpg/y.gpg" && LooksLikeOpenPgp(before) && LooksLikeOpenPgp(after)
    requires Sound(x) && x.head.Some? && p !in x.head.value.tree
    ensures var local := x.head.value;
            var inserted := Adding(local, p, before);
            var removed := Commit([inserted], local.tree, 1);
            var last := Adding(removed, q, after);
            var pack := Whole({inserted, removed, last});
            && CleanTree(inserted.tree) && CleanTree(removed.tree) && CleanTree(last.tree)
            && (git.packSize(pack) <= MAX_PACK_BYTES ==>
                  SyncStep(x, Pack(Some(last), pack), remoteId, git).1.RejectedLeak?)
  {
    FormerNames(p, q);
    NamesPass(p, q, before, after);
    FileThenDirectory(x, p, q, before, after, remoteId, git);
  }

  lemma BecomesDirectory(t: Tree, p: Path, q: Path, bytes: Bytes)
    requires p !in t && p != q && Inside(q, p) && CheckFile(p, DIRECTORY).Some?
    ensures BadDirectory(p, t[q := bytes])
  {
    assert q in t[q := bytes].Keys;
  }

  lemma FormerNames(p: Path, q: Path)
    requires p == "x.gpg" && q == "x.gpg/y.gpg"
    ensures Verbatim(p) && Inside(q, p) && p != q && FileName(p) == "x.gpg" && FileName(q) == "y.gpg"
  {
    assert '/' !in p;
    FileNameBelow("x.gpg", "y.gpg");
    assert "x.gpg" + "/" + "y.gpg" == q;
  }

  lemma NamesPass(p: Path, q: Path, before: Bytes, after: Bytes)
    requires FileName(p) == "x.gpg" && FileName(q) == "y.gpg"
    requires LooksLikeOpenPgp(before) && LooksLikeOpenPgp(after)
    ensures CheckFile(p, before) == None && CheckFile(q, after) == None && CheckFile(p, DIRECTORY).Some?
  {
  }

  lemma ThreeMore(local: Commit, a: Commit, b: Commit, c: Commit)
    requires a.parents == [local] && b.parents == [a] && c.parents == [b]
    ensures a in Ancestors(c) && Incoming(Some(local), c) <= {a, b, c}
  {
    assert local in a.parents && a in b.parents && b in c.parents;
    assert Ancestors(a) == {a} + Ancestors(local);
    assert Ancestors(b) == {b} + Ancestors(a);
    assert Ancestors(c) == {c} + Ancestors(b);
  }
}
