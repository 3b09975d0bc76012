/** Peers that keep pulling from each other end on one history. */
module Convergence {
  import opened Options
  import opened CommitGraph
  import opened Order
  import opened Audit
  import opened Quoting
  import opened Rebase
  import opened Sync
  import opened AuditSafety

  /** `a` is `b` or descends from it; an unborn head is below every other. */
  ghost predicate AtLeast(a: Option<Commit>, b: Option<Commit>) {
    b.Some? ==> a.Some? && b.value in Ancestors(a.value)
  }

  lemma AtLeastTransitive(a: Option<Commit>, b: Option<Commit>, c: Option<Commit>)
    requires AtLeast(a, b) && AtLeast(b, c)
    ensures AtLeast(a, c)
  {
    if c.Some? { AncestorsTransitive(a.value, b.value); }
  }

  /** One pull of `x` from `y`: the request never names a head seen before. */
  function PullFrom(x: Peer, y: Peer, git: Git): (Peer, Outcome) {
    SyncStep(x, Serve(y, None, git), y.id, git)
  }

  ghost predicate Well(outcome: Outcome) {
    !outcome.Failed? && !outcome.RejectedLeak?
  }

  // ----- no rewrites ----------------------------------------------------

  lemma ReconcileMovesExactly(x: Peer, peerHead: Commit, remoteId: string, git: Git)
    ensures var (y, outcome) := Reconcile(x, peerHead, remoteId, git);
            y.head != x.head <==> outcome.FastForwarded? || outcome.Rebased?
  {
    if x.head.Some? && Rebasing(x, peerHead, git).1.Rebased? {
      ReplayDescends(peerHead, Todo(x.head.value, Ancestors(peerHead)), git);
    }
  }

  /** HEAD moves exactly when the sync reports a fast-forward or a rebase, for
      any reply; every other report leaves it alone. */
  lemma HeadMovesExactly(x: Peer, reply: Reply, remoteId: string, git: Git)
    ensures var (y, outcome) := SyncStep(x, reply, remoteId, git);
            y.head != x.head <==> outcome.FastForwarded? || outcome.Rebased?
  {
    if reply.Pack? && reply.peerHead.Some? {
      ReconcileMovesExactly(x.(objects := x.objects.Plus(reply.objects)), reply.peerHead.value, remoteId, git);
    }
  }

  lemma ReconcileOnlyAdvances(x: Peer, peerHead: Commit, remoteId: string, git: Git)
    requires !Less(x.id, remoteId)
    ensures AtLeast(Reconcile(x, peerHead, remoteId, git).0.head, x.head)
  {
    if x.head.Some? { assert x.head.value in Ancestors(x.head.value); }
  }

  lemma HigherIdOnlyAdvances(x: Peer, reply: Reply, remoteId: string, git: Git)
    requires !Less(x.id, remoteId)
    ensures AtLeast(SyncStep(x, reply, remoteId, git).0.head, x.head)
  {
    if x.head.Some? { assert x.head.value in Ancestors(x.head.value); }
    if reply.Pack? && reply.peerHead.Some? {
      ReconcileOnlyAdvances(x.(objects := x.objects.Plus(reply.objects)), reply.peerHead.value, remoteId, git);
    }
  }

  lemma CommitAdvances(x: Peer, tree: Tree, stamp: nat)
    ensures AtLeast(Some(Committed(x, tree, stamp)), x.head)
  {
    if x.head.Some? {
      assert x.head.value in Committed(x, tree, stamp).parents && x.head.value in Ancestors(x.head.value);
    }
  }

  lemma EventOnlyAdvances(x: Peer, e: Event)
    requires e.Pull? ==> !Less(x.id, e.remoteId)
    ensures Step(x, e).id == x.id && AtLeast(Step(x, e).head, x.head)
  {
    match e
    case LocalCommit(tree, stamp) =>
      CommitAdvances(x, tree, stamp);
    case Pull(reply, remoteId, git) =>
      HigherIdOnlyAdvances(x, reply, remoteId, git);
  }

  /** Over any run of local commits and pulls from peers with ids no higher
      than its own, whatever they reply, a device's HEAD only moves to
      descendants. */
  lemma {:induction false} HighestIdIsNeverRewritten(x: Peer, events: seq<Event>)
    requires forall e :: e in events && e.Pull? ==> !Less(x.id, e.remoteId)
    ensures Run(x, events).id == x.id && AtLeast(Run(x, events).head, x.head)
  {
    if events == [] { return; }
    var before, e := Run(x, events[..|events| - 1]), events[|events| - 1];
    assert e in events;
    HighestIdIsNeverRewritten(x, events[..|events| - 1]);
    EventOnlyAdvances(before, e);
    AtLeastTransitive(Step(before, e).head, before.head, x.head);
  }

  /** Of two diverged devices with different ids exactly one waits for the
      other, which is the one that rebases. */
  lemma OneSideRebases(x: Peer, y: Peer, git: Git)
    requires x.id != y.id && x.head.Some? && y.head.Some?
    requires !AtLeast(x.head, y.head) && !AtLeast(y.head, x.head)
    requires Ancestors(x.head.value) + Ancestors(y.head.value) <= x.objects.commits * y.objects.commits
    ensures var a := Reconcile(x, y.head.value, y.id, git);
            var b := Reconcile(y, x.head.value, x.id, git);
            && (a.1.AwaitingPeerRebase? <==> !b.1.AwaitingPeerRebase?)
            && (!a.1.AwaitingPeerRebase? ==> a == Rebasing(x, y.head.value, git))
            && (!b.1.AwaitingPeerRebase? ==> b == Rebasing(y, x.head.value, git))
  {
    LessTotal(x.id, y.id);
  }

  // ----- one pull -------------------------------------------------------

  lemma PullEffect(x: Peer, y: Peer, git: Git)
    requires HoldsHistory(x) && HoldsHistory(y) && Well(PullFrom(x, y, git).1)
    ensures var z := PullFrom(x, y, git).0;
            && HoldsHistory(z) && z.id == x.id
            && (AtLeast(y.head, x.head) ==> z.head == y.head)
            && (AtLeast(x.head, y.head) ==> z.head == x.head)
            && (Less(x.id, y.id) ==> AtLeast(z.head, y.head))
  {
    if y.head.None? { return; }
    var peerHead := y.head.value;
    var got := x.(objects := x.objects.Plus(PackFor(y, None)));
    PullReconciles(x, y, git);
    if x.head.Some? {
      if peerHead in Ancestors(x.head.value) && x.head.value in Ancestors(peerHead) {
        AncestryAntisymmetric(peerHead, x.head.value);
      }
      if PullFrom(x, y, git).1.Rebased? {
        ReplayDescends(peerHead, Todo(x.head.value, Ancestors(peerHead)), git);
      }
    }
    ReconcileHoldsHistory(got, peerHead, y.id, git);
  }

  /** The pack of a peer holds the whole history of its head, so a pull that
      is neither refused nor rejected is a reconciliation with all of it. */
  lemma PullReconciles(x: Peer, y: Peer, git: Git)
    requires HoldsHistory(x) && HoldsHistory(y) && y.head.Some?
    ensures PackFor(y, None) == Whole(Ancestors(y.head.value)) != NO_OBJECTS
    ensures var got := x.(objects := x.objects.Plus(PackFor(y, None)));
            && got.objects.Hold(History(x.head)) && got.objects.Hold(Ancestors(y.head.value))
            && Walkable(got.objects, x.head, y.head.value, git)
            && (x.head.Some? ==> Replayable(got.objects, x.head.value, y.head.value, git))
            && (git.packSize(PackFor(y, None)) <= MAX_PACK_BYTES && AuditIncoming(got.objects, x.head, y.head.value, git) == [] ==>
                  PullFrom(x, y, git) == Reconcile(got, y.head.value, y.id, git))
            && (Well(PullFrom(x, y, git).1) ==> PullFrom(x, y, git) == Reconcile(got, y.head.value, y.id, git))
  {
    var peerHead := y.head.value;
    var got := x.objects.Plus(PackFor(y, None));
    assert PackCommits(y, None) == Ancestors(peerHead);
    assert peerHead in PackFor(y, None).commits;
    HeldIsWalkable(got, x.head, peerHead, git);
    if x.head.Some? {
      BothReadable(got, x.head.value, peerHead, git.replaysPartial);
      BothReadable(got, peerHead, x.head.value, git.replaysPartial);
    }
  }

  lemma BothReadable(objects: Objects, a: Commit, b: Commit, partial: Commit -> bool)
    requires objects.Hold(Ancestors(b))
    ensures AllReadable(Incoming(Some(a), b), objects.trees, partial)
  {
    HistoryParentClosed(Some(b));
    forall c | c in Ancestors(b) && c.parents != [] ensures c.parents[0].tree in objects.trees {
      assert c.parents[0] in c.parents && c.parents[0] in Ancestors(b);
    }
  }

  // ----- two peers ------------------------------------------------------

  datatype Turn = Turn(lowerPulls: bool, git: Git)
  datatype Pair = Pair(lower: Peer, higher: Peer)

  function TakeTurn(s: Pair, turn: Turn): (Pair, Outcome) {
    if turn.lowerPulls then
      var (z, outcome) := PullFrom(s.lower, s.higher, turn.git);
      (Pair(z, s.higher), outcome)
    else
      var (z, outcome) := PullFrom(s.higher, s.lower, turn.git);
      (Pair(s.lower, z), outcome)
  }

  /** The states a schedule of pulls goes through, none of them rejected or
      failed. */
  ghost predicate Schedule(states: seq<Pair>, turns: seq<Turn>) {
    && |states| == |turns| + 1
    && forall k :: 0 <= k < |turns| ==>
         states[k + 1] == TakeTurn(states[k], turns[k]).0 && Well(TakeTurn(states[k], turns[k]).1)
  }

  ghost predicate Paired(s: Pair) {
    HoldsHistory(s.lower) && HoldsHistory(s.higher) && Less(s.lower.id, s.higher.id)
  }

  lemma TurnEffect(s: Pair, turn: Turn)
    requires Paired(s) && Well(TakeTurn(s, turn).1)
    ensures var t := TakeTurn(s, turn).0;
            && Paired(t)
            && (turn.lowerPulls || AtLeast(s.lower.head, s.higher.head) ==> AtLeast(t.lower.head, t.higher.head))
            && (!turn.lowerPulls && AtLeast(s.lower.head, s.higher.head) ==> t.lower.head == t.higher.head)
            && (s.lower.head == s.higher.head ==> t.lower.head == t.higher.head)
            && (t.lower.head == t.higher.head ==> AtLeast(t.lower.head, t.higher.head))
  {
    if s.higher.head.Some? { assert s.higher.head.value in Ancestors(s.higher.head.value); }
    if s.lower.head.Some? { assert s.lower.head.value in Ancestors(s.lower.head.value); }
    if turn.lowerPulls {
      PullEffect(s.lower, s.higher, turn.git);
    } else {
      PullEffect(s.higher, s.lower, turn.git);
    }
  }

  ghost predicate Ahead(s: Pair) {
    AtLeast(s.lower.head, s.higher.head)
  }

  ghost predicate Equal(s: Pair) {
    s.lower.head == s.higher.head
  }

  /** What one pull that goes well does to the order of the two heads. */
  ghost predicate Moves(s: Pair, t: Pair, lowerPulls: bool) {
    Paired(s) ==>
      && Paired(t)
      && (lowerPulls ==> Ahead(t))
      && (Ahead(s) ==> if lowerPulls then Ahead(t) else Equal(t) && Ahead(t))
      && (Equal(s) ==> Equal(t))
  }

  lemma ScheduleMoves(states: seq<Pair>, turns: seq<Turn>)
    requires Schedule(states, turns)
    ensures forall k :: 0 <= k < |turns| ==> Moves(states[k], states[k + 1], turns[k].lowerPulls)
  {
    forall k | 0 <= k < |turns| ensures Moves(states[k], states[k + 1], turns[k].lowerPulls) {
      if Paired(states[k]) { TurnEffect(states[k], turns[k]); }
    }
  }

  lemma {:induction false} OrderOfHeads(states: seq<Pair>, turns: seq<Turn>, i: nat, j: nat, k: nat)
    requires |states| == |turns| + 1 && Paired(states[0])
    requires forall m :: 0 <= m < |turns| ==> Moves(states[m], states[m + 1], turns[m].lowerPulls)
    requires i < j < |turns| && k <= |turns| && turns[i].lowerPulls && !turns[j].lowerPulls
    ensures Paired(states[k])
    ensures i < k ==> Ahead(states[k])
    ensures j < k ==> Equal(states[k])
  {
    if k > 0 {
      OrderOfHeads(states, turns, i, j, k - 1);
      assert Moves(states[k - 1], states[k - 1 + 1], turns[k - 1].lowerPulls);
    }
  }

  /** Two peers, from any heads, born or not: in any schedule of pulls in which
      the lower id pulls and the higher id pulls some time later, the heads are
      equal from then on, whatever pulls follow. */
  lemma TwoPeersConverge(states: seq<Pair>, turns: seq<Turn>, i: nat, j: nat, k: nat)
    requires Schedule(states, turns) && Paired(states[0])
    requires i < j < k <= |turns| && turns[i].lowerPulls && !turns[j].lowerPulls
    ensures states[k].lower.head == states[k].higher.head
  {
    ScheduleMoves(states, turns);
    OrderOfHeads(states, turns, i, j, k);
  }

  /** One round between two diverged peers: both end on the same tree.  A path
      the lower id touched exists in it exactly when the lower id has it, with
      the lower id's ciphertext if it is a `.gpg` file; every other path is as
      the higher id has it. */
  lemma RoundKeepsEdits(s: Pair, first: Turn, second: Turn, p: Path)
    requires Paired(s) && first.lowerPulls && !second.lowerPulls
    requires Well(TakeTurn(s, first).1) && Well(TakeTurn(TakeTurn(s, first).0, second).1)
    requires s.lower.head.Some? && s.higher.head.Some?
    requires !AtLeast(s.lower.head, s.higher.head) && !AtLeast(s.higher.head, s.lower.head)
    requires MergeFree(s.lower.head.value, Ancestors(s.higher.head.value))
    ensures var r := TakeTurn(TakeTurn(s, first).0, second).0;
            var lower, higher := s.lower.head.value, s.higher.head.value;
            && r.lower.head == r.higher.head && r.lower.head.Some?
            && if TouchedIn(p, Todo(lower, Ancestors(higher)))
               then (At(r.lower.head.value.tree, p).Some? == At(lower.tree, p).Some?) &&
                    (IsGpg(p) ==> At(r.lower.head.value.tree, p) == At(lower.tree, p))
               else At(r.lower.head.value.tree, p) == At(higher.tree, p)
  {
    TurnEffect(s, first);
    TurnEffect(TakeTurn(s, first).0, second);
    LowerRebases(s.lower, s.higher, first.git);
    ReplayContent(s.higher.head.value, s.lower.head.value, Ancestors(s.higher.head.value), first.git, p);
  }

  lemma LowerRebases(x: Peer, y: Peer, git: Git)
    requires HoldsHistory(x) && HoldsHistory(y) && Less(x.id, y.id) && Well(PullFrom(x, y, git).1)
    requires x.head.Some? && y.head.Some? && !AtLeast(x.head, y.head) && !AtLeast(y.head, x.head)
    ensures Replay(y.head.value, Todo(x.head.value, Ancestors(y.head.value)), git).Some?
    ensures PullFrom(x, y, git).0.head == Replay(y.head.value, Todo(x.head.value, Ancestors(y.head.value)), git)
  {
    PullReconciles(x, y, git);
  }

  // ----- two clean peers ------------------------------------------------

  ghost predicate Diverged(a: Option<Commit>, b: Option<Commit>) {
    !AtLeast(a, b) && !AtLeast(b, a)
  }

  /** The pull would have to rebase, and the rebase fails. */
  ghost predicate RebaseFails(x: Peer, y: Peer, git: Git) {
    && Diverged(x.head, y.head) && Less(x.id, y.id)
    && Replay(y.head.value, Todo(x.head.value, Ancestors(y.head.value)), git).None?
  }

  /** Nothing the audit looks at is a directory it turns down. */
  ghost predicate NoBadDirectory(local: Option<Commit>, peerHead: Option<Commit>, git: Git) {
    peerHead.Some? ==>
      forall p :: p in LoggedPaths(Incoming(local, peerHead.value), git) ==> !BadDirectory(p, peerHead.value.tree)
  }

  /** A pull from a clean peer goes well exactly when its pack is not refused,
      no path that is now a directory is turned down, and no rebase fails. */
  lemma CleanPullWellExactly(x: Peer, y: Peer, git: Git)
    requires HoldsHistory(x) && HoldsHistory(y) && CleanHead(y)
    ensures Well(PullFrom(x, y, git).1) <==>
              && git.packSize(Whole(History(y.head))) <= MAX_PACK_BYTES
              && NoBadDirectory(x.head, y.head, git)
              && !RebaseFails(x, y, git)
  {
    if y.head.None? {
      assert PackFor(y, None) == Whole({});
    } else {
      PullReconciles(x, y, git);
      CleanPassesExactly(x.objects.Plus(PackFor(y, None)), x.head, y.head.value, git);
      CleanReconcileWell(x.(objects := x.objects.Plus(PackFor(y, None))), y.head.value, y.id, git);
      if git.packSize(PackFor(y, None)) <= MAX_PACK_BYTES && !NoBadDirectory(x.head, y.head, git) {
        assert PullFrom(x, y, git).1.RejectedLeak?;
      }
    }
  }

  lemma CleanReconcileWell(x: Peer, peerHead: Commit, remoteId: string, git: Git)
    requires x.objects.Hold(History(x.head)) && x.objects.Hold(Ancestors(peerHead))
    requires x.head.Some? ==> Replayable(x.objects, x.head.value, peerHead, git)
    ensures Well(Reconcile(x, peerHead, remoteId, git).1) <==>
              !(Diverged(x.head, Some(peerHead)) && Less(x.id, remoteId) &&
                Replay(peerHead, Todo(x.head.value, Ancestors(peerHead)), git).None?)
  {
    assert peerHead in Ancestors(peerHead);
  }

  /** Pulling from a clean peer keeps a clean device clean. */
  lemma CleanPullStaysClean(x: Peer, y: Peer, git: Git)
    requires HoldsHistory(x) && HoldsHistory(y) && CleanHead(x) && CleanHead(y)
    requires Diverged(x.head, y.head) ==> MergeFree(x.head.value, Ancestors(y.head.value))
    ensures CleanHead(PullFrom(x, y, git).0)
  {
    var reply, z := Serve(y, None, git), PullFrom(x, y, git).0;
    if z.head != x.head {
      PullLands(x, reply, y.id, git);
      var peerHead := y.head.value;
      if x.head.Some? {
        var local := x.head.value;
        if local in Ancestors(peerHead) {
          AncestorsTransitive(peerHead, local);
          if peerHead in Ancestors(local) { AncestryAntisymmetric(local, peerHead); }
        }
      }
      CleanReplayFine(x.objects.Plus(reply.objects), x.head, peerHead, git);
    }
    PullKeepsCleanExactly(x, reply, y.id, git);
  }

  lemma CleanReplayFine(objects: Objects, local: Option<Commit>, peerHead: Commit, git: Git)
    requires CleanTree(peerHead.tree)
    requires local.Some? ==> CleanTree(local.value.tree) && MergeFree(local.value, Ancestors(peerHead))
    ensures UnauditedFine(objects, local, peerHead, git)
  {
    forall p ensures FineAt(objects, local, peerHead, git, p) {
      if LastEdit(Replayed(local, peerHead), p).Some? {
        LastEditIsLocal(local.value, Ancestors(peerHead), p);
      }
    }
  }

  /** A schedule of pulls whose packs are not too large. */
  ghost predicate SmallSchedule(states: seq<Pair>, turns: seq<Turn>) {
    && |states| == |turns| + 1
    && forall k :: 0 <= k < |turns| ==>
         states[k + 1] == TakeTurn(states[k], turns[k]).0 && SmallPacks(states[k], turns[k])
  }

  ghost predicate SmallPacks(s: Pair, turn: Turn) {
    turn.git.packSize(Whole(History(if turn.lowerPulls then s.higher.head else s.lower.head))) <= MAX_PACK_BYTES
  }

  function TreeOf(head: Option<Commit>): Tree {
    if head.None? then map[] else head.value.tree
  }

  /** What is printed for a path leads to no directory the check turns down. */
  ghost predicate LineFine(line: Path, t: Tree) {
    IsDirectory(line, t.Keys) ==> CheckFile(line, DIRECTORY) == None
  }

  /** The paths changed on either side since the fork. */
  function ChangedApart(a: Option<Commit>, b: Option<Commit>): set<Path> {
    ChangedPaths(History(a) - History(b)) + ChangedPaths(History(b) - History(a))
  }

  ghost predicate DirectoriesFine(a: Option<Commit>, b: Option<Commit>) {
    forall p :: p in ChangedApart(a, b) ==> LineFine(Printed(p), TreeOf(a)) && LineFine(Printed(p), TreeOf(b))
  }

  /** Both trees are clean and neither has a directory in the place of a path
      changed since the fork; if the heads have diverged, the lower id's commits
      since then have no merge among them and rebase whatever git does. */
  ghost predicate Mergeable(s: Pair) {
    && Paired(s) && CleanHead(s.lower) && CleanHead(s.higher)
    && DirectoriesFine(s.lower.head, s.higher.head)
    && (Diverged(s.lower.head, s.higher.head) ==>
          var lower, upstream := s.lower.head.value, Ancestors(s.higher.head.value);
          MergeFree(lower, upstream) && RebasesAlways(s.higher.head.value, lower, upstream))
  }

  ghost predicate RebasesAlways(onto: Commit, c: Commit, upstream: set<Commit>) {
    forall git: Git :: Replay(onto, Todo(c, upstream), git).Some?
  }

  lemma RebasesAlwaysExactly(onto: Commit, c: Commit, upstream: set<Commit>, git: Git)
    requires MergeFree(c, upstream)
    requires forall x, p :: x in Todo(c, upstream) && p in Touched(x) ==> IsGpg(p)
    ensures RebasesAlways(onto, c, upstream) <==>
              (forall p :: !DeleteModify(onto, c, upstream, p)) && !DirectoryClash(onto, c, upstream)
  {
    ReplaySucceedsExactly(onto, c, upstream, git);
    if Replay(onto, Todo(c, upstream), git).Some? {
      forall other: Git ensures Replay(onto, Todo(c, upstream), other).Some? {
        ReplaySucceedsExactly(onto, c, upstream, other);
      }
    }
  }

  lemma DirectoriesFineSuffices(a: Option<Commit>, b: Option<Commit>, git: Git)
    requires DirectoriesFine(a, b)
    ensures NoBadDirectory(a, b, git)
  {
    if b.Some? {
      forall line | line in LoggedPaths(Incoming(a, b.value), git) ensures !BadDirectory(line, b.value.tree) {
        var p :| p in ListedPaths(Incoming(a, b.value), git) && line == Printed(p);
        assert p in ChangedPaths(History(b) - History(a));
      }
    }
  }

  lemma DirectoriesFineSwap(a: Option<Commit>, b: Option<Commit>)
    requires DirectoriesFine(a, b)
    ensures DirectoriesFine(b, a)
  {
  }

  /** A pull ends with equal heads, with our old head, or with a rebased one. */
  lemma PullCases(x: Peer, y: Peer, git: Git)
    requires HoldsHistory(x) && HoldsHistory(y) && Well(PullFrom(x, y, git).1)
    ensures var z := PullFrom(x, y, git).0;
            || z.head == x.head
            || z.head == y.head
            || (Diverged(x.head, y.head) && Less(x.id, y.id) &&
                z.head == Replay(y.head.value, Todo(x.head.value, Ancestors(y.head.value)), git))
  {
    if y.head.Some? { PullReconciles(x, y, git); }
  }

  lemma PickTouches(tip: Commit, c: Commit, git: Git, r: Commit, k: Commit, p: Path)
    requires Pick(tip, c, git) == Some(r)
    requires k in Ancestors(r) && k !in Ancestors(tip) && p in Touched(k)
    ensures p in Touched(c)
  {
    assert r.parents == [tip] && BaseTree(r) == tip.tree;
    assert k == r;
    PickContent(tip, c, git, p);
  }

  lemma ReplayLast(onto: Commit, todo: seq<Commit>, git: Git, r: Commit) returns (tip: Commit)
    requires Replay(onto, todo, git) == Some(r) && todo != []
    ensures Replay(onto, todo[..|todo| - 1], git) == Some(tip) && Pick(tip, todo[|todo| - 1], git) == Some(r)
  {
    tip := Replay(onto, todo[..|todo| - 1], git).value;
  }

  lemma StepTouches(tip: Commit, todo: seq<Commit>, git: Git, r: Commit, k: Commit, p: Path)
    requires todo != [] && Pick(tip, todo[|todo| - 1], git) == Some(r)
    requires k in Ancestors(r) && p in Touched(k) && (k in Ancestors(tip) ==> TouchedIn(p, todo[..|todo| - 1]))
    ensures TouchedIn(p, todo)
  {
    if k !in Ancestors(tip) {
      PickTouches(tip, todo[|todo| - 1], git, r, k, p);
      assert todo[|todo| - 1] in todo;
    }
  }

  /** A replay touches no more paths than the commits it replays. */
  lemma {:induction false} ReplayTouches(onto: Commit, todo: seq<Commit>, git: Git, r: Commit, k: Commit, p: Path)
    requires Replay(onto, todo, git) == Some(r)
    requires k in Ancestors(r) && k !in Ancestors(onto) && p in Touched(k)
    ensures TouchedIn(p, todo)
  {
    if todo != [] {
      var tip := ReplayLast(onto, todo, git, r);
      if k in Ancestors(tip) { ReplayTouches(onto, todo[..|todo| - 1], git, tip, k, p); }
      StepTouches(tip, todo, git, r, k, p);
    }
  }

  /** A rebased head only has the directories of the two it comes from, and
      touches what the lower one touched. */
  lemma RebaseKeepsDirectories(x: Commit, y: Commit, git: Git)
    requires MergeFree(x, Ancestors(y)) && DirectoriesFine(Some(x), Some(y))
    requires Replay(y, Todo(x, Ancestors(y)), git).Some?
    ensures DirectoriesFine(Replay(y, Todo(x, Ancestors(y)), git), Some(y))
  {
    var z, todo := Replay(y, Todo(x, Ancestors(y)), git).value, Todo(x, Ancestors(y));
    HistoryParentClosed(Some(y));
    TodoIsRange(x, Ancestors(y));
    ReplayDescends(y, todo, git);
    AncestorsTransitive(z, y);
    forall p | p in ChangedApart(Some(z), Some(y)) ensures LineFine(Printed(p), z.tree) && LineFine(Printed(p), y.tree) {
      assert p in ChangedPaths(Ancestors(z) - Ancestors(y));
      var k :| k in Ancestors(z) - Ancestors(y) && p in Touched(k);
      ReplayTouches(y, todo, git, z, k, p);
      var c :| c in todo && p in Touched(c);
      assert c in Ancestors(x) - Ancestors(y) && p in ChangedPaths(Ancestors(x) - Ancestors(y));
      if IsDirectory(Printed(p), z.tree.Keys) {
        var q :| q in z.tree.Keys && Inside(q, Printed(p));
        ReplayContent(y, x, Ancestors(y), git, q);
        assert q in x.tree.Keys || q in y.tree.Keys;
      }
    }
  }

  lemma DivergedWait(x: Peer, y: Peer, git: Git)
    requires HoldsHistory(x) && HoldsHistory(y) && Diverged(x.head, y.head)
    ensures PullFrom(x, y, git).0.head == x.head || Less(x.id, y.id)
  {
  }

  lemma MergeableTurn(s: Pair, turn: Turn)
    requires Mergeable(s) && SmallPacks(s, turn)
    ensures Well(TakeTurn(s, turn).1) && Mergeable(TakeTurn(s, turn).0)
  {
    var x, y := if turn.lowerPulls then s.lower else s.higher, if turn.lowerPulls then s.higher else s.lower;
    LessTotal(s.lower.id, s.higher.id);
    DirectoriesFineSwap(s.lower.head, s.higher.head);
    DirectoriesFineSuffices(x.head, y.head, turn.git);
    CleanPullWellExactly(x, y, turn.git);
    PullEffect(x, y, turn.git);
    PullCases(x, y, turn.git);
    var z := PullFrom(x, y, turn.git).0;
    if !Diverged(x.head, y.head) || turn.lowerPulls {
      CleanPullStaysClean(x, y, turn.git);
    }
    assert DirectoriesFine(z.head, y.head) by {
      if z.head != x.head && z.head != y.head { RebaseKeepsDirectories(x.head.value, y.head.value, turn.git); }
    }
    DirectoriesFineSwap(z.head, y.head);
    if Diverged(x.head, y.head) { DivergedWait(x, y, turn.git); }
  }

  lemma {:induction false} MergeableSchedule(states: seq<Pair>, turns: seq<Turn>, k: nat)
    requires SmallSchedule(states, turns) && Mergeable(states[0]) && k <= |turns|
    ensures Mergeable(states[k]) && (k < |turns| ==> Well(TakeTurn(states[k], turns[k]).1))
  {
    if k > 0 {
      MergeableSchedule(states, turns, k - 1);
      assert states[k - 1 + 1] == TakeTurn(states[k - 1], turns[k - 1]).0 && SmallPacks(states[k - 1], turns[k - 1]);
      MergeableTurn(states[k - 1], turns[k - 1]);
    }
    if k < |turns| {
      assert SmallPacks(states[k], turns[k]);
      MergeableTurn(states[k], turns[k]);
    }
  }

  /** Between two clean devices whose commits can be rebased, and with packs
      under the size cap, nothing is rejected and nothing fails: they converge
      in every schedule where the lower id pulls before the higher id does. */
  lemma CleanPeersConverge(states: seq<Pair>, turns: seq<Turn>, i: nat, j: nat, k: nat)
    requires SmallSchedule(states, turns) && Mergeable(states[0])
    requires i < j < k <= |turns| && turns[i].lowerPulls && !turns[j].lowerPulls
    ensures states[k].lower.head == states[k].higher.head
  {
    forall m | 0 <= m < |turns|
      ensures states[m + 1] == TakeTurn(states[m], turns[m]).0 && Well(TakeTurn(states[m], turns[m]).1)
    {
      MergeableSchedule(states, turns, m);
    }
    TwoPeersConverge(states, turns, i, j, k);
  }

  /** When the lower id's commits touch `.gpg` files only, they rebase whatever
      git does exactly when no path is deleted on one side and changed
      differently on the other, and no file meets a directory. */
  lemma MergeableExactly(s: Pair, git: Git)
    requires Paired(s) && CleanHead(s.lower) && CleanHead(s.higher) && Diverged(s.lower.head, s.higher.head)
    requires MergeFree(s.lower.head.value, Ancestors(s.higher.head.value))
    requires forall x, p :: x in Todo(s.lower.head.value, Ancestors(s.higher.head.value)) && p in Touched(x) ==> IsGpg(p)
    ensures var lower, higher := s.lower.head.value, s.higher.head.value;
            Mergeable(s) <==>
              && DirectoriesFine(s.lower.head, s.higher.head)
              && (forall p :: !DeleteModify(higher, lower, Ancestors(higher), p))
              && !DirectoryClash(higher, lower, Ancestors(higher))
  {
    RebasesAlwaysExactly(s.higher.head.value, s.lower.head.value, Ancestors(s.higher.head.value), git);
  }

  // ----- any number of peers --------------------------------------------

  function Pulling(net: seq<Peer>, x: nat, y: nat, git: Git): (seq<Peer>, Outcome)
    requires x < |net| && y < |net|
  {
    var (z, outcome) := PullFrom(net[x], net[y], git);
    (net[x := z], outcome)
  }

  /** Peers |net|-2 down to `k` have each pulled from their successor. */
  function Ascent(net: seq<Peer>, k: nat, env: nat -> Git): (r: seq<Peer>)
    ensures |r| == |net|
    decreases |net| - k
  {
    if k + 1 >= |net| then net else Pulling(Ascent(net, k + 1, env), k, k + 1, env(k)).0
  }

  ghost predicate AscentWell(net: seq<Peer>, k: nat, env: nat -> Git)
    decreases |net| - k
  {
    k + 1 < |net| ==> AscentWell(net, k + 1, env) && Well(Pulling(Ascent(net, k + 1, env), k, k + 1, env(k)).1)
  }

  /** Peers 1 to `j`-1 have each pulled from peer 0. */
  function Descent(net: seq<Peer>, j: nat, env: nat -> Git): (r: seq<Peer>)
    requires j <= |net|
    ensures |r| == |net|
  {
    if j <= 1 then net else Pulling(Descent(net, j - 1, env), j - 1, 0, env(|net| + j)).0
  }

  ghost predicate DescentWell(net: seq<Peer>, j: nat, env: nat -> Git)
    requires j <= |net|
  {
    j > 1 ==> DescentWell(net, j - 1, env) && Well(Pulling(Descent(net, j - 1, env), j - 1, 0, env(|net| + j)).1)
  }

  ghost predicate Network(net: seq<Peer>) {
    && (forall i :: 0 <= i < |net| ==> HoldsHistory(net[i]))
    && forall i :: 0 <= i < |net| - 1 ==> Less(net[i].id, net[i + 1].id)
  }

  ghost predicate Ordered(net: seq<Peer>, k: nat) {
    forall i :: k <= i < |net| - 1 ==> AtLeast(net[i].head, net[i + 1].head)
  }

  lemma NetworkUpdate(net: seq<Peer>, k: nat, z: Peer)
    requires k + 1 < |net| && Network(net) && Ordered(net, k + 1)
    requires HoldsHistory(z) && z.id == net[k].id && AtLeast(z.head, net[k + 1].head)
    ensures Network(net[k := z]) && Ordered(net[k := z], k)
  {
  }

  lemma SuccessorPulled(net: seq<Peer>, k: nat, git: Git)
    requires k + 1 < |net| && Network(net) && Ordered(net, k + 1)
    requires Well(PullFrom(net[k], net[k + 1], git).1)
    ensures var after := Pulling(net, k, k + 1, git).0;
            Network(after) && Ordered(after, k)
  {
    var x, y := net[k], net[k + 1];
    var z := PullFrom(x, y, git).0;
    assert HoldsHistory(z) && z.id == x.id && AtLeast(z.head, y.head) by { PullEffect(x, y, git); }
    NetworkUpdate(net, k, z);
  }

  lemma {:induction false} AscentOrders(net: seq<Peer>, k: nat, env: nat -> Git)
    requires Network(net) && AscentWell(net, k, env)
    ensures Network(Ascent(net, k, env)) && Ordered(Ascent(net, k, env), k)
    decreases |net| - k
  {
    if k + 1 < |net| {
      AscentOrders(net, k + 1, env);
      SuccessorPulled(Ascent(net, k + 1, env), k, env(k));
    }
  }

  lemma {:induction false} FirstIsAhead(net: seq<Peer>, i: nat)
    requires i < |net| && Ordered(net, 0)
    ensures AtLeast(net[0].head, net[i].head)
  {
    if i > 0 {
      FirstIsAhead(net, i - 1);
      assert AtLeast(net[i - 1].head, net[i - 1 + 1].head);
      AtLeastTransitive(net[0].head, net[i - 1].head, net[i].head);
    } else if net[0].head.Some? {
      assert net[0].head.value in Ancestors(net[0].head.value);
    }
  }

  lemma AllBelowFirst(net: seq<Peer>)
    requires net != [] && Network(net) && Ordered(net, 0)
    ensures forall i :: 0 <= i < |net| ==> HoldsHistory(net[i]) && AtLeast(net[0].head, net[i].head)
  {
    forall i | 0 <= i < |net| ensures AtLeast(net[0].head, net[i].head) {
      FirstIsAhead(net, i);
    }
  }

  lemma {:induction false} DescentEqualises(net: seq<Peer>, j: nat, env: nat -> Git)
    requires j <= |net| && DescentWell(net, j, env) && net != []
    requires forall i :: 0 <= i < |net| ==> HoldsHistory(net[i]) && AtLeast(net[0].head, net[i].head)
    ensures var r := Descent(net, j, env);
            && r[0] == net[0]
            && (forall i :: 0 <= i < |net| ==> HoldsHistory(r[i]))
            && (forall i :: 0 <= i < j ==> r[i].head == net[0].head)
            && (forall i :: j <= i < |net| ==> r[i] == net[i])
  {
    if j > 1 {
      DescentEqualises(net, j - 1, env);
      var before := Descent(net, j - 1, env);
      PullEffect(before[j - 1], before[0], env(|net| + j));
    }
  }

  lemma DescentConverges(net: seq<Peer>, env: nat -> Git)
    requires net != [] && DescentWell(net, |net|, env)
    requires forall i :: 0 <= i < |net| ==> HoldsHistory(net[i]) && AtLeast(net[0].head, net[i].head)
    ensures var r := Descent(net, |net|, env);
            forall i, j :: 0 <= i < |net| && 0 <= j < |net| ==> r[i].head == r[j].head
  {
    DescentEqualises(net, |net|, env);
  }

  /** N peers with ascending ids: when each pulls from its successor, from the
      last but one down to the first, and then all pull from the first, every
      head is equal. */
  lemma PeersConverge(net: seq<Peer>, env: nat -> Git)
    requires Network(net) && AscentWell(net, 0, env)
    requires DescentWell(Ascent(net, 0, env), |net|, env)
    ensures var r := Descent(Ascent(net, 0, env), |net|, env);
            forall i, j :: 0 <= i < |net| && 0 <= j < |net| ==> r[i].head == r[j].head
  {
    if net != [] {
      AscentOrders(net, 0, env);
      AllBelowFirst(Ascent(net, 0, env));
      DescentConverges(Ascent(net, 0, env), env);
    }
  }

  // ----- any schedule of any number of peers ----------------------------

  /** Peer `x` pulls from peer `y`. */
  datatype Exchange = Exchange(x: nat, y: nat, git: Git)

  /** The networks a schedule of pulls goes through, none of them rejected or
      failed. */
  ghost predicate Exchanges(nets: seq<seq<Peer>>, pulls: seq<Exchange>) {
    && |nets| == |pulls| + 1
    && forall m :: 0 <= m < |pulls| ==> Exchanged(nets[m], nets[m + 1], pulls[m])
  }

  ghost predicate Exchanged(net: seq<Peer>, after: seq<Peer>, pull: Exchange) {
    && pull.x < |net| && pull.y < |net|
    && after == Pulling(net, pull.x, pull.y, pull.git).0
    && Well(Pulling(net, pull.x, pull.y, pull.git).1)
  }

  // The argument is about the heads alone.

  type Heads = seq<Option<Commit>>

  function HeadsOf(net: seq<Peer>): Heads {
    seq(|net|, i requires 0 <= i < |net| => net[i].head)
  }

  ghost predicate Comparable(a: Option<Commit>, b: Option<Commit>) {
    AtLeast(a, b) || AtLeast(b, a)
  }

  /** The heads from peer `k` on lie on one line, and peer `k` is at its end. */
  ghost predicate Led(heads: Heads, k: nat) {
    && (forall i, j :: k <= i < |heads| && k <= j < |heads| ==> Comparable(heads[i], heads[j]))
    && forall i :: k <= i < |heads| ==> AtLeast(heads[k], heads[i])
  }

  /** What one pull that goes well does to the heads. */
  ghost predicate Effect(heads: Heads, after: Heads, x: nat, y: nat) {
    && |after| == |heads| && x < |heads| && y < |heads|
    && (forall i :: 0 <= i < |heads| && i != x ==> after[i] == heads[i])
    && (AtLeast(heads[y], heads[x]) ==> after[x] == heads[y])
    && (AtLeast(heads[x], heads[y]) ==> after[x] == heads[x])
    && (x + 1 == y ==> AtLeast(after[x], heads[y]))
  }

  lemma PeerReplaced(net: seq<Peer>, x: nat, z: Peer)
    requires x < |net| && Network(net) && HoldsHistory(z) && z.id == net[x].id
    ensures Network(net[x := z]) && HeadsOf(net[x := z]) == HeadsOf(net)[x := z.head]
  {
  }

  lemma ExchangeEffect(net: seq<Peer>, after: seq<Peer>, pull: Exchange)
    requires Network(net) && Exchanged(net, after, pull)
    ensures |after| == |net| && Network(after) && Effect(HeadsOf(net), HeadsOf(after), pull.x, pull.y)
  {
    PullEffect(net[pull.x], net[pull.y], pull.git);
    PeerReplaced(net, pull.x, PullFrom(net[pull.x], net[pull.y], pull.git).0);
  }

  lemma {:induction false} NetworkStays(nets: seq<seq<Peer>>, pulls: seq<Exchange>, m: nat)
    requires Exchanges(nets, pulls) && Network(nets[0]) && m <= |pulls|
    ensures |nets[m]| == |nets[0]| && Network(nets[m])
  {
    if m > 0 {
      NetworkStays(nets, pulls, m - 1);
      ExchangeAt(nets, pulls, m - 1);
    }
  }

  lemma ExchangeAt(nets: seq<seq<Peer>>, pulls: seq<Exchange>, m: nat)
    requires Exchanges(nets, pulls) && m < |pulls| && Network(nets[m])
    ensures |nets[m + 1]| == |nets[m]| && Network(nets[m + 1])
    ensures Effect(HeadsOf(nets[m]), HeadsOf(nets[m + 1]), pulls[m].x, pulls[m].y)
  {
    ExchangeEffect(nets[m], nets[m + 1], pulls[m]);
  }

  /** The heads a schedule goes through. */
  function Lines(nets: seq<seq<Peer>>): seq<Heads> {
    seq(|nets|, m requires 0 <= m < |nets| => HeadsOf(nets[m]))
  }

  ghost predicate Effects(lines: seq<Heads>, pulls: seq<Exchange>) {
    && |lines| == |pulls| + 1
    && forall m :: 0 <= m < |pulls| ==> Effect(lines[m], lines[m + 1], pulls[m].x, pulls[m].y)
  }

  lemma ExchangeEffects(nets: seq<seq<Peer>>, pulls: seq<Exchange>)
    requires Exchanges(nets, pulls) && Network(nets[0])
    ensures Effects(Lines(nets), pulls)
    ensures forall m :: 0 <= m <= |pulls| ==> |nets[m]| == |nets[0]|
  {
    forall m | 0 <= m <= |pulls| ensures |nets[m]| == |nets[0]| && Network(nets[m]) {
      NetworkStays(nets, pulls, m);
    }
    forall m | 0 <= m < |pulls| ensures Effect(Lines(nets)[m], Lines(nets)[m + 1], pulls[m].x, pulls[m].y) {
      ExchangeAt(nets, pulls, m);
    }
  }

  /** The lowest peer known to lead all that follow it: a peer joins when it
      pulls from the leader after it, and the line is broken when one of its
      peers pulls from a peer before the leader. */
  function NextLeader(n: nat, k: nat, x: nat, y: nat): (next: nat)
    requires k < n
    ensures next < n
  {
    if x + 1 == k && y == k then x
    else if y < k <= x then n - 1
    else k
  }

  function Leader(n: nat, pulls: seq<Exchange>): (k: nat)
    requires n > 0
    ensures k < n
  {
    if pulls == [] then n - 1 else
      var last := pulls[|pulls| - 1];
      NextLeader(n, Leader(n, pulls[..|pulls| - 1]), last.x, last.y)
  }

  lemma AtLeastItself(a: Option<Commit>)
    ensures AtLeast(a, a)
  {
    if a.Some? { assert a.value in Ancestors(a.value); }
  }

  lemma LastLeads(heads: Heads)
    requires heads != []
    ensures Led(heads, |heads| - 1)
  {
    AtLeastItself(heads[|heads| - 1]);
  }

  lemma JoinsLine(heads: Heads, after: Heads, k: nat)
    requires 0 < k < |heads| && Effect(heads, after, k - 1, k) && Led(heads, k)
    ensures Led(after, k - 1)
  {
    AtLeastItself(after[k - 1]);
    forall i | k <= i < |heads| ensures AtLeast(after[k - 1], after[i]) {
      AtLeastTransitive(after[k - 1], heads[k], heads[i]);
    }
    assert forall i, j :: k <= i < |heads| && k <= j < |heads| ==> Comparable(after[i], after[j]);
  }

  lemma KeepsLine(heads: Heads, after: Heads, x: nat, y: nat, k: nat)
    requires Effect(heads, after, x, y) && k < |heads| && Led(heads, k) && !(y < k <= x)
    ensures Led(after, k)
    ensures k <= x ==> after[k] == heads[k]
  {
    if k <= x {
      assert Comparable(heads[x], heads[y]) && AtLeast(heads[k], heads[y]);
      var source := if AtLeast(heads[x], heads[y]) then x else y;
      assert forall i :: k <= i < |heads| ==> after[i] == heads[if i == x then source else i];
    }
  }

  lemma LeaderStep(heads: Heads, after: Heads, x: nat, y: nat, k: nat)
    requires Effect(heads, after, x, y) && k < |heads| && Led(heads, k)
    ensures Led(after, NextLeader(|heads|, k, x, y))
  {
    if x + 1 == k && y == k {
      JoinsLine(heads, after, k);
    } else if y < k <= x {
      LastLeads(after);
    } else {
      KeepsLine(heads, after, x, y, k);
    }
  }

  lemma LeaderOfMore(n: nat, pulls: seq<Exchange>, m: nat)
    requires n > 0 && m < |pulls|
    ensures Leader(n, pulls[..m + 1]) == NextLeader(n, Leader(n, pulls[..m]), pulls[m].x, pulls[m].y)
  {
    assert pulls[..m + 1][..m] == pulls[..m];
  }

  lemma {:induction false} LeaderLeads(lines: seq<Heads>, pulls: seq<Exchange>, m: nat)
    requires Effects(lines, pulls) && lines[0] != [] && m <= |pulls|
    ensures |lines[m]| == |lines[0]| && Led(lines[m], Leader(|lines[0]|, pulls[..m]))
  {
    if m == 0 {
      LastLeads(lines[0]);
    } else {
      LeaderLeads(lines, pulls, m - 1);
      assert Effect(lines[m - 1], lines[m - 1 + 1], pulls[m - 1].x, pulls[m - 1].y);
      LeaderOfMore(|lines[0]|, pulls, m - 1);
      LeaderStep(lines[m - 1], lines[m], pulls[m - 1].x, pulls[m - 1].y, Leader(|lines[0]|, pulls[..m - 1]));
    }
  }

  /** Peer `i` pulled from peer 0 at or after time `m` and before time `t`. */
  ghost predicate PulledFromFirst(pulls: seq<Exchange>, i: nat, m: nat, t: nat)
    requires t <= |pulls|
  {
    i == 0 || exists u :: m <= u < t && pulls[u].x == i && pulls[u].y == 0
  }

  lemma FirstSpreads(heads: Heads, after: Heads, x: nat, y: nat, i: nat)
    requires Effect(heads, after, x, y) && Led(heads, 0) && i < |heads|
    requires heads[i] == heads[0] || (x == i && y == 0)
    ensures Led(after, 0) && after[i] == after[0]
  {
    KeepsLine(heads, after, x, y, 0);
    assert AtLeast(heads[0], heads[i]) && AtLeast(heads[0], heads[y]);
  }

  lemma {:induction false} FollowersEqual(lines: seq<Heads>, pulls: seq<Exchange>, m: nat, t: nat, i: nat)
    requires Effects(lines, pulls) && m <= t <= |pulls|
    requires Led(lines[m], 0) && i < |lines[m]| && PulledFromFirst(pulls, i, m, t)
    ensures |lines[t]| == |lines[m]| && Led(lines[t], 0) && lines[t][i] == lines[t][0]
    decreases t
  {
    if t > m {
      var x, y := pulls[t - 1].x, pulls[t - 1].y;
      assert Effect(lines[t - 1], lines[t - 1 + 1], x, y);
      FollowersEqual(lines, pulls, m, t - 1, 0);
      if PulledFromFirst(pulls, i, m, t - 1) { FollowersEqual(lines, pulls, m, t - 1, i); }
      FirstSpreads(lines[t - 1], lines[t], x, y, i);
    }
  }

  /** Whatever went before, one ascent, each peer pulling from its successor,
      last to first, gives the first peer the lead. */
  lemma AscentLeads(n: nat, pulls: seq<Exchange>, ascent: seq<Exchange>)
    requires |ascent| + 1 == n && Ascending(n, ascent)
    ensures Leader(n, pulls + ascent) == 0
  {
    AscentLowers(n, pulls, ascent);
  }

  ghost predicate Ascending(n: nat, ascent: seq<Exchange>) {
    forall i :: 0 <= i < |ascent| ==> ascent[i].x + 2 + i == n && ascent[i].y + 1 + i == n
  }

  lemma {:induction false} AscentLowers(n: nat, pulls: seq<Exchange>, ascent: seq<Exchange>)
    requires |ascent| < n && Ascending(n, ascent)
    ensures Leader(n, pulls + ascent) + |ascent| < n
  {
    if ascent == [] {
      assert pulls + ascent == pulls;
    } else {
      var m := |ascent| - 1;
      AscentLowers(n, pulls, ascent[..m]);
      var all := pulls + ascent;
      assert all[..|all| - 1] == pulls + ascent[..m] && all[|all| - 1] == ascent[m];
    }
  }

  /** N peers with ascending ids, from any heads, born or not, in any schedule
      of pulls: once the lead has passed down to the first peer and every peer
      has pulled from it since, all heads are equal, whatever pulls follow. */
  lemma AnyScheduleConverges(nets: seq<seq<Peer>>, pulls: seq<Exchange>, m: nat, t: nat, i: nat, j: nat)
    requires Exchanges(nets, pulls) && nets[0] != [] && Network(nets[0]) && m <= t <= |pulls|
    requires Leader(|nets[0]|, pulls[..m]) == 0
    requires i < |nets[0]| && PulledFromFirst(pulls, i, m, t)
    requires j < |nets[0]| && PulledFromFirst(pulls, j, m, t)
    ensures |nets[t]| == |nets[0]| && nets[t][i].head == nets[t][j].head
  {
    var lines := Lines(nets);
    ExchangeEffects(nets, pulls);
    LeaderLeads(lines, pulls, m);
    FollowersEqual(lines, pulls, m, t, i);
    FollowersEqual(lines, pulls, m, t, j);
  }

  lemma {:induction false} EqualHeadsStay(lines: seq<Heads>, pulls: seq<Exchange>, t: nat)
    requires Effects(lines, pulls) && t <= |pulls|
    requires forall i :: 0 <= i < |lines[0]| ==> lines[0][i] == lines[0][0]
    ensures lines[t] == lines[0]
  {
    if t > 0 {
      EqualHeadsStay(lines, pulls, t - 1);
      var x, y := pulls[t - 1].x, pulls[t - 1].y;
      assert Effect(lines[t - 1], lines[t - 1 + 1], x, y);
      AtLeastItself(lines[0][0]);
      assert lines[0][x] == lines[0][0] && lines[0][y] == lines[0][0];
    }
  }

  /** Equal heads stay equal under any further pulls. */
  lemma EqualStaysEqual(nets: seq<seq<Peer>>, pulls: seq<Exchange>, t: nat)
    requires Exchanges(nets, pulls) && Network(nets[0]) && t <= |pulls|
    requires forall i :: 0 <= i < |nets[0]| ==> nets[0][i].head == nets[0][0].head
    ensures HeadsOf(nets[t]) == HeadsOf(nets[0])
  {
    ExchangeEffects(nets, pulls);
    EqualHeadsStay(Lines(nets), pulls, t);
  }

  // ----- any number of clean peers --------------------------------------

  /** A commit that only adds or changes `.gpg` files. */
  ghost predicate Grows(c: Commit) {
    && |c.parents| <= 1
    && (forall p :: p in Touched(c) ==> IsGpg(p))
    && BaseTree(c).Keys <= c.tree.Keys
  }

  /** No name, plain or as git prints it, is a directory of another. */
  ghost predicate Separate(names: set<Path>) {
    forall p :: p in names ==> !IsDirectory(p, names) && !IsDirectory(Printed(p), names)
  }

  /** A clean head on top of the common commits, every other commit of which
      grows, with names out of `names` only. */
  ghost predicate Growing(head: Option<Commit>, common: set<Commit>, names: set<Path>) {
    head.Some? ==>
      && common <= Ancestors(head.value)
      && CleanTree(head.value.tree)
      && forall c :: c in Ancestors(head.value) ==> (c in common || Grows(c)) && c.tree.Keys <= names
  }

  lemma {:induction false} GrowsSinceFork(c: Commit, upstream: set<Commit>)
    requires MergeFree(c, upstream) && forall k :: k in Ancestors(c) - upstream ==> Grows(k)
    ensures ForkTree(c, upstream).Keys <= c.tree.Keys
    decreases c
  {
    if c !in upstream {
      assert c in Ancestors(c) - upstream;
      if c.parents != [] {
        MergeFreeParent(c, upstream);
        GrowsSinceFork(c.parents[0], upstream);
      }
    }
  }

  lemma PickGrows(tip: Commit, c: Commit, git: Git, names: set<Path>)
    requires Grows(c) && BaseTree(c).Keys <= tip.tree.Keys
    requires c.tree.Keys <= names && tip.tree.Keys <= names && Separate(names)
    ensures Pick(tip, c, git).Some?
    ensures var r := Pick(tip, c, git).value;
            r.tree.Keys == tip.tree.Keys + c.tree.Keys && (r == tip || (r.parents == [tip] && Grows(r)))
  {
    SettledGrows(tip, c, git);
    SeparateDoesNotClash(SettledTree(BaseTree(c), tip.tree, c.tree, git).Keys, names);
    PickSucceedsExactly(tip, c, git);
    var r := Pick(tip, c, git).value;
    forall p | r != tip && p in Touched(r) ensures IsGpg(p) {
      PickContent(tip, c, git, p);
    }
  }

  lemma SettledGrows(tip: Commit, c: Commit, git: Git)
    requires Grows(c) && BaseTree(c).Keys <= tip.tree.Keys
    ensures forall p :: !MergeAt(p, BaseTree(c), tip.tree, c.tree, git).Conflict?
    ensures SettledTree(BaseTree(c), tip.tree, c.tree, git).Keys == tip.tree.Keys + c.tree.Keys
  {
    var merged := SettledTree(BaseTree(c), tip.tree, c.tree, git);
    forall p
      ensures !MergeAt(p, BaseTree(c), tip.tree, c.tree, git).Conflict?
      ensures p in merged.Keys <==> p in tip.tree.Keys + c.tree.Keys
    {
      GrowingMerge(tip, c, git, p);
      SettledAt(BaseTree(c), tip.tree, c.tree, git, p);
    }
  }

  lemma SeparateDoesNotClash(paths: set<Path>, names: set<Path>)
    requires paths <= names && Separate(names)
    ensures !Clashes(paths)
  {
    forall p | p in paths ensures !IsDirectory(p, paths) {
      assert p in names && !IsDirectory(p, names);
    }
  }

  lemma GrowingMerge(tip: Commit, c: Commit, git: Git, p: Path)
    requires Grows(c) && BaseTree(c).Keys <= tip.tree.Keys
    ensures var m := MergeAt(p, BaseTree(c), tip.tree, c.tree, git);
            m.Settled? && (m.value.Some? <==> p in tip.tree || p in c.tree)
  {
    assert p in Touched(c) <==> At(c.tree, p) != At(BaseTree(c), p);
    assert p in BaseTree(c) ==> p in c.tree && p in tip.tree;
    GpgConflictExactly(p, At(BaseTree(c), p), At(tip.tree, p), At(c.tree, p), git);
  }

  /** A head replayed onto `onto` that has only grown, within the names. */
  ghost predicate GrownFrom(onto: Commit, r: Commit, names: set<Path>) {
    && r.tree.Keys <= names && onto.tree.Keys <= r.tree.Keys
    && forall k :: k in Ancestors(r) - Ancestors(onto) ==> Grows(k) && k.tree.Keys <= names
  }

  lemma GrowingStep(onto: Commit, tip: Commit, c: Commit, git: Git, names: set<Path>)
    requires GrownFrom(onto, tip, names) && Grows(c) && BaseTree(c).Keys <= tip.tree.Keys
    requires c.tree.Keys <= names && Separate(names)
    ensures Pick(tip, c, git).Some?
    ensures GrownFrom(onto, Pick(tip, c, git).value, names) && c.tree.Keys <= Pick(tip, c, git).value.tree.Keys
  {
    PickGrows(tip, c, git, names);
    GrownFurther(onto, tip, Pick(tip, c, git).value, names);
  }

  lemma GrownFurther(onto: Commit, tip: Commit, r: Commit, names: set<Path>)
    requires GrownFrom(onto, tip, names) && tip.tree.Keys <= r.tree.Keys <= names
    requires r == tip || (r.parents == [tip] && Grows(r))
    ensures GrownFrom(onto, r, names)
  {
    if r != tip { assert Ancestors(r) == {r} + Ancestors(tip); }
  }

  /** Commits that grow always rebase onto a head that has grown as well. */
  lemma {:induction false} GrowingReplay(onto: Commit, c: Commit, upstream: set<Commit>, git: Git, names: set<Path>)
    requires MergeFree(c, upstream) && Separate(names) && onto.tree.Keys <= names
    requires forall k :: k in Ancestors(c) - upstream ==> Grows(k) && k.tree.Keys <= names
    requires ForkTree(c, upstream).Keys <= onto.tree.Keys
    ensures Replay(onto, Todo(c, upstream), git).Some?
    ensures var r := Replay(onto, Todo(c, upstream), git).value;
            GrownFrom(onto, r, names) && (c !in upstream ==> c.tree.Keys <= r.tree.Keys)
    decreases c
  {
    if c !in upstream {
      var before := if c.parents == [] then [] else Todo(c.parents[0], upstream);
      LastReplayed(onto, c, upstream, git);
      assert c in Ancestors(c) - upstream;
      if c.parents != [] {
        MergeFreeParent(c, upstream);
        GrowingReplay(onto, c.parents[0], upstream, git, names);
      }
      GrowingStep(onto, Replay(onto, before, git).value, c, git, names);
    }
  }

  lemma GrowingMergeFree(x: Commit, y: Commit, common: set<Commit>, names: set<Path>)
    requires Growing(Some(x), common, names) && Growing(Some(y), common, names)
    ensures MergeFree(x, Ancestors(y))
    ensures forall k :: k in Ancestors(x) - Ancestors(y) ==> Grows(k) && k.tree.Keys <= names
  {
  }

  lemma GrowingRebase(x: Commit, y: Commit, git: Git, common: set<Commit>, names: set<Path>)
    requires Growing(Some(x), common, names) && Growing(Some(y), common, names) && Separate(names)
    ensures Replay(y, Todo(x, Ancestors(y)), git).Some?
    ensures var z := Replay(y, Todo(x, Ancestors(y)), git).value;
            && common <= Ancestors(z)
            && forall c :: c in Ancestors(z) ==> (c in common || Grows(c)) && c.tree.Keys <= names
  {
    GrowingMergeFree(x, y, common, names);
    GrowingMergeFree(y, x, common, names);
    ForkSymmetric(x, y);
    GrowsSinceFork(y, Ancestors(x));
    assert y in Ancestors(y);
    GrowingReplay(y, x, Ancestors(y), git, names);
    ReplayDescends(y, Todo(x, Ancestors(y)), git);
    AncestorsTransitive(Replay(y, Todo(x, Ancestors(y)), git).value, y);
  }

  lemma TouchedIsNamed(y: Commit, c: Commit, p: Path, names: set<Path>)
    requires c in Ancestors(y) && p in Touched(c) && forall k :: k in Ancestors(y) ==> k.tree.Keys <= names
    ensures p in names
  {
    HistoryParentClosed(Some(y));
    if c.parents != [] { assert c.parents[0] in c.parents && c.parents[0] in Ancestors(y); }
  }

  lemma SeparateLine(p: Path, t: Tree, names: set<Path>)
    requires Separate(names) && p in names && t.Keys <= names
    ensures !IsDirectory(Printed(p), t.Keys)
  {
  }

  lemma SeparateLines(local: Option<Commit>, peerHead: Option<Commit>, git: Git, common: set<Commit>, names: set<Path>)
    requires Growing(peerHead, common, names) && Separate(names)
    ensures NoBadDirectory(local, peerHead, git)
  {
    if peerHead.Some? {
      var y := peerHead.value;
      assert y in Ancestors(y);
      forall line | line in LoggedPaths(Incoming(local, y), git) ensures !IsDirectory(line, y.tree.Keys) {
        var p :| p in ListedPaths(Incoming(local, y), git) && line == Printed(p);
        var c :| c in Incoming(local, y) && p in Touched(c);
        TouchedIsNamed(y, c, p, names);
        SeparateLine(p, y.tree, names);
      }
    }
  }

  /** A network of growing peers, over a common history and set of names. */
  ghost predicate GrowingNetwork(net: seq<Peer>, common: set<Commit>, names: set<Path>) {
    Network(net) && Separate(names) && forall i :: 0 <= i < |net| ==> Growing(net[i].head, common, names)
  }

  lemma GrowingPull(x: Peer, y: Peer, git: Git, common: set<Commit>, names: set<Path>)
    requires HoldsHistory(x) && HoldsHistory(y) && Separate(names)
    requires Growing(x.head, common, names) && Growing(y.head, common, names)
    requires git.packSize(Whole(History(y.head))) <= MAX_PACK_BYTES
    ensures Well(PullFrom(x, y, git).1) && Growing(PullFrom(x, y, git).0.head, common, names)
  {
    if Diverged(x.head, y.head) {
      GrowingMergeFree(x.head.value, y.head.value, common, names);
      GrowingRebase(x.head.value, y.head.value, git, common, names);
    }
    SeparateLines(x.head, y.head, git, common, names);
    CleanPullWellExactly(x, y, git);
    CleanPullStaysClean(x, y, git);
    PullCases(x, y, git);
  }

  /** A schedule of pulls whose packs are not too large. */
  ghost predicate SmallExchanges(nets: seq<seq<Peer>>, pulls: seq<Exchange>) {
    && |nets| == |pulls| + 1
    && forall m :: 0 <= m < |pulls| ==> SmallExchange(nets[m], nets[m + 1], pulls[m])
  }

  ghost predicate SmallExchange(net: seq<Peer>, after: seq<Peer>, pull: Exchange) {
    && pull.x < |net| && pull.y < |net|
    && after == Pulling(net, pull.x, pull.y, pull.git).0
    && pull.git.packSize(Whole(History(net[pull.y].head))) <= MAX_PACK_BYTES
  }

  lemma GrowingExchange(net: seq<Peer>, after: seq<Peer>, pull: Exchange, common: set<Commit>, names: set<Path>)
    requires GrowingNetwork(net, common, names) && SmallExchange(net, after, pull)
    ensures Exchanged(net, after, pull) && GrowingNetwork(after, common, names)
  {
    GrowingPull(net[pull.x], net[pull.y], pull.git, common, names);
    ExchangeEffect(net, after, pull);
  }

  lemma {:induction false} GrowingSchedule(nets: seq<seq<Peer>>, pulls: seq<Exchange>, m: nat,
                                           common: set<Commit>, names: set<Path>)
    requires SmallExchanges(nets, pulls) && GrowingNetwork(nets[0], common, names) && m <= |pulls|
    ensures GrowingNetwork(nets[m], common, names)
  {
    if m > 0 {
      GrowingSchedule(nets, pulls, m - 1, common, names);
      GrowingExchangeAt(nets, pulls, m - 1, common, names);
    }
  }

  lemma GrowingExchangeAt(nets: seq<seq<Peer>>, pulls: seq<Exchange>, m: nat, common: set<Commit>, names: set<Path>)
    requires SmallExchanges(nets, pulls) && m < |pulls| && GrowingNetwork(nets[m], common, names)
    ensures Exchanged(nets[m], nets[m + 1], pulls[m]) && GrowingNetwork(nets[m + 1], common, names)
  {
    GrowingExchange(nets[m], nets[m + 1], pulls[m], common, names);
  }

  /** N clean peers whose commits beyond a common history only add or change
      entries, with packs under the size cap: nothing is rejected, nothing
      fails, and they converge in every schedule in which the lead passes down
      to the first peer and every peer pulls from it after that. */
  lemma GrowingPeersConverge(nets: seq<seq<Peer>>, pulls: seq<Exchange>, m: nat, t: nat, i: nat, j: nat,
                             common: set<Commit>, names: set<Path>)
    requires SmallExchanges(nets, pulls) && nets[0] != [] && GrowingNetwork(nets[0], common, names)
    requires m <= t <= |pulls| && Leader(|nets[0]|, pulls[..m]) == 0
    requires i < |nets[0]| && PulledFromFirst(pulls, i, m, t)
    requires j < |nets[0]| && PulledFromFirst(pulls, j, m, t)
    ensures |nets[t]| == |nets[0]| && nets[t][i].head == nets[t][j].head
  {
    forall k | 0 <= k < |pulls| ensures Exchanged(nets[k], nets[k + 1], pulls[k]) {
      GrowingSchedule(nets, pulls, k, common, names);
      GrowingExchangeAt(nets, pulls, k, common, names);
    }
    AnyScheduleConverges(nets, pulls, m, t, i, j);
  }
}
