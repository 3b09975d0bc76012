/** Commits as content-addressed values.

    A git commit id is a hash of the commit's parents, tree and remaining
    header bytes.  Taking the hash to be collision free, the id and the content
    determine each other, so a commit is the inductive value itself: the
    ancestry relation is acyclic by construction and two commits are equal
    exactly when their ids are. */
module CommitGraph {
  import opened Options

  newtype Byte = b: int | 0 <= b < 256
  type Bytes = seq<Byte>
  type Path = string
  type Tree = map<Path, Bytes>

  /** `stamp` stands for author, committer, dates and message. */
  datatype Commit = Commit(parents: seq<Commit>, tree: Tree, stamp: nat)

  function At(t: Tree, p: Path): Option<Bytes> {
    if p in t then Some(t[p]) else None
  }

  /** Every commit reachable from `c`, itself included. */
  function Ancestors(c: Commit): set<Commit> {
    {c} + set p, a | p in c.parents && a in Ancestors(p) :: a
  }

  /** What an optional head reaches: nothing when the branch is unborn. */
  function History(head: Option<Commit>): set<Commit> {
    match head
    case None => {}
    case Some(c) => Ancestors(c)
  }

  /** An object database.  A commit can be there without its tree.  A tree is
      there when all its files are; one held in part is not. */
  datatype Objects = Objects(commits: set<Commit>, trees: set<Tree>) {
    function Plus(more: Objects): Objects {
      Objects(commits + more.commits, trees + more.trees)
    }

    /** The commits and the trees they record. */
    ghost predicate Hold(range: set<Commit>) {
      range <= commits && forall c :: c in range ==> c.tree in trees
    }
  }

  function Whole(range: set<Commit>): Objects {
    Objects(range, set c | c in range :: c.tree)
  }

  /** Holding a commit means holding its parents. */
  ghost predicate ParentClosed(s: set<Commit>) {
    forall c, p :: c in s && p in c.parents ==> p in s
  }

  lemma {:induction false} AncestorsTransitive(a: Commit, b: Commit)
    requires b in Ancestors(a)
    ensures Ancestors(b) <= Ancestors(a)
    decreases a
  {
    if a != b {
      var p :| p in a.parents && b in Ancestors(p);
      AncestorsTransitive(p, b);
    }
  }

  /** No commit is reachable from one of its own parents. */
  lemma {:induction false} Acyclic(c: Commit, p: Commit)
    requires p in c.parents
    ensures c !in Ancestors(p)
    decreases p
  {
    if c in Ancestors(p) && c != p {
      var q :| q in p.parents && c in Ancestors(q);
      AncestorsTransitive(q, c);
      Acyclic(p, q);
    }
  }

  lemma AncestryAntisymmetric(a: Commit, b: Commit)
    requires a in Ancestors(b) && b in Ancestors(a)
    ensures a == b
  {
    if a != b {
      var p :| p in a.parents && b in Ancestors(p);
      AncestorsTransitive(p, b);
      Acyclic(a, p);
    }
  }

  lemma HistoryParentClosed(head: Option<Commit>)
    ensures ParentClosed(History(head))
  {
    forall c, p | c in History(head) && p in c.parents ensures p in History(head) {
      AncestorsTransitive(head.value, c);
      assert p in Ancestors(p);
    }
  }

  /** A parent-closed set that holds a commit holds its whole history. */
  lemma {:induction false} ClosedHoldsHistory(c: Commit, s: set<Commit>)
    requires ParentClosed(s) && c in s
    ensures Ancestors(c) <= s
    decreases c
  {
    forall p | p in c.parents ensures Ancestors(p) <= s {
      ClosedHoldsHistory(p, s);
    }
  }
}
