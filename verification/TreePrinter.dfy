/** The tree listing of entry paths. */
module TreePrinter {
  import opened Options
  import opened Order
  import opened Text
  import opened RelPaths

  /** A node's children in key order: the first child's name, its own children,
      and the remaining children. */
  datatype Forest = Nil | Cons(name: string, child: Forest, rest: Forest)

  // ----- building -------------------------------------------------------

  function Insert(f: Forest, path: seq<string>): Forest
    decreases |path|, f
  {
    if path == [] then f
    else match f
      case Nil => Cons(path[0], Insert(Nil, path[1..]), Nil)
      case Cons(name, child, rest) =>
        if path[0] == name then Cons(name, Insert(child, path[1..]), rest)
        else if Less(path[0], name) then Cons(path[0], Insert(Nil, path[1..]), f)
        else Cons(name, child, Insert(rest, path))
  }

  function Build(entries: seq<string>): Forest {
    if entries == [] then Nil
    else Insert(Build(entries[..|entries| - 1]), Segments(entries[|entries| - 1]))
  }

  /** The path leads from the root to a node. */
  predicate Has(f: Forest, path: seq<string>) {
    path == [] || (f.Cons? && if path[0] == f.name then Has(f.child, path[1..]) else Has(f.rest, path))
  }

  /** Children are in strictly ascending order everywhere. */
  predicate Canonical(f: Forest) {
    f.Cons? ==> Canonical(f.child) && Canonical(f.rest) && (f.rest.Cons? ==> Less(f.name, f.rest.name))
  }

  lemma {:induction false} InsertCanonical(f: Forest, path: seq<string>)
    requires Canonical(f)
    ensures Canonical(Insert(f, path))
    ensures Insert(f, path).Cons? && path != [] ==>
              Insert(f, path).name == path[0] || (f.Cons? && Insert(f, path).name == f.name)
    decreases |path|, f
  {
    if path != [] {
      match f
      case Nil => InsertCanonical(Nil, path[1..]);
      case Cons(name, child, rest) =>
        LessTotal(path[0], name);
        InsertCanonical(child, path[1..]);
        InsertCanonical(Nil, path[1..]);
        InsertCanonical(rest, path);
    }
  }

  lemma {:induction false} AboveAll(f: Forest, low: string, path: seq<string>)
    requires Canonical(f) && path != [] && (f.Cons? ==> Less(low, f.name))
    requires path[0] == low || Less(path[0], low)
    ensures !Has(f, path)
  {
    if f.Cons? {
      if path[0] != low { LessTransitive(path[0], low, f.name); }
      LessTotal(path[0], f.name);
      AboveAll(f.rest, f.name, path);
    }
  }

  /** Inserting a path adds exactly its prefixes. */
  lemma {:induction false} InsertAdds(f: Forest, path: seq<string>, q: seq<string>)
    requires Canonical(f)
    ensures Has(Insert(f, path), q) <==> Has(f, q) || q <= path
    decreases |path|, f
  {
    if path != [] && q != [] {
      assert q <= path <==> q[0] == path[0] && q[1..] <= path[1..];
      match f
      case Nil => InsertAdds(Nil, path[1..], q[1..]);
      case Cons(name, child, rest) =>
        if path[0] == name {
          InsertAdds(child, path[1..], q[1..]);
        } else if Less(path[0], name) {
          InsertAdds(Nil, path[1..], q[1..]);
          if q[0] == path[0] { AboveAll(f, q[0], q); }
        } else {
          InsertAdds(rest, path, q);
        }
    }
  }

  ghost predicate PrefixOfSome(entries: seq<string>, q: seq<string>) {
    q == [] || exists i :: 0 <= i < |entries| && q <= Segments(entries[i])
  }

  /** The trie holds exactly the prefixes of the entries. */
  lemma {:induction false} BuildHas(entries: seq<string>, q: seq<string>)
    ensures Canonical(Build(entries))
    ensures Has(Build(entries), q) <==> PrefixOfSome(entries, q)
  {
    if entries != [] {
      var n := |entries| - 1;
      var init := entries[..n];
      BuildHas(init, q);
      InsertCanonical(Build(init), Segments(entries[n]));
      InsertAdds(Build(init), Segments(entries[n]), q);
      if PrefixOfSome(init, q) && q != [] {
        var i :| 0 <= i < n && q <= Segments(init[i]);
        assert q <= Segments(entries[i]);
      }
      if PrefixOfSome(entries, q) && q != [] && !(q <= Segments(entries[n])) {
        var i :| 0 <= i < |entries| && q <= Segments(entries[i]);
        assert q <= Segments(init[i]);
      }
    }
  }

  /** A canonical trie is determined by the paths it holds. */
  lemma {:induction false} CanonicalUnique(f: Forest, g: Forest)
    requires Canonical(f) && Canonical(g)
    requires forall q :: Has(f, q) <==> Has(g, q)
    ensures f == g
  {
    if f.Nil? || g.Nil? {
      if g.Cons? { assert Has(g, [g.name]); }
      if f.Cons? { assert Has(f, [f.name]); }
    } else {
      SameFirst(f, g);
      forall q ensures Has(f.child, q) <==> Has(g.child, q) {
        assert ([f.name] + q)[1..] == q;
        assert Has(f, [f.name] + q) <==> Has(g, [f.name] + q);
      }
      forall q ensures Has(f.rest, q) <==> Has(g.rest, q) {
        if q != [] && q[0] == f.name {
          AboveAll(f.rest, f.name, q);
          AboveAll(g.rest, g.name, q);
        } else if q != [] {
          assert Has(f, q) <==> Has(g, q);
        }
      }
      CanonicalUnique(f.child, g.child);
      CanonicalUnique(f.rest, g.rest);
    }
  }

  lemma SameFirst(f: Forest, g: Forest)
    requires Canonical(f) && Canonical(g) && f.Cons? && g.Cons?
    requires forall q :: Has(f, q) <==> Has(g, q)
    ensures f.name == g.name
  {
    LessTotal(f.name, g.name);
    assert Has(f, [f.name]) && Has(g, [g.name]);
    if Less(f.name, g.name) { AboveAll(g, f.name, [f.name]); }
    if Less(g.name, f.name) { AboveAll(f, g.name, [g.name]); }
  }

  // ----- printing -------------------------------------------------------

  function Connector(last: bool): string {
    if last then "└── " else "├── "
  }

  function Indent(last: bool): string {
    if last then "    " else "│   "
  }

  function NodeLines(f: Forest, prefix: string): seq<string> {
    match f
    case Nil => []
    case Cons(name, child, rest) =>
      [prefix + Connector(rest.Nil?) + name] + NodeLines(child, prefix + Indent(rest.Nil?)) + NodeLines(rest, prefix)
  }

  function Unlines(lines: seq<string>): string {
    if lines == [] then [] else lines[0] + ['\n'] + Unlines(lines[1..])
  }

  function Rendered(entries: seq<string>, header: string): string {
    header + ['\n'] + Unlines(NodeLines(Build(entries), ""))
  }

  lemma {:induction false} UnlinesAppend(a: seq<string>, b: seq<string>)
    ensures Unlines(a + b) == Unlines(a) + Unlines(b)
  {
    if a == [] {
      assert a + b == b;
    } else {
      assert (a + b)[1..] == a[1..] + b;
      UnlinesAppend(a[1..], b);
    }
  }

  lemma RenderStep(out: string, f: Forest, prefix: string)
    requires f.Cons?
    ensures out + Unlines(NodeLines(f, prefix)) ==
              out + (prefix + Connector(f.rest.Nil?) + f.name) + ['\n']
              + Unlines(NodeLines(f.child, prefix + Indent(f.rest.Nil?)))
              + Unlines(NodeLines(f.rest, prefix))
  {
    var line := prefix + Connector(f.rest.Nil?) + f.name;
    var lines := NodeLines(f.child, prefix + Indent(f.rest.Nil?));
    assert ([line] + lines)[1..] == lines;
    UnlinesAppend([line] + lines, NodeLines(f.rest, prefix));
    Regroup(out, line, ['\n'], Unlines(lines));
    Associate(out, line + ['\n'] + Unlines(lines), Unlines(NodeLines(f.rest, prefix)));
  }

  lemma Associate(a: string, b: string, c: string)
    ensures a + (b + c) == a + b + c
  {
  }

  method RenderNode(node: Forest, prefix: string, out0: string) returns (out: string)
    ensures out == out0 + Unlines(NodeLines(node, prefix))
    decreases node
  {
    out := out0;
    var rest := node;
    while rest.Cons?
      invariant rest == node || rest < node
      invariant out + Unlines(NodeLines(rest, prefix)) == out0 + Unlines(NodeLines(node, prefix))
      decreases rest
    {
      RenderStep(out, rest, prefix);
      out := out + (prefix + Connector(rest.rest.Nil?) + rest.name) + ['\n'];
      out := RenderNode(rest.child, prefix + Indent(rest.rest.Nil?), out);
      rest := rest.rest;
    }
  }

  method Render(entries: seq<string>, header: string) returns (out: string)
    ensures out == Rendered(entries, header)
  {
    var root := Nil;
    for i := 0 to |entries|
      invariant root == Build(entries[..i])
    {
      assert entries[..i + 1][..i] == entries[..i];
      root := Insert(root, Segments(entries[i]));
    }
    assert entries[..|entries|] == entries;
    out := header;
    out := out + "\n";
    out := RenderNode(root, "", out);
  }

  // ----- reading it back --------------------------------------------------

  lemma {:induction false} LinesStart(f: Forest, prefix: string)
    ensures forall l :: l in NodeLines(f, prefix) ==> prefix <= l
    ensures f.Cons? ==> |NodeLines(f, prefix)[0]| > |prefix| && NodeLines(f, prefix)[0][|prefix|] in {'└', '├'}
  {
    if f.Cons? {
      var deeper := prefix + Indent(f.rest.Nil?);
      LinesStart(f.child, deeper);
      LinesStart(f.rest, prefix);
      forall l | l in NodeLines(f.child, deeper) ensures prefix <= l {
        assert deeper <= l;
      }
    }
  }

  lemma ChildLineStart(f: Forest, prefix: string, last: bool, l: string)
    requires l in NodeLines(f, prefix + Indent(last))
    ensures |l| > |prefix| && l[|prefix|] in {' ', '│'}
  {
    var deeper := prefix + Indent(last);
    LinesStart(f, deeper);
    assert deeper <= l && l[|prefix|] == deeper[|prefix|];
  }

  /** The lines of the first child end where the next sibling's line starts. */
  lemma ChildBlockLength(f: Forest, g: Forest, prefix: string, last: bool, a: Forest, b: Forest)
    requires NodeLines(a, prefix + Indent(last)) + NodeLines(f, prefix) == NodeLines(b, prefix + Indent(last)) + NodeLines(g, prefix)
    ensures |NodeLines(a, prefix + Indent(last))| >= |NodeLines(b, prefix + Indent(last))|
  {
    var left, right := NodeLines(a, prefix + Indent(last)), NodeLines(b, prefix + Indent(last));
    var whole := left + NodeLines(f, prefix);
    if |left| < |right| {
      assert whole[|left|] == right[|left|];
      ChildLineStart(b, prefix, last, right[|left|]);
      LinesStart(f, prefix);
    }
  }

  lemma NodeLineInjective(prefix: string, last: bool, name: string, last': bool, name': string)
    requires prefix + Connector(last) + name == prefix + Connector(last') + name'
    ensures last == last' && name == name'
  {
    var line := prefix + Connector(last) + name;
    assert line[|prefix|] == Connector(last)[0] && line[|prefix|] == Connector(last')[0];
    assert name == line[|prefix| + 4..] && name' == line[|prefix| + 4..];
  }

  lemma SameSplit(a: seq<string>, b: seq<string>, c: seq<string>, d: seq<string>)
    requires a + b == c + d && |a| == |c|
    ensures a == c && b == d
  {
    assert a == (a + b)[..|a|] && c == (c + d)[..|c|];
    assert b == (a + b)[|a|..] && d == (c + d)[|c|..];
  }

  lemma HeadAndTail(x: string, a: seq<string>, b: seq<string>)
    ensures ([x] + a + b)[0] == x && ([x] + a + b)[1..] == a + b
  {
  }

  lemma NodeLinesParts(f: Forest, prefix: string)
    requires f.Cons?
    ensures NodeLines(f, prefix) != []
    ensures NodeLines(f, prefix)[0] == prefix + Connector(f.rest.Nil?) + f.name
    ensures NodeLines(f, prefix)[1..] == NodeLines(f.child, prefix + Indent(f.rest.Nil?)) + NodeLines(f.rest, prefix)
  {
    HeadAndTail(prefix + Connector(f.rest.Nil?) + f.name,
                NodeLines(f.child, prefix + Indent(f.rest.Nil?)), NodeLines(f.rest, prefix));
  }

  /** Equal listings have the same first child, and the same lines after it. */
  lemma SameFirstLine(f: Forest, g: Forest, prefix: string)
    requires f.Cons? && g.Cons? && NodeLines(f, prefix) == NodeLines(g, prefix)
    ensures f.rest.Nil? == g.rest.Nil? && f.name == g.name
    ensures NodeLines(f.child, prefix + Indent(f.rest.Nil?)) + NodeLines(f.rest, prefix) ==
            NodeLines(g.child, prefix + Indent(f.rest.Nil?)) + NodeLines(g.rest, prefix)
  {
    NodeLinesParts(f, prefix);
    NodeLinesParts(g, prefix);
    NodeLineInjective(prefix, f.rest.Nil?, f.name, g.rest.Nil?, g.name);
  }

  /** Different tries print different lines. */
  lemma {:induction false} LinesInjective(f: Forest, g: Forest, prefix: string)
    requires NodeLines(f, prefix) == NodeLines(g, prefix)
    ensures f == g
  {
    if f.Cons? && g.Cons? {
      SameFirstLine(f, g, prefix);
      var last := f.rest.Nil?;
      ChildBlockLength(f.rest, g.rest, prefix, last, f.child, g.child);
      ChildBlockLength(g.rest, f.rest, prefix, last, g.child, f.child);
      SameSplit(NodeLines(f.child, prefix + Indent(last)), NodeLines(f.rest, prefix),
                NodeLines(g.child, prefix + Indent(last)), NodeLines(g.rest, prefix));
      LinesInjective(f.child, g.child, prefix + Indent(last));
      LinesInjective(f.rest, g.rest, prefix);
    }
  }

  predicate NoNewlines(f: Forest) {
    f.Cons? ==> '\n' !in f.name && NoNewlines(f.child) && NoNewlines(f.rest)
  }

  lemma {:induction false} InsertNoNewlines(f: Forest, path: seq<string>)
    requires NoNewlines(f) && forall s :: s in path ==> '\n' !in s
    ensures NoNewlines(Insert(f, path))
    decreases |path|, f
  {
    if path != [] {
      match f
      case Nil => InsertNoNewlines(Nil, path[1..]);
      case Cons(_, child, rest) =>
        InsertNoNewlines(child, path[1..]);
        InsertNoNewlines(Nil, path[1..]);
        InsertNoNewlines(rest, path);
    }
  }

  lemma {:induction false} BuildNoNewlines(entries: seq<string>)
    requires forall e :: e in entries ==> '\n' !in e
    ensures NoNewlines(Build(entries))
  {
    if entries != [] {
      var init, last := entries[..|entries| - 1], entries[|entries| - 1];
      assert last in entries && forall e :: e in init ==> e in entries;
      BuildNoNewlines(init);
      forall s | s in Segments(last) ensures '\n' !in s {
        if '\n' in s { SplitChars(last, '/', s, '\n'); }
      }
      InsertNoNewlines(Build(init), Segments(last));
    }
  }

  lemma {:induction false} LinesNoNewlines(f: Forest, prefix: string)
    requires NoNewlines(f) && '\n' !in prefix
    ensures forall l :: l in NodeLines(f, prefix) ==> '\n' !in l
  {
    if f.Cons? {
      LinesNoNewlines(f.child, prefix + Indent(f.rest.Nil?));
      LinesNoNewlines(f.rest, prefix);
    }
  }

  lemma {:induction false} UnlinesSplit(lines: seq<string>)
    requires forall l :: l in lines ==> '\n' !in l
    ensures Split(Unlines(lines), '\n') == lines + [[]]
  {
    if lines != [] {
      assert lines[0] in lines && forall l :: l in lines[1..] ==> l in lines;
      UnlinesSplit(lines[1..]);
      SplitFirst(lines[0], Unlines(lines[1..]), '\n');
    }
  }

  /** Without newlines in the paths, two listings under the same header are
      equal exactly when the two inputs have the same path prefixes: order and
      duplicates never matter, and the text determines the trie. */
  lemma RenderedExactly(a: seq<string>, b: seq<string>, header: string)
    requires forall e :: e in a + b ==> '\n' !in e
    ensures Rendered(a, header) == Rendered(b, header) <==> forall q :: PrefixOfSome(a, q) <==> PrefixOfSome(b, q)
  {
    var f, g := Build(a), Build(b);
    BuildHas(a, []);
    BuildHas(b, []);
    forall q
      ensures Has(f, q) <==> PrefixOfSome(a, q)
      ensures Has(g, q) <==> PrefixOfSome(b, q)
    {
      BuildHas(a, q);
      BuildHas(b, q);
    }
    if forall q :: PrefixOfSome(a, q) <==> PrefixOfSome(b, q) {
      CanonicalUnique(f, g);
    } else if Rendered(a, header) == Rendered(b, header) {
      RenderedDetermines(a, b, header);
    }
  }

  lemma RenderedDetermines(a: seq<string>, b: seq<string>, header: string)
    requires forall e :: e in a + b ==> '\n' !in e
    requires Rendered(a, header) == Rendered(b, header)
    ensures Build(a) == Build(b)
  {
    var left, right := NodeLines(Build(a), ""), NodeLines(Build(b), "");
    assert Unlines(left) == Rendered(a, header)[|header| + 1..];
    assert Unlines(right) == Rendered(b, header)[|header| + 1..];
    BuildNoNewlines(a);
    BuildNoNewlines(b);
    LinesNoNewlines(Build(a), "");
    LinesNoNewlines(Build(b), "");
    UnlinesSplit(left);
    UnlinesSplit(right);
    assert left == (left + [[]])[..|left + [[]]| - 1] && right == (right + [[]])[..|right + [[]]| - 1];
    LinesInjective(Build(a), Build(b), "");
  }

  // ----- which line is whose ----------------------------------------------

  /** No later sibling: no greater name is a child of the same node. */
  ghost predicate IsLast(f: Forest, name: string) {
    forall other :: Less(name, other) ==> !Has(f, [other])
  }

  function Below(f: Forest, name: string): Forest {
    match f
    case Nil => Nil
    case Cons(first, child, rest) => if first == name then child else Below(rest, name)
  }

  /** The line of a path: under each node on the way a bar, or blanks if that
      node is the last of its siblings, and then the node's own mark and name. */
  ghost function LineOf(f: Forest, path: seq<string>): string
    requires path != []
    decreases |path|
  {
    var last := IsLast(f, path[0]);
    if |path| == 1 then (if last then "└── " else "├── ") + path[0]
    else (if last then "    " else "│   ") + LineOf(Below(f, path[0]), path[1..])
  }

  lemma {:induction false} BelowHas(f: Forest, name: string, q: seq<string>)
    requires Has(f, [name])
    ensures Has(Below(f, name), q) <==> Has(f, [name] + q)
  {
    assert ([name] + q)[1..] == q && [name][1..] == [];
    if f.Cons? && f.name != name { BelowHas(f.rest, name, q); }
  }

  lemma RestIsLast(f: Forest, name: string)
    requires Canonical(f) && f.Cons? && name != f.name && Has(f, [name])
    ensures IsLast(f, name) <==> IsLast(f.rest, name)
    ensures Has(f.rest, [name])
  {
    assert Has(f.rest, [name]);
    if Less(name, f.name) { AboveAll(f.rest, f.name, [name]); }
    LessTotal(name, f.name);
    forall other | Less(name, other) ensures Has(f, [other]) <==> Has(f.rest, [other]) {
      LessTotal(name, other);
    }
  }

  lemma FirstIsLast(f: Forest)
    requires Canonical(f) && f.Cons?
    ensures IsLast(f, f.name) <==> f.rest.Nil?
  {
    if f.rest.Cons? {
      LessTotal(f.name, f.rest.name);
      assert [f.rest.name][1..] == [];
      assert Has(f, [f.rest.name]);
    } else {
      forall other | Less(f.name, other) ensures !Has(f, [other]) {
        LessTotal(f.name, other);
      }
    }
  }

  /** Every path of the trie has its line in the listing. */
  lemma {:induction false} ListsEveryPath(f: Forest, prefix: string, path: seq<string>)
    requires Canonical(f) && path != [] && Has(f, path)
    ensures prefix + LineOf(f, path) in NodeLines(f, prefix)
    decreases f
  {
    var deeper := prefix + Indent(f.rest.Nil?);
    if path[0] != f.name {
      ListsEveryPath(f.rest, prefix, path);
      LineOfRest(f, path);
    } else if |path| > 1 {
      ListsEveryPath(f.child, deeper, path[1..]);
      LineOfChild(f, prefix, path);
    } else {
      FirstIsLast(f);
    }
    LinesOf(f, prefix, prefix + LineOf(f, path));
  }

  /** The lines of a forest are its first node's, that node's children's and
      those of the other nodes. */
  lemma LinesOf(f: Forest, prefix: string, line: string)
    requires f.Cons?
    ensures line in NodeLines(f, prefix) <==>
            || line == prefix + (Connector(f.rest.Nil?) + f.name)
            || line in NodeLines(f.child, prefix + Indent(f.rest.Nil?))
            || line in NodeLines(f.rest, prefix)
  {
    assert prefix + (Connector(f.rest.Nil?) + f.name) == prefix + Connector(f.rest.Nil?) + f.name;
    InParts(line, prefix + Connector(f.rest.Nil?) + f.name,
            NodeLines(f.child, prefix + Indent(f.rest.Nil?)), NodeLines(f.rest, prefix));
  }

  lemma InParts<T>(x: T, first: T, mid: seq<T>, end: seq<T>)
    ensures x in [first] + mid + end <==> x == first || x in mid || x in end
  {
  }

  lemma LineOfChild(f: Forest, prefix: string, path: seq<string>)
    requires Canonical(f) && f.Cons? && |path| > 1 && path[0] == f.name
    ensures prefix + LineOf(f, path) == prefix + Indent(f.rest.Nil?) + LineOf(f.child, path[1..])
  {
    FirstIsLast(f);
  }

  lemma LineOfRest(f: Forest, path: seq<string>)
    requires Canonical(f) && f.Cons? && path != [] && path[0] != f.name && Has(f, path)
    ensures LineOf(f, path) == LineOf(f.rest, path)
  {
    PrefixHas(f, path);
    RestIsLast(f, path[0]);
  }

  lemma {:induction false} PrefixHas(f: Forest, path: seq<string>)
    requires path != [] && Has(f, path)
    ensures Has(f, [path[0]])
  {
    assert [path[0]][1..] == [];
    if path[0] != f.name { PrefixHas(f.rest, path); }
  }

  /** A listing is its header and one line for each path there is, and so in
      particular for each entry. */
  lemma ListsEntries(entries: seq<string>, header: string, i: nat, n: nat)
    requires i < |entries| && 1 <= n <= |Segments(entries[i])|
    ensures LineOf(Build(entries), Segments(entries[i])[..n]) in NodeLines(Build(entries), "")
    ensures Rendered(entries, header) == header + ['\n'] + Unlines(NodeLines(Build(entries), ""))
  {
    var path := Segments(entries[i])[..n];
    BuildHas(entries, path);
    ListsEveryPath(Build(entries), "", path);
    assert "" + LineOf(Build(entries), path) == LineOf(Build(entries), path);
  }
}
