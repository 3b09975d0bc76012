/** Traversal-safe relative paths and the `.gpg` naming convention. */
module RelPaths {
  import opened Options
  import opened Text

  predicate ValidPath(s: string) {
    && s != []
    && s[0] != '/' && s[|s| - 1] != '/'
    && '\0' !in s && '\\' !in s
    && forall segment :: segment in Split(s, '/') ==> segment !in {"", ".", ".."}
  }

  function Segments(p: string): seq<string> {
    Split(p, '/')
  }

  /** What precedes the last `/`. */
  function Parent(p: string): Option<string> {
    if p == [] then None
    else if p[|p| - 1] == '/' then Some(p[..|p| - 1])
    else Parent(p[..|p| - 1])
  }

  lemma {:induction false} ParentPrefix(p: string)
    ensures '/' !in p <==> Parent(p).None?
    ensures Parent(p).Some? ==>
              |Parent(p).value| < |p| && Parent(p).value + ['/'] <= p && '/' !in p[|Parent(p).value| + 1..]
  {
    if p != [] && p[|p| - 1] != '/' {
      ParentPrefix(p[..|p| - 1]);
      assert p == p[..|p| - 1] + [p[|p| - 1]];
    }
  }

  /** The parent drops exactly the last segment. */
  lemma ParentSegments(p: string)
    ensures Parent(p) == if |Segments(p)| == 1 then None else Some(Join(Segments(p)[..|Segments(p)| - 1], '/'))
  {
    ParentPrefix(p);
    if '/' in p {
      var head := Parent(p).value;
      var tail := p[|head| + 1..];
      assert p == head + ['/'] + tail;
      SplitAppend(head, tail, '/');
      SplitWithout(tail, '/');
      JoinSplit(head, '/');
      assert Segments(p)[..|Segments(p)| - 1] == Segments(head);
    } else {
      SplitWithout(p, '/');
    }
  }

  predicate PlainSegment(s: string) {
    s !in {"", ".", ".."} && '/' !in s && '\0' !in s && '\\' !in s
  }

  /** A path is valid exactly when it has only plain segments. */
  lemma {:induction false} ValidBySegments(s: string)
    ensures ValidPath(s) <==> forall segment :: segment in Segments(s) ==> PlainSegment(segment)
  {
    JoinSplit(s, '/');
    if ValidPath(s) {
      forall segment | segment in Segments(s) ensures PlainSegment(segment) {
        if '\0' in segment { SplitChars(s, '/', segment, '\0'); }
        if '\\' in segment { SplitChars(s, '/', segment, '\\'); }
      }
    } else if s == [] || s[0] == '/' || s[|s| - 1] == '/' {
      EdgeSegments(s);
    } else if '\0' in s {
      JoinChars(Segments(s), '\0');
    } else if '\\' in s {
      JoinChars(Segments(s), '\\');
    } else {
      var segment :| segment in Segments(s) && segment in {"", ".", ".."};
    }
  }

  /** A leading or trailing `/` makes an empty segment. */
  lemma {:induction false} EdgeSegments(s: string)
    requires s == [] || s[0] == '/' || s[|s| - 1] == '/'
    ensures "" in Segments(s)
  {
    if s != [] && s[|s| - 1] == '/' {
      assert s == s[..|s| - 1] + ['/'] + [];
      SplitAppend(s[..|s| - 1], [], '/');
      assert Segments(s)[|Segments(s)| - 1] == [];
    } else if s != [] {
      assert Segments(s)[0] == [];
    }
  }

  lemma {:induction false} JoinChars(parts: seq<string>, c: char)
    requires c != '/' && c in Join(parts, '/')
    ensures exists part :: part in parts && c in part
  {
    if |parts| > 1 && c !in parts[0] {
      JoinChars(parts[1..], c);
      var part :| part in parts[1..] && c in part;
    } else if parts != [] {
      assert parts[0] in parts;
    }
  }

  /** `RelPath::join`: the `.gpg-id` lookups of the resolver never fail. */
  lemma JoinValid(p: string, segment: string)
    requires ValidPath(p) && PlainSegment(segment)
    ensures ValidPath(p + "/" + segment)
  {
    ValidBySegments(p);
    SplitWithout(segment, '/');
    SplitAppend(p, segment, '/');
    assert p + "/" + segment == p + ['/'] + segment;
    ValidBySegments(p + "/" + segment);
  }

  lemma ParentValid(p: string)
    requires ValidPath(p) && Parent(p).Some?
    ensures ValidPath(Parent(p).value)
  {
    ParentPrefix(p);
    var head := Parent(p).value;
    ValidBySegments(p);
    assert p == head + ['/'] + p[|head| + 1..];
    SplitAppend(head, p[|head| + 1..], '/');
    ValidBySegments(head);
  }

  function Suffixed(parts: seq<string>, suffix: string): seq<string>
    requires parts != []
  {
    parts[..|parts| - 1] + [parts[|parts| - 1] + suffix]
  }

  lemma GluedThenSuffixed(c: char, rest: seq<string>, suffix: string)
    requires rest != []
    ensures var more := Suffixed(rest, suffix);
            Suffixed([[c] + rest[0]] + rest[1..], suffix) == [[c] + more[0]] + more[1..]
  {
    var left, more := [[c] + rest[0]] + rest[1..], Suffixed(rest, suffix);
    if |rest| == 1 {
      assert ([c] + rest[0]) + suffix == [c] + (rest[0] + suffix);
    } else {
      assert left[..|left| - 1] == [[c] + rest[0]] + rest[1..|rest| - 1];
      assert more[1..] == rest[1..|rest| - 1] + [rest[|rest| - 1] + suffix];
    }
  }

  lemma NewSegmentThenSuffixed(rest: seq<string>, suffix: string)
    requires rest != []
    ensures Suffixed([[]] + rest, suffix) == [[]] + Suffixed(rest, suffix)
  {
  }

  /** Appending a suffix to the last segment. */
  lemma {:induction false} SplitSuffix(p: string, suffix: string)
    requires '/' !in suffix
    ensures Segments(p + suffix) == Suffixed(Segments(p), suffix)
  {
    if p == [] {
      SplitWithout(suffix, '/');
      assert p + suffix == suffix;
    } else {
      assert (p + suffix)[1..] == p[1..] + suffix;
      SplitSuffix(p[1..], suffix);
      var rest := Segments(p[1..]);
      if p[0] != '/' {
        GluedThenSuffixed(p[0], rest, suffix);
      } else {
        NewSegmentThenSuffixed(rest, suffix);
      }
    }
  }

  // ----- entries and blobs ----------------------------------------------

  function EntryToBlob(entry: string): string {
    entry + ".gpg"
  }

  function BlobToEntry(blob: string): Option<string> {
    if EndsWith(blob, ".gpg") && ValidPath(blob[..|blob| - 4]) then Some(blob[..|blob| - 4]) else None
  }

  /** A suffix that is not all dots keeps a path valid, so the path an entry's
      blob is written to, and a slug with a number appended, always is. */
  lemma SuffixValid(p: string, suffix: string)
    requires ValidPath(p) && PlainSegment(suffix) && exists c :: c in suffix && c != '.'
    ensures ValidPath(p + suffix)
  {
    ValidBySegments(p);
    SplitSuffix(p, suffix);
    var parts := Segments(p);
    var last := parts[|parts| - 1];
    assert last in parts && PlainSegment(last);
    assert PlainSegment(last + suffix) by {
      var c :| c in suffix && c != '.';
      assert c in last + suffix;
    }
    ValidBySegments(p + suffix);
  }

  lemma EntryBlobRoundTrip(entry: string)
    ensures ValidPath(entry) ==> ValidPath(EntryToBlob(entry)) && BlobToEntry(EntryToBlob(entry)) == Some(entry)
    ensures forall blob :: BlobToEntry(blob) == Some(entry) ==> blob == EntryToBlob(entry)
  {
    assert EntryToBlob(entry)[..|entry|] == entry;
    if ValidPath(entry) {
      var suffix := ".gpg";
      assert suffix[1] == 'g' && suffix[1] in suffix;
      SuffixValid(entry, ".gpg");
    }
    forall blob | BlobToEntry(blob) == Some(entry) ensures blob == EntryToBlob(entry) {
      assert blob == blob[..|blob| - 4] + blob[|blob| - 4..];
    }
  }
}
