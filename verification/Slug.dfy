/** Canonical entry paths for imported names. */
module Slug {
  import opened Options
  import opened Text
  import opened RelPaths

  predicate IsSlugChar(c: char) {
    'a' <= c <= 'z' || '0' <= c <= '9' || c in {'.', '_', '-'}
  }

  /** Lowercase, keep the alphabet, whitespace to `-`, drop the rest. */
  function MapChar(c: char): string {
    if 'A' <= c <= 'Z' || 'a' <= c <= 'z' || '0' <= c <= '9' then [LowerChar(c)]
    else if c in {'.', '_', '-', '/'} then [c]
    else if IsWhitespace(c) then ['-']
    else []
  }

  function MapChars(s: string): string {
    if s == [] then [] else MapChars(s[..|s| - 1]) + MapChar(s[|s| - 1])
  }

  /** Collapse every run of dashes to one. */
  function CollapseDashes(s: string): string {
    if s == [] then [] else
      var init, last := s[..|s| - 1], s[|s| - 1];
      if last == '-' && init != [] && init[|init| - 1] == '-' then CollapseDashes(init)
      else CollapseDashes(init) + [last]
  }

  function TrimDashes(s: string): string {
    if s != [] && s[0] == '-' then TrimDashes(s[1..])
    else if s != [] && s[|s| - 1] == '-' then TrimDashes(s[..|s| - 1])
    else s
  }

  function Normalise(segment: string): string {
    TrimDashes(CollapseDashes(segment))
  }

  /** The normalised segments that are not empty. */
  function NormaliseAll(segments: seq<string>): seq<string> {
    if segments == [] then [] else
      var last := Normalise(segments[|segments| - 1]);
      NormaliseAll(segments[..|segments| - 1]) + if last == [] then [] else [last]
  }

  function SlugSegments(s: string): seq<string> {
    NormaliseAll(Split(MapChars(s), '/'))
  }

  function SlugPath(s: string): string {
    Join(SlugSegments(s), '/')
  }

  method ComputeSlug(s: string) returns (slug: string)
    ensures slug == SlugPath(s)
  {
    var buf := "";
    for i := 0 to |s|
      invariant buf == MapChars(s[..i])
    {
      assert s[..i + 1][..i] == s[..i];
      buf := buf + MapChar(s[i]);
    }
    assert s[..|s|] == s;
    var parts := Split(buf, '/');
    var segments := [];
    for i := 0 to |parts|
      invariant segments == NormaliseAll(parts[..i])
    {
      assert parts[..i + 1][..i] == parts[..i];
      var segment := parts[i];
      var normed := "";
      var lastDash := false;
      for j := 0 to |segment|
        invariant normed == CollapseDashes(segment[..j])
        invariant lastDash <==> j > 0 && segment[j - 1] == '-'
      {
        assert segment[..j + 1][..j] == segment[..j];
        if !(segment[j] == '-' && lastDash) {
          normed := normed + [segment[j]];
        }
        lastDash := segment[j] == '-';
      }
      assert segment[..|segment|] == segment;
      var trimmed := TrimDashes(normed);
      if trimmed != [] { segments := segments + [trimmed]; }
    }
    assert parts[..|parts|] == parts;
    slug := Join(segments, '/');
  }

  // ----- what a slug looks like -----------------------------------------

  /** A segment the slugger leaves alone. */
  ghost predicate Normal(s: string) {
    && s != [] && s[0] != '-' && s[|s| - 1] != '-'
    && (forall c :: c in s ==> IsSlugChar(c))
    && forall i :: 0 < i < |s| ==> !(s[i - 1] == '-' && s[i] == '-')
  }

  lemma {:induction false} MapCharsAlphabet(s: string)
    ensures forall c :: c in MapChars(s) ==> IsSlugChar(c) || c == '/'
  {
    if s != [] { MapCharsAlphabet(s[..|s| - 1]); }
  }

  lemma {:induction false} MapCharsAppend(a: string, b: string)
    ensures MapChars(a + b) == MapChars(a) + MapChars(b)
  {
    if b == [] {
      assert a + b == a;
    } else {
      assert (a + b)[..|a + b| - 1] == a + b[..|b| - 1];
      MapCharsAppend(a, b[..|b| - 1]);
    }
  }

  lemma MapCharFixed(c: char)
    requires IsSlugChar(c) || c == '/'
    ensures MapChar(c) == [c]
  {
  }

  lemma {:induction false} MapCharsFixed(s: string)
    requires forall c :: c in s ==> IsSlugChar(c) || c == '/'
    ensures MapChars(s) == s
  {
    if s != [] {
      var init, last := s[..|s| - 1], s[|s| - 1];
      forall c | c in init ensures IsSlugChar(c) || c == '/' { assert c in s; }
      MapCharsFixed(init);
      assert last in s;
      MapCharFixed(last);
      assert s == init + [last];
    }
  }

  lemma {:induction false} CollapseShape(s: string)
    ensures var r := CollapseDashes(s);
            && (forall c :: c in r ==> c in s)
            && (s == [] <==> r == [])
            && (s != [] ==> r[|r| - 1] == s[|s| - 1])
            && forall i :: 0 < i < |r| ==> !(r[i - 1] == '-' && r[i] == '-')
  {
    if s != [] { CollapseShape(s[..|s| - 1]); }
  }

  lemma {:induction false} CollapseFixed(s: string)
    requires forall i :: 0 < i < |s| ==> !(s[i - 1] == '-' && s[i] == '-')
    ensures CollapseDashes(s) == s
  {
    if s != [] { CollapseFixed(s[..|s| - 1]); }
  }

  lemma {:induction false} TrimDashesShape(s: string)
    requires forall i :: 0 < i < |s| ==> !(s[i - 1] == '-' && s[i] == '-')
    ensures var r := TrimDashes(s);
            && (forall c :: c in r ==> c in s)
            && (r != [] ==> r[0] != '-' && r[|r| - 1] != '-')
            && forall i :: 0 < i < |r| ==> !(r[i - 1] == '-' && r[i] == '-')
    decreases |s|
  {
    if s != [] && s[0] == '-' {
      TrimDashesShape(s[1..]);
    } else if s != [] && s[|s| - 1] == '-' {
      TrimDashesShape(s[..|s| - 1]);
    }
  }

  lemma NormaliseShape(s: string)
    requires forall c :: c in s ==> IsSlugChar(c)
    ensures Normalise(s) == [] || Normal(Normalise(s))
  {
    CollapseShape(s);
    TrimDashesShape(CollapseDashes(s));
  }

  lemma NormaliseFixed(s: string)
    requires Normal(s)
    ensures Normalise(s) == s
  {
    CollapseFixed(s);
  }

  lemma {:induction false} NormaliseAllShape(segments: seq<string>)
    requires forall s, c :: s in segments && c in s ==> IsSlugChar(c)
    ensures forall s :: s in NormaliseAll(segments) ==> Normal(s)
  {
    if segments != [] {
      var init, last := segments[..|segments| - 1], segments[|segments| - 1];
      assert last in segments && forall s :: s in init ==> s in segments;
      NormaliseAllShape(init);
      NormaliseShape(last);
    }
  }

  lemma {:induction false} NormaliseAllFixed(segments: seq<string>)
    requires forall s :: s in segments ==> Normal(s)
    ensures NormaliseAll(segments) == segments
  {
    if segments != [] {
      var init, last := segments[..|segments| - 1], segments[|segments| - 1];
      forall s | s in init ensures Normal(s) { assert s in segments; }
      NormaliseAllFixed(init);
      assert Normal(last) by { assert last in segments; }
      NormaliseFixed(last);
      assert segments == init + [last];
    }
  }

  lemma {:induction false} NormaliseAllAppend(a: seq<string>, b: seq<string>)
    ensures NormaliseAll(a + b) == NormaliseAll(a) + NormaliseAll(b)
  {
    if b == [] {
      assert a + b == a;
    } else {
      assert (a + b)[..|a + b| - 1] == a + b[..|b| - 1];
      NormaliseAllAppend(a, b[..|b| - 1]);
    }
  }

  lemma SlugSegmentsNormal(s: string)
    ensures forall segment :: segment in SlugSegments(s) ==> Normal(segment)
  {
    var buf := MapChars(s);
    MapCharsAlphabet(s);
    JoinSplit(buf, '/');
    forall part, c | part in Split(buf, '/') && c in part ensures IsSlugChar(c) {
      SplitChars(buf, '/', part, c);
    }
    NormaliseAllShape(Split(buf, '/'));
  }

  lemma {:induction false} JoinAlphabet(segments: seq<string>)
    requires forall segment :: segment in segments ==> Normal(segment)
    ensures forall c :: c in Join(segments, '/') ==> IsSlugChar(c) || c == '/'
  {
    if |segments| > 1 {
      assert segments[0] in segments && forall s :: s in segments[1..] ==> s in segments;
      JoinAlphabet(segments[1..]);
    } else if segments != [] {
      assert segments[0] in segments;
    }
  }

  /** The segments of a slug are the slug's segments. */
  lemma SlugOfSegments(segments: seq<string>)
    requires forall segment :: segment in segments ==> Normal(segment)
    ensures SlugSegments(Join(segments, '/')) == segments
  {
    JoinAlphabet(segments);
    MapCharsFixed(Join(segments, '/'));
    if segments == [] {
      assert Split([], '/') == [[]];
      assert NormaliseAll([[]]) == NormaliseAll([[]][..0]) + [];
    } else {
      SplitJoin(segments, '/');
      NormaliseAllFixed(segments);
    }
  }

  /** Slugging a slug changes nothing. */
  lemma SlugIdempotent(s: string)
    ensures SlugPath(SlugPath(s)) == SlugPath(s)
  {
    SlugSegmentsNormal(s);
    SlugOfSegments(SlugSegments(s));
  }

  lemma SlugSegmentsAppend(a: string, b: string)
    ensures SlugSegments(a + ['/'] + b) == SlugSegments(a) + SlugSegments(b)
  {
    MapCharsAppend(a + ['/'], b);
    MapCharsAppend(a, ['/']);
    assert MapChars(['/']) == ['/'] by { assert ['/'][..0] == []; }
    SplitAppend(MapChars(a), MapChars(b), '/');
    NormaliseAllAppend(Split(MapChars(a), '/'), Split(MapChars(b), '/'));
  }

  function Slugs(parts: seq<string>): seq<string> {
    if parts == [] then [] else
      (if SlugPath(parts[0]) == [] then [] else [SlugPath(parts[0])]) + Slugs(parts[1..])
  }

  function AllSegments(parts: seq<string>): seq<string> {
    if parts == [] then [] else SlugSegments(parts[0]) + AllSegments(parts[1..])
  }

  lemma {:induction false} JoinAppend(a: seq<string>, b: seq<string>)
    ensures Join(a + b, '/') == if a == [] then Join(b, '/') else if b == [] then Join(a, '/')
                                else Join(a, '/') + ['/'] + Join(b, '/')
  {
    if a == [] {
      assert a + b == b;
    } else if b == [] {
      assert a + b == a;
    } else if |a| == 1 {
      assert (a + b)[1..] == b;
    } else {
      assert (a + b)[1..] == a[1..] + b;
      JoinAppend(a[1..], b);
      Regroup(a[0], ['/'], Join(a[1..], '/'), ['/'] + Join(b, '/'));
    }
  }

  lemma SlugEmptyExactly(s: string)
    ensures SlugPath(s) == [] <==> SlugSegments(s) == []
  {
    SlugSegmentsNormal(s);
    if SlugSegments(s) != [] {
      assert SlugSegments(s)[0] in SlugSegments(s);
    }
  }

  lemma {:induction false} SlugsJoin(parts: seq<string>)
    ensures Join(Slugs(parts), '/') == Join(AllSegments(parts), '/')
    ensures Slugs(parts) == [] <==> AllSegments(parts) == []
  {
    if parts != [] {
      SlugsJoin(parts[1..]);
      SlugEmptyExactly(parts[0]);
      JoinAppend(SlugSegments(parts[0]), AllSegments(parts[1..]));
      JoinAppend(if SlugPath(parts[0]) == [] then [] else [SlugPath(parts[0])], Slugs(parts[1..]));
    }
  }

  lemma {:induction false} SlugSegmentsOfJoin(parts: seq<string>)
    ensures SlugSegments(Join(parts, '/')) == AllSegments(parts)
  {
    if parts == [] {
      SlugOfSegments([]);
    } else if |parts| == 1 {
      assert AllSegments(parts[1..]) == [];
    } else {
      SlugSegmentsOfJoin(parts[1..]);
      SlugSegmentsAppend(parts[0], Join(parts[1..], '/'));
    }
  }

  /** Slugging a `/`-join is joining the slugs that are not empty. */
  lemma SlugOfJoin(parts: seq<string>)
    ensures SlugPath(Join(parts, '/')) == Join(Slugs(parts), '/')
  {
    SlugSegmentsOfJoin(parts);
    SlugsJoin(parts);
  }

  lemma NormalIsPlain(s: string)
    requires Normal(s)
    ensures PlainSegment(s) <==> s !in {".", ".."}
  {
    assert !IsSlugChar('/') && !IsSlugChar('\0') && !IsSlugChar('\\');
  }

  lemma SlugValidBySegments(s: string)
    requires SlugPath(s) != []
    ensures ValidPath(SlugPath(s)) <==> "." !in SlugSegments(s) && ".." !in SlugSegments(s)
  {
    SlugEmptyExactly(s);
    SlugSegmentsNormal(s);
    forall segment | segment in SlugSegments(s) ensures '/' !in segment {
      assert !IsSlugChar('/');
    }
    SplitJoin(SlugSegments(s), '/');
    ValidBySegments(SlugPath(s));
    forall segment | segment in SlugSegments(s) ensures PlainSegment(segment) <==> segment !in {".", ".."} {
      NormalIsPlain(segment);
    }
  }

  lemma {:induction false} MapCharsWithout(s: string)
    requires '/' !in s
    ensures '/' !in MapChars(s)
  {
    if s != [] { MapCharsWithout(s[..|s| - 1]); }
  }

  lemma OnePartSegments(part: string)
    requires '/' !in part
    ensures SlugSegments(part) == if SlugPath(part) == [] then [] else [SlugPath(part)]
  {
    MapCharsWithout(part);
    SplitWithout(MapChars(part), '/');
    assert [MapChars(part)][..0] == [];
  }

  lemma {:induction false} SegmentOfSomePart(parts: seq<string>, segment: string)
    requires segment != [] && forall part :: part in parts ==> '/' !in part
    ensures segment in AllSegments(parts) <==> exists part :: part in parts && SlugPath(part) == segment
  {
    if parts != [] {
      OnePartSegments(parts[0]);
      SegmentOfSomePart(parts[1..], segment);
      assert parts == [parts[0]] + parts[1..];
    }
  }

  /** Some part between the input's slashes slugs to `.` or `..`. */
  ghost predicate HasDotPart(s: string) {
    exists part :: part in Split(s, '/') && SlugPath(part) in {".", ".."}
  }

  lemma DotPartExactly(s: string)
    ensures HasDotPart(s) <==> "." in SlugSegments(s) || ".." in SlugSegments(s)
  {
    var parts := Split(s, '/');
    JoinSplit(s, '/');
    SlugSegmentsOfJoin(parts);
    SegmentOfSomePart(parts, ".");
    SegmentOfSomePart(parts, "..");
  }

  /** A slug that is not empty is a valid path exactly when no part of the
      input slugs to `.` or `..`. */
  lemma SlugValidExactly(s: string)
    requires SlugPath(s) != []
    ensures ValidPath(SlugPath(s)) <==> !HasDotPart(s)
  {
    SlugValidBySegments(s);
    DotPartExactly(s);
  }

  // ----- what becomes of each character ---------------------------------

  lemma SameSlug(a: string, x: string, y: string, b: string)
    requires MapChars(x) == MapChars(y)
    ensures SlugPath(a + x + b) == SlugPath(a + y + b)
  {
    MapCharsAppend(a + x, b);
    MapCharsAppend(a, x);
    MapCharsAppend(a + y, b);
    MapCharsAppend(a, y);
  }

  lemma MapCharsOne(c: char)
    ensures MapChars([c]) == MapChar(c) && MapChars([]) == []
  {
    assert [c][..0] == [];
  }

  /** Anywhere in the text an ASCII capital counts as its small letter. */
  lemma SlugReadsCapital(a: string, c: char, b: string)
    requires 'A' <= c <= 'Z'
    ensures SlugPath(a + [c] + b) == SlugPath(a + [(c as int + 32) as char] + b)
  {
    MapCharsOne(c);
    MapCharsOne((c as int + 32) as char);
    SameSlug(a, [c], [(c as int + 32) as char], b);
  }

  /** Whitespace counts as a dash. */
  lemma SlugReadsWhitespace(a: string, c: char, b: string)
    requires IsWhitespace(c)
    ensures SlugPath(a + [c] + b) == SlugPath(a + ['-'] + b)
  {
    MapCharsOne(c);
    MapCharsOne('-');
    SameSlug(a, [c], ['-'], b);
  }

  /** Any other character but ASCII letters and digits, `.`, `_`, `-` and `/`
      does not count at all. */
  lemma SlugSkips(a: string, c: char, b: string)
    requires !IsWhitespace(c) && !('A' <= c <= 'Z') && !('a' <= c <= 'z') && !('0' <= c <= '9')
    requires c != '.' && c != '_' && c != '-' && c != '/'
    ensures SlugPath(a + [c] + b) == SlugPath(a + b)
  {
    MapCharsOne(c);
    Unmapped(c);
    SameSlug(a, [c], [], b);
    assert a + [] == a;
  }

  lemma Unmapped(c: char)
    requires !IsWhitespace(c) && !('A' <= c <= 'Z') && !('a' <= c <= 'z') && !('0' <= c <= '9')
    requires c != '.' && c != '_' && c != '-' && c != '/'
    ensures MapChar(c) == []
  {
  }

  lemma {:induction false} CollapseRun(a: string, b: string)
    ensures CollapseDashes(a + ['-', '-'] + b) == CollapseDashes(a + ['-'] + b)
  {
    var s, t := a + ['-', '-'] + b, a + ['-'] + b;
    if b == [] {
      assert s[..|s| - 1] == t;
      assert s[|s| - 1] == '-' && t[|t| - 1] == '-';
    } else {
      assert s[..|s| - 1] == a + ['-', '-'] + b[..|b| - 1] && t[..|t| - 1] == a + ['-'] + b[..|b| - 1];
      CollapseRun(a, b[..|b| - 1]);
      assert s[|s| - 2] == t[|t| - 2];
    }
  }

  lemma {:induction false} CollapseLead(a: string)
    ensures CollapseDashes(['-'] + a) == CollapseDashes(a) || CollapseDashes(['-'] + a) == ['-'] + CollapseDashes(a)
    ensures a != [] ==> CollapseDashes(a) != [] && CollapseDashes(a)[0] == a[0]
  {
    if a == [] {
      assert ['-'] + a == ['-'] && ['-'][..0] == [];
    } else {
      var s := ['-'] + a;
      assert s[..|s| - 1] == ['-'] + a[..|a| - 1];
      CollapseLead(a[..|a| - 1]);
      if |a| > 1 { assert s[|s| - 2] == a[|a| - 2]; }
    }
  }

  lemma {:induction false} TrimLead(s: string)
    ensures TrimDashes(['-'] + s) == TrimDashes(s)
  {
    assert (['-'] + s)[1..] == s;
  }

  lemma {:induction false} TrimTrail(s: string)
    ensures TrimDashes(s + ['-']) == TrimDashes(s)
    decreases |s|
  {
    var t := s + ['-'];
    if s == [] {
      assert t[1..] == [];
    } else if s[0] == '-' {
      assert t[1..] == s[1..] + ['-'];
      TrimTrail(s[1..]);
    } else {
      assert t[..|t| - 1] == s;
    }
  }

  /** Inside one part a run of dashes counts as one dash, and dashes at either
      end do not count. */
  lemma NormaliseDashes(a: string, b: string)
    ensures Normalise(a + ['-', '-'] + b) == Normalise(a + ['-'] + b)
    ensures Normalise(['-'] + a) == Normalise(a)
    ensures Normalise(a + ['-']) == Normalise(a)
  {
    CollapseRun(a, b);
    CollapseLead(a);
    TrimLead(CollapseDashes(a));
    var s := a + ['-'];
    assert s[..|s| - 1] == a;
    if a != [] && a[|a| - 1] == '-' {
      assert CollapseDashes(s) == CollapseDashes(a);
    } else {
      assert CollapseDashes(s) == CollapseDashes(a) + ['-'];
      TrimTrail(CollapseDashes(a));
    }
  }

  lemma NormaliseOne(part: string)
    ensures NormaliseAll([part]) == if Normalise(part) == [] then [] else [Normalise(part)]
  {
    assert [part][..0] == [];
  }

  lemma SlugOfPart(s: string)
    requires '/' !in s
    ensures SlugPath(s) == Normalise(MapChars(s))
  {
    MapCharsWithout(s);
    SplitWithout(MapChars(s), '/');
    NormaliseOne(MapChars(s));
  }

  lemma SlugReadsDashes(a: string, b: string)
    requires '/' !in a && '/' !in b
    ensures SlugPath(a + ['-', '-'] + b) == SlugPath(a + ['-'] + b)
    ensures SlugPath(['-'] + a) == SlugPath(a)
    ensures SlugPath(a + ['-']) == SlugPath(a)
  {
    NormaliseDashes(MapChars(a), MapChars(b));
    MapCharsFixed(['-']);
    MapCharsFixed(['-', '-']);
    SlugOfThree(a, ['-', '-'], b);
    SlugOfThree(a, ['-'], b);
    SlugOfTwo(['-'], a);
    SlugOfTwo(a, ['-']);
    SlugOfPart(a);
  }

  lemma SlugOfTwo(a: string, b: string)
    requires '/' !in a && '/' !in b
    ensures SlugPath(a + b) == Normalise(MapChars(a) + MapChars(b))
  {
    MapCharsAppend(a, b);
    SlugOfPart(a + b);
  }

  lemma SlugOfThree(a: string, x: string, b: string)
    requires '/' !in a && '/' !in x && '/' !in b
    ensures SlugPath(a + x + b) == Normalise(MapChars(a) + MapChars(x) + MapChars(b))
  {
    MapCharsAppend(a, x);
    SlugOfTwo(a + x, b);
  }

  /** Such inputs exist: the slugger keeps `..`. */
  lemma DotDotSlugs()
    ensures SlugPath("..") == ".." && !ValidPath(SlugPath(".."))
  {
    var s := "..";
    assert Normal(s);
    SlugOfSegments([s]);
    assert Join([s], '/') == s;
    SlugValidBySegments(s);
  }
}
