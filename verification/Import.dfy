/** Turning a foreign vault into entries: paths, collisions, one commit. */
module Import {
  import opened Options
  import opened Order
  import opened Text
  import opened RelPaths
  import opened GpgId
  import opened Vcs
  import opened Store
  import opened EntryBody
  import opened Slug

  datatype Outcome =
    | Prepared(items: seq<(string, string)>)
    | UnnamedEntry(index: nat)
    | StoreCollision(paths: seq<string>)
    | Panic

  // ----- paths ----------------------------------------------------------

  function NonEmpty(parts: seq<string>): seq<string> {
    if parts == [] then [] else
      NonEmpty(parts[..|parts| - 1]) + if parts[|parts| - 1] == [] then [] else [parts[|parts| - 1]]
  }

  function DesiredPath(e: ImportedEntry): string {
    SlugPath(Join(NonEmpty(e.folder + [e.name]), '/'))
  }

  function DesiredPaths(entries: seq<ImportedEntry>): seq<string> {
    seq(|entries|, i requires 0 <= i < |entries| => DesiredPath(entries[i]))
  }

  /** The first slug that is no valid path. */
  function FirstUnusable(slugs: seq<string>): (k: nat)
    ensures k <= |slugs|
  {
    if slugs == [] || !ValidPath(slugs[0]) then 0 else 1 + FirstUnusable(slugs[1..])
  }

  lemma {:induction false} FirstUnusableIsFirst(slugs: seq<string>)
    ensures var k := FirstUnusable(slugs);
            (k < |slugs| ==> !ValidPath(slugs[k])) && forall i :: 0 <= i < k ==> ValidPath(slugs[i])
  {
    if slugs != [] && ValidPath(slugs[0]) {
      FirstUnusableIsFirst(slugs[1..]);
      forall i | 0 <= i < FirstUnusable(slugs) ensures ValidPath(slugs[i]) {
        if i > 0 { assert slugs[i] == slugs[1..][i - 1]; }
      }
    }
  }

  lemma {:induction false} FirstUnusableStep(slugs: seq<string>, i: nat)
    requires i < |slugs| && FirstUnusable(slugs[..i]) == i
    ensures if ValidPath(slugs[i]) then FirstUnusable(slugs[..i + 1]) == i + 1 else FirstUnusable(slugs) == i
  {
    if i > 0 {
      assert slugs[..i][1..] == slugs[1..][..i - 1] && slugs[..i + 1][1..] == slugs[1..][..i];
      FirstUnusableStep(slugs[1..], i - 1);
    } else {
      assert slugs[..1][1..] == [];
    }
  }

  function Numbered(base: string, n: nat): string {
    if n <= 1 then base else base + "-" + Decimal(n)
  }

  /** Entry `i` gets its path if it is the first to want it, else a number. */
  function FinalPath(bases: seq<string>, i: nat): string
    requires i < |bases|
  {
    Numbered(bases[i], multiset(bases[..i + 1])[bases[i]])
  }

  function FinalPaths(bases: seq<string>): seq<string> {
    seq(|bases|, i requires 0 <= i < |bases| => FinalPath(bases, i))
  }

  function Bodies(entries: seq<ImportedEntry>, paths: seq<string>): seq<(string, string)>
    requires |entries| == |paths|
  {
    seq(|entries|, i requires 0 <= i < |entries| => (paths[i], Serialise(entries[i])))
  }

  function Collisions(paths: seq<string>, existing: set<string>): seq<string> {
    Sorted(set p | p in paths && p in existing)
  }

  /** An empty slug is an error; a slug that is no valid path is a panic. */
  function Stopped(bases: seq<string>): Option<Outcome> {
    var k := FirstUnusable(bases);
    if k == |bases| then None else if bases[k] == [] then Some(UnnamedEntry(k)) else Some(Panic)
  }

  function Prepare(entries: seq<ImportedEntry>, existing: set<string>): Outcome {
    var bases := DesiredPaths(entries);
    if Stopped(bases).Some? then Stopped(bases).value
    else
      var paths := FinalPaths(bases);
      var collisions := Collisions(paths, existing);
      if collisions != [] then StoreCollision(collisions)
      else Prepared(Bodies(entries, paths))
  }

  method ComputeDesired(entries: seq<ImportedEntry>) returns (bases: seq<string>, stop: Option<Outcome>)
    ensures stop == Stopped(DesiredPaths(entries))
    ensures stop.None? ==> bases == DesiredPaths(entries)
  {
    bases := [];
    ghost var desired := DesiredPaths(entries);
    for i := 0 to |entries|
      invariant bases == desired[..i] && FirstUnusable(bases) == i
    {
      var raw := Join(NonEmpty(entries[i].folder + [entries[i].name]), '/');
      var slug := ComputeSlug(raw);
      assert slug == desired[i];
      FirstUnusableStep(desired, i);
      if !ValidPath(slug) {
        return bases, if slug == [] then Some(UnnamedEntry(i)) else Some(Panic);
      }
      TakeMore(desired, i);
      bases := bases + [slug];
    }
    assert desired[..|desired|] == desired;
    stop := None;
  }

  method ComputeBodies(entries: seq<ImportedEntry>, paths: seq<string>) returns (items: seq<(string, string)>)
    requires |entries| == |paths|
    ensures items == Bodies(entries, paths)
  {
    items := [];
    for i := 0 to |entries|
      invariant items == Bodies(entries, paths)[..i]
    {
      var body := SerialiseBody(entries[i]);
      TakeMore(Bodies(entries, paths), i);
      items := items + [(paths[i], body)];
    }
    assert Bodies(entries, paths)[..|entries|] == Bodies(entries, paths);
  }

  method PrepareEntries(entries: seq<ImportedEntry>, existing: set<string>) returns (outcome: Outcome)
    ensures outcome == Prepare(entries, existing)
  {
    var bases, stop := ComputeDesired(entries);
    if stop.Some? { return stop.value; }
    var paths := NumberPaths(bases);
    var collisions := Collisions(paths, existing);
    if collisions != [] { return StoreCollision(collisions); }
    var items := ComputeBodies(entries, paths);
    outcome := Prepared(items);
  }

  lemma CountStep(bases: seq<string>, i: nat)
    requires i < |bases|
    ensures multiset(bases[..i + 1]) == multiset(bases[..i]) + multiset{bases[i]}
  {
    assert bases[..i + 1] == bases[..i] + [bases[i]];
  }

  method NumberPaths(bases: seq<string>) returns (paths: seq<string>)
    ensures paths == FinalPaths(bases)
  {
    var counts: map<string, nat> := map[];
    paths := [];
    for i := 0 to |bases|
      invariant paths == FinalPaths(bases)[..i]
      invariant forall b :: b in counts <==> b in bases[..i]
      invariant forall b :: b in counts ==> counts[b] == multiset(bases[..i])[b]
    {
      var base := bases[i];
      CountStep(bases, i);
      var n := (if base in counts then counts[base] else 0) + 1;
      counts := counts[base := n];
      assert n == multiset(bases[..i + 1])[base];
      var resolved := if n == 1 then base else base + "-" + Decimal(n);
      TakeMore(FinalPaths(bases), i);
      paths := paths + [resolved];
    }
  }

  lemma SlugsStep(first: string, rest: seq<string>)
    ensures Slugs([first] + rest) == (if SlugPath(first) == [] then [] else [SlugPath(first)]) + Slugs(rest)
  {
    assert ([first] + rest)[1..] == rest;
  }

  lemma {:induction false} SlugsConcatenate(a: seq<string>, b: seq<string>)
    ensures Slugs(a + b) == Slugs(a) + Slugs(b)
  {
    if a == [] {
      assert a + b == b;
    } else {
      SlugsConcatenate(a[1..], b);
      OneMoreSlug(a[0], a[1..], b);
      assert a == [a[0]] + a[1..];
    }
  }

  lemma OneMoreSlug(first: string, rest: seq<string>, b: seq<string>)
    requires Slugs(rest + b) == Slugs(rest) + Slugs(b)
    ensures Slugs([first] + rest + b) == Slugs([first] + rest) + Slugs(b)
  {
    SlugsStep(first, rest);
    SlugsStep(first, rest + b);
    Reassociate([first], rest, b);
    Reassociate(if SlugPath(first) == [] then [] else [SlugPath(first)], Slugs(rest), Slugs(b));
  }

  lemma {:induction false} NonEmptySlugs(parts: seq<string>)
    ensures Slugs(NonEmpty(parts)) == Slugs(parts)
  {
    if parts != [] {
      var init, last := parts[..|parts| - 1], parts[|parts| - 1];
      var kept: seq<string> := if last == [] then [] else [last];
      NonEmptySlugs(init);
      SlugsConcatenate(init, [last]);
      SlugsConcatenate(NonEmpty(init), kept);
      KeptSlug(last);
      assert parts == init + [last];
      assert NonEmpty(parts) == NonEmpty(init) + kept;
    }
  }

  lemma KeptSlug(part: string)
    ensures Slugs(if part == [] then [] else [part]) == Slugs([part])
  {
    if part == [] {
      EmptySlug();
      assert [part][1..] == [];
    }
  }

  lemma EmptySlug()
    ensures SlugPath([]) == []
  {
    var parts: seq<string> := [[]];
    assert MapChars([]) == [] && Split([], '/') == parts;
    assert parts[..0] == [] && Normalise([]) == [];
    assert NormaliseAll(parts) == NormaliseAll(parts[..0]);
  }

  /** The path an entry asks for: the slugs of its folders and of its name that
      are not empty, in that order. */
  lemma DesiredPathExactly(e: ImportedEntry)
    ensures DesiredPath(e) == Join(Slugs(e.folder + [e.name]), '/')
  {
    SlugOfJoin(NonEmpty(e.folder + [e.name]));
    NonEmptySlugs(e.folder + [e.name]);
  }

  /** Preparing stops at the first entry without a usable path; it is reported
      as unnamed exactly when none of its parts leaves a slug. */
  lemma UnnamedExactly(entries: seq<ImportedEntry>, existing: set<string>, k: nat)
    ensures Prepare(entries, existing) == UnnamedEntry(k) <==>
              && k < |entries| && Slugs(entries[k].folder + [entries[k].name]) == []
              && forall i :: 0 <= i < k ==> ValidPath(DesiredPath(entries[i]))
  {
    UnnamedWhenStopped(entries, existing, k);
    FirstEmptyExactly(DesiredPaths(entries), k);
    if k < |entries| {
      DesiredPathExactly(entries[k]);
      SlugsNotEmpty(entries[k].folder + [entries[k].name]);
    }
    if k <= |entries| { PathsUpTo(entries, k); }
  }

  lemma UnnamedWhenStopped(entries: seq<ImportedEntry>, existing: set<string>, k: nat)
    ensures Prepare(entries, existing) == UnnamedEntry(k) <==> Stopped(DesiredPaths(entries)) == Some(UnnamedEntry(k))
  {
  }

  lemma PathsUpTo(entries: seq<ImportedEntry>, k: nat)
    requires k <= |entries|
    ensures (forall i :: 0 <= i < k ==> ValidPath(DesiredPaths(entries)[i])) <==>
              forall i :: 0 <= i < k ==> ValidPath(DesiredPath(entries[i]))
  {
    var paths := DesiredPaths(entries);
    if forall i :: 0 <= i < k ==> ValidPath(paths[i]) {
      forall i | 0 <= i < k ensures ValidPath(DesiredPath(entries[i])) {
        assert ValidPath(paths[i]);
      }
    }
    if forall i :: 0 <= i < k ==> ValidPath(DesiredPath(entries[i])) {
      forall i | 0 <= i < k ensures ValidPath(paths[i]) {
        assert ValidPath(DesiredPath(entries[i]));
      }
    }
  }

  lemma FirstEmptyExactly(bases: seq<string>, k: nat)
    ensures Stopped(bases) == Some(UnnamedEntry(k)) <==>
              k < |bases| && bases[k] == [] && forall i :: 0 <= i < k ==> ValidPath(bases[i])
  {
    FirstUnusableIsFirst(bases);
    if k < |bases| && bases[k] == [] && forall i :: 0 <= i < k ==> ValidPath(bases[i]) {
      assert FirstUnusable(bases) >= k;
    }
  }

  lemma SlugsNotEmpty(parts: seq<string>)
    ensures Join(Slugs(parts), '/') == [] <==> Slugs(parts) == []
  {
    SlugsJoin(parts);
    SlugSegmentsOfJoin(parts);
    SlugEmptyExactly(Join(parts, '/'));
  }

  // ----- when the final paths are distinct --------------------------------

  /** Some slug of the batch already spells a number another one will get. */
  ghost predicate Spelled(bases: seq<string>) {
    exists i, j, n: nat :: 0 <= i < |bases| && 0 <= j < |bases| && 2 <= n <= multiset(bases)[bases[i]]
                           && bases[j] == Numbered(bases[i], n)
  }

  ghost predicate Distinct(paths: seq<string>) {
    forall i, j :: 0 <= i < j < |paths| ==> paths[i] != paths[j]
  }

  lemma DashInside(s: string, d: string, t: string, e: string)
    requires s + ['-'] + d == t + ['-'] + e && |s| < |t|
    ensures '-' in d
  {
    var whole := s + ['-'] + d;
    assert whole[|t|] == (t + ['-'] + e)[|t|];
    assert d[|t| - |s| - 1] == whole[|t|];
  }

  /** The text before the last dash is recovered from a numbered path. */
  lemma NumberedInjective(s: string, a: nat, t: string, b: nat)
    requires a >= 2 && b >= 2 && Numbered(s, a) == Numbered(t, b)
    ensures s == t && a == b
  {
    DecimalRoundTrip(a);
    DecimalRoundTrip(b);
    var d, e := Decimal(a), Decimal(b);
    var whole := Numbered(s, a);
    assert whole == s + ['-'] + d && whole == t + ['-'] + e;
    if |s| < |t| { DashInside(s, d, t, e); }
    if |t| < |s| { DashInside(t, e, s, d); }
    assert s == whole[..|s|] && t == whole[..|t|];
    assert d == whole[|s| + 1..] && e == whole[|t| + 1..];
  }

  lemma NumberedLonger(s: string, n: nat)
    requires n >= 2
    ensures |Numbered(s, n)| > |s|
  {
  }

  lemma CountGrows(bases: seq<string>, i: nat, j: nat, b: string)
    requires i <= j <= |bases|
    ensures multiset(bases[..i])[b] <= multiset(bases[..j])[b]
  {
    assert bases[..j] == bases[..i] + bases[i..j];
  }

  lemma {:induction false} NthOccurrence(bases: seq<string>, b: string, n: nat) returns (k: nat)
    requires 1 <= n <= multiset(bases)[b]
    ensures k < |bases| && bases[k] == b && multiset(bases[..k + 1])[b] == n
  {
    var init, last := bases[..|bases| - 1], |bases| - 1;
    CountStep(bases, last);
    assert bases[..last + 1] == bases;
    if n <= multiset(init)[b] {
      k := NthOccurrence(init, b, n);
      assert init[..k + 1] == bases[..k + 1];
    } else {
      k := last;
    }
  }

  /** The final paths are pairwise distinct exactly when no slug of the batch
      is `<slug>-<n>` for another one that occurs at least `n` times. */
  lemma DistinctExactly(bases: seq<string>)
    ensures Distinct(FinalPaths(bases)) <==> !Spelled(bases)
  {
    if Spelled(bases) {
      var i, j, n: nat :| 0 <= i < |bases| && 0 <= j < |bases| && 2 <= n <= multiset(bases)[bases[i]]
                          && bases[j] == Numbered(bases[i], n);
      SpelledCollide(bases, i, j, n);
    } else {
      forall i, j | 0 <= i < j < |bases| ensures FinalPath(bases, i) != FinalPath(bases, j) {
        if bases[i] == bases[j] { SameSlugDiffers(bases, i, j); } else { OtherSlugDiffers(bases, i, j); }
      }
    }
  }

  lemma NormalSlugs(s: string)
    requires Normal(s)
    ensures SlugPath(s) == s
  {
    SlugOfSegments([s]);
    assert Join([s], '/') == s;
  }

  lemma NamedSlug(e: ImportedEntry)
    requires e.folder == [] && Normal(e.name)
    ensures DesiredPath(e) == e.name
  {
    var parts := e.folder + [e.name];
    assert parts == [e.name] && parts[..0] == [];
    assert NonEmpty(parts) == [e.name];
    NormalSlugs(e.name);
  }

  /** Entries of the root folder with these names. */
  ghost predicate Named(entries: seq<ImportedEntry>, names: seq<string>) {
    |entries| == |names| && forall i :: 0 <= i < |entries| ==> entries[i].folder == [] && entries[i].name == names[i]
  }

  lemma NamedSlugs(entries: seq<ImportedEntry>, names: seq<string>)
    requires Named(entries, names) && forall i :: 0 <= i < |names| ==> Normal(names[i])
    ensures DesiredPaths(entries) == names
  {
    forall i | 0 <= i < |entries| ensures DesiredPath(entries[i]) == names[i] {
      NamedSlug(entries[i]);
    }
  }

  lemma NamesCollide(entries: seq<ImportedEntry>, names: seq<string>)
    requires Named(entries, names) && (forall i :: 0 <= i < |names| ==> Normal(names[i])) && Spelled(names)
    ensures Spelled(DesiredPaths(entries)) && !Distinct(FinalPaths(DesiredPaths(entries)))
  {
    NamedSlugs(entries, names);
    DistinctExactly(names);
  }

  lemma SpelledNames(names: seq<string>)
    requires names == ["a", "a", "a-2"]
    ensures Spelled(names) && forall i :: 0 <= i < |names| ==> Normal(names[i])
  {
    assert Decimal(2) == "2";
    assert multiset(names)[names[0]] == 2 && names[2] == Numbered(names[0], 2);
  }

  /** Entries named `a`, `a` and `a-2` are such a batch: the second and the
      third end up at one path. */
  lemma NumberedNamesCollide(entries: seq<ImportedEntry>, names: seq<string>)
    requires names == ["a", "a", "a-2"] && Named(entries, names)
    ensures Spelled(DesiredPaths(entries)) && !Distinct(FinalPaths(DesiredPaths(entries)))
  {
    SpelledNames(names);
    NamesCollide(entries, names);
  }

  lemma SpelledCollide(bases: seq<string>, i: nat, j: nat, n: nat)
    requires i < |bases| && j < |bases| && 2 <= n <= multiset(bases)[bases[i]]
    requires bases[j] == Numbered(bases[i], n)
    ensures !Distinct(FinalPaths(bases))
  {
    NumberedLonger(bases[i], n);
    assert bases[j] in multiset(bases);
    var k := NthOccurrence(bases, bases[i], n);
    var l := NthOccurrence(bases, bases[j], 1);
    assert FinalPath(bases, k) == FinalPath(bases, l);
    EqualIsNotDistinct(FinalPaths(bases), k, l);
  }

  lemma EqualIsNotDistinct(paths: seq<string>, k: nat, l: nat)
    requires k < |paths| && l < |paths| && k != l && paths[k] == paths[l]
    ensures !Distinct(paths)
  {
    if k < l { assert paths[k] == paths[l]; } else { assert paths[l] == paths[k]; }
  }

  /** Two occurrences of one slug get different numbers. */
  lemma SameSlugDiffers(bases: seq<string>, i: nat, j: nat)
    requires i < j < |bases| && bases[i] == bases[j]
    ensures FinalPath(bases, i) != FinalPath(bases, j)
  {
    var s := bases[i];
    var a, b := multiset(bases[..i + 1])[s], multiset(bases[..j + 1])[s];
    CountStep(bases, i);
    CountStep(bases, j);
    CountGrows(bases, i + 1, j, s);
    assert 1 <= a < b;
    NumberedLonger(s, b);
    if a >= 2 && Numbered(s, a) == Numbered(s, b) { NumberedInjective(s, a, s, b); }
  }

  /** Two different slugs can only end up equal when one spells the other's
      number. */
  lemma OtherSlugDiffers(bases: seq<string>, i: nat, j: nat)
    requires i < |bases| && j < |bases| && bases[i] != bases[j] && !Spelled(bases)
    ensures FinalPath(bases, i) != FinalPath(bases, j)
  {
    var s, t := bases[i], bases[j];
    var a, b := multiset(bases[..i + 1])[s], multiset(bases[..j + 1])[t];
    assert bases[..|bases|] == bases;
    CountGrows(bases, i + 1, |bases|, s);
    CountGrows(bases, j + 1, |bases|, t);
    if Numbered(s, a) == Numbered(t, b) {
      if a >= 2 && b >= 2 {
        NumberedInjective(s, a, t, b);
      }
    }
  }

  /** A numbered path is a valid path. */
  lemma FinalPathsValid(bases: seq<string>)
    requires forall b :: b in bases ==> ValidPath(b)
    ensures forall p :: p in FinalPaths(bases) ==> ValidPath(p)
  {
    forall i | 0 <= i < |bases| ensures ValidPath(FinalPath(bases, i)) {
      var n := multiset(bases[..i + 1])[bases[i]];
      assert bases[i] in bases;
      if n > 1 {
        DecimalRoundTrip(n);
        var suffix := "-" + Decimal(n);
        assert suffix[0] == '-' && suffix[0] in suffix;
        assert forall c :: c in suffix ==> c == '-' || '0' <= c <= '9';
        SuffixValid(bases[i], suffix);
        assert bases[i] + suffix == Numbered(bases[i], n);
      }
    }
  }

  /** Preparing panics, instead of reporting an error, exactly when the first
      entry without a usable path has a name, or folder, with a part that
      slugs to `.` or `..`. */
  lemma PanicsExactly(entries: seq<ImportedEntry>, existing: set<string>)
    ensures var k := FirstUnusable(DesiredPaths(entries));
            Prepare(entries, existing).Panic? <==>
              k < |entries| && HasDotPart(Join(NonEmpty(entries[k].folder + [entries[k].name]), '/'))
  {
    var k := FirstUnusable(DesiredPaths(entries));
    FirstUnusableIsFirst(DesiredPaths(entries));
    if k < |entries| {
      var raw := Join(NonEmpty(entries[k].folder + [entries[k].name]), '/');
      assert DesiredPaths(entries)[k] == SlugPath(raw);
      SlugEmptyExactly(raw);
      DotPartExactly(raw);
      if SlugPath(raw) != [] { SlugValidExactly(raw); }
    }
  }

  /** An entry named `..` is enough. */
  lemma DotDotPanics(e: ImportedEntry, existing: set<string>)
    requires e.folder == [] && e.name == ".."
    ensures Prepare([e], existing).Panic?
  {
    DotDotSlugs();
    NamedSlug(e);
    assert DesiredPaths([e]) == [e.name];
  }

  /** A refusal for collisions names exactly the final paths the store already
      holds, each once and in order. */
  lemma CollisionsReported(entries: seq<ImportedEntry>, existing: set<string>)
    requires Prepare(entries, existing).StoreCollision?
    ensures var paths := Prepare(entries, existing).paths;
            && paths != [] && StrictlySorted(paths)
            && forall p :: p in paths <==> p in existing && p in FinalPaths(DesiredPaths(entries))
  {
  }

  // ----- the import run -------------------------------------------------

  datatype ImportError = NothingToImport | Refused(outcome: Outcome) | Failed(error: Error)

  /** Storage and the blobs written so far, and what stopped the loop. */
  datatype Progress = Progress(files: Files, blobs: seq<string>, error: Option<Error>)

  function WriteItems(files: Files, items: seq<(string, string)>, utf8: string -> Bytes, nonce: nat -> nat): Progress {
    if items == [] then Progress(files, [], None) else
      var n := |items| - 1;
      var before := WriteItems(files, items[..n], utf8, nonce);
      if before.error.Some? then before
      else
        var (after, error) := InsertNoCommit(before.files, items[n].0, utf8(items[n].1), nonce(n));
        if error.Some? then before.(error := error)
        else Progress(after, before.blobs + [EntryToBlob(items[n].0)], None)
  }

  function ImportInto(s: State, entries: seq<ImportedEntry>, utf8: string -> Bytes, nonce: nat -> nat): (State, Option<ImportError>) {
    if entries == [] then (s, Some(NothingToImport))
    else
      var outcome := Prepare(entries, Entries(s.files));
      if !outcome.Prepared? then (s, Some(Refused(outcome)))
      else
        var p := WriteItems(s.files, outcome.items, utf8, nonce);
        if p.error.Some? then (s.(files := p.files), Some(Failed(p.error.value)))
        else
          var r := Commit(s.(files := p.files), p.blobs);
          (r.state, if r.error.Some? then Some(Failed(r.error.value)) else None)
  }

  method WriteAll(store: PasswordStore, items: seq<(string, string)>, utf8: string -> Bytes, nonce: nat -> nat)
    returns (blobs: seq<string>, error: Option<Error>)
    requires forall i :: 0 <= i < |items| ==> ValidPath(items[i].0)
    modifies store
    ensures Progress(store.files, blobs, error) == WriteItems(old(store.files), items, utf8, nonce)
  {
    blobs := [];
    for i := 0 to |items|
      invariant Progress(store.files, blobs, None) == WriteItems(old(store.files), items[..i], utf8, nonce)
    {
      assert items[..i + 1][..i] == items[..i] && items[..i + 1][i] == items[i];
      error := store.WriteEntry(items[i].0, utf8(items[i].1), nonce(i));
      if error.Some? {
        WriteItemsStops(old(store.files), items, i + 1, utf8, nonce);
        return;
      }
      blobs := blobs + [EntryToBlob(items[i].0)];
    }
    assert items[..|items|] == items;
    error := None;
  }

  method RunImport(store: PasswordStore, entries: seq<ImportedEntry>, utf8: string -> Bytes, nonce: nat -> nat)
    returns (error: Option<ImportError>)
    modifies store, store.vcs
    ensures (store.Value(), error) == ImportInto(old(store.Value()), entries, utf8, nonce)
  {
    if entries == [] { return Some(NothingToImport); }
    var outcome := PrepareEntries(entries, Entries(store.files));
    if !outcome.Prepared? { return Some(Refused(outcome)); }
    PreparedItems(entries, Entries(store.files));
    var blobs, failure := WriteAll(store, outcome.items, utf8, nonce);
    if failure.None? { failure := store.CommitChanges(blobs); }
    error := if failure.Some? then Some(Failed(failure.value)) else None;
  }

  lemma {:induction false} WriteItemsStops(files: Files, items: seq<(string, string)>, k: nat, utf8: string -> Bytes, nonce: nat -> nat)
    requires k <= |items| && WriteItems(files, items[..k], utf8, nonce).error.Some?
    ensures WriteItems(files, items, utf8, nonce) == WriteItems(files, items[..k], utf8, nonce)
  {
    if k == |items| {
      assert items[..k] == items;
    } else {
      assert items[..|items| - 1][..k] == items[..k];
      WriteItemsStops(files, items[..|items| - 1], k, utf8, nonce);
    }
  }

  /** What was prepared: one item per entry, at a valid path the store does
      not hold, with the serialised body. */
  lemma PreparedItems(entries: seq<ImportedEntry>, existing: set<string>)
    requires Prepare(entries, existing).Prepared?
    ensures var items := Prepare(entries, existing).items;
            && items == Bodies(entries, FinalPaths(DesiredPaths(entries)))
            && |items| == |entries|
            && forall i :: 0 <= i < |items| ==>
                 && ValidPath(items[i].0) && items[i].0 !in existing
                 && items[i] == (FinalPath(DesiredPaths(entries), i), Serialise(entries[i]))
  {
    var bases := DesiredPaths(entries);
    var paths := FinalPaths(bases);
    UsableExactly(bases);
    FinalPathsValid(bases);
    NoCollisionExactly(paths, existing);
    forall i | 0 <= i < |paths| ensures ValidPath(paths[i]) && paths[i] !in existing {
      assert paths[i] in paths;
    }
  }

  /** The first entry at a path keeps it; the n-th one gets `-n` appended. */
  lemma FinalPathExactly(bases: seq<string>, i: nat)
    requires i < |bases|
    ensures var n := |Before(bases, i + 1, bases[i])|;
            FinalPath(bases, i) == bases[i] + if n == 1 then "" else "-" + Decimal(n)
  {
    BeforeCounts(bases, i + 1, bases[i]);
    assert i in Before(bases, i + 1, bases[i]);
    var n := |Before(bases, i + 1, bases[i])|;
    if n == 1 {
      assert bases[i] + "" == bases[i];
    } else {
      Reassociate(bases[i], "-", Decimal(n));
    }
  }

  function Before(bases: seq<string>, k: nat, base: string): set<nat>
    requires k <= |bases|
  {
    set j: nat | j < k && bases[j] == base
  }

  lemma {:induction false} BeforeCounts(bases: seq<string>, k: nat, base: string)
    requires k <= |bases|
    ensures multiset(bases[..k])[base] == |Before(bases, k, base)|
  {
    if k == 0 {
      assert Before(bases, 0, base) == {};
    } else {
      BeforeCounts(bases, k - 1, base);
      TakeMore(bases, k - 1);
      var less := Before(bases, k - 1, base);
      assert Before(bases, k, base) == if bases[k - 1] == base then less + {k - 1} else less;
    }
  }

  lemma UsableExactly(bases: seq<string>)
    ensures FirstUnusable(bases) == |bases| <==> forall base :: base in bases ==> ValidPath(base)
  {
    FirstUnusableIsFirst(bases);
    var k := FirstUnusable(bases);
    if k < |bases| { assert bases[k] in bases; }
  }

  lemma NoCollisionExactly(paths: seq<string>, existing: set<string>)
    ensures Collisions(paths, existing) == [] <==> forall path :: path in paths ==> path !in existing
  {
    var held := set p | p in paths && p in existing;
    if Collisions(paths, existing) != [] { assert Collisions(paths, existing)[0] in held; }
    forall path | path in paths && path in existing ensures path in Collisions(paths, existing) {
      assert path in held;
    }
  }

  /** The dictionary the items spell out, later items winning. */
  ghost function Items(items: seq<(string, string)>, utf8: string -> Bytes): Plaintexts {
    if items == [] then map[] else
      Items(items[..|items| - 1], utf8)[items[|items| - 1].0 := utf8(items[|items| - 1].1)]
  }

  lemma {:induction false} WriteItemsRefines(files: Files, items: seq<(string, string)>, utf8: string -> Bytes, nonce: nat -> nat)
    requires forall i :: 0 <= i < |items| ==> ValidPath(items[i].0)
    ensures var p := WriteItems(files, items, utf8, nonce);
            p.error.None? ==>
              && |p.blobs| == |items|
              && Wrote(files, p.files, Items(items, utf8))
              && (forall q :: q !in p.blobs ==> FileAt(p.files, q) == FileAt(files, q))
  {
    if items != [] {
      var n := |items| - 1;
      WriteItemsRefines(files, items[..n], utf8, nonce);
      var before, after := WriteItems(files, items[..n], utf8, nonce), WriteItems(files, items, utf8, nonce);
      if after.error.None? {
        WroteOneMore(files, before.files, after.files, Items(items[..n], utf8), items[n].0, utf8(items[n].1), nonce(n));
      }
    }
  }

  lemma {:induction false} ItemKeys(items: seq<(string, string)>, utf8: string -> Bytes, p: string)
    ensures p in Items(items, utf8) <==> exists i :: 0 <= i < |items| && items[i].0 == p
  {
    if items != [] {
      var n := |items| - 1;
      ItemKeys(items[..n], utf8, p);
      if p in Items(items[..n], utf8) {
        var i :| 0 <= i < n && items[..n][i].0 == p;
        assert items[i].0 == p;
      } else if items[n].0 != p && exists i :: 0 <= i < |items| && items[i].0 == p {
        var i :| 0 <= i < |items| && items[i].0 == p;
        assert items[..n][i].0 == p;
      }
    }
  }

  lemma {:induction false} ItemCount(items: seq<(string, string)>, utf8: string -> Bytes)
    ensures |Items(items, utf8)| <= |items|
    ensures |Items(items, utf8)| == |items| <==>
              forall i, j :: 0 <= i < j < |items| ==> items[i].0 != items[j].0
  {
    if items != [] {
      var n := |items| - 1;
      var init := Items(items[..n], utf8);
      ItemCount(items[..n], utf8);
      ItemKeys(items[..n], utf8, items[n].0);
      assert Items(items, utf8).Keys == init.Keys + {items[n].0};
      if items[n].0 in init {
        assert Items(items, utf8).Keys == init.Keys;
      }
    }
  }

  /** A refused import writes nothing.  A successful one leaves every entry
      that was there readable as before, adds the prepared entries keyed to
      their recipients, and lands as one commit.  Every imported entry survives
      exactly when no slug of the batch spells another one's number. */
  lemma ImportRefines(s: State, entries: seq<ImportedEntry>, utf8: string -> Bytes, nonce: nat -> nat)
    ensures var (r, error) := ImportInto(s, entries, utf8, nonce);
            && (error.Some? && error.value.Refused? ==> r == s)
            && (error.None? ==>
                  var added := Items(Prepare(entries, Entries(s.files)).items, utf8);
                  && Wrote(s.files, r.files, added)
                  && (forall e :: e in Plain(s.files) ==> e !in added && e in Plain(r.files) && Plain(r.files)[e] == Plain(s.files)[e])
                  && (|added| == |entries| <==> !Spelled(DesiredPaths(entries)))
                  && (Agree(s) ==> Agree(r) && OneCommit(s.repo, r.repo)))
  {
    var (r, error) := ImportInto(s, entries, utf8, nonce);
    if error.None? {
      var items := Prepare(entries, Entries(s.files)).items;
      PreparedItems(entries, Entries(s.files));
      WriteItemsRefines(s.files, items, utf8, nonce);
      AddedAreNew(s.files, items, utf8);
      NoneLostExactly(entries, items, utf8);
      var p := WriteItems(s.files, items, utf8, nonce);
      if Agree(s) { CommitAgrees(s, p.files, p.blobs); }
    }
  }

  /** Of the items at one path the last one counts. */
  lemma {:induction false} LastItemCounts(items: seq<(string, string)>, utf8: string -> Bytes, i: nat)
    requires i < |items| && forall j :: i < j < |items| ==> items[j].0 != items[i].0
    ensures items[i].0 in Items(items, utf8) && Items(items, utf8)[items[i].0] == utf8(items[i].1)
  {
    var n := |items| - 1;
    if i < n {
      assert items[..n][i] == items[i];
      LastItemCounts(items[..n], utf8, i);
    }
  }

  /** After an import each path holds the body of the last entry that went to it. */
  lemma ImportedBodies(s: State, entries: seq<ImportedEntry>, utf8: string -> Bytes, nonce: nat -> nat, i: nat)
    requires ImportInto(s, entries, utf8, nonce).1.None? && i < |entries|
    requires var bases := DesiredPaths(entries);
             forall j :: i < j < |entries| ==> FinalPath(bases, j) != FinalPath(bases, i)
    ensures var path := FinalPath(DesiredPaths(entries), i);
            var plain := Plain(ImportInto(s, entries, utf8, nonce).0.files);
            path in plain && plain[path] == utf8(Serialise(entries[i]))
  {
    var items := Prepare(entries, Entries(s.files)).items;
    ImportRefines(s, entries, utf8, nonce);
    PreparedItems(entries, Entries(s.files));
    LastItemCounts(items, utf8, i);
  }

  ghost predicate ItemsResolve(files: Files, items: seq<(string, string)>) {
    forall i :: 0 <= i < |items| ==> Resolve(files, items[i].0).Recipients?
  }

  lemma ItemsResolveStep(files: Files, items: seq<(string, string)>, n: nat)
    requires |items| == n + 1
    ensures ItemsResolve(files, items) <==> ItemsResolve(files, items[..n]) && Resolve(files, items[n].0).Recipients?
  {
    if ItemsResolve(files, items[..n]) && Resolve(files, items[n].0).Recipients? {
      forall i | 0 <= i < |items| ensures Resolve(files, items[i].0).Recipients? {
        if i < n { assert items[..n][i] == items[i]; }
      }
    }
  }

  lemma LastWriteSucceedsExactly(files: Files, items: seq<(string, string)>, n: nat, utf8: string -> Bytes, nonce: nat -> nat)
    requires |items| == n + 1 && forall i :: 0 <= i < |items| ==> ValidPath(items[i].0)
    requires WriteItems(files, items[..n], utf8, nonce).error.None?
    ensures WriteItems(files, items, utf8, nonce).error.None? <==> Resolve(files, items[n].0).Recipients?
  {
    WriteItemsRefines(files, items[..n], utf8, nonce);
    assert Resolve(WriteItems(files, items[..n], utf8, nonce).files, items[n].0) == Resolve(files, items[n].0);
  }

  lemma {:induction false} WriteItemsSucceedExactly(files: Files, items: seq<(string, string)>, utf8: string -> Bytes, nonce: nat -> nat)
    requires forall i :: 0 <= i < |items| ==> ValidPath(items[i].0)
    ensures WriteItems(files, items, utf8, nonce).error.None? <==> ItemsResolve(files, items)
  {
    if items != [] {
      var n := |items| - 1;
      WriteItemsSucceedExactly(files, items[..n], utf8, nonce);
      ItemsResolveStep(files, items, n);
      if WriteItems(files, items[..n], utf8, nonce).error.None? {
        LastWriteSucceedsExactly(files, items, n, utf8, nonce);
      }
    }
  }

  lemma FirstRefusedWrite(files: Files, items: seq<(string, string)>, k: nat, utf8: string -> Bytes, nonce: nat -> nat)
    requires k < |items| && forall i :: 0 <= i < |items| ==> ValidPath(items[i].0)
    requires ItemsResolve(files, items[..k]) && !Resolve(files, items[k].0).Recipients?
    ensures var p := WriteItems(files, items, utf8, nonce);
            && p.error == Some(ResolveError(Resolve(files, items[k].0)))
            && Wrote(files, p.files, Items(items[..k], utf8))
  {
    var upTo, before := items[..k + 1], items[..k];
    assert upTo[..k] == before && upTo[k] == items[k];
    WriteItemsSucceedExactly(files, before, utf8, nonce);
    WriteItemsRefines(files, before, utf8, nonce);
    var mid := WriteItems(files, before, utf8, nonce).files;
    assert Resolve(mid, items[k].0) == Resolve(files, items[k].0);
    InsertRefines(mid, items[k].0, utf8(items[k].1), nonce(k));
    WriteItemsStops(files, items, k + 1, utf8, nonce);
  }

  /** The first entry without recipients stops an import.  The entries before it
      stay written, keyed to their recipients, and nothing is committed. */
  lemma ImportStops(s: State, entries: seq<ImportedEntry>, utf8: string -> Bytes, nonce: nat -> nat, k: nat)
    requires Prepare(entries, Entries(s.files)).Prepared? && k < |entries|
    requires forall i :: 0 <= i < k ==> Resolve(s.files, FinalPath(DesiredPaths(entries), i)).Recipients?
    requires !Resolve(s.files, FinalPath(DesiredPaths(entries), k)).Recipients?
    ensures var (r, error) := ImportInto(s, entries, utf8, nonce);
            && error == Some(Failed(ResolveError(Resolve(s.files, FinalPath(DesiredPaths(entries), k)))))
            && r.repo == s.repo
            && Wrote(s.files, r.files, Items(Prepare(entries, Entries(s.files)).items[..k], utf8))
  {
    var items := Prepare(entries, Entries(s.files)).items;
    PreparedItems(entries, Entries(s.files));
    forall i | 0 <= i < k ensures Resolve(s.files, items[..k][i].0).Recipients? {
    }
    FirstRefusedWrite(s.files, items, k, utf8, nonce);
  }

  lemma PreparedExactly(entries: seq<ImportedEntry>, existing: set<string>)
    ensures var bases := DesiredPaths(entries);
            Prepare(entries, existing).Prepared? <==>
              && (forall base :: base in bases ==> ValidPath(base))
              && (forall path :: path in FinalPaths(bases) ==> path !in existing)
  {
    UsableExactly(DesiredPaths(entries));
    NoCollisionExactly(FinalPaths(DesiredPaths(entries)), existing);
  }

  /** An import succeeds exactly when there is something to import, every entry
      has a usable path, no final path is taken, each of them has recipients,
      and the repository, if there is one, is not in the middle of something. */
  lemma ImportSucceedsExactly(s: State, entries: seq<ImportedEntry>, utf8: string -> Bytes, nonce: nat -> nat)
    ensures var bases := DesiredPaths(entries);
            ImportInto(s, entries, utf8, nonce).1.None? <==>
              && entries != []
              && (forall base :: base in bases ==> ValidPath(base))
              && (forall path :: path in FinalPaths(bases) ==> path !in Entries(s.files))
              && (forall path :: path in FinalPaths(bases) ==> Resolve(s.files, path).Recipients?)
              && !(s.repo.initialised && s.repo.busy)
  {
    PreparedExactly(entries, Entries(s.files));
    ImportUnfolds(s, entries, utf8, nonce);
    if Prepare(entries, Entries(s.files)).Prepared? { WritesSucceedExactly(s.files, entries, utf8, nonce); }
  }

  lemma WritesSucceedExactly(files: Files, entries: seq<ImportedEntry>, utf8: string -> Bytes, nonce: nat -> nat)
    requires Prepare(entries, Entries(files)).Prepared?
    ensures WriteItems(files, Prepare(entries, Entries(files)).items, utf8, nonce).error.None? <==>
              forall path :: path in FinalPaths(DesiredPaths(entries)) ==> Resolve(files, path).Recipients?
  {
    var paths, items := FinalPaths(DesiredPaths(entries)), Prepare(entries, Entries(files)).items;
    PreparedItems(entries, Entries(files));
    WriteItemsSucceedExactly(files, items, utf8, nonce);
    AllAt(paths, items, files);
  }

  /** The two refusals of an import, which change nothing. */
  lemma ImportRefuses(s: State, entries: seq<ImportedEntry>, utf8: string -> Bytes, nonce: nat -> nat)
    ensures var (r, error) := ImportInto(s, entries, utf8, nonce);
            var outcome := Prepare(entries, Entries(s.files));
            && (error == Some(NothingToImport) <==> entries == [])
            && (error == Some(Refused(outcome)) <==> entries != [] && !outcome.Prepared?)
            && (error.Some? && !error.value.Failed? ==> r == s)
  {
  }

  lemma ImportUnfolds(s: State, entries: seq<ImportedEntry>, utf8: string -> Bytes, nonce: nat -> nat)
    ensures var outcome := Prepare(entries, Entries(s.files));
            ImportInto(s, entries, utf8, nonce).1.None? <==>
              && entries != [] && outcome.Prepared?
              && WriteItems(s.files, outcome.items, utf8, nonce).error.None?
              && !(s.repo.initialised && s.repo.busy)
  {
    var outcome := Prepare(entries, Entries(s.files));
    if outcome.Prepared? {
      PreparedItems(entries, Entries(s.files));
      WriteItemsRefines(s.files, outcome.items, utf8, nonce);
      assert |outcome.items| == |entries|;
    }
  }

  lemma AllAt(paths: seq<string>, items: seq<(string, string)>, files: Files)
    requires |items| == |paths| && forall i :: 0 <= i < |items| ==> items[i].0 == paths[i]
    ensures ItemsResolve(files, items) <==> forall path :: path in paths ==> Resolve(files, path).Recipients?
  {
    if ItemsResolve(files, items) {
      forall path | path in paths ensures Resolve(files, path).Recipients? {
        var i :| 0 <= i < |paths| && paths[i] == path;
        assert Resolve(files, items[i].0).Recipients?;
      }
    }
  }

  lemma AddedAreNew(files: Files, items: seq<(string, string)>, utf8: string -> Bytes)
    requires forall i :: 0 <= i < |items| ==> items[i].0 !in Entries(files)
    ensures forall e :: e in Plain(files) ==> e !in Items(items, utf8)
  {
    forall e | e in Plain(files) ensures e !in Items(items, utf8) {
      PlainAt(files, e);
      EntryIffBlob(files, e);
      ItemKeys(items, utf8, e);
    }
  }

  lemma SameNames(items: seq<(string, string)>, paths: seq<string>)
    requires |items| == |paths| && forall i :: 0 <= i < |items| ==> items[i].0 == paths[i]
    ensures Distinct(paths) <==> forall i, j :: 0 <= i < j < |items| ==> items[i].0 != items[j].0
  {
  }

  lemma NoneLostWhenDistinct(items: seq<(string, string)>, paths: seq<string>, utf8: string -> Bytes)
    requires |items| == |paths| && forall i :: 0 <= i < |items| ==> items[i].0 == paths[i]
    ensures |Items(items, utf8)| == |items| <==> Distinct(paths)
  {
    ItemCount(items, utf8);
    SameNames(items, paths);
  }

  lemma NoneLostExactly(entries: seq<ImportedEntry>, items: seq<(string, string)>, utf8: string -> Bytes)
    requires items == Bodies(entries, FinalPaths(DesiredPaths(entries)))
    ensures |Items(items, utf8)| == |entries| <==> !Spelled(DesiredPaths(entries))
  {
    NoneLostWhenDistinct(items, FinalPaths(DesiredPaths(entries)), utf8);
    DistinctExactly(DesiredPaths(entries));
  }
}
