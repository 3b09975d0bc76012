/** Backup bundles, and restoring them into a fresh store or over the store
    they came from. */
module Bundle {
  import opened Options
  import opened Order
  import opened Text
  import opened RelPaths
  import opened GpgId
  import opened Vcs
  import opened Store

  const FORMAT_VERSION := 1
  const MANIFEST_NAME := "manifest.toml"
  const ENTRIES_PREFIX := "entries/"

  datatype Manifest = Manifest(formatVersion: nat, originalRecipients: seq<KeyId>, entries: nat)

  /** The manifest codec, which belongs to a library. */
  datatype Toml = Toml(encode: Manifest -> Bytes, decode: Bytes -> Option<Manifest>)

  ghost predicate Faithful(toml: Toml) {
    forall m :: toml.decode(toml.encode(m)) == Some(m)
  }

  /** One archive member; a bundle is the sequence of its members. */
  datatype Member = Member(name: string, data: Bytes)

  // ----- backup ---------------------------------------------------------

  datatype BackupOutcome = Bundled(members: seq<Member>) | NothingToBackUp | NoRecipients | CannotDecrypt

  function EntryMembers(files: Files, entries: seq<string>): Option<seq<Member>> {
    if entries == [] then Some([]) else
      var last := entries[|entries| - 1];
      var init := EntryMembers(files, entries[..|entries| - 1]);
      if init.None? || EntryToBlob(last) !in files || files[EntryToBlob(last)].Text? then None
      else Some(init.value + [Member(ENTRIES_PREFIX + last, files[EntryToBlob(last)].plain)])
  }

  function Backup(files: Files, subtree: Option<string>, toml: Toml): BackupOutcome {
    var entries := List(files, subtree);
    var root := Resolve(files, "_");
    if entries == [] then NothingToBackUp
    else if !root.Recipients? then NoRecipients
    else
      var manifest := Manifest(FORMAT_VERSION, root.keys, |entries|);
      match EntryMembers(files, entries)
      case None => CannotDecrypt
      case Some(members) => Bundled([Member(MANIFEST_NAME, toml.encode(manifest))] + members)
  }

  method RunBackup(files: Files, subtree: Option<string>, toml: Toml) returns (outcome: BackupOutcome)
    ensures outcome == Backup(files, subtree, toml)
  {
    var entries := List(files, subtree);
    if entries == [] { return NothingToBackUp; }
    assert ValidPath("_") by { SplitWithout("_", '/'); }
    var root := ResolveRecipients(files, "_");
    if !root.Recipients? { return NoRecipients; }
    var manifest := Member(MANIFEST_NAME, toml.encode(Manifest(FORMAT_VERSION, root.keys, |entries|)));
    var members: seq<Member> := [];
    for i := 0 to |entries|
      invariant EntryMembers(files, entries[..i]) == Some(members)
    {
      OneMoreMember(files, entries, i);
      var blob := EntryToBlob(entries[i]);
      if blob !in files || files[blob].Text? {
        FirstFailure(files, entries, i + 1);
        return CannotDecrypt;
      }
      members := members + [Member(ENTRIES_PREFIX + entries[i], files[blob].plain)];
    }
    assert entries[..|entries|] == entries;
    outcome := Bundled([manifest] + members);
  }

  lemma OneMoreMember(files: Files, entries: seq<string>, i: nat)
    requires i < |entries|
    ensures var init, blob := EntryMembers(files, entries[..i]), EntryToBlob(entries[i]);
            EntryMembers(files, entries[..i + 1]) ==
              if init.None? || blob !in files || files[blob].Text? then None
              else Some(init.value + [Member(ENTRIES_PREFIX + entries[i], files[blob].plain)])
  {
    assert entries[..i + 1][..i] == entries[..i] && entries[..i + 1][i] == entries[i];
  }

  lemma {:induction false} FirstFailure(files: Files, entries: seq<string>, k: nat)
    requires k <= |entries| && EntryMembers(files, entries[..k]).None?
    ensures EntryMembers(files, entries).None?
  {
    if k == |entries| {
      assert entries[..k] == entries;
    } else {
      assert entries[..|entries| - 1][..k] == entries[..k];
      FirstFailure(files, entries[..|entries| - 1], k);
    }
  }

  // ----- restore --------------------------------------------------------

  datatype RestoreError =
    | NoGpgId | StoreNotEmpty | DirtyRepository
    | MissingManifest | IncompatibleFormat | BadMember | Failed(error: Error)

  /** Storage and the blobs written so far, and what stopped the reader. */
  datatype Progress = Progress(files: Files, touched: seq<string>, error: Option<RestoreError>)

  function VisitMember(p: Progress, member: Member, nonce: nat): Progress {
    if p.error.Some? then p
    else if !(ENTRIES_PREFIX <= member.name) then p.(error := Some(BadMember))
    else
      var path := member.name[|ENTRIES_PREFIX|..];
      if !ValidPath(path) then p.(error := Some(BadMember))
      else
        var (files, error) := InsertNoCommit(p.files, path, member.data, nonce);
        if error.Some? then p.(error := Some(Failed(error.value)))
        else Progress(files, p.touched + [EntryToBlob(path)], None)
  }

  function VisitMembers(files: Files, members: seq<Member>, nonce: nat -> nat): Progress {
    if members == [] then Progress(files, [], None)
    else VisitMember(VisitMembers(files, members[..|members| - 1], nonce), members[|members| - 1], nonce(|members| - 1))
  }

  function ReadBundle(files: Files, bundle: seq<Member>, toml: Toml, nonce: nat -> nat): Progress {
    if bundle == [] || bundle[0].name != MANIFEST_NAME || toml.decode(bundle[0].data).None? then
      Progress(files, [], Some(MissingManifest))
    else if toml.decode(bundle[0].data).value.formatVersion != FORMAT_VERSION then
      Progress(files, [], Some(IncompatibleFormat))
    else VisitMembers(files, bundle[1..], nonce)
  }

  function Restore(s: State, bundle: seq<Member>, inPlace: bool, toml: Toml, nonce: nat -> nat): (State, Option<RestoreError>) {
    if ".gpg-id" !in s.files then (s, Some(NoGpgId))
    else if !inPlace && List(s.files, None) != [] then (s, Some(StoreNotEmpty))
    else if inPlace && s.repo.busy then (s, Some(DirtyRepository))
    else
      var p := ReadBundle(s.files, bundle, toml, nonce);
      var written := s.(files := p.files);
      if p.error.Some? then (written, p.error)
      else if p.touched == [] then (written, None)
      else if !Resolve(p.files, "_").Recipients? then (written, Some(Failed(ResolveError(Resolve(p.files, "_")))))
      else
        var r := Commit(written, p.touched);
        (r.state, if r.error.Some? then Some(Failed(r.error.value)) else None)
  }

  method VisitAll(store: PasswordStore, members: seq<Member>, nonce: nat -> nat)
    returns (touched: seq<string>, error: Option<RestoreError>)
    modifies store
    ensures Progress(store.files, touched, error) == VisitMembers(old(store.files), members, nonce)
  {
    touched, error := [], None;
    for i := 0 to |members|
      invariant Progress(store.files, touched, error) == VisitMembers(old(store.files), members[..i], nonce)
    {
      assert members[..i + 1][..i] == members[..i];
      if error.None? {
        if !(ENTRIES_PREFIX <= members[i].name) || !ValidPath(members[i].name[|ENTRIES_PREFIX|..]) {
          error := Some(BadMember);
        } else {
          var path := members[i].name[|ENTRIES_PREFIX|..];
          var failure := store.WriteEntry(path, members[i].data, nonce(i));
          if failure.Some? {
            error := Some(Failed(failure.value));
          } else {
            touched := touched + [EntryToBlob(path)];
          }
        }
      }
    }
    assert members[..|members|] == members;
  }

  method RunRestore(store: PasswordStore, bundle: seq<Member>, inPlace: bool, toml: Toml, nonce: nat -> nat)
    returns (error: Option<RestoreError>)
    modifies store, store.vcs
    ensures (store.Value(), error) == Restore(old(store.Value()), bundle, inPlace, toml, nonce)
  {
    if ".gpg-id" !in store.files { return Some(NoGpgId); }
    if !inPlace && List(store.files, None) != [] { return Some(StoreNotEmpty); }
    if inPlace && store.vcs.busy { return Some(DirtyRepository); }
    if bundle == [] || bundle[0].name != MANIFEST_NAME || toml.decode(bundle[0].data).None? {
      return Some(MissingManifest);
    }
    if toml.decode(bundle[0].data).value.formatVersion != FORMAT_VERSION { return Some(IncompatibleFormat); }
    var touched;
    touched, error := VisitAll(store, bundle[1..], nonce);
    if error.Some? || touched == [] { return; }
    assert ValidPath("_") by { SplitWithout("_", '/'); }
    var root := ResolveRecipients(store.files, "_");
    if !root.Recipients? { return Some(Failed(ResolveError(root))); }
    var failure := store.CommitChanges(touched);
    error := if failure.Some? then Some(Failed(failure.value)) else None;
  }

  // ----- what a backup holds --------------------------------------------

  lemma {:induction false} EntryMembersHold(files: Files, entries: seq<string>)
    requires forall e :: e in entries ==> e in Plain(files)
    ensures EntryMembers(files, entries).Some?
    ensures var members := EntryMembers(files, entries).value;
            && |members| == |entries|
            && forall i :: 0 <= i < |entries| ==>
                 members[i] == Member(ENTRIES_PREFIX + entries[i], Plain(files)[entries[i]])
  {
    if entries != [] {
      var init, last := entries[..|entries| - 1], entries[|entries| - 1];
      EntryMembersHold(files, init);
      assert last in entries;
      PlainAt(files, last);
    }
  }

  /** The dictionary a list of members spells out, later members winning. */
  ghost function Held(members: seq<Member>): Plaintexts {
    if members == [] then map[] else
      var last := members[|members| - 1];
      Held(members[..|members| - 1]) +
      if ENTRIES_PREFIX <= last.name then map[last.name[|ENTRIES_PREFIX|..] := last.data] else map[]
  }

  ghost function Selected(m: Plaintexts, subtree: Option<string>): Plaintexts {
    map e | e in m && Under(EntryToBlob(e), subtree) :: m[e]
  }

  lemma {:induction false} HeldByEntries(members: seq<Member>, entries: seq<string>, m: Plaintexts)
    requires |members| == |entries|
    requires forall i :: 0 <= i < |entries| ==> entries[i] in m && members[i] == Member(ENTRIES_PREFIX + entries[i], m[entries[i]])
    ensures Held(members) == map e | e in m && e in entries :: m[e]
  {
    if members != [] {
      var init := entries[..|entries| - 1];
      var last := entries[|entries| - 1];
      HeldByEntries(members[..|members| - 1], init, m);
      assert (ENTRIES_PREFIX + last)[|ENTRIES_PREFIX|..] == last;
      assert entries == init + [last];
      OneMoreKept(m, init, last);
    }
  }

  lemma OneMoreKept(m: Plaintexts, init: seq<string>, last: string)
    requires last in m
    ensures (map e | e in m && e in init + [last] :: m[e]) == (map e | e in m && e in init :: m[e]) + map[last := m[last]]
  {
  }

  /** Every member names an entry. */
  ghost predicate WellNamed(members: seq<Member>) {
    forall i :: 0 <= i < |members| ==>
      ENTRIES_PREFIX <= members[i].name && ValidPath(members[i].name[|ENTRIES_PREFIX|..])
  }

  /** What the reader insists on; it does not compare the manifest's count. */
  ghost predicate WellFormed(bundle: seq<Member>, toml: Toml) {
    && bundle != [] && bundle[0].name == MANIFEST_NAME
    && toml.decode(bundle[0].data).Some?
    && toml.decode(bundle[0].data).value.formatVersion == FORMAT_VERSION
    && WellNamed(bundle[1..])
  }

  lemma ListSelects(files: Files, subtree: Option<string>, e: string)
    requires Keyed(files)
    ensures e in List(files, subtree) <==> e in Plain(files) && Under(EntryToBlob(e), subtree)
    ensures e in List(files, subtree) ==> ValidPath(e)
  {
    PlainAt(files, e);
    EntryIffBlob(files, e);
    if e in Entries(files) { assert KeyedAt(files, e); }
  }

  lemma EntryMembersNamed(files: Files, entries: seq<string>)
    requires forall e :: e in entries ==> e in Plain(files) && ValidPath(e)
    ensures EntryMembers(files, entries).Some? && WellNamed(EntryMembers(files, entries).value)
  {
    EntryMembersHold(files, entries);
    var members := EntryMembers(files, entries).value;
    forall i | 0 <= i < |members|
      ensures ENTRIES_PREFIX <= members[i].name && ValidPath(members[i].name[|ENTRIES_PREFIX|..])
    {
      assert entries[i] in entries;
      assert members[i].name[|ENTRIES_PREFIX|..] == entries[i];
    }
  }

  lemma EntryMembersSelect(files: Files, subtree: Option<string>)
    requires Keyed(files)
    ensures var members := EntryMembers(files, List(files, subtree));
            && members.Some? && |members.value| == |List(files, subtree)|
            && WellNamed(members.value)
            && Held(members.value) == Selected(Plain(files), subtree)
  {
    var entries := List(files, subtree);
    forall e | e in entries ensures e in Plain(files) && ValidPath(e) {
      ListSelects(files, subtree, e);
    }
    EntryMembersNamed(files, entries);
    EntryMembersHold(files, entries);
    HeldByEntries(EntryMembers(files, entries).value, entries, Plain(files));
    SelectedByList(files, subtree);
  }

  lemma SelectedByList(files: Files, subtree: Option<string>)
    requires Keyed(files)
    ensures (map e | e in Plain(files) && e in List(files, subtree) :: Plain(files)[e]) == Selected(Plain(files), subtree)
  {
    forall e ensures e in List(files, subtree) <==> e in Plain(files) && Under(EntryToBlob(e), subtree) {
      ListSelects(files, subtree, e);
    }
  }

  /** A backup of a keyed store succeeds when there is something to back up
      and a root `.gpg-id`, and holds exactly the selected dictionary. */
  lemma BackupHolds(files: Files, subtree: Option<string>, toml: Toml)
    requires Keyed(files) && Faithful(toml)
    ensures var r := Backup(files, subtree, toml);
            && (r.Bundled? <==> List(files, subtree) != [] && Resolve(files, "_").Recipients?)
            && (r.Bundled? ==>
                  && WellFormed(r.members, toml)
                  && toml.decode(r.members[0].data) == Some(Manifest(1, Resolve(files, "_").keys, |r.members| - 1))
                  && |r.members| - 1 == |List(files, subtree)|
                  && (forall i :: 0 <= i < |List(files, subtree)| ==>
                        r.members[i + 1].name == "entries/" + List(files, subtree)[i])
                  && Held(r.members[1..]) == Selected(Plain(files), subtree))
  {
    EntryMembersSelect(files, subtree);
    ListedMembers(files, subtree);
    BundleParts(files, subtree, toml);
  }

  lemma BundleParts(files: Files, subtree: Option<string>, toml: Toml)
    requires EntryMembers(files, List(files, subtree)).Some?
    ensures var r := Backup(files, subtree, toml);
            && (r.Bundled? <==> List(files, subtree) != [] && Resolve(files, "_").Recipients?)
            && (r.Bundled? ==>
                  && r.members != [] && r.members[0].name == "manifest.toml"
                  && r.members[0].data == toml.encode(Manifest(1, Resolve(files, "_").keys, |List(files, subtree)|))
                  && r.members[1..] == EntryMembers(files, List(files, subtree)).value)
  {
  }

  lemma ListedMembers(files: Files, subtree: Option<string>)
    requires Keyed(files) && EntryMembers(files, List(files, subtree)).Some?
    ensures var entries, members := List(files, subtree), EntryMembers(files, List(files, subtree)).value;
            |members| == |entries| && forall i :: 0 <= i < |entries| ==> members[i].name == "entries/" + entries[i]
  {
    forall e | e in List(files, subtree) ensures e in Plain(files) {
      ListSelects(files, subtree, e);
    }
    EntryMembersHold(files, List(files, subtree));
  }

  // ----- what a restore does --------------------------------------------

  ghost predicate AllResolve(files: Files, entries: set<string>) {
    forall e :: e in entries ==> Resolve(files, e).Recipients?
  }

  /** Writing every entry there is leaves exactly what was written. */
  lemma WroteEverything(before: Files, after: Files, held: Plaintexts)
    requires Wrote(before, after, held) && Entries(before) <= held.Keys
    ensures Plain(after) == held && Keyed(after)
  {
    forall e | e in Plain(before) ensures e in held {
      PlainAt(before, e);
      EntryIffBlob(before, e);
    }
    assert Plain(before) + held == held;
  }

  lemma HeldLast(members: seq<Member>)
    requires members != [] && WellNamed(members)
    ensures var init, last := members[..|members| - 1], members[|members| - 1];
            WellNamed(init) && Held(members) == Held(init)[last.name[|ENTRIES_PREFIX|..] := last.data]
  {
  }

  /** Reading well-named members succeeds exactly when each of their entries
      has recipients, and then writes what they hold and nothing else. */
  lemma {:induction false} VisitRefines(files: Files, members: seq<Member>, nonce: nat -> nat)
    requires WellNamed(members)
    ensures var p := VisitMembers(files, members, nonce);
            && (p.error.None? <==> AllResolve(files, Held(members).Keys))
            && (p.error.None? ==>
                  && |p.touched| == |members|
                  && Wrote(files, p.files, Held(members))
                  && (forall q :: q !in p.touched ==> FileAt(p.files, q) == FileAt(files, q)))
  {
    if members != [] {
      var init := members[..|members| - 1];
      HeldLast(members);
      VisitRefines(files, init, nonce);
      LastVisitRefines(files, members, nonce);
    }
  }

  lemma LastVisitRefines(files: Files, members: seq<Member>, nonce: nat -> nat)
    requires members != [] && WellNamed(members)
    requires var init := members[..|members| - 1];
             var p := VisitMembers(files, init, nonce);
             && (p.error.None? <==> AllResolve(files, Held(init).Keys))
             && (p.error.None? ==>
                   && |p.touched| == |init|
                   && Wrote(files, p.files, Held(init))
                   && (forall q :: q !in p.touched ==> FileAt(p.files, q) == FileAt(files, q)))
    ensures var p := VisitMembers(files, members, nonce);
            && (p.error.None? <==> AllResolve(files, Held(members).Keys))
            && (p.error.None? ==>
                  && |p.touched| == |members|
                  && Wrote(files, p.files, Held(members))
                  && (forall q :: q !in p.touched ==> FileAt(p.files, q) == FileAt(files, q)))
  {
    var init, last := members[..|members| - 1], members[|members| - 1];
    HeldLast(members);
    var before := VisitMembers(files, init, nonce);
    var path := last.name[|ENTRIES_PREFIX|..];
    assert Held(members).Keys == Held(init).Keys + {path};
    if before.error.None? {
      assert Resolve(before.files, path) == Resolve(files, path);
      var after := VisitMembers(files, members, nonce);
      if after.error.None? {
        WroteOneMore(files, before.files, after.files, Held(init), path, last.data, nonce(|members| - 1));
      }
    }
  }

  /** A successful restore read the whole bundle and committed what it wrote. */
  lemma RestoreUnfolds(s: State, bundle: seq<Member>, inPlace: bool, toml: Toml, nonce: nat -> nat)
    requires WellFormed(bundle, toml)
    requires Restore(s, bundle, inPlace, toml, nonce).1.None?
    ensures var p := VisitMembers(s.files, bundle[1..], nonce);
            && p.error.None?
            && (p.touched == [] ==> Restore(s, bundle, inPlace, toml, nonce).0 == s.(files := p.files))
            && (p.touched != [] ==> Restore(s, bundle, inPlace, toml, nonce).0 == Commit(s.(files := p.files), p.touched).state)
            && (p.touched != [] ==> Commit(s.(files := p.files), p.touched).error.None?)
  {
  }

  /** Restoring a well-formed bundle.  On success the dictionary is the old
      one overridden by the bundle's entries, each keyed to its current
      recipients, and the repository agrees again, at most one commit later. */
  lemma RestoreRefines(s: State, bundle: seq<Member>, inPlace: bool, toml: Toml, nonce: nat -> nat)
    requires WellFormed(bundle, toml)
    requires Restore(s, bundle, inPlace, toml, nonce).1.None?
    ensures var r := Restore(s, bundle, inPlace, toml, nonce).0;
            && Wrote(s.files, r.files, Held(bundle[1..]))
            && (Agree(s) ==> Agree(r) && (r.repo == s.repo || OneCommit(s.repo, r.repo)))
  {
    RestoreUnfolds(s, bundle, inPlace, toml, nonce);
    VisitRefines(s.files, bundle[1..], nonce);
    var p := VisitMembers(s.files, bundle[1..], nonce);
    if Agree(s) {
      if p.touched == [] { UnwrittenAgrees(s, p.files); } else { CommitAgrees(s, p.files, p.touched); }
    }
  }

  lemma UnwrittenAgrees(s: State, files: Files)
    requires Agree(s) && forall q :: FileAt(files, q) == FileAt(s.files, q)
    ensures Agree(s.(files := files))
  {
  }

  /** When a restore succeeds.  A bundle without entries needs no recipients and
      no repository. */
  lemma RestoreSucceedsExactly(s: State, bundle: seq<Member>, inPlace: bool, toml: Toml, nonce: nat -> nat)
    requires WellFormed(bundle, toml)
    ensures Restore(s, bundle, inPlace, toml, nonce).1.None? <==>
              && ".gpg-id" in s.files
              && (inPlace || Entries(s.files) == {})
              && !(inPlace && s.repo.busy)
              && AllResolve(s.files, Held(bundle[1..]).Keys)
              && (|bundle| > 1 ==> Resolve(s.files, "_").Recipients? && !(s.repo.busy && s.repo.initialised))
  {
    VisitedRoot(s.files, bundle[1..], nonce);
    NoEntriesExactly(s.files);
    RestoreSucceedsWhenVisited(s, bundle, inPlace, toml, nonce);
  }

  lemma VisitedRoot(files: Files, members: seq<Member>, nonce: nat -> nat)
    requires WellNamed(members)
    ensures var p := VisitMembers(files, members, nonce);
            && (p.error.None? <==> AllResolve(files, Held(members).Keys))
            && (p.error.None? ==> (p.touched == [] <==> members == []) && Resolve(p.files, "_") == Resolve(files, "_"))
  {
    VisitRefines(files, members, nonce);
  }

  lemma RestoreSucceedsWhenVisited(s: State, bundle: seq<Member>, inPlace: bool, toml: Toml, nonce: nat -> nat)
    requires WellFormed(bundle, toml)
    ensures var p := VisitMembers(s.files, bundle[1..], nonce);
            Restore(s, bundle, inPlace, toml, nonce).1.None? <==>
              && ".gpg-id" in s.files
              && (inPlace || List(s.files, None) == [])
              && !(inPlace && s.repo.busy)
              && p.error.None?
              && (p.touched != [] ==> Resolve(p.files, "_").Recipients? && !(s.repo.busy && s.repo.initialised))
  {
  }

  /** When a restore refuses to begin, with which error; it then changes nothing. */
  lemma RestoreRefuses(s: State, bundle: seq<Member>, inPlace: bool, toml: Toml, nonce: nat -> nat)
    ensures var (r, error) := Restore(s, bundle, inPlace, toml, nonce);
            var readable := bundle != [] && bundle[0].name == "manifest.toml" && toml.decode(bundle[0].data).Some?;
            var allowed, idle := inPlace || Entries(s.files) == {}, !(inPlace && s.repo.busy);
            && (error == Some(NoGpgId) <==> ".gpg-id" !in s.files)
            && (error == Some(StoreNotEmpty) <==> ".gpg-id" in s.files && !allowed)
            && (error == Some(DirtyRepository) <==> ".gpg-id" in s.files && allowed && !idle)
            && (error == Some(MissingManifest) <==> ".gpg-id" in s.files && allowed && idle && !readable)
            && (error == Some(IncompatibleFormat) <==>
                  ".gpg-id" in s.files && allowed && idle && readable && toml.decode(bundle[0].data).value.formatVersion != 1)
            && (error.Some? && error.value in {NoGpgId, StoreNotEmpty, DirtyRepository, MissingManifest, IncompatibleFormat} ==>
                  r == s)
  {
    NoEntriesExactly(s.files);
    if bundle != [] { VisitErrors(s.files, bundle[1..], nonce); }
  }

  lemma NoEntriesExactly(files: Files)
    ensures List(files, None) == [] <==> Entries(files) == {}
  {
    var entries := List(files, None);
    assert forall e :: e in entries <==> e in Entries(files);
    if entries != [] { assert entries[0] in entries; }
  }

  lemma {:induction false} VisitErrors(files: Files, members: seq<Member>, nonce: nat -> nat)
    ensures var error := VisitMembers(files, members, nonce).error;
            error.None? || error.value.BadMember? || error.value.Failed?
  {
    if members != [] { VisitErrors(files, members[..|members| - 1], nonce); }
  }

  lemma {:induction false} VisitStops(files: Files, members: seq<Member>, k: nat, nonce: nat -> nat)
    requires k <= |members| && VisitMembers(files, members[..k], nonce).error.Some?
    ensures VisitMembers(files, members, nonce) == VisitMembers(files, members[..k], nonce)
  {
    if k == |members| {
      assert members[..k] == members;
    } else {
      assert members[..|members| - 1][..k] == members[..k];
      VisitStops(files, members[..|members| - 1], k, nonce);
    }
  }

  /** The first member whose name is no entry's stops the reader there, with
      the members before it written. */
  lemma BadMemberStops(files: Files, members: seq<Member>, k: nat, nonce: nat -> nat)
    requires k < |members| && WellNamed(members[..k]) && AllResolve(files, Held(members[..k]).Keys)
    requires forall path :: members[k].name == "entries/" + path ==> !ValidPath(path)
    ensures var p := VisitMembers(files, members, nonce);
            && p.error == Some(BadMember)
            && p.files == VisitMembers(files, members[..k], nonce).files
            && Wrote(files, p.files, Held(members[..k]))
  {
    VisitRefines(files, members[..k], nonce);
    BadMemberIs(files, members, k, nonce);
    VisitStops(files, members, k + 1, nonce);
  }

  lemma BadMemberIs(files: Files, members: seq<Member>, k: nat, nonce: nat -> nat)
    requires k < |members| && VisitMembers(files, members[..k], nonce).error.None?
    requires forall path :: members[k].name == "entries/" + path ==> !ValidPath(path)
    ensures VisitMembers(files, members[..k + 1], nonce) == VisitMembers(files, members[..k], nonce).(error := Some(BadMember))
  {
    assert members[..k + 1][..k] == members[..k] && members[..k + 1][k] == members[k];
    if ENTRIES_PREFIX <= members[k].name {
      assert members[k].name == "entries/" + members[k].name[|ENTRIES_PREFIX|..];
    }
  }

  lemma BackupHoldsAll(files: Files, toml: Toml)
    requires Keyed(files) && Faithful(toml) && Backup(files, None, toml).Bundled?
    ensures var bundle := Backup(files, None, toml).members;
            && WellFormed(bundle, toml) && |bundle| > 1
            && Held(bundle[1..]) == Plain(files)
    ensures Plain(files).Keys == Entries(files)
  {
    BackupHolds(files, None, toml);
    assert Selected(Plain(files), None) == Plain(files);
    forall e ensures e in Plain(files) <==> e in Entries(files) {
      PlainAt(files, e);
      EntryIffBlob(files, e);
      if e in Entries(files) { assert KeyedAt(files, e); }
    }
    EntryMembersSelect(files, None);
  }

  /** Restoring a backup over a store with no entries of its own beyond those
      backed up. */
  lemma RestoreWhole(source: Files, s: State, inPlace: bool, toml: Toml, nonce: nat -> nat)
    requires Keyed(source) && Faithful(toml) && Backup(source, None, toml).Bundled?
    requires Entries(s.files) <= Entries(source)
    requires var error := Restore(s, Backup(source, None, toml).members, inPlace, toml, nonce).1; error.None?
    ensures var r := Restore(s, Backup(source, None, toml).members, inPlace, toml, nonce).0;
            && Plain(r.files) == Plain(source) && Keyed(r.files)
            && (Agree(s) ==> Agree(r) && (r.repo == s.repo || OneCommit(s.repo, r.repo)))
  {
    BackupHoldsAll(source, toml);
    var bundle := Backup(source, None, toml).members;
    RestoreRefines(s, bundle, inPlace, toml, nonce);
    WroteEverything(s.files, Restore(s, bundle, inPlace, toml, nonce).0.files, Plain(source));
  }

  /** A backup of a whole store restores into any initialised store without
      entries as the same dictionary, keyed to the new store's recipients. */
  lemma BackupThenRestore(source: Files, target: State, toml: Toml, nonce: nat -> nat)
    requires Keyed(source) && Faithful(toml) && Backup(source, None, toml).Bundled?
    requires Entries(target.files) == {}
    requires ".gpg-id" in target.files && AllResolve(target.files, Entries(source) + {"_"})
    requires !(target.repo.initialised && target.repo.busy)
    ensures var (r, error) := Restore(target, Backup(source, None, toml).members, false, toml, nonce);
            error.None? && Plain(r.files) == Plain(source) && Keyed(r.files)
  {
    BackupHoldsAll(source, toml);
    RestoreSucceedsExactly(target, Backup(source, None, toml).members, false, toml, nonce);
    RestoreWhole(source, target, false, toml, nonce);
  }

  /** Key rotation.  The `.gpg-id` files of a store may have changed since its
      backup in any way that still names recipients for every entry; restoring
      in place keeps the dictionary, re-keys every entry to its current
      recipients and adds at most one commit. */
  lemma RotateInPlace(source: Files, s: State, toml: Toml, nonce: nat -> nat)
    requires Keyed(source) && Faithful(toml) && Backup(source, None, toml).Bundled?
    requires Agree(s) && !s.repo.busy
    requires Entries(s.files) == Entries(source)
    requires ".gpg-id" in s.files && AllResolve(s.files, Entries(source) + {"_"})
    ensures var (r, error) := Restore(s, Backup(source, None, toml).members, true, toml, nonce);
            && error.None? && Plain(r.files) == Plain(source) && Keyed(r.files)
            && Agree(r) && (r.repo == s.repo || OneCommit(s.repo, r.repo))
  {
    BackupHoldsAll(source, toml);
    RestoreSucceedsExactly(s, Backup(source, None, toml).members, true, toml, nonce);
    RestoreWhole(source, s, true, toml, nonce);
  }
}
