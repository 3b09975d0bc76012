/** The password-store orchestrator over a blob map and a repository. */
module Store {
  import opened Options
  import opened Order
  import opened Text
  import opened RelPaths
  import opened GpgId
  import opened Vcs

  datatype Error = NotFound | AlreadyExists | NotInitialized | GpgIdMalformed | CryptoFailed | DirtyTree

  datatype State = State(files: Files, repo: Repo)

  /** The new state, and the error if the operation reports one. */
  datatype Result = Result(state: State, error: Option<Error>)

  type Plaintexts = map<string, Bytes>

  // ----- views ----------------------------------------------------------

  function Entries(files: Files): set<string> {
    set b | b in files && BlobToEntry(b).Some? :: BlobToEntry(b).value
  }

  predicate Under(entry: string, subpath: Option<string>) {
    subpath.Some? ==> subpath.value + "/" <= entry
  }

  function List(files: Files, subpath: Option<string>): seq<string> {
    Sorted(set e | e in Entries(files) && Under(EntryToBlob(e), subpath))
  }

  /** The dictionary a user sees: every entry that decrypts. */
  ghost function Plain(files: Files): Plaintexts {
    map e | e in Entries(files) && EntryToBlob(e) in files && files[EntryToBlob(e)].Cipher? ::
      files[EntryToBlob(e)].plain
  }

  ghost predicate KeyedAt(files: Files, e: string) {
    && EntryToBlob(e) in files
    && files[EntryToBlob(e)].Cipher?
    && Resolve(files, e).Recipients?
    && files[EntryToBlob(e)].to == set k | k in Resolve(files, e).keys
  }

  /** Every entry is encrypted to exactly the recipients its nearest `.gpg-id`
      names now. */
  ghost predicate Keyed(files: Files) {
    forall e :: e in Entries(files) ==> KeyedAt(files, e)
  }

  /** Index, HEAD tree and storage hold the same `.gpg` blobs. */
  ghost predicate Agree(s: State) {
    && s.repo.initialised
    && forall p :: EndsWith(p, ".gpg") ==>
         FileAt(s.repo.index, p) == FileAt(s.files, p) == FileAt(HeadTree(s.repo), p)
  }

  lemma EntryIffBlob(files: Files, e: string)
    ensures e in Entries(files) <==> ValidPath(e) && EntryToBlob(e) in files
  {
    EntryBlobRoundTrip(e);
  }

  lemma ResolveFrame(files: Files, others: Files, e: string)
    requires forall p :: !EndsWith(p, ".gpg") ==> FileAt(files, p) == FileAt(others, p)
    ensures Resolve(files, e) == Resolve(others, e)
  {
    forall p | !EndsWith(p, ".gpg")
      ensures p in files <==> p in others
      ensures p in files ==> files[p] == others[p]
    {
      assert FileAt(files, p) == FileAt(others, p);
    }
    ResolveIgnoresBlobs(files, others, Parent(e));
  }

  lemma PlainAt(files: Files, d: string)
    ensures d in Plain(files) <==> ValidPath(d) && EntryToBlob(d) in files && files[EntryToBlob(d)].Cipher?
    ensures d in Plain(files) ==> Plain(files)[d] == files[EntryToBlob(d)].plain
  {
    EntryIffBlob(files, d);
  }

  /** Files that differ in one entry's blob only. */
  ghost predicate SameBut(files: Files, others: Files, e: string) {
    forall p :: p != EntryToBlob(e) ==> FileAt(files, p) == FileAt(others, p)
  }

  lemma OtherEntries(files: Files, others: Files, e: string, d: string)
    requires SameBut(files, others, e)
    ensures Resolve(files, d) == Resolve(others, d)
    ensures d != e ==> KeyedAt(files, d) == KeyedAt(others, d)
    ensures d != e ==> (d in Entries(files) <==> d in Entries(others))
    ensures d != e ==> (d in Plain(files) <==> d in Plain(others))
    ensures d != e && d in Plain(files) ==> Plain(files)[d] == Plain(others)[d]
  {
    forall p | !EndsWith(p, ".gpg") ensures FileAt(files, p) == FileAt(others, p) {
      assert EndsWith(EntryToBlob(e), ".gpg");
    }
    ResolveFrame(files, others, d);
    if d != e {
      assert EntryToBlob(d)[..|d|] == d && EntryToBlob(e)[..|e|] == e;
      assert FileAt(files, EntryToBlob(d)) == FileAt(others, EntryToBlob(d));
      PlainAt(files, d);
      PlainAt(others, d);
      EntryIffBlob(files, d);
      EntryIffBlob(others, d);
    }
  }

  lemma OtherKeys(files: Files, others: Files, e: string)
    requires SameBut(files, others, e)
    ensures forall d :: Resolve(files, d) == Resolve(others, d)
    ensures forall d :: d != e ==> KeyedAt(files, d) == KeyedAt(others, d)
  {
    forall d ensures Resolve(files, d) == Resolve(others, d) && (d != e ==> KeyedAt(files, d) == KeyedAt(others, d)) {
      OtherEntries(files, others, e, d);
    }
  }

  lemma OtherViews(files: Files, others: Files, e: string)
    requires SameBut(files, others, e)
    ensures Entries(files) - {e} == Entries(others) - {e}
    ensures Plain(files) - {e} == Plain(others) - {e}
  {
    forall d | d != e
      ensures d in Entries(files) <==> d in Entries(others)
      ensures d in Plain(files) <==> d in Plain(others)
      ensures d in Plain(files) ==> Plain(files)[d] == Plain(others)[d]
    {
      OtherEntries(files, others, e, d);
    }
    SameMinus(Plain(files), Plain(others), e);
  }

  lemma SameMinus(m: Plaintexts, n: Plaintexts, e: string)
    requires forall d :: d != e ==> (d in m <==> d in n)
    requires forall d :: d != e && d in m ==> m[d] == n[d]
    ensures m - {e} == n - {e}
  {
  }

  /** Writing one blob changes one dictionary entry and no other keying. */
  lemma WriteBlob(files: Files, e: string, blob: Blob)
    requires ValidPath(e) && blob.Cipher?
    ensures var after := files[EntryToBlob(e) := blob];
            && Entries(after) == Entries(files) + {e}
            && Plain(after) == Plain(files)[e := blob.plain]
            && (forall d :: Resolve(after, d) == Resolve(files, d))
            && (forall d :: d != e ==> KeyedAt(after, d) == KeyedAt(files, d))
  {
    var after := files[EntryToBlob(e) := blob];
    OtherKeys(after, files, e);
    OtherViews(after, files, e);
    EntryIffBlob(after, e);
    PlainAt(after, e);
    assert Entries(after) == (Entries(after) - {e}) + {e};
    assert Plain(after) == (Plain(after) - {e})[e := blob.plain];
  }

  lemma RemoveBlob(files: Files, e: string)
    requires ValidPath(e)
    ensures var after := files - {EntryToBlob(e)};
            && Entries(after) == Entries(files) - {e}
            && Plain(after) == Plain(files) - {e}
            && (forall d :: Resolve(after, d) == Resolve(files, d))
            && (forall d :: d != e ==> KeyedAt(after, d) == KeyedAt(files, d))
  {
    var after := files - {EntryToBlob(e)};
    OtherKeys(after, files, e);
    OtherViews(after, files, e);
    EntryIffBlob(after, e);
    PlainAt(after, e);
    assert Entries(after) == Entries(after) - {e};
    assert Plain(after) == Plain(after) - {e};
  }

  // ----- operations -----------------------------------------------------

  function ResolveError(r: Resolved): Error
    requires !r.Recipients?
  {
    if r.Missing? then NotInitialized else GpgIdMalformed
  }

  function Commit(s: State, paths: seq<string>): Result {
    var (repo, ok) := CommitPaths(s.repo, s.files, paths);
    Result(s.(repo := repo), if ok then None else Some(DirtyTree))
  }

  /** `insert_no_commit`: encrypt to the current recipients and write. */
  function InsertNoCommit(files: Files, entry: string, plaintext: Bytes, nonce: nat): (Files, Option<Error>) {
    var r := Resolve(files, entry);
    if !r.Recipients? then (files, Some(ResolveError(r)))
    else (files[EntryToBlob(entry) := Encrypt(plaintext, r.keys, nonce)], None)
  }

  function Insert(s: State, entry: string, plaintext: Bytes, overwrite: bool, nonce: nat): Result {
    if !overwrite && EntryToBlob(entry) in s.files then Result(s, Some(AlreadyExists))
    else
      var (files, error) := InsertNoCommit(s.files, entry, plaintext, nonce);
      if error.Some? then Result(s, error)
      else Commit(s.(files := files), [EntryToBlob(entry)])
  }

  /** The lists agree up to order; a repeated recipient counts twice. */
  predicate RecipientsEqual(a: seq<KeyId>, b: seq<KeyId>) {
    multiset(a) == multiset(b)
  }

  lemma RecipientsEqualSameReaders(a: seq<KeyId>, b: seq<KeyId>)
    requires RecipientsEqual(a, b)
    ensures (set k | k in a) == set k | k in b
  {
    forall k ensures k in a <==> k in b {
      assert k in a <==> k in multiset(a);
      assert k in b <==> k in multiset(b);
    }
  }

  lemma {:induction false} CountedOnce(a: seq<KeyId>, k: KeyId)
    requires forall i, j :: 0 <= i < j < |a| ==> a[i] != a[j]
    ensures multiset(a)[k] == if k in a then 1 else 0
  {
    if a != [] {
      var init, last := a[..|a| - 1], a[|a| - 1];
      assert a == init + [last];
      CountedOnce(init, k);
    }
  }

  /** Lists without repetition are equal exactly when they are the same set. */
  lemma RecipientsEqualExactly(a: seq<KeyId>, b: seq<KeyId>)
    requires forall i, j :: 0 <= i < j < |a| ==> a[i] != a[j]
    requires forall i, j :: 0 <= i < j < |b| ==> b[i] != b[j]
    ensures RecipientsEqual(a, b) <==> forall k :: k in a <==> k in b
  {
    forall k ensures multiset(a)[k] == multiset(b)[k] <==> (k in a <==> k in b) {
      CountedOnce(a, k);
      CountedOnce(b, k);
    }
  }

  /** A repeated recipient is enough to tell two lists of one set apart. */
  lemma RepeatedRecipientDiffers(k: KeyId)
    ensures !RecipientsEqual([k, k], [k]) && (set x | x in [k, k]) == set x | x in [k]
  {
    assert |multiset([k, k])| == 2 && |multiset([k])| == 1;
    assert forall x :: x in [k, k] <==> x in [k];
  }

  function TransferBlob(files: Files, from: string, to: string, overwrite: bool, nonce: nat): (Files, Option<Error>) {
    if !overwrite && EntryToBlob(to) in files then (files, Some(AlreadyExists))
    else if EntryToBlob(from) !in files then (files, Some(NotFound))
    else
      var ciphertext := files[EntryToBlob(from)];
      var source, target := Resolve(files, from), Resolve(files, to);
      if !source.Recipients? then (files, Some(ResolveError(source)))
      else if !target.Recipients? then (files, Some(ResolveError(target)))
      else if RecipientsEqual(source.keys, target.keys) then (files[EntryToBlob(to) := ciphertext], None)
      else if ciphertext.Text? then (files, Some(CryptoFailed))
      else (files[EntryToBlob(to) := Encrypt(ciphertext.plain, target.keys, nonce)], None)
  }

  function Copy(s: State, from: string, to: string, overwrite: bool, nonce: nat): Result {
    var (files, error) := TransferBlob(s.files, from, to, overwrite, nonce);
    if error.Some? then Result(s, error)
    else Commit(s.(files := files), [EntryToBlob(to)])
  }

  function Rename(s: State, from: string, to: string, overwrite: bool, nonce: nat): Result {
    if from == to then Result(s, None)
    else
      var (files, error) := TransferBlob(s.files, from, to, overwrite, nonce);
      if error.Some? then Result(s, error)
      else Commit(s.(files := files - {EntryToBlob(from)}), [EntryToBlob(from), EntryToBlob(to)])
  }

  function Remove(s: State, entry: string): Result {
    if EntryToBlob(entry) !in s.files then Result(s, Some(NotFound))
    else Commit(s.(files := s.files - {EntryToBlob(entry)}), [EntryToBlob(entry)])
  }

  function Blobs(entries: seq<string>): seq<string> {
    seq(|entries|, i requires 0 <= i < |entries| => EntryToBlob(entries[i]))
  }

  function RemoveAll(files: Files, entries: seq<string>): Files {
    if entries == [] then files
    else RemoveAll(files, entries[..|entries| - 1]) - {EntryToBlob(entries[|entries| - 1])}
  }

  function RemoveRecursive(s: State, prefix: string): Result {
    var entries := List(s.files, Some(prefix));
    if entries == [] then Result(s, Some(NotFound))
    else Commit(s.(files := RemoveAll(s.files, entries)), Blobs(entries))
  }

  // ----- the dictionary they refine -------------------------------------

  datatype Op =
    | DoInsert(entry: string, plaintext: Bytes, overwrite: bool, nonce: nat)
    | DoCopy(from: string, to: string, overwrite: bool, nonce: nat)
    | DoRename(from: string, to: string, overwrite: bool, nonce: nat)
    | DoRemove(entry: string)
    | DoRemoveRecursive(prefix: string)

  ghost predicate ValidOp(op: Op) {
    match op
    case DoInsert(entry, _, _, _) => ValidPath(entry)
    case DoCopy(from, to, _, _) => ValidPath(from) && ValidPath(to)
    case DoRename(from, to, _, _) => ValidPath(from) && ValidPath(to)
    case DoRemove(entry) => ValidPath(entry)
    case DoRemoveRecursive(prefix) => ValidPath(prefix)
  }

  function Apply(s: State, op: Op): Result {
    match op
    case DoInsert(entry, plaintext, overwrite, nonce) => Insert(s, entry, plaintext, overwrite, nonce)
    case DoCopy(from, to, overwrite, nonce) => Copy(s, from, to, overwrite, nonce)
    case DoRename(from, to, overwrite, nonce) => Rename(s, from, to, overwrite, nonce)
    case DoRemove(entry) => Remove(s, entry)
    case DoRemoveRecursive(prefix) => RemoveRecursive(s, prefix)
  }

  /** The same update on a plain map, or the error it is refused with. */
  ghost function Dictionary(m: Plaintexts, op: Op): (Plaintexts, Option<Error>) {
    match op
    case DoInsert(entry, plaintext, overwrite, _) =>
      if !overwrite && entry in m then (m, Some(AlreadyExists)) else (m[entry := plaintext], None)
    case DoCopy(from, to, overwrite, _) =>
      if !overwrite && to in m then (m, Some(AlreadyExists))
      else if from !in m then (m, Some(NotFound))
      else (m[to := m[from]], None)
    case DoRename(from, to, overwrite, _) =>
      if from == to then (m, None)
      else if !overwrite && to in m then (m, Some(AlreadyExists))
      else if from !in m then (m, Some(NotFound))
      else (m[to := m[from]] - {from}, None)
    case DoRemove(entry) =>
      if entry !in m then (m, Some(NotFound)) else (m - {entry}, None)
    case DoRemoveRecursive(prefix) =>
      if Beneath(m, prefix) == {} then (m, Some(NotFound)) else (m - Beneath(m, prefix), None)
  }

  /** What the entries and the dictionary say of one path in a keyed store. */
  lemma KeyedEntries(files: Files, e: string)
    requires Keyed(files) && ValidPath(e)
    ensures e in Plain(files) <==> EntryToBlob(e) in files
    ensures e in Plain(files) ==> KeyedAt(files, e) && Plain(files)[e] == files[EntryToBlob(e)].plain
  {
    EntryIffBlob(files, e);
    if EntryToBlob(e) in files { assert KeyedAt(files, e); }
  }

  /** The entries in `changed` are keyed to their recipients afterwards; no
      other entry's keying and no recipient list changes. */
  ghost predicate Rekeyed(before: Files, after: Files, changed: set<string>) {
    && (forall d :: Resolve(after, d) == Resolve(before, d))
    && (forall d :: d in changed ==> KeyedAt(after, d))
    && (forall d :: d !in changed ==> KeyedAt(after, d) == KeyedAt(before, d))
  }

  lemma RekeyedMore(before: Files, mid: Files, after: Files, changed: set<string>, more: set<string>)
    requires Rekeyed(before, mid, changed) && Rekeyed(mid, after, more)
    ensures Rekeyed(before, after, changed + more)
  {
    forall d ensures Resolve(after, d) == Resolve(before, d) {
      assert Resolve(after, d) == Resolve(mid, d);
    }
    forall d ensures if d in changed + more then KeyedAt(after, d) else KeyedAt(after, d) == KeyedAt(before, d) {
      if d !in more { assert KeyedAt(after, d) == KeyedAt(mid, d); }
    }
  }

  lemma InsertRefines(files: Files, entry: string, plaintext: Bytes, nonce: nat)
    requires ValidPath(entry)
    ensures var (after, error) := InsertNoCommit(files, entry, plaintext, nonce);
            && (error.Some? ==> after == files)
            && (error.None? <==> Resolve(files, entry).Recipients?)
            && (error.None? ==>
                  && Plain(after) == Plain(files)[entry := plaintext]
                  && Entries(after) == Entries(files) + {entry}
                  && Rekeyed(files, after, {entry}))
  {
    var r := Resolve(files, entry);
    if r.Recipients? {
      WriteBlob(files, entry, Encrypt(plaintext, r.keys, nonce));
    }
  }

  /** `after` adds exactly the held entries, keyed to their current
      recipients. */
  ghost predicate Wrote(before: Files, after: Files, held: Plaintexts) {
    && Plain(after) == Plain(before) + held
    && Entries(after) == Entries(before) + held.Keys
    && Rekeyed(before, after, held.Keys)
  }

  lemma OverrideUpdate(m: Plaintexts, held: Plaintexts, path: string, data: Bytes)
    ensures (m + held)[path := data] == m + held[path := data]
    ensures held[path := data].Keys == held.Keys + {path}
  {
  }

  lemma WroteOneMore(before: Files, mid: Files, after: Files, held: Plaintexts, path: string, data: Bytes, nonce: nat)
    requires ValidPath(path) && Wrote(before, mid, held)
    requires InsertNoCommit(mid, path, data, nonce) == (after, None)
    ensures Wrote(before, after, held[path := data])
  {
    InsertRefines(mid, path, data, nonce);
    OverrideUpdate(Plain(before), held, path, data);
    assert Entries(before) + held.Keys + {path} == Entries(before) + (held.Keys + {path});
    RekeyedMore(before, mid, after, held.Keys, {path});
  }

  /** A transfer in any store, keyed or not: what it needs of the three files it
      looks at, and that a source which is no ciphertext is only copied as it is. */
  lemma TransferFailsExactly(files: Files, from: string, to: string, overwrite: bool, nonce: nat)
    ensures var (after, error) := TransferBlob(files, from, to, overwrite, nonce);
            var taken, present := !overwrite && EntryToBlob(to) in files, EntryToBlob(from) in files;
            var source, target := Resolve(files, from), Resolve(files, to);
            && (error == Some(AlreadyExists) <==> taken)
            && (error == Some(NotFound) <==> !taken && !present)
            && (error == Some(NotInitialized) <==>
                  !taken && present && (source.Missing? || (source.Recipients? && target.Missing?)))
            && (error == Some(GpgIdMalformed) <==>
                  !taken && present && (source.Malformed? || (source.Recipients? && target.Malformed?)))
            && (error == Some(CryptoFailed) <==>
                  && !taken && present && files[EntryToBlob(from)].Text? && source.Recipients? && target.Recipients?
                  && multiset(source.keys) != multiset(target.keys))
            && error != Some(DirtyTree)
            && (error.Some? ==> after == files)
            && (error.None? && files[EntryToBlob(from)].Text? ==>
                  after == files[EntryToBlob(to) := files[EntryToBlob(from)]])
  {
  }

  /** A transfer fails exactly when the destination is taken, the source is
      missing, or the destination has no recipients.  Otherwise it copies the
      bytes when the recipient lists are equal, encrypts them anew when they
      are not, and keeps the keying either way. */
  lemma TransferRefines(files: Files, from: string, to: string, overwrite: bool, nonce: nat)
    requires Keyed(files) && ValidPath(from) && ValidPath(to)
    ensures var (after, error) := TransferBlob(files, from, to, overwrite, nonce);
            var taken, target := !overwrite && to in Plain(files), Resolve(files, to);
            && (error == Some(AlreadyExists) <==> taken)
            && (error == Some(NotFound) <==> !taken && from !in Plain(files))
            && (error == Some(NotInitialized) <==> !taken && from in Plain(files) && target.Missing?)
            && (error == Some(GpgIdMalformed) <==> !taken && from in Plain(files) && target.Malformed?)
            && (error.None? <==> !taken && from in Plain(files) && target.Recipients?)
            && (error.Some? ==> after == files)
            && (error.None? ==>
                  && Keyed(after)
                  && Plain(after) == Plain(files)[to := Plain(files)[from]]
                  && after[EntryToBlob(to)] ==
                       if RecipientsEqual(Resolve(files, from).keys, target.keys) then files[EntryToBlob(from)]
                       else Encrypt(Plain(files)[from], target.keys, nonce))
  {
    KeyedEntries(files, from);
    KeyedEntries(files, to);
    var (after, error) := TransferBlob(files, from, to, overwrite, nonce);
    if error.None? {
      WriteBlob(files, to, after[EntryToBlob(to)]);
      if RecipientsEqual(Resolve(files, from).keys, Resolve(files, to).keys) {
        RecipientsEqualSameReaders(Resolve(files, from).keys, Resolve(files, to).keys);
      }
      assert KeyedAt(after, to);
    }
  }

  /** `after` has lost exactly the entries in `gone`. */
  ghost predicate Dropped(before: Files, after: Files, gone: set<string>) {
    && Plain(after) == Plain(before) - gone
    && Entries(after) == Entries(before) - gone
    && forall d :: d !in gone ==> KeyedAt(after, d) == KeyedAt(before, d)
  }

  lemma DroppedOneMore(before: Files, mid: Files, gone: set<string>, e: string)
    requires ValidPath(e) && Dropped(before, mid, gone)
    ensures Dropped(before, mid - {EntryToBlob(e)}, gone + {e})
  {
    RemoveBlob(mid, e);
    assert Plain(before) - gone - {e} == Plain(before) - (gone + {e});
    assert Entries(before) - gone - {e} == Entries(before) - (gone + {e});
  }

  lemma {:induction false} RemoveAllRefines(files: Files, entries: seq<string>)
    requires forall e :: e in entries ==> ValidPath(e)
    ensures Dropped(files, RemoveAll(files, entries), set e | e in entries)
  {
    if entries != [] {
      var init, last := entries[..|entries| - 1], entries[|entries| - 1];
      RemoveAllRefines(files, init);
      DroppedOneMore(files, RemoveAll(files, init), (set e | e in init), last);
      assert entries == init + [last];
      assert (set e | e in entries) == (set e | e in init) + {last};
    }
  }

  lemma ListMembers(files: Files, prefix: string, e: string)
    requires Keyed(files)
    ensures e in List(files, Some(prefix)) <==> e in Plain(files) && prefix + "/" <= e
    ensures e in List(files, Some(prefix)) ==> ValidPath(e)
  {
    EntryIffBlob(files, e);
    if e in Entries(files) { assert KeyedAt(files, e); }
    var blob := EntryToBlob(e);
    if prefix + "/" <= blob {
      assert blob[|prefix|] == '/';
      assert |prefix| < |e|;
      assert e == blob[..|e|];
    }
    if prefix + "/" <= e {
      assert blob[..|e|] == e;
    }
  }

  ghost function Beneath(m: Plaintexts, prefix: string): set<string> {
    set e | e in m && prefix + "/" <= e
  }

  lemma RemoveRecursiveRefines(files: Files, prefix: string)
    requires Keyed(files)
    ensures var entries, gone := List(files, Some(prefix)), Beneath(Plain(files), prefix);
            && (entries == [] <==> gone == {})
            && Keyed(RemoveAll(files, entries))
            && Plain(RemoveAll(files, entries)) == Plain(files) - gone
  {
    var entries, gone := List(files, Some(prefix)), Beneath(Plain(files), prefix);
    forall e
      ensures e in entries <==> e in gone
      ensures e in entries ==> ValidPath(e)
    {
      ListMembers(files, prefix, e);
    }
    assert (set e | e in entries) == gone;
    if entries != [] { assert entries[0] in gone; }
    RemoveAllRefines(files, entries);
  }

  /** An operation refines the dictionary.  If the dictionary refuses it, so
      does the store, with the same error.  An error other than a dirty tree
      leaves the state as it was; otherwise the store holds the updated
      dictionary, every entry keyed to its current recipients. */
  ghost predicate Refines(s: State, r: Result, op: Op) {
    var (m, refused) := Dictionary(Plain(s.files), op);
    && (refused.Some? <==> r.error in {Some(NotFound), Some(AlreadyExists)})
    && (refused.Some? ==> r.error == refused)
    && (r.error !in {None, Some(DirtyTree)} ==> r.state == s)
    && (r.error in {None, Some(DirtyTree)} ==> Keyed(r.state.files) && Plain(r.state.files) == m)
  }

  /** Files that hold what the dictionary asks for, once committed. */
  lemma CommittedRefines(s: State, files: Files, paths: seq<string>, op: Op)
    requires Keyed(files) && Dictionary(Plain(s.files), op) == (Plain(files), None)
    ensures Refines(s, Commit(s.(files := files), paths), op)
  {
  }

  lemma InsertOpRefines(s: State, entry: string, plaintext: Bytes, overwrite: bool, nonce: nat)
    requires Keyed(s.files) && ValidPath(entry)
    ensures Refines(s, Insert(s, entry, plaintext, overwrite, nonce), DoInsert(entry, plaintext, overwrite, nonce))
  {
    KeyedEntries(s.files, entry);
    InsertRefines(s.files, entry, plaintext, nonce);
  }

  lemma CopyOpRefines(s: State, from: string, to: string, overwrite: bool, nonce: nat)
    requires Keyed(s.files) && ValidPath(from) && ValidPath(to)
    ensures Refines(s, Copy(s, from, to, overwrite, nonce), DoCopy(from, to, overwrite, nonce))
  {
    TransferRefines(s.files, from, to, overwrite, nonce);
  }

  lemma RenameOpRefines(s: State, from: string, to: string, overwrite: bool, nonce: nat)
    requires Keyed(s.files) && ValidPath(from) && ValidPath(to)
    ensures Refines(s, Rename(s, from, to, overwrite, nonce), DoRename(from, to, overwrite, nonce))
  {
    TransferRefines(s.files, from, to, overwrite, nonce);
    RemoveBlob(TransferBlob(s.files, from, to, overwrite, nonce).0, from);
  }

  lemma RemoveOpRefines(s: State, entry: string)
    requires Keyed(s.files) && ValidPath(entry)
    ensures Refines(s, Remove(s, entry), DoRemove(entry))
  {
    KeyedEntries(s.files, entry);
    RemoveBlob(s.files, entry);
  }

  lemma RemoveRecursiveOpRefines(s: State, prefix: string)
    requires Keyed(s.files)
    ensures Refines(s, RemoveRecursive(s, prefix), DoRemoveRecursive(prefix))
  {
    RemoveRecursiveRefines(s.files, prefix);
    var entries, gone := List(s.files, Some(prefix)), Beneath(Plain(s.files), prefix);
    if entries == [] {
      assert Dictionary(Plain(s.files), DoRemoveRecursive(prefix)) == (Plain(s.files), Some(NotFound));
    } else {
      var files := RemoveAll(s.files, entries);
      assert Dictionary(Plain(s.files), DoRemoveRecursive(prefix)) == (Plain(files), None);
      CommittedRefines(s, files, Blobs(entries), DoRemoveRecursive(prefix));
    }
  }

  /** Every operation on a keyed store refines the dictionary. */
  lemma ApplyRefines(s: State, op: Op)
    requires Keyed(s.files) && ValidOp(op)
    ensures Refines(s, Apply(s, op), op)
  {
    match op
    case DoInsert(entry, plaintext, overwrite, nonce) => InsertOpRefines(s, entry, plaintext, overwrite, nonce);
    case DoCopy(from, to, overwrite, nonce) => CopyOpRefines(s, from, to, overwrite, nonce);
    case DoRename(from, to, overwrite, nonce) => RenameOpRefines(s, from, to, overwrite, nonce);
    case DoRemove(entry) => RemoveOpRefines(s, entry);
    case DoRemoveRecursive(prefix) => RemoveRecursiveOpRefines(s, prefix);
  }

  // ----- agreement with the repository ----------------------------------

  /** At most one commit, on top of the old HEAD, and none exactly when HEAD
      exists and already records the staged tree. */
  ghost predicate OneCommit(before: Repo, after: Repo) {
    && (after.head == before.head || after.head == Some(Snapshot(before.head, after.index)))
    && (after.head == before.head <==> before.head.Some? && before.head.value.tree == after.index)
  }

  /** Committing every path that changed brings the three back together. */
  lemma CommitAgrees(s: State, files: Files, paths: seq<string>)
    requires Agree(s) && paths != []
    requires forall p :: EndsWith(p, ".gpg") && p !in paths ==> FileAt(files, p) == FileAt(s.files, p)
    ensures var r := Commit(s.(files := files), paths);
            && (r.error.None? <==> !s.repo.busy)
            && (r.error.None? ==> Agree(r.state) && OneCommit(s.repo, r.state.repo))
            && (r.error.Some? ==> r.state.repo == s.repo)
  {
    var r := Commit(s.(files := files), paths);
    if r.error.None? {
      forall p ensures FileAt(r.state.repo.index, p) == FileAt(if p in paths then files else s.repo.index, p) {
        StageAt(s.repo.index, files, paths, p);
      }
    }
  }

  lemma {:induction false} RemoveAllTouches(files: Files, entries: seq<string>, p: string)
    requires p !in Blobs(entries)
    ensures FileAt(RemoveAll(files, entries), p) == FileAt(files, p)
  {
    if entries != [] {
      var init := entries[..|entries| - 1];
      assert Blobs(entries)[|entries| - 1] == EntryToBlob(entries[|entries| - 1]);
      assert forall b :: b in Blobs(init) ==> b in Blobs(entries) by {
        assert Blobs(entries)[..|entries| - 1] == Blobs(init);
      }
      RemoveAllTouches(files, init, p);
    }
  }

  lemma RenameAgrees(s: State, from: string, to: string, overwrite: bool, nonce: nat)
    requires Agree(s) && from != to && Rename(s, from, to, overwrite, nonce).error.None?
    ensures var r := Rename(s, from, to, overwrite, nonce).state;
            Agree(r) && OneCommit(s.repo, r.repo)
  {
    CommitAgrees(s, TransferBlob(s.files, from, to, overwrite, nonce).0 - {EntryToBlob(from)},
                 [EntryToBlob(from), EntryToBlob(to)]);
  }

  lemma RemoveRecursiveAgrees(s: State, prefix: string)
    requires Agree(s) && RemoveRecursive(s, prefix).error.None?
    ensures var r := RemoveRecursive(s, prefix).state;
            Agree(r) && OneCommit(s.repo, r.repo)
  {
    var entries := List(s.files, Some(prefix));
    forall p | p !in Blobs(entries) ensures FileAt(RemoveAll(s.files, entries), p) == FileAt(s.files, p) {
      RemoveAllTouches(s.files, entries, p);
    }
    assert |Blobs(entries)| == |entries|;
    CommitAgrees(s, RemoveAll(s.files, entries), Blobs(entries));
  }

  /** A successful operation keeps index, HEAD and storage in agreement; it
      adds at most one commit. */
  lemma ApplyAgrees(s: State, op: Op)
    requires Agree(s) && Apply(s, op).error.None?
    ensures var r := Apply(s, op).state;
            Agree(r) && (r == s || OneCommit(s.repo, r.repo))
  {
    match op
    case DoInsert(entry, plaintext, overwrite, nonce) =>
      CommitAgrees(s, InsertNoCommit(s.files, entry, plaintext, nonce).0, [EntryToBlob(entry)]);
    case DoCopy(from, to, overwrite, nonce) =>
      CommitAgrees(s, TransferBlob(s.files, from, to, overwrite, nonce).0, [EntryToBlob(to)]);
    case DoRename(from, to, overwrite, nonce) =>
      if from != to { RenameAgrees(s, from, to, overwrite, nonce); }
    case DoRemove(entry) =>
      CommitAgrees(s, s.files - {EntryToBlob(entry)}, [EntryToBlob(entry)]);
    case DoRemoveRecursive(prefix) =>
      RemoveRecursiveAgrees(s, prefix);
  }

  // ----- runs -----------------------------------------------------------

  function Run(s: State, ops: seq<Op>): State {
    if ops == [] then s else Apply(Run(s, ops[..|ops| - 1]), ops[|ops| - 1]).state
  }

  ghost predicate Succeeds(s: State, ops: seq<Op>) {
    ops != [] ==>
      && Succeeds(s, ops[..|ops| - 1])
      && ValidOp(ops[|ops| - 1])
      && Apply(Run(s, ops[..|ops| - 1]), ops[|ops| - 1]).error.None?
  }

  ghost function DictionaryRun(m: Plaintexts, ops: seq<Op>): Plaintexts {
    if ops == [] then m else Dictionary(DictionaryRun(m, ops[..|ops| - 1]), ops[|ops| - 1]).0
  }

  /** Any run of successful operations is the same run on a plain dictionary;
      it keeps the keying and the agreement with the repository. */
  lemma {:induction false} RunRefines(s: State, ops: seq<Op>)
    requires Keyed(s.files) && Succeeds(s, ops)
    ensures Keyed(Run(s, ops).files)
    ensures Plain(Run(s, ops).files) == DictionaryRun(Plain(s.files), ops)
    ensures Agree(s) ==> Agree(Run(s, ops))
  {
    if ops != [] {
      var init, last := ops[..|ops| - 1], ops[|ops| - 1];
      RunRefines(s, init);
      ApplyRefines(Run(s, init), last);
      if Agree(s) { ApplyAgrees(Run(s, init), last); }
    }
  }

  // ----- the orchestrator -----------------------------------------------

  class PasswordStore {
    var files: Files
    const vcs: Git2Vcs

    ghost function Value(): State
      reads this, vcs
    {
      State(files, vcs.State())
    }

    constructor (vcs: Git2Vcs)
      ensures this.vcs == vcs && files == map[]
    {
      this.vcs := vcs;
      files := map[];
    }

    method CommitChanges(paths: seq<string>) returns (error: Option<Error>)
      modifies vcs
      ensures Result(Value(), error) == Commit(old(Value()), paths)
    {
      var ok := vcs.Commit(files, paths);
      error := if ok then None else Some(DirtyTree);
    }

    method WriteEntry(entry: string, plaintext: Bytes, nonce: nat) returns (error: Option<Error>)
      requires ValidPath(entry)
      modifies this
      ensures (files, error) == InsertNoCommit(old(files), entry, plaintext, nonce)
    {
      var blob := EntryToBlob(entry);
      var r := ResolveRecipients(files, entry);
      if !r.Recipients? { return Some(ResolveError(r)); }
      files := files - {blob};
      files := files[blob := Encrypt(plaintext, r.keys, nonce)];
      assert files == old(files)[blob := Encrypt(plaintext, r.keys, nonce)];
      error := None;
    }

    method InsertEntry(entry: string, plaintext: Bytes, overwrite: bool, nonce: nat) returns (error: Option<Error>)
      requires ValidPath(entry)
      modifies this, vcs
      ensures Result(Value(), error) == Insert(old(Value()), entry, plaintext, overwrite, nonce)
    {
      var blob := EntryToBlob(entry);
      if !overwrite && blob in files { return Some(AlreadyExists); }
      var r := ResolveRecipients(files, entry);
      if !r.Recipients? { return Some(ResolveError(r)); }
      files := files[blob := Encrypt(plaintext, r.keys, nonce)];
      error := CommitChanges([blob]);
    }

    method Transfer(from: string, to: string, overwrite: bool, nonce: nat) returns (error: Option<Error>)
      requires ValidPath(from) && ValidPath(to)
      modifies this
      ensures (files, error) == TransferBlob(old(files), from, to, overwrite, nonce)
    {
      if !overwrite && EntryToBlob(to) in files { return Some(AlreadyExists); }
      if EntryToBlob(from) !in files { return Some(NotFound); }
      var ciphertext := files[EntryToBlob(from)];
      var source := ResolveRecipients(files, from);
      if !source.Recipients? { return Some(ResolveError(source)); }
      var target := ResolveRecipients(files, to);
      if !target.Recipients? { return Some(ResolveError(target)); }
      if !RecipientsEqual(source.keys, target.keys) {
        if ciphertext.Text? { return Some(CryptoFailed); }
        ciphertext := Encrypt(ciphertext.plain, target.keys, nonce);
      }
      files := files[EntryToBlob(to) := ciphertext];
      error := None;
    }

    method CopyEntry(from: string, to: string, overwrite: bool, nonce: nat) returns (error: Option<Error>)
      requires ValidPath(from) && ValidPath(to)
      modifies this, vcs
      ensures Result(Value(), error) == Copy(old(Value()), from, to, overwrite, nonce)
    {
      error := Transfer(from, to, overwrite, nonce);
      if error.None? { error := CommitChanges([EntryToBlob(to)]); }
    }

    method RenameEntry(from: string, to: string, overwrite: bool, nonce: nat) returns (error: Option<Error>)
      requires ValidPath(from) && ValidPath(to)
      modifies this, vcs
      ensures Result(Value(), error) == Rename(old(Value()), from, to, overwrite, nonce)
    {
      if from == to { return None; }
      error := Transfer(from, to, overwrite, nonce);
      if error.Some? { return; }
      files := files - {EntryToBlob(from)};
      error := CommitChanges([EntryToBlob(from), EntryToBlob(to)]);
    }

    method RemoveEntry(entry: string) returns (error: Option<Error>)
      modifies this, vcs
      ensures Result(Value(), error) == Remove(old(Value()), entry)
    {
      var blob := EntryToBlob(entry);
      if blob !in files { return Some(NotFound); }
      files := files - {blob};
      error := CommitChanges([blob]);
    }

    method RemoveSubtree(prefix: string) returns (error: Option<Error>, entries: seq<string>)
      modifies this, vcs
      ensures Result(Value(), error) == RemoveRecursive(old(Value()), prefix)
      ensures entries == List(old(files), Some(prefix))
    {
      entries := List(files, Some(prefix));
      if entries == [] { return Some(NotFound), entries; }
      var blobs := [];
      for i := 0 to |entries|
        invariant files == RemoveAll(old(files), entries[..i]) && blobs == Blobs(entries[..i])
        invariant unchanged(vcs)
      {
        assert entries[..i + 1][..i] == entries[..i];
        files := files - {EntryToBlob(entries[i])};
        blobs := blobs + [EntryToBlob(entries[i])];
      }
      assert entries[..|entries|] == entries;
      error := CommitChanges(blobs);
    }
  }
}
