/** Files of a store and the upward walk that finds an entry's recipients. */
module GpgId {
  import opened Options
  import opened Text
  import opened RelPaths

  type Bytes = seq<int>
  type KeyId = string

  /** A file is a ciphertext or text.  Encryption records whom the ciphertext
      is readable by, the plaintext and the randomness of that encryption, so
      decrypting what was encrypted gives the plaintext back. */
  datatype Blob = Cipher(to: set<KeyId>, plain: Bytes, nonce: nat) | Text(text: string)

  type Files = map<string, Blob>

  datatype Resolved = Recipients(keys: seq<KeyId>) | Missing | Malformed

  function Encrypt(plain: Bytes, keys: seq<KeyId>, nonce: nat): Blob {
    Cipher((set k | k in keys), plain, nonce)
  }

  /** Two ciphertexts are the same only with the same plaintext, readers and
      randomness. */
  lemma EncryptExactly(a: Bytes, keys: seq<KeyId>, m: nat, b: Bytes, others: seq<KeyId>, n: nat)
    ensures Encrypt(a, keys, m) == Encrypt(b, others, n) <==>
              a == b && m == n && forall k :: k in keys <==> k in others
  {
    assert forall k :: k in Encrypt(a, keys, m).to <==> k in keys;
    assert forall k :: k in Encrypt(b, others, n).to <==> k in others;
  }

  /** The trimmed lines that are neither blank nor comments. */
  function UsableLines(lines: seq<string>): seq<KeyId> {
    if lines == [] then [] else
      var line := Trim(lines[0]);
      (if line == "" || line[0] == '#' then [] else [line]) + UsableLines(lines[1..])
  }

  function ParseGpgId(blob: Blob): Resolved {
    if blob.Cipher? then Malformed
    else
      var keys := UsableLines(Split(blob.text, '\n'));
      if keys == [] then Malformed else Recipients(keys)
  }

  // ----- which keys a `.gpg-id` names ------------------------------------

  /** The keys a file names; none if it is malformed. */
  function KeysOf(blob: Blob): seq<KeyId> {
    match ParseGpgId(blob)
    case Recipients(keys) => keys
    case _ => []
  }

  lemma {:induction false} UsableExactly(lines: seq<string>, k: KeyId)
    ensures k in UsableLines(lines) <==> exists line :: line in lines && Trim(line) == k && k != "" && k[0] != '#'
  {
    if lines != [] {
      UsableExactly(lines[1..], k);
      assert lines == [lines[0]] + lines[1..];
    }
  }

  /** A key is named exactly when some line trims to it, and it is neither
      blank nor a comment; a file without one, and one that is no text, is
      malformed. */
  lemma KeysExactly(text: string, to: set<KeyId>, plain: Bytes, nonce: nat, k: KeyId)
    ensures k in KeysOf(Text(text)) <==>
              exists line :: line in Split(text, '\n') && Trim(line) == k && k != "" && k[0] != '#'
    ensures ParseGpgId(Text(text)) == Malformed <==>
              forall line :: line in Split(text, '\n') ==> Trim(line) == "" || Trim(line)[0] == '#'
    ensures ParseGpgId(Text(text)) == Malformed || ParseGpgId(Text(text)) == Recipients(KeysOf(Text(text)))
    ensures ParseGpgId(Cipher(to, plain, nonce)) == Malformed
  {
    var lines := Split(text, '\n');
    UsableExactly(lines, k);
    forall line | line in lines && Trim(line) != "" && Trim(line)[0] != '#' ensures UsableLines(lines) != [] {
      UsableExactly(lines, Trim(line));
    }
    if UsableLines(lines) != [] { UsableExactly(lines, UsableLines(lines)[0]); }
  }

  lemma {:induction false} UsableAppend(a: seq<string>, b: seq<string>)
    ensures UsableLines(a + b) == UsableLines(a) + UsableLines(b)
  {
    if a == [] {
      assert a + b == b;
    } else {
      assert (a + b)[1..] == a[1..] + b;
      UsableAppend(a[1..], b);
    }
  }

  /** The keys of a file are those of its lines, in their order. */
  lemma KeysConcatenate(a: string, b: string)
    ensures KeysOf(Text(a + ['\n'] + b)) == KeysOf(Text(a)) + KeysOf(Text(b))
  {
    SplitAppend(a, b, '\n');
    UsableAppend(Split(a, '\n'), Split(b, '\n'));
  }

  lemma KeysOfLine(line: string)
    requires '\n' !in line
    ensures KeysOf(Text(line)) == if Trim(line) == "" || Trim(line)[0] == '#' then [] else [Trim(line)]
  {
    SplitWithout(line, '\n');
    assert [line][1..] == [] && UsableLines([]) == [];
  }

  // ----- the upward walk --------------------------------------------------

  function GpgIdIn(dir: Option<string>): string {
    match dir
    case None => ".gpg-id"
    case Some(d) => d + "/" + ".gpg-id"
  }

  function DirLength(dir: Option<string>): nat {
    if dir.None? then 0 else |dir.value| + 1
  }

  function ResolveFrom(files: Files, dir: Option<string>): Resolved
    decreases DirLength(dir)
  {
    if GpgIdIn(dir) in files then ParseGpgId(files[GpgIdIn(dir)])
    else if dir.None? then Missing
    else
      ParentPrefix(dir.value);
      ResolveFrom(files, Parent(dir.value))
  }

  function Resolve(files: Files, entry: string): Resolved {
    ResolveFrom(files, Parent(entry))
  }

  method ResolveRecipients(files: Files, entry: string) returns (r: Resolved)
    requires ValidPath(entry)
    ensures r == Resolve(files, entry)
  {
    var current := Parent(entry);
    if current.Some? { ParentValid(entry); }
    while true
      invariant current.Some? ==> ValidPath(current.value)
      invariant ResolveFrom(files, current) == Resolve(files, entry)
      decreases DirLength(current)
    {
      if GpgIdIn(current) in files { return ParseGpgId(files[GpgIdIn(current)]); }
      if current.None? { return Missing; }
      ParentPrefix(current.value);
      if Parent(current.value).Some? { ParentValid(current.value); }
      current := Parent(current.value);
    }
  }

  /** The directory made of the first `k` segments; the root when there are none. */
  function Dir(segments: seq<string>, k: nat): Option<string>
    requires k <= |segments|
  {
    if k == 0 then None else Some(Join(segments[..k], '/'))
  }

  lemma {:induction false} ResolveFromDepth(files: Files, segments: seq<string>, k: nat, j: nat)
    requires j <= k <= |segments|
    requires forall s :: s in segments ==> '/' !in s
    requires forall i :: j < i <= k ==> GpgIdIn(Dir(segments, i)) !in files
    ensures ResolveFrom(files, Dir(segments, k)) == ResolveFrom(files, Dir(segments, j))
    decreases k
  {
    if j < k {
      var prefix := segments[..k];
      SplitJoin(prefix, '/');
      ParentSegments(Join(prefix, '/'));
      assert prefix[..k - 1] == segments[..k - 1];
      ResolveFromDepth(files, segments, k - 1, j);
    }
  }

  /** The walk stops at the deepest directory above the entry that has a
      `.gpg-id`, whatever that file holds, and fails when there is none. */
  lemma ResolvesNearest(files: Files, entry: string, j: nat)
    requires ValidPath(entry)
    requires j < |Segments(entry)|
    requires forall i :: j < i < |Segments(entry)| ==> GpgIdIn(Dir(Segments(entry), i)) !in files
    ensures var nearest := GpgIdIn(Dir(Segments(entry), j));
            && (nearest in files ==> Resolve(files, entry) == ParseGpgId(files[nearest]))
            && (nearest !in files && j == 0 ==> Resolve(files, entry) == Missing)
  {
    var segments := Segments(entry);
    JoinSplit(entry, '/');
    ParentSegments(entry);
    ResolveFromDepth(files, segments, |segments| - 1, j);
  }

  /** The `.gpg-id` of the root decides when no directory above the entry has
      one; a directory's own file comes first. */
  lemma NearestIsNamed(files: Files, entry: string, j: nat)
    requires ValidPath(entry) && j < |Segments(entry)|
    requires forall i :: j < i < |Segments(entry)| ==> Join(Segments(entry)[..i], '/') + "/.gpg-id" !in files
    ensures j > 0 && Join(Segments(entry)[..j], '/') + "/.gpg-id" in files ==>
              Resolve(files, entry) == ParseGpgId(files[Join(Segments(entry)[..j], '/') + "/.gpg-id"])
    ensures j == 0 ==> Resolve(files, entry) == if ".gpg-id" in files then ParseGpgId(files[".gpg-id"]) else Missing
  {
    var segments := Segments(entry);
    forall i | 0 < i < |segments| ensures GpgIdIn(Dir(segments, i)) == Join(segments[..i], '/') + "/.gpg-id" {
      assert "/" + ".gpg-id" == "/.gpg-id";
    }
    ResolvesNearest(files, entry, j);
  }

  /** The walk only looks at `.gpg-id` files, so entry blobs do not matter. */
  lemma {:induction false} ResolveIgnoresBlobs(files: Files, others: Files, dir: Option<string>)
    requires forall p :: !EndsWith(p, ".gpg") ==> (p in files <==> p in others)
    requires forall p :: !EndsWith(p, ".gpg") && p in files ==> files[p] == others[p]
    ensures ResolveFrom(files, dir) == ResolveFrom(others, dir)
    decreases DirLength(dir)
  {
    var id := GpgIdIn(dir);
    assert id[|id| - 1] == 'd';
    assert !EndsWith(id, ".gpg");
    if dir.Some? {
      ParentPrefix(dir.value);
      ResolveIgnoresBlobs(files, others, Parent(dir.value));
    }
  }
}
