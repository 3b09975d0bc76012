/** The leak check run before anything is accepted or published. */
module Audit {
  import opened Options
  import opened CommitGraph
  import opened Text

  datatype LeakKind = EditorBackup | NotEncrypted | UnknownFilename
  datatype LeakIssue = LeakIssue(path: Path, kind: LeakKind)

  const ARMOUR := "-----BEGIN PGP MESSAGE-----"

  /** What follows the last `/`. */
  function FileName(p: Path): string {
    if '/' in p then FileName(p[1..]) else p
  }

  predicate IsGpg(p: Path) {
    EndsWith(FileName(p), ".gpg")
  }

  predicate LooksLikeOpenPgp(head: Bytes) {
    || (head != [] && 0x80 <= head[0])
    || (|ARMOUR| <= |head| && forall i :: 0 <= i < |ARMOUR| ==> head[i] as int == ARMOUR[i] as int)
  }

  predicate IsAllowlistedMetadata(name: string) {
    || name in {".gpg-id", ".gpg-id.sig", ".gitignore", ".gitattributes"}
    || "README" <= name
    || "LICENSE" <= name
  }

  predicate IsEditorBackup(name: string) {
    || ("." <= name && (EndsWith(name, ".swp") || EndsWith(name, ".swo")))
    || ("#" <= name && EndsWith(name, "#") && |name| >= 2)
    || EndsWith(name, "~")
    || EndsWith(name, ".orig")
    || EndsWith(name, ".rej")
    || EndsWith(name, ".bak")
  }

  function CheckFile(path: Path, head: Bytes): Option<LeakIssue> {
    var name := FileName(path);
    if IsEditorBackup(name) then Some(LeakIssue(path, EditorBackup))
    else if EndsWith(name, ".gpg") then
      if LooksLikeOpenPgp(head) then None else Some(LeakIssue(path, NotEncrypted))
    else if IsAllowlistedMetadata(name) then None
    else Some(LeakIssue(path, UnknownFilename))
  }

  // ----- what the check lets through, by the text of the name -------------

  /** `name` is the last component of the path. */
  ghost predicate Named(path: Path, name: string) {
    '/' !in name && (path == name || exists dir :: path == dir + "/" + name)
  }

  lemma {:induction false} FileNameBelow(dir: string, name: string)
    requires '/' !in name
    ensures FileName(dir + "/" + name) == name
  {
    if dir == [] {
      assert (dir + "/" + name)[1..] == name;
    } else {
      assert (dir + "/" + name)[1..] == dir[1..] + "/" + name;
      assert '/' in dir + "/" + name by { assert (dir + "/" + name)[|dir|] == '/'; }
      FileNameBelow(dir[1..], name);
    }
  }

  lemma {:induction false} NamedByFileName(path: Path)
    ensures Named(path, FileName(path))
  {
    if '/' in path {
      var rest := path[1..];
      NamedByFileName(rest);
      if rest == FileName(rest) {
        assert path[0] == '/';
        assert path == [] + "/" + FileName(path);
      } else {
        var dir :| rest == dir + "/" + FileName(rest);
        assert path == ([path[0]] + dir) + "/" + FileName(path);
      }
    }
  }

  lemma FileNameExactly(path: Path, name: string)
    ensures Named(path, name) <==> name == FileName(path)
  {
    NamedByFileName(path);
    if Named(path, name) && path != name {
      var dir :| path == dir + "/" + name;
      FileNameBelow(dir, name);
    }
  }

  ghost predicate Ending(name: string, suffix: string) {
    exists stem :: name == stem + suffix
  }

  lemma EndingExactly(name: string, suffix: string)
    ensures EndsWith(name, suffix) <==> Ending(name, suffix)
  {
    if EndsWith(name, suffix) { assert name == name[..|name| - |suffix|] + suffix; }
  }

  ghost predicate Beginning(name: string, prefix: string) {
    exists tail :: name == prefix + tail
  }

  lemma BeginningExactly(name: string, prefix: string)
    ensures prefix <= name <==> Beginning(name, prefix)
  {
    if prefix <= name { assert name == prefix + name[|prefix|..]; }
  }

  /** vim swap files, emacs autosaves, and the leftovers of editors and patch. */
  ghost predicate EditorName(name: string) {
    || (Beginning(name, ".") && (Ending(name, ".swp") || Ending(name, ".swo")))
    || (exists middle :: name == "#" + middle + "#")
    || Ending(name, "~") || Ending(name, ".orig") || Ending(name, ".rej") || Ending(name, ".bak")
  }

  ghost predicate MetadataName(name: string) {
    || name == ".gpg-id" || name == ".gpg-id.sig" || name == ".gitignore" || name == ".gitattributes"
    || Beginning(name, "README") || Beginning(name, "LICENSE")
  }

  function AsBytes(text: string): Bytes
    requires forall c :: c in text ==> c < '\U{80}'
  {
    seq(|text|, i requires 0 <= i < |text| => assert text[i] in text; text[i] as int as Byte)
  }

  /** A packet header has the high bit set; the armour is a line of text. */
  ghost predicate OpenPgpData(head: Bytes) {
    || (exists first: Byte, rest: Bytes :: head == [first] + rest && first >= 128)
    || exists rest: Bytes :: head == AsBytes("-----BEGIN PGP MESSAGE-----") + rest
  }

  lemma OpenPgpExactly(head: Bytes)
    ensures LooksLikeOpenPgp(head) <==> OpenPgpData(head)
  {
    var armour := AsBytes("-----BEGIN PGP MESSAGE-----");
    if head != [] { assert head == [head[0]] + head[1..]; }
    if armour <= head { assert head == armour + head[|armour|..]; }
    assert |armour| == |ARMOUR| && forall i :: 0 <= i < |ARMOUR| ==> armour[i] as int == ARMOUR[i] as int;
  }

  lemma EditorExactly(name: string)
    ensures IsEditorBackup(name) <==> EditorName(name)
  {
    BeginningExactly(name, ".");
    EndingExactly(name, ".swp");
    EndingExactly(name, ".swo");
    EndingExactly(name, "~");
    EndingExactly(name, ".orig");
    EndingExactly(name, ".rej");
    EndingExactly(name, ".bak");
    if "#" <= name && EndsWith(name, "#") && |name| >= 2 {
      assert name == "#" + name[1..|name| - 1] + "#";
    }
  }

  /** The verdict on a file, by the text of its name and of its contents. */
  lemma CheckFileExactly(path: Path, name: string, head: Bytes)
    requires Named(path, name)
    ensures CheckFile(path, head) ==
              if EditorName(name) then Some(LeakIssue(path, EditorBackup))
              else if Ending(name, ".gpg") then
                if OpenPgpData(head) then None else Some(LeakIssue(path, NotEncrypted))
              else if MetadataName(name) then None
              else Some(LeakIssue(path, UnknownFilename))
  {
    FileNameExactly(path, name);
    EditorExactly(name);
    EndingExactly(name, ".gpg");
    OpenPgpExactly(head);
    BeginningExactly(name, "README");
    BeginningExactly(name, "LICENSE");
  }

  lemma GpgIsNoEditorName(stem: string)
    ensures !EditorName(stem + ".gpg")
  {
    var name := stem + ".gpg";
    assert name[|name| - 1] == 'g' && name[|name| - 2] == 'p';
    EditorExactly(name);
    assert name[|name| - 2] != ".orig"[3];
  }

  /** Seven-bit contents that are no armour are no ciphertext, whatever their
      `.gpg` file is called. */
  lemma PlaintextIsReported(path: Path, stem: string, head: Bytes)
    requires Named(path, stem + ".gpg")
    requires forall b :: b in head ==> b < 0x80
    requires !(exists rest: Bytes :: head == AsBytes("-----BEGIN PGP MESSAGE-----") + rest)
    ensures CheckFile(path, head) == Some(LeakIssue(path, NotEncrypted))
  {
    CheckFileExactly(path, stem + ".gpg", head);
    GpgIsNoEditorName(stem);
    assert Ending(stem + ".gpg", ".gpg");
    forall first: Byte, rest: Bytes | head == [first] + rest ensures first < 128 {
      assert head[0] in head;
    }
  }

  /** Every packet header of section 4.2 of RFC 4880, old format or new, and the
      armour pass, whatever follows. */
  lemma OpenPgpPasses(path: Path, stem: string, tag: nat, lengthType: nat, rest: Bytes)
    requires Named(path, stem + ".gpg") && lengthType < 4
    ensures tag < 16 ==> CheckFile(path, [(0x80 + 4 * tag + lengthType) as Byte] + rest) == None
    ensures tag < 64 ==> CheckFile(path, [(0xC0 + tag) as Byte] + rest) == None
    ensures CheckFile(path, AsBytes("-----BEGIN PGP MESSAGE-----") + rest) == None
  {
    GpgIsNoEditorName(stem);
    assert Ending(stem + ".gpg", ".gpg");
    if tag < 16 { CheckFileExactly(path, stem + ".gpg", [(0x80 + 4 * tag + lengthType) as Byte] + rest); }
    if tag < 64 { CheckFileExactly(path, stem + ".gpg", [(0xC0 + tag) as Byte] + rest); }
    CheckFileExactly(path, stem + ".gpg", AsBytes("-----BEGIN PGP MESSAGE-----") + rest);
  }

  /** The merge driver is for the same files. */
  lemma IsGpgExactly(path: Path)
    ensures IsGpg(path) <==> Ending(path, ".gpg")
  {
    NamedByFileName(path);
    EndingExactly(FileName(path), ".gpg");
    EndingExactly(path, ".gpg");
    var name := FileName(path);
    if path != name {
      var dir :| path == dir + "/" + name;
      assert path[|path| - |name| - 1] == '/' && '/' !in ".gpg";
      if |name| >= 4 { assert path[|path| - 4..] == name[|name| - 4..]; }
      if |name| < 4 <= |path| { assert path[|path| - 4..][3 - |name|] == '/'; }
    }
  }

  /** What no rule of the check looks out for is reported as unknown. */
  lemma UnknownName(name: Path, bytes: Bytes)
    requires name != [] && '/' !in name
    requires name[0] !in {'.', '#', 'R', 'L'} && name[|name| - 1] !in {'~', 'g', 'j', 'k'}
    ensures CheckFile(name, bytes) == Some(LeakIssue(name, UnknownFilename))
  {
    assert FileName(name) == name;
    assert !EndsWith(name, "~") && !EndsWith(name, ".gpg") && !EndsWith(name, ".bak");
    assert !EndsWith(name, ".orig") && !EndsWith(name, ".rej");
    assert !("." <= name) && !("#" <= name) && !("README" <= name) && !("LICENSE" <= name);
  }

  /** Every file of the tree passes the check. */
  ghost predicate CleanTree(t: Tree) {
    forall p :: p in t ==> CheckFile(p, t[p]) == None
  }

  function CheckAll(files: seq<(Path, Bytes)>): seq<LeakIssue> {
    if files == [] then [] else
      var (path, bytes) := files[|files| - 1];
      CheckAll(files[..|files| - 1]) +
      match CheckFile(path, bytes)
      case None => []
      case Some(issue) => [issue]
  }

  /** Each report names a file that failed, and each failing file is named. */
  lemma {:induction false} CheckAllNames(files: seq<(Path, Bytes)>, issue: LeakIssue)
    ensures issue in CheckAll(files) <==> exists f :: f in files && CheckFile(f.0, f.1) == Some(issue)
  {
    if files != [] {
      var init, last := files[..|files| - 1], files[|files| - 1];
      CheckAllNames(init, issue);
      assert files == init + [last];
      if CheckFile(last.0, last.1) == Some(issue) { assert last in files; }
    }
  }

  /** Nothing is reported exactly when every file passes. */
  lemma CheckAllReports(files: seq<(Path, Bytes)>)
    ensures CheckAll(files) == [] <==> forall f :: f in files ==> CheckFile(f.0, f.1) == None
  {
    if CheckAll(files) != [] { CheckAllNames(files, CheckAll(files)[0]); }
    forall f | f in files && CheckFile(f.0, f.1).Some? ensures CheckAll(files) != [] {
      CheckAllNames(files, CheckFile(f.0, f.1).value);
    }
  }

  method CheckFiles(files: seq<(Path, Bytes)>) returns (out: seq<LeakIssue>)
    ensures out == CheckAll(files)
  {
    out := [];
    for i := 0 to |files|
      invariant out == CheckAll(files[..i])
    {
      assert files[..i + 1][..i] == files[..i];
      var (path, bytes) := files[i];
      match CheckFile(path, bytes)
      case None =>
      case Some(issue) => out := out + [issue];
    }
    assert files[..|files|] == files;
  }
}
