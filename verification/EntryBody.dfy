/** Entry bodies: the parser of `key: value` lines, and the body an importer
    writes. */
module EntryBody {
  import opened Options
  import opened Text

  type Field = (string, string)

  datatype Entry = Entry(password: string, fields: seq<Field>)

  /** Rust's `str::to_lowercase`. */
  type Lowering = string -> string

  /** What is used of it: lowercase ASCII text stays as it is, and a colon or
      a newline neither appears nor vanishes. */
  ghost predicate UnicodeLowering(lower: Lowering) {
    && (forall s :: (forall c :: c in s ==> c < '\U{80}' && !('A' <= c <= 'Z')) ==> lower(s) == s)
    && forall s :: (':' in lower(s) <==> ':' in s) && ('\n' in lower(s) <==> '\n' in s)
  }

  lemma LowerKeeps(s: string, c: char)
    requires !('A' <= c <= 'Z') && !('a' <= c <= 'z')
    ensures c in Lower(s) <==> c in s
  {
    if c in s {
      var i :| 0 <= i < |s| && s[i] == c;
      assert Lower(s)[i] == c;
    }
    if c in Lower(s) {
      var i :| 0 <= i < |s| && Lower(s)[i] == c;
      assert s[i] == c;
    }
  }

  /** Lowering the ASCII letters alone is one such function. */
  lemma AsciiLowering()
    ensures UnicodeLowering(Lower)
  {
    forall s ensures (':' in Lower(s) <==> ':' in s) && ('\n' in Lower(s) <==> '\n' in s) {
      LowerKeeps(s, ':');
      LowerKeeps(s, '\n');
    }
    forall s: string | forall c :: c in s ==> c < '\U{80}' && !('A' <= c <= 'Z') ensures Lower(s) == s {
      LowerFixed(s);
    }
  }

  // ----- parsing --------------------------------------------------------

  function StripCr(line: string): string {
    if line != [] && line[|line| - 1] == '\r' then line[..|line| - 1] else line
  }

  function SplitOnce(s: string, c: char): Option<(string, string)> {
    if s == [] then None
    else if s[0] == c then Some(([], s[1..]))
    else match SplitOnce(s[1..], c)
      case None => None
      case Some((before, after)) => Some(([s[0]] + before, after))
  }

  /** The field of one line, if it has a colon after a key that is not blank. */
  function ParseLine(line: string, lower: Lowering): seq<Field> {
    match SplitOnce(StripCr(line), ':')
    case None => []
    case Some((key, value)) =>
      if Trim(key) == [] then [] else [(lower(Trim(key)), Trim(value))]
  }

  function ParseLines(lines: seq<string>, lower: Lowering): seq<Field> {
    if lines == [] then [] else ParseLines(lines[..|lines| - 1], lower) + ParseLine(lines[|lines| - 1], lower)
  }

  function Parse(text: string, lower: Lowering): Entry {
    var lines := Split(text, '\n');
    Entry(StripCr(lines[0]), ParseLines(lines[1..], lower))
  }

  method ParseStr(text: string, lower: Lowering) returns (entry: Entry)
    ensures entry == Parse(text, lower)
  {
    var lines := Split(text, '\n');
    var password := StripCr(lines[0]);
    var rest := lines[1..];
    var fields := [];
    for i := 0 to |rest|
      invariant fields == ParseLines(rest[..i], lower)
    {
      assert rest[..i + 1][..i] == rest[..i];
      var line := StripCr(rest[i]);
      if line != [] {
        match SplitOnce(line, ':')
        case None =>
        case Some((key, value)) =>
          if Trim(key) != [] {
            fields := fields + [(lower(Trim(key)), Trim(value))];
          }
      }
    }
    assert rest[..|rest|] == rest;
    entry := Entry(password, fields);
  }

  /** Case-insensitive lookup of the first field with that name. */
  function Lookup(fields: seq<Field>, name: string, lower: Lowering): Option<string> {
    if fields == [] then None
    else if fields[0].0 == lower(name) then Some(fields[0].1)
    else Lookup(fields[1..], name, lower)
  }

  // ----- serialising ----------------------------------------------------

  datatype ImportedEntry = ImportedEntry(
    folder: seq<string>, name: string, password: string, username: Option<string>,
    fields: seq<Field>, totp: Option<string>, notes: Option<string>, uris: seq<string>)

  /** A newline becomes the two characters `\n`; carriage returns go. */
  function Flatten(s: string): string {
    if s == [] then []
    else (if s[0] == '\n' then "\\n" else if s[0] == '\r' then "" else [s[0]]) + Flatten(s[1..])
  }

  function KeyValue(f: Field): string {
    f.0 + ": " + Flatten(f.1)
  }

  function KeyValueLines(fields: seq<Field>): string {
    if fields == [] then []
    else KeyValueLines(fields[..|fields| - 1]) + KeyValue(fields[|fields| - 1]) + ['\n']
  }

  function Custom(fields: seq<Field>): seq<Field> {
    if fields == [] then [] else
      var last := fields[|fields| - 1];
      Custom(fields[..|fields| - 1]) + if Trim(last.0) == [] then [] else [(Trim(last.0), last.1)]
  }

  function UrlKey(i: nat): string {
    if i == 0 then "url" else "url-" + Decimal(i + 1)
  }

  function Urls(uris: seq<string>): seq<Field> {
    seq(|uris|, i requires 0 <= i < |uris| => (UrlKey(i), uris[i]))
  }

  function Optional(key: string, value: Option<string>): seq<Field> {
    if value.Some? then [(key, value.value)] else []
  }

  /** The key/value pairs of an entry, in the order they are written. */
  function Pairs(e: ImportedEntry): seq<Field> {
    Optional("login", e.username) + Custom(e.fields) + Optional("otpauth", e.totp) + Urls(e.uris)
  }

  function Terminated(notes: string): string
    requires notes != []
  {
    if notes[|notes| - 1] == '\n' then notes else notes + ['\n']
  }

  function NotesBlock(notes: Option<string>): string {
    if notes.None? || notes.value == [] then [] else ['\n'] + Terminated(notes.value)
  }

  function Serialise(e: ImportedEntry): string {
    Flatten(e.password) + ['\n'] + (KeyValueLines(Pairs(e)) + NotesBlock(e.notes))
  }

  lemma {:induction false} KeyValueLinesAppend(a: seq<Field>, b: seq<Field>)
    ensures KeyValueLines(a + b) == KeyValueLines(a) + KeyValueLines(b)
  {
    if b == [] {
      assert a + b == a;
    } else {
      var init, last := b[..|b| - 1], b[|b| - 1];
      assert (a + b)[..|a + b| - 1] == a + init;
      KeyValueLinesAppend(a, init);
      ReassociateThree(KeyValueLines(a), KeyValueLines(init), KeyValue(last), ['\n']);
    }
  }

  lemma ReassociateThree<T>(a: seq<T>, b: seq<T>, c: seq<T>, d: seq<T>)
    ensures a + (b + c + d) == a + b + c + d
  {
  }

  method PushKeyValue(body: string, key: string, value: string) returns (r: string)
    ensures r == body + KeyValueLines([(key, value)])
  {
    r := body + key;
    r := r + ": ";
    r := r + Flatten(value);
    r := r + "\n";
    assert [(key, value)][..0] == [];
  }

  lemma CustomMore(body: string, fields: seq<Field>, i: nat)
    requires i < |fields|
    ensures var (k, v) := fields[i];
            var written := body + KeyValueLines(Custom(fields[..i]));
            body + KeyValueLines(Custom(fields[..i + 1])) ==
              if Trim(k) == [] then written else written + KeyValueLines([(Trim(k), v)])
  {
    var before := Custom(fields[..i]);
    var (k, v) := fields[i];
    assert fields[..i + 1][..i] == fields[..i];
    if Trim(k) == [] {
      assert before + [] == before;
    } else {
      KeyValueLinesAppend(before, [(Trim(k), v)]);
      assert body + (KeyValueLines(before) + KeyValueLines([(Trim(k), v)])) ==
             body + KeyValueLines(before) + KeyValueLines([(Trim(k), v)]);
    }
  }

  method PushCustom(body: string, fields: seq<Field>) returns (r: string)
    ensures r == body + KeyValueLines(Custom(fields))
  {
    r := body;
    for i := 0 to |fields|
      invariant r == body + KeyValueLines(Custom(fields[..i]))
    {
      CustomMore(body, fields, i);
      var (k, v) := fields[i];
      if Trim(k) != [] {
        r := PushKeyValue(r, Trim(k), v);
      }
    }
    assert fields[..|fields|] == fields;
  }

  method PushUrls(body: string, uris: seq<string>) returns (r: string)
    ensures r == body + KeyValueLines(Urls(uris))
  {
    r := body;
    for i := 0 to |uris|
      invariant r == body + KeyValueLines(Urls(uris)[..i])
    {
      var key := if i == 0 then "url" else "url-" + Decimal(i + 1);
      TakeMore(Urls(uris), i);
      KeyValueLinesAppend(Urls(uris)[..i], [(key, uris[i])]);
      r := PushKeyValue(r, key, uris[i]);
    }
    assert Urls(uris)[..|uris|] == Urls(uris);
  }

  method PushOptional(body: string, key: string, value: Option<string>) returns (r: string)
    ensures r == body + KeyValueLines(Optional(key, value))
  {
    r := body;
    if value.Some? { r := PushKeyValue(r, key, value.value); }
  }

  lemma PairsLines(e: ImportedEntry)
    ensures KeyValueLines(Pairs(e)) ==
              KeyValueLines(Optional("login", e.username)) + KeyValueLines(Custom(e.fields))
              + KeyValueLines(Optional("otpauth", e.totp)) + KeyValueLines(Urls(e.uris))
  {
    var login, custom, totp := Optional("login", e.username), Custom(e.fields), Optional("otpauth", e.totp);
    KeyValueLinesAppend(login, custom);
    KeyValueLinesAppend(login + custom, totp);
    KeyValueLinesAppend(login + custom + totp, Urls(e.uris));
  }

  method SerialiseBody(e: ImportedEntry) returns (body: string)
    ensures body == Serialise(e)
  {
    var head := Flatten(e.password) + ['\n'];
    body := PushOptional(head, "login", e.username);
    body := PushCustom(body, e.fields);
    body := PushOptional(body, "otpauth", e.totp);
    body := PushUrls(body, e.uris);
    PairsLines(e);
    RegroupTail(head, KeyValueLines(Optional("login", e.username)), KeyValueLines(Custom(e.fields)),
                KeyValueLines(Optional("otpauth", e.totp)), KeyValueLines(Urls(e.uris)));
    Regroup(head, KeyValueLines(Pairs(e)), NotesBlock(e.notes), []);
    body := PushNotes(body, e.notes);
    assert body + [] == body;
    assert KeyValueLines(Pairs(e)) + NotesBlock(e.notes) + [] == KeyValueLines(Pairs(e)) + NotesBlock(e.notes);
  }

  method PushNotes(body: string, notes: Option<string>) returns (r: string)
    ensures r == body + NotesBlock(notes)
  {
    r := body;
    if notes.Some? && notes.value != [] {
      r := body + (['\n'] + Terminated(notes.value));
    }
  }

  // ----- round trip -----------------------------------------------------

  lemma {:induction false} FlattenChars(s: string)
    ensures '\n' !in Flatten(s) && '\r' !in Flatten(s)
  {
    if s != [] { FlattenChars(s[1..]); }
  }

  lemma {:induction false} SplitOnceFirst(a: string, b: string, c: char)
    requires c !in a
    ensures SplitOnce(a + [c] + b, c) == Some((a, b))
  {
    if a == [] {
      assert (a + [c] + b)[1..] == b;
    } else {
      assert (a + [c] + b)[1..] == a[1..] + [c] + b;
      SplitOnceFirst(a[1..], b, c);
      assert a == [a[0]] + a[1..];
    }
  }

  lemma {:induction false} SplitOnceBefore(s: string, c: char)
    ensures SplitOnce(s, c).Some? ==> c !in SplitOnce(s, c).value.0
    ensures SplitOnce(s, c).Some? ==> forall x :: x in SplitOnce(s, c).value.0 ==> x in s
  {
    if s != [] { SplitOnceBefore(s[1..], c); }
  }

  predicate Addressable(key: string) {
    ':' !in key && '\n' !in key
  }

  /** What the parser is expected to give back for a pair. */
  function Read(f: Field, lower: Lowering): Field {
    (lower(Trim(f.0)), Trim(Flatten(f.1)))
  }

  function ReadAll(fields: seq<Field>, lower: Lowering): seq<Field> {
    if fields == [] then [] else ReadAll(fields[..|fields| - 1], lower) + [Read(fields[|fields| - 1], lower)]
  }

  lemma {:induction false} ReadAllAt(fields: seq<Field>, i: nat, lower: Lowering)
    requires i < |fields|
    ensures |ReadAll(fields, lower)| == |fields| && ReadAll(fields, lower)[i] == Read(fields[i], lower)
  {
    if |fields| > 1 {
      ReadAllAt(fields[..|fields| - 1], if i == |fields| - 1 then 0 else i, lower);
    }
  }

  lemma KeyValueReads(f: Field, lower: Lowering)
    requires Addressable(f.0) && Trim(f.0) != []
    ensures ParseLine(KeyValue(f), lower) == [Read(f, lower)] && '\n' !in KeyValue(f)
  {
    FlattenChars(f.1);
    var line := KeyValue(f);
    var value := [' '] + Flatten(f.1);
    assert line == f.0 + [':'] + value;
    assert line[|line| - 1] == value[|value| - 1];
    SplitOnceFirst(f.0, value, ':');
    assert value[1..] == Flatten(f.1);
    assert Trim(value) == Trim(Flatten(f.1));
  }

  lemma {:induction false} ParseLinesAppend(a: seq<string>, b: seq<string>, lower: Lowering)
    ensures ParseLines(a + b, lower) == ParseLines(a, lower) + ParseLines(b, lower)
  {
    if b == [] {
      assert a + b == a;
    } else {
      assert (a + b)[..|a + b| - 1] == a + b[..|b| - 1];
      ParseLinesAppend(a, b[..|b| - 1], lower);
    }
  }

  lemma ParseOneLine(line: string, lower: Lowering)
    ensures ParseLines([line], lower) == ParseLine(line, lower)
  {
    assert [line][..0] == [];
  }

  lemma ParseFirstLine(line: string, rest: string, lower: Lowering)
    requires '\n' !in line
    ensures ParseLines(Split(line + ['\n'] + rest, '\n'), lower) == ParseLine(line, lower) + ParseLines(Split(rest, '\n'), lower)
  {
    SplitFirst(line, rest, '\n');
    ParseLinesAppend([line], Split(rest, '\n'), lower);
    ParseOneLine(line, lower);
  }

  lemma LastLineReads(fields: seq<Field>, init: seq<Field>, last: Field, rest: string, lower: Lowering)
    requires fields == init + [last]
    requires Addressable(last.0) && Trim(last.0) != []
    ensures KeyValueLines(fields) + rest == KeyValueLines(init) + (KeyValue(last) + ['\n'] + rest)
    ensures ParseLines(Split(KeyValue(last) + ['\n'] + rest, '\n'), lower) == [Read(last, lower)] + ParseLines(Split(rest, '\n'), lower)
  {
    assert fields[..|fields| - 1] == init && fields[|fields| - 1] == last;
    Regroup(KeyValueLines(init), KeyValue(last), ['\n'], rest);
    KeyValueReads(last, lower);
    ParseFirstLine(KeyValue(last), rest, lower);
  }

  lemma ReadAllStep(fields: seq<Field>, init: seq<Field>, last: Field, more: seq<Field>, lower: Lowering)
    requires fields == init + [last]
    ensures ReadAll(init, lower) + ([Read(last, lower)] + more) == ReadAll(fields, lower) + more
  {
    assert fields[..|fields| - 1] == init && fields[|fields| - 1] == last;
  }

  /** Lines written for addressable keys read back as their pairs. */
  lemma {:induction false} KeyValueLinesRead(fields: seq<Field>, rest: string, lower: Lowering)
    requires forall f :: f in fields ==> Addressable(f.0) && Trim(f.0) != []
    ensures ParseLines(Split(KeyValueLines(fields) + rest, '\n'), lower) == ReadAll(fields, lower) + ParseLines(Split(rest, '\n'), lower)
  {
    if fields == [] {
      assert KeyValueLines(fields) + rest == rest;
    } else {
      var init, last := fields[..|fields| - 1], fields[|fields| - 1];
      assert last in fields;
      LastLineReads(fields, init, last, rest, lower);
      KeyValueLinesRead(init, KeyValue(last) + ['\n'] + rest, lower);
      ReadAllStep(fields, init, last, ParseLines(Split(rest, '\n'), lower), lower);
    }
  }

  /** The notes' own lines contribute exactly their fields. */
  function NotesFields(notes: Option<string>, lower: Lowering): seq<Field> {
    if notes.None? then [] else ParseLines(Split(notes.value, '\n'), lower)
  }

  lemma BlankReads(lower: Lowering)
    ensures ParseLines(Split([], '\n'), lower) == [] && ParseLine([], lower) == []
  {
    ParseOneLine([], lower);
  }

  lemma TerminatedReads(notes: string, lower: Lowering)
    requires notes != []
    ensures ParseLines(Split(Terminated(notes), '\n'), lower) == ParseLines(Split(notes, '\n'), lower)
  {
    if notes[|notes| - 1] != '\n' {
      assert notes + ['\n'] + [] == notes + ['\n'];
      SplitAppend(notes, [], '\n');
      ParseLinesAppend(Split(notes, '\n'), Split([], '\n'), lower);
      BlankReads(lower);
    }
  }

  lemma NotesBlockReads(notes: Option<string>, lower: Lowering)
    ensures ParseLines(Split(NotesBlock(notes), '\n'), lower) == NotesFields(notes, lower)
  {
    BlankReads(lower);
    if notes.Some? && notes.value != [] {
      var blank, tail: string := [], Terminated(notes.value);
      assert NotesBlock(notes) == blank + ['\n'] + tail;
      ParseFirstLine(blank, tail, lower);
      TerminatedReads(notes.value, lower);
    }
  }

  lemma {:induction false} CustomTrimmed(fields: seq<Field>)
    ensures forall f :: f in Custom(fields) ==> f.0 != [] && Trim(f.0) == f.0
    ensures forall f :: f in fields && Trim(f.0) != [] ==> (Trim(f.0), f.1) in Custom(fields)
    ensures forall f :: f in Custom(fields) ==> exists g :: g in fields && Trim(g.0) == f.0
  {
    if fields != [] {
      var init, last := fields[..|fields| - 1], fields[|fields| - 1];
      CustomTrimmed(init);
      assert fields == init + [last];
      TrimIdempotent(last.0);
    }
  }

  /** Keys the entry brings along, once trimmed, hold no `:` and no newline. */
  ghost predicate KeysAddressable(e: ImportedEntry) {
    forall f :: f in e.fields ==> Addressable(Trim(f.0))
  }

  /** The shape of the keys the importer chooses itself. */
  ghost predicate OwnKey(key: string, lower: Lowering) {
    Addressable(key) && Trim(key) == key && key != [] && lower(key) == key
  }

  lemma OwnKeys(lower: Lowering)
    requires UnicodeLowering(lower)
    ensures OwnKey("login", lower) && OwnKey("otpauth", lower) && OwnKey("url", lower)
  {
    TrimFixed("login");
    TrimFixed("otpauth");
    TrimFixed("url");
  }

  lemma UrlKeyOwn(i: nat, lower: Lowering)
    requires UnicodeLowering(lower)
    ensures OwnKey(UrlKey(i), lower)
  {
    if i == 0 {
      OwnKeys(lower);
    } else {
      DecimalRoundTrip(i + 1);
      PlainKeyOwn("url-" + Decimal(i + 1), lower);
    }
  }

  lemma PlainKeyOwn(key: string, lower: Lowering)
    requires UnicodeLowering(lower) && key != []
    requires forall c :: c in key ==> c in {'u', 'r', 'l', '-'} || '0' <= c <= '9'
    ensures OwnKey(key, lower)
  {
    assert key[0] in key && key[|key| - 1] in key;
    TrimFixed(key);
    assert forall c :: c in key ==> c < '\U{80}' && !('A' <= c <= 'Z');
  }

  /** The keys the importer chooses are read back as they are. */
  lemma OwnKeysKept(e: ImportedEntry, f: Field, lower: Lowering)
    requires UnicodeLowering(lower) && f in Pairs(e) && f !in Custom(e.fields)
    ensures Read(f, lower) == (f.0, Trim(Flatten(f.1)))
  {
    OwnKeys(lower);
    if f in Urls(e.uris) {
      var i :| 0 <= i < |e.uris| && f == (UrlKey(i), e.uris[i]);
      UrlKeyOwn(i, lower);
    } else {
      assert f.0 == "login" || f.0 == "otpauth";
    }
  }

  lemma PairsAddressable(e: ImportedEntry, f: Field, lower: Lowering)
    requires UnicodeLowering(lower)
    requires KeysAddressable(e) && f in Pairs(e)
    ensures Addressable(f.0) && Trim(f.0) != []
  {
    CustomTrimmed(e.fields);
    OwnKeys(lower);
    if f in Urls(e.uris) {
      var i :| 0 <= i < |e.uris| && f == (UrlKey(i), e.uris[i]);
      UrlKeyOwn(i, lower);
    } else if f !in Custom(e.fields) {
      assert f.0 == "login" || f.0 == "otpauth";
    }
  }

  lemma ParseSerialised(e: ImportedEntry, lower: Lowering)
    ensures Parse(Serialise(e), lower).password == Flatten(e.password)
    ensures Parse(Serialise(e), lower).fields == ParseLines(Split(KeyValueLines(Pairs(e)) + NotesBlock(e.notes), '\n'), lower)
  {
    var head := Flatten(e.password);
    var rest := KeyValueLines(Pairs(e)) + NotesBlock(e.notes);
    FlattenChars(e.password);
    SplitAppend(head, rest, '\n');
    SplitWithout(head, '\n');
    assert Split(Serialise(e), '\n')[1..] == Split(rest, '\n');
  }

  /** No parsed key holds a `:` or a newline, whatever the line. */
  lemma ParsedKeyAddressable(line: string, f: Field, lower: Lowering)
    requires UnicodeLowering(lower)
    requires '\n' !in line && f in ParseLine(line, lower)
    ensures Addressable(f.0)
  {
    var key := SplitOnce(StripCr(line), ':').value.0;
    SplitOnceBefore(StripCr(line), ':');
    TrimIdempotent(key);
  }

  lemma {:induction false} ParsedKeysAddressable(lines: seq<string>, f: Field, lower: Lowering)
    requires UnicodeLowering(lower)
    requires (forall line :: line in lines ==> '\n' !in line) && f in ParseLines(lines, lower)
    ensures Addressable(f.0)
  {
    var init, last := lines[..|lines| - 1], lines[|lines| - 1];
    assert last in lines && forall line :: line in init ==> line in lines;
    if f in ParseLines(init, lower) {
      ParsedKeysAddressable(init, f, lower);
    } else {
      ParsedKeyAddressable(last, f, lower);
    }
  }

  /** What the parser gives back when nothing is lost. */
  function Expected(e: ImportedEntry, lower: Lowering): Entry {
    Entry(Flatten(e.password), ReadAll(Pairs(e), lower) + NotesFields(e.notes, lower))
  }

  lemma UnaddressableIsExpected(e: ImportedEntry, f: Field, lower: Lowering)
    requires UnicodeLowering(lower)
    requires f in e.fields && !Addressable(Trim(f.0))
    ensures exists g :: g in Expected(e, lower).fields && !Addressable(g.0)
  {
    var pair := (Trim(f.0), f.1);
    CustomTrimmed(e.fields);
    TrimIdempotent(f.0);
    assert pair in Custom(e.fields) && pair in Pairs(e);
    var i :| 0 <= i < |Pairs(e)| && Pairs(e)[i] == pair;
    ReadAllAt(Pairs(e), i, lower);
    assert Expected(e, lower).fields[i] == Read(pair, lower);
    assert Read(pair, lower) in Expected(e, lower).fields && !Addressable(Read(pair, lower).0);
  }

  lemma UnaddressableIsNotParsed(e: ImportedEntry, g: Field, lower: Lowering)
    requires UnicodeLowering(lower)
    requires g in Parse(Serialise(e), lower).fields
    ensures Addressable(g.0)
  {
    var text := KeyValueLines(Pairs(e)) + NotesBlock(e.notes);
    ParseSerialised(e, lower);
    JoinSplit(text, '\n');
    ParsedKeysAddressable(Split(text, '\n'), g, lower);
  }

  /** Parsing an imported body gives the flattened password and, in order, the
      login, the custom fields, the otpauth URI, the URLs and the fields of the
      notes' lines exactly when every custom key is addressable. */
  lemma BodyRoundTrip(e: ImportedEntry, lower: Lowering)
    requires UnicodeLowering(lower)
    ensures Parse(Serialise(e), lower) == Expected(e, lower) <==> KeysAddressable(e)
  {
    if KeysAddressable(e) {
      ParseSerialised(e, lower);
      forall f | f in Pairs(e) ensures Addressable(f.0) && Trim(f.0) != [] {
        PairsAddressable(e, f, lower);
      }
      KeyValueLinesRead(Pairs(e), NotesBlock(e.notes), lower);
      NotesBlockReads(e.notes, lower);
    } else {
      var f :| f in e.fields && !Addressable(Trim(f.0));
      UnaddressableIsExpected(e, f, lower);
      var g :| g in Expected(e, lower).fields && !Addressable(g.0);
      if g in Parse(Serialise(e), lower).fields { UnaddressableIsNotParsed(e, g, lower); }
    }
  }

  /** So the login of an import is found under any spelling of `login`. */
  lemma LoginIsFound(e: ImportedEntry, name: string, lower: Lowering)
    requires UnicodeLowering(lower)
    requires KeysAddressable(e) && e.username.Some? && lower(name) == "login"
    ensures Lookup(Parse(Serialise(e), lower).fields, name, lower) == Some(Trim(Flatten(e.username.value)))
  {
    BodyRoundTrip(e, lower);
    OwnKeys(lower);
    var fields := Expected(e, lower).fields;
    assert Pairs(e)[0] == ("login", e.username.value);
    ReadAllAt(Pairs(e), 0, lower);
    assert fields[0] == Read(Pairs(e)[0], lower);
  }

  // ----- the texts themselves -------------------------------------------

  /** Flattening replaces each newline by a backslash and an `n`, leaves out
      each carriage return, and keeps every other character. */
  lemma {:induction false} FlattenConcatenates(a: string, b: string)
    ensures Flatten(a + b) == Flatten(a) + Flatten(b)
  {
    if a == [] {
      assert a + b == b;
    } else {
      assert (a + b)[1..] == a[1..] + b;
      FlattenConcatenates(a[1..], b);
    }
  }

  lemma FlattenOne(c: char)
    ensures Flatten([]) == []
    ensures Flatten([c]) == if c == '\n' then ['\\', 'n'] else if c == '\r' then [] else [c]
  {
    assert [c][1..] == [];
  }

  /** Text on one line. */
  predicate OneLine(s: string) {
    '\n' !in s && '\r' !in s
  }

  lemma {:induction false} FlattenKeeps(s: string)
    requires OneLine(s)
    ensures Flatten(s) == s
  {
    if s != [] { FlattenKeeps(s[1..]); }
  }

  /** A password on one line survives the import as it is. */
  lemma PasswordKept(e: ImportedEntry, lower: Lowering)
    requires OneLine(e.password)
    ensures Parse(Serialise(e), lower).password == e.password
  {
    ParseSerialised(e, lower);
    FlattenKeeps(e.password);
  }

  lemma {:induction false} CustomConcatenates(a: seq<Field>, b: seq<Field>)
    ensures Custom(a + b) == Custom(a) + Custom(b)
  {
    if b == [] {
      assert a + b == a;
    } else {
      assert (a + b)[..|a + b| - 1] == a + b[..|b| - 1];
      CustomConcatenates(a, b[..|b| - 1]);
    }
  }

  lemma CustomOne(key: string, value: string)
    ensures Custom([]) == []
    ensures Custom([(key, value)]) == if Trim(key) == "" then [] else [(Trim(key), value)]
  {
    assert [(key, value)][..0] == [];
  }

  /** The pairs of a list as they are read back. */
  function Values(fields: seq<Field>, lower: Lowering): seq<Field> {
    seq(|fields|, i requires 0 <= i < |fields| => (lower(Trim(fields[i].0)), Trim(Flatten(fields[i].1))))
  }

  lemma {:induction false} ReadAllIsValues(fields: seq<Field>, lower: Lowering)
    ensures ReadAll(fields, lower) == Values(fields, lower)
  {
    if fields != [] {
      ReadAllIsValues(fields[..|fields| - 1], lower);
    }
  }

  lemma OneValue(key: string, value: Option<string>, lower: Lowering)
    requires OwnKey(key, lower)
    ensures Values(Optional(key, value), lower) == if value.Some? then [(key, Trim(Flatten(value.value)))] else []
  {
  }

  /** The addresses of an entry, as they are read back. */
  function UrlFields(uris: seq<string>): seq<Field> {
    seq(|uris|, i requires 0 <= i < |uris| =>
      (if i == 0 then "url" else "url-" + Decimal(i + 1), Trim(Flatten(uris[i]))))
  }

  lemma UrlValues(uris: seq<string>, lower: Lowering)
    requires UnicodeLowering(lower)
    ensures Values(Urls(uris), lower) == UrlFields(uris)
  {
    forall i | 0 <= i < |uris| ensures lower(Trim(UrlKey(i))) == UrlKey(i) {
      UrlKeyOwn(i, lower);
    }
  }

  lemma ValuesConcatenate(a: seq<Field>, b: seq<Field>, lower: Lowering)
    ensures Values(a + b, lower) == Values(a, lower) + Values(b, lower)
  {
  }

  /** What an import is read back as, field by field: the login, the custom
      fields with a key that is not blank, the otpauth URI, `url`, `url-2` and so
      on, and what the lines of the notes hold. */
  lemma ImportedFields(e: ImportedEntry, lower: Lowering)
    requires UnicodeLowering(lower) && KeysAddressable(e)
    ensures Parse(Serialise(e), lower).fields ==
              (if e.username.Some? then [("login", Trim(Flatten(e.username.value)))] else [])
              + Values(Custom(e.fields), lower)
              + (if e.totp.Some? then [("otpauth", Trim(Flatten(e.totp.value)))] else [])
              + UrlFields(e.uris)
              + (if e.notes.None? then [] else ParseLines(Split(e.notes.value, '\n'), lower))
  {
    BodyRoundTrip(e, lower);
    ReadAllIsValues(Pairs(e), lower);
    PairsValues(e, lower);
  }

  lemma PairsValues(e: ImportedEntry, lower: Lowering)
    requires UnicodeLowering(lower)
    ensures Values(Pairs(e), lower) ==
              (if e.username.Some? then [("login", Trim(Flatten(e.username.value)))] else [])
              + Values(Custom(e.fields), lower)
              + (if e.totp.Some? then [("otpauth", Trim(Flatten(e.totp.value)))] else [])
              + UrlFields(e.uris)
  {
    FourValues(Optional("login", e.username), Custom(e.fields), Optional("otpauth", e.totp), Urls(e.uris), lower);
    OwnKeys(lower);
    OneValue("login", e.username, lower);
    OneValue("otpauth", e.totp, lower);
    UrlValues(e.uris, lower);
  }

  lemma FourValues(a: seq<Field>, b: seq<Field>, c: seq<Field>, d: seq<Field>, lower: Lowering)
    ensures Values(a + b + c + d, lower) ==
              Values(a, lower) + Values(b, lower) + Values(c, lower) + Values(d, lower)
  {
    ValuesConcatenate(a + b + c, d, lower);
    ValuesConcatenate(a + b, c, lower);
    ValuesConcatenate(a, b, lower);
  }

  lemma OnePair(key: string, value: string)
    ensures KeyValueLines([]) == [] && KeyValueLines([(key, value)]) == key + ": " + Flatten(value) + ['\n']
  {
    assert [(key, value)][..0] == [];
  }

  /** The text of an import: the password's line, one `key: value` line per
      field, and the notes as they are, after a blank line and ended by a
      newline. */
  lemma SerialisedText(e: ImportedEntry)
    ensures Serialise(e) ==
              Flatten(e.password) + ['\n'] +
              ((if e.username.Some? then "login: " + Flatten(e.username.value) + ['\n'] else [])
               + KeyValueLines(Custom(e.fields))
               + (if e.totp.Some? then "otpauth: " + Flatten(e.totp.value) + ['\n'] else [])
               + KeyValueLines(Urls(e.uris))
               + (if e.notes.None? || e.notes.value == [] then []
                  else if e.notes.value[|e.notes.value| - 1] == '\n' then ['\n'] + e.notes.value
                  else ['\n'] + (e.notes.value + ['\n'])))
  {
    var login, custom := Optional("login", e.username), Custom(e.fields);
    var otpauth, urls := Optional("otpauth", e.totp), Urls(e.uris);
    KeyValueLinesAppend(login + custom + otpauth, urls);
    KeyValueLinesAppend(login + custom, otpauth);
    KeyValueLinesAppend(login, custom);
    if e.username.Some? { OnePair("login", e.username.value); }
    if e.totp.Some? { OnePair("otpauth", e.totp.value); }
    assert "login" + ": " == "login: " && "otpauth" + ": " == "otpauth: ";
  }

  /** The first line is the password, without one carriage return at its end. */
  lemma PasswordLine(password: string, rest: string, lower: Lowering)
    requires '\n' !in password
    ensures Parse(password + ['\r'] + ['\n'] + rest, lower).password == password
    ensures (password == [] || password[|password| - 1] != '\r') ==>
              Parse(password + ['\n'] + rest, lower).password == password
    ensures Parse(password + ['\n'] + rest, lower).fields == ParseLines(Split(rest, '\n'), lower)
  {
    SplitFirst(password, rest, '\n');
    SplitFirst(password + ['\r'], rest, '\n');
    assert ([password] + Split(rest, '\n'))[1..] == Split(rest, '\n');
  }

  /** A line with a colon is a field, key and value trimmed and the key lowered,
      unless the key is blank; any other line is skipped. */
  lemma FieldLine(key: string, value: string, rest: string, lower: Lowering)
    requires ':' !in key && '\n' !in key && '\n' !in value
    ensures ParseLines(Split(key + [':'] + value + ['\n'] + rest, '\n'), lower) ==
              (if Trim(key) == "" then [] else [(lower(Trim(key)), Trim(value))]) + ParseLines(Split(rest, '\n'), lower)
    ensures ParseLines(Split(key + ['\n'] + rest, '\n'), lower) == ParseLines(Split(rest, '\n'), lower)
  {
    ParseFirstLine(key + [':'] + value, rest, lower);
    LineWithColon(key, value, lower);
    ParseFirstLine(key, rest, lower);
    LineWithoutColon(key, lower);
    assert [] + ParseLines(Split(rest, '\n'), lower) == ParseLines(Split(rest, '\n'), lower);
  }

  lemma LineWithColon(key: string, value: string, lower: Lowering)
    requires ':' !in key
    ensures ParseLine(key + [':'] + value, lower) == if Trim(key) == "" then [] else [(lower(Trim(key)), Trim(value))]
  {
    StripCrOfEnd(key, ':', value);
    SplitOnceFirst(key, StripCr(value), ':');
    TrimStripCr(value);
  }

  lemma LineWithoutColon(line: string, lower: Lowering)
    requires ':' !in line
    ensures ParseLine(line, lower) == []
  {
    NoField(StripCr(line), lower);
  }

  lemma StripCrOfEnd(key: string, c: char, value: string)
    requires c != '\r'
    ensures StripCr(key + [c] + value) == key + [c] + StripCr(value)
  {
    if value != [] {
      assert (key + [c] + value)[|key| + |value|] == value[|value| - 1];
    } else {
      assert (key + [c] + value)[|key|] == c;
    }
  }

  lemma TrimStripCr(value: string)
    ensures Trim(StripCr(value)) == Trim(value)
  {
    if StripCr(value) != value {
      TrimDropsLast(StripCr(value), '\r');
      assert value == StripCr(value) + ['\r'];
    }
  }

  lemma TrimDropsLast(s: string, c: char)
    requires IsWhitespace(c)
    ensures Trim(s + [c]) == Trim(s)
  {
    TrimExactly(s, Trim(s));
    var a, b :| AllWhitespace(a) && AllWhitespace(b) && s == a + Trim(s) + b;
    assert s + [c] == a + Trim(s) + (b + [c]) && AllWhitespace(b + [c]);
    TrimExactly(s + [c], Trim(s));
  }

  lemma {:induction false} NoField(line: string, lower: Lowering)
    requires ':' !in line
    ensures SplitOnce(line, ':').None?
  {
    if line != [] { NoField(line[1..], lower); }
  }

  /** A lookup finds the first field of that name. */
  lemma {:induction false} LookupExactly(fields: seq<Field>, name: string, lower: Lowering, i: nat)
    requires i <= |fields| && forall j :: 0 <= j < i ==> fields[j].0 != lower(name)
    requires i < |fields| ==> fields[i].0 == lower(name)
    ensures Lookup(fields, name, lower) == if i < |fields| then Some(fields[i].1) else None
  {
    if i > 0 { LookupExactly(fields[1..], name, lower, i - 1); }
  }
}
