/** `ArchiveService`: export of the list configuration as a ZIP entry list
    (or, without ZIP support, the JSON shape of `load`), and import of an
    uploaded JSON document or ZIP archive into the store. A ZIP archive is
    its sequence of named entries; the container format is not modelled. */
module Archive {
  import opened Common
  import opened Text
  import opened Store

  /** The body of an export: the archive's entries in order, or the `ini`
      and `files` of `load` that the JSON fallback encodes. */
  datatype Bundle =
    | ZipBundle(entries: seq<(string, string)>)
    | JsonBundle(ini: string, files: seq<(string, FileInfo)>)

  /** What `exportZip` returns: a download name, a body and a content type. */
  datatype Export = Export(filename: string, content: Bundle, ctype: string)

  datatype ArchiveError =
    | InvalidJson
    | ZipUnavailable
    | CannotOpenArchive
    | CannotCreateZip
    | StoreFailure(cause: StoreError)

  /** An uploaded document after `json_decode(…, true)`: not an array, or its
      `ini` text and its `files` map after the casts of the import. */
  datatype JsonDoc = NotAnArray | JsonLists(ini: string, files: seq<(string, SaveItem)>)

  /** One archive entry as `statIndex` and `getFromIndex` report it. */
  datatype ZipEntry = ZipEntry(name: string, content: string)

  /** The import summary: whether an index was written, and how many list files. */
  datatype Summary = Summary(ini: bool, files: nat)


  // ----- export -----

  /** The archive `exportZip` builds: `lists.ini` first, then `addFromString`
      of each referenced path in turn; adding a name already present
      replaces that entry. The first reference that does not resolve throws. */
  function ExportEntries(dir: string, canon: string -> string, fs: map<string, string>, paths: seq<string>)
    : (r: Result<seq<(string, string)>, StoreError>)
    ensures r.Ok? ==> DistinctKeys(r.value) && |r.value| >= 1 && r.value[0].0 == IndexName
    ensures r.Ok? ==> forall x :: HasKey(r.value, x) <==> x == IndexName || x in paths
    decreases |paths|
  {
    if |paths| == 0 then
      var entries := [(IndexName, IndexText(dir, fs))];
      assert entries[0].0 == IndexName;
      Ok(entries)
    else
      var n := |paths| - 1;
      match ExportEntries(dir, canon, fs, paths[..n])
      case Err(e) => Err(e)
      case Ok(entries) =>
        match Resolve(dir, canon, fs, paths[n])
        case Err(e) => Err(e)
        case Ok(full) =>
          AddEntry(entries, paths, ContentAt(fs, full));
          Ok(Put(entries, paths[n], ContentAt(fs, full)))
  }

  /** `addFromString` of the last path keeps the archive's shape. */
  lemma AddEntry(entries: seq<(string, string)>, paths: seq<string>, content: string)
    requires |paths| > 0
    requires DistinctKeys(entries) && |entries| >= 1 && entries[0].0 == IndexName
    requires forall x :: HasKey(entries, x) <==> x == IndexName || x in paths[..|paths| - 1]
    ensures var r := Put(entries, paths[|paths| - 1], content);
      DistinctKeys(r) && |r| >= 1 && r[0].0 == IndexName
    ensures forall x :: HasKey(Put(entries, paths[|paths| - 1], content), x) <==> x == IndexName || x in paths
  {
    var n := |paths| - 1;
    assert paths == paths[..n] + [paths[n]];
    PutInPlace(entries, paths[n], content);
  }

  /** Once a prefix of the references fails, the export fails with the same error. */
  lemma {:induction false} ExportErrorSticks(dir: string, canon: string -> string, fs: map<string, string>,
                                             paths: seq<string>, k: nat)
    requires k <= |paths| && ExportEntries(dir, canon, fs, paths[..k]).Err?
    ensures ExportEntries(dir, canon, fs, paths) == ExportEntries(dir, canon, fs, paths[..k])
    decreases |paths| - k
  {
    if k < |paths| {
      assert paths[..k + 1][..k] == paths[..k];
      ExportErrorSticks(dir, canon, fs, paths, k + 1);
    } else {
      assert paths[..k] == paths;
    }
  }

  /** The export succeeds exactly when every reference resolves. */
  lemma {:induction false} ExportOk(dir: string, canon: string -> string, fs: map<string, string>,
                                    paths: seq<string>)
    ensures ExportEntries(dir, canon, fs, paths).Ok? ==>
      forall i :: 0 <= i < |paths| ==> Resolve(dir, canon, fs, paths[i]).Ok?
    ensures (forall i :: 0 <= i < |paths| ==> Resolve(dir, canon, fs, paths[i]).Ok?) ==> ExportEntries(dir, canon, fs, paths).Ok?
    decreases |paths|
  {
    if |paths| > 0 {
      var n := |paths| - 1;
      var prefix := paths[..n];
      assert forall i :: 0 <= i < n ==> paths[i] == prefix[i];
      ExportOk(dir, canon, fs, prefix);
      var r := ExportEntries(dir, canon, fs, paths);
      if ExportEntries(dir, canon, fs, prefix).Err? {
        assert r.Err?;
      } else if Resolve(dir, canon, fs, paths[n]).Err? {
        assert r.Err?;
      } else {
        assert r.Ok?;
      }
      if r.Ok? {
        assert ExportEntries(dir, canon, fs, prefix).Ok?;
        forall i | 0 <= i < |paths|
          ensures Resolve(dir, canon, fs, paths[i]).Ok?
        {
          if i < n {
            assert paths[i] == prefix[i];
            assert Resolve(dir, canon, fs, prefix[i]).Ok?;
          } else {
            assert i == n;
            assert Resolve(dir, canon, fs, paths[n]).Ok?;
          }
        }
      }
    }
  }

  /** What the archive holds for a referenced path: the resolved file's content, '' when missing. */
  function FileContent(dir: string, canon: string -> string, fs: map<string, string>, p: string): string
  {
    match Resolve(dir, canon, fs, p)
    case Ok(full) => ContentAt(fs, full)
    case Err(_) => ""
  }

  /** Every entry after the first holds its referenced file. */
  lemma {:induction false} ExportContents(dir: string, canon: string -> string, fs: map<string, string>,
                                          paths: seq<string>)
    ensures var r := ExportEntries(dir, canon, fs, paths);
      r.Ok? ==> forall j :: 0 < j < |r.value| ==> r.value[j].1 == FileContent(dir, canon, fs, r.value[j].0)
    decreases |paths|
  {
    var r := ExportEntries(dir, canon, fs, paths);
    if |paths| > 0 && r.Ok? {
      var n := |paths| - 1;
      ExportContents(dir, canon, fs, paths[..n]);
      var before := ExportEntries(dir, canon, fs, paths[..n]).value;
      var k := paths[n];
      var v := FileContent(dir, canon, fs, k);
      assert r.value == Put(before, k, v);
      PutKeepsValues(before, k, v, p => FileContent(dir, canon, fs, p));
    }
  }

  /** The first entry, `lists.ini`, holds the index unless a reference has that name. */
  lemma {:induction false} ExportIndexContent(dir: string, canon: string -> string, fs: map<string, string>,
                                              paths: seq<string>)
    ensures var r := ExportEntries(dir, canon, fs, paths);
      r.Ok? ==> r.value[0].1 == if IndexName in paths then FileContent(dir, canon, fs, IndexName) else IndexText(dir, fs)
    decreases |paths|
  {
    var r := ExportEntries(dir, canon, fs, paths);
    if |paths| > 0 && r.Ok? {
      var n := |paths| - 1;
      var prefix := paths[..n];
      assert paths == prefix + [paths[n]];
      ExportIndexContent(dir, canon, fs, prefix);
      var before := ExportEntries(dir, canon, fs, prefix).value;
      var k := paths[n];
      var v := FileContent(dir, canon, fs, k);
      assert r.value == Put(before, k, v);
      PutFirst(before, k, v);
      assert IndexName in paths <==> IndexName in prefix || k == IndexName;
    }
  }

  /** The export of a store: the JSON fallback without ZIP support, otherwise the archive. */
  function ExportOf(zipAvailable: bool, canCreate: bool, dir: string, parse: IniParser,
                    canon: string -> string, fs: map<string, string>): Result<Export, ArchiveError>
  {
    if !zipAvailable then
      match LoadOf(dir, parse, canon, fs)
      case Err(e) => Err(StoreFailure(e))
      case Ok(data) => Ok(Export("email-lists.json", JsonBundle(data.ini, data.files), "application/json"))
    else if !canCreate then Err(CannotCreateZip)
    else
      match ExportEntries(dir, canon, fs, Values(Refs(parse, IndexText(dir, fs))))
      case Err(e) => Err(StoreFailure(e))
      case Ok(entries) => Ok(Export("email-lists.zip", ZipBundle(entries), "application/zip"))
  }

  /** The archive fails exactly when `load` fails, and every file `load`
      returns appears in the archive under its path with the same content. */
  lemma ExportMatchesLoad(dir: string, parse: IniParser, canon: string -> string, fs: map<string, string>)
    ensures var refs := Refs(parse, IndexText(dir, fs));
      var r := ExportEntries(dir, canon, fs, Values(refs));
      var loaded := LoadOf(dir, parse, canon, fs);
      (r.Ok? <==> loaded.Ok?)
      && (loaded.Ok? ==> forall i :: 0 <= i < |loaded.value.files| ==>
            Get(r.value, loaded.value.files[i].1.path) == Some(loaded.value.files[i].1.content))
  {
    var refs := Refs(parse, IndexText(dir, fs));
    var paths := Values(refs);
    LoadFilesOk(dir, canon, fs, refs);
    LoadFilesSpec(dir, canon, fs, refs);
    ExportOk(dir, canon, fs, paths);
    var loaded := LoadOf(dir, parse, canon, fs);
    if loaded.Ok? {
      ExportContents(dir, canon, fs, paths);
      ExportIndexContent(dir, canon, fs, paths);
      var entries := ExportEntries(dir, canon, fs, paths).value;
      var files := loaded.value.files;
      forall i | 0 <= i < |files|
        ensures Get(entries, files[i].1.path) == Some(files[i].1.content)
      {
        var p := files[i].1.path;
        assert p == paths[i];
        assert files[i].1.content == FileContent(dir, canon, fs, p);
        assert HasKey(entries, p);
        var j :| 0 <= j < |entries| && entries[j].0 == p;
        if j == 0 {
          assert p == IndexName && p in paths;
        }
        assert entries[j].1 == FileContent(dir, canon, fs, p);
      }
    }
  }

  /** Without ZIP support the export is the JSON of `load`; with it, the
      archive is built exactly when `load` would succeed, starts with
      `lists.ini` and holds every file `load` reads. */
  lemma ExportFollowsLoad(zipAvailable: bool, canCreate: bool, dir: string, parse: IniParser,
                          canon: string -> string, fs: map<string, string>)
    ensures !zipAvailable ==>
      var r := ExportOf(zipAvailable, canCreate, dir, parse, canon, fs);
      var loaded := LoadOf(dir, parse, canon, fs);
      (r.Ok? <==> loaded.Ok?)
      && (r.Ok? ==> r.value == Export("email-lists.json", JsonBundle(loaded.value.ini, loaded.value.files), "application/json"))
    ensures zipAvailable && !canCreate ==> ExportOf(zipAvailable, canCreate, dir, parse, canon, fs) == Err(CannotCreateZip)
    ensures zipAvailable && canCreate ==>
      var r := ExportOf(zipAvailable, canCreate, dir, parse, canon, fs);
      var loaded := LoadOf(dir, parse, canon, fs);
      (r.Ok? <==> loaded.Ok?)
      && (r.Ok? ==> r.value.filename == "email-lists.zip" && r.value.ctype == "application/zip"
                    && r.value.content.ZipBundle? && r.value.content.entries[0].0 == IndexName
                    && forall i :: 0 <= i < |loaded.value.files| ==>
                         Get(r.value.content.entries, loaded.value.files[i].1.path) == Some(loaded.value.files[i].1.content))
  {
    ExportMatchesLoad(dir, parse, canon, fs);
  }

  // ----- import -----

  /** Separators unified and leading slashes removed. */
  function CleanName(name: string): (r: string)
    ensures '\\' !in r && (|r| == 0 || r[0] != '/')
  {
    TrimStart(ReplaceChar(name, '\\', '/'), IsSlash)
  }

  /** Names the import passes over without writing. */
  predicate Skipped(name: string)
  {
    name == "" || Contains(name, "../")
  }

  /** `strtolower($name) === 'lists.ini'` */
  predicate IsIndexName(name: string)
  {
    ToLowerAscii(name) == IndexName
  }

  /** The character class `[A-Za-z0-9_\-./]`. */
  predicate IsNameChar(c: char)
  {
    ('A' <= c <= 'Z') || ('a' <= c <= 'z') || ('0' <= c <= '9') || c == '_' || c == '-' || c == '.' || c == '/'
  }

  /** `[A-Za-z0-9_\-./]+\.txt`: at least one class character, then `.txt`. */
  predicate TxtName(t: string)
  {
    |t| >= 5 && EndsWith(t, ".txt") && forall i :: 0 <= i < |t| ==> IsNameChar(t[i])
  }

  /** `~^[A-Za-z0-9_\-./]+\.txt$~`: PCRE's `$` also matches before a final newline. */
  predicate MatchesTxtPattern(name: string)
  {
    TxtName(name) || (|name| > 0 && name[|name| - 1] == '\n' && TxtName(name[..|name| - 1]))
  }

  /** A readable entry whose cleaned name is kept and is `lists.ini` in any case. */
  predicate RoutesToIndex(entry: Option<ZipEntry>)
  {
    entry.Some? && !Skipped(CleanName(entry.value.name)) && IsIndexName(CleanName(entry.value.name))
  }

  /** A readable entry whose cleaned name is kept, is not the index and matches the pattern. */
  predicate RoutesToList(entry: Option<ZipEntry>)
  {
    entry.Some? && !Skipped(CleanName(entry.value.name)) && !IsIndexName(CleanName(entry.value.name))
    && MatchesTxtPattern(CleanName(entry.value.name))
  }

  /** The list files an archive asks for: cleaned name and content of each
      entry routed to a list file, in archive order. */
  function ListEntries(entries: seq<Option<ZipEntry>>): (r: seq<(string, string)>)
    ensures |r| <= |entries|
    decreases |entries|
  {
    if |entries| == 0 then []
    else if RoutesToList(entries[0]) then
      [(CleanName(entries[0].value.name), entries[0].value.content)] + ListEntries(entries[1..])
    else ListEntries(entries[1..])
  }

  /** What the loop does with one entry. */
  datatype Action = Skip | WriteIndex(content: string) | WriteFile(name: string, content: string)

  /** The guards of the entry loop: unreadable, empty or `../` names are
      skipped, the index is routed to `lists.ini`, other names must match the pattern. */
  function EntryAction(entry: Option<ZipEntry>): (a: Action)
    ensures a.WriteFile? ==> !Skipped(a.name) && MatchesTxtPattern(a.name)
  {
    match entry
    case None => Skip
    case Some(e) =>
      var name := CleanName(e.name);
      if Skipped(name) then Skip
      else if IsIndexName(name) then WriteIndex(e.content)
      else if MatchesTxtPattern(name) then WriteFile(name, e.content)
      else Skip
  }

  /** An entry is written to the index exactly when it is routed there, to a
      list file under its cleaned name exactly when it is routed to one, and
      skipped otherwise; what is written is the entry's content. */
  lemma EntryActionRoutes(entry: Option<ZipEntry>)
    ensures EntryAction(entry).WriteIndex? <==> RoutesToIndex(entry)
    ensures EntryAction(entry).WriteFile? <==> RoutesToList(entry)
    ensures EntryAction(entry).Skip? <==> !RoutesToIndex(entry) && !RoutesToList(entry)
    ensures EntryAction(entry).WriteIndex? ==> EntryAction(entry).content == entry.value.content
    ensures EntryAction(entry).WriteFile? ==>
      EntryAction(entry).name == CleanName(entry.value.name) && EntryAction(entry).content == entry.value.content
  {
  }

  /** The action for each entry of the archive, in order. */
  function Actions(entries: seq<Option<ZipEntry>>): (acts: seq<Action>)
    ensures |acts| == |entries|
    ensures forall i :: 0 <= i < |entries| ==> acts[i] == EntryAction(entries[i])
  {
    seq(|entries|, i requires 0 <= i < |entries| => EntryAction(entries[i]))
  }

  /** `resolve` of the store in `dir`. */
  function ResolverOf(dir: string, canon: string -> string): Resolver
  {
    (d: map<string, string>, name: string) => Resolve(dir, canon, d, name)
  }

  /** What the entry loop did: the exception it threw, if any, the disk
      afterwards, whether it wrote the index, and the list files it wrote. */
  datatype ImportOutcome = ImportOutcome(error: Option<StoreError>, fs: map<string, string>, ini: bool, written: seq<string>)

  /** The entry loop of `importFromUpload` over the entries' actions. */
  function ImportActions(dir: string, resolve: Resolver, fs: map<string, string>,
                         acts: seq<Action>, ini: bool): (r: ImportOutcome)
    ensures |r.written| <= |acts|
    ensures r.error.None? && ini ==> r.ini
    decreases |acts|
  {
    if |acts| == 0 then ImportOutcome(None, fs, ini, [])
    else
      var rest := acts[1..];
      match acts[0]
      case Skip => ImportActions(dir, resolve, fs, rest, ini)
      case WriteIndex(content) => ImportActions(dir, resolve, fs[IndexPath(dir) := content], rest, true)
      case WriteFile(name, content) =>
        match resolve(fs, name)
        case Err(e) => ImportOutcome(Some(e), fs, ini, [])
        case Ok(full) =>
          var out := ImportActions(dir, resolve, fs[full := content], rest, ini);
          out.(written := [full] + out.written)
  }

  /** How many entries are list files the import writes. */
  function AcceptedCount(acts: seq<Action>): (n: nat)
    ensures n <= |acts|
    decreases |acts|
  {
    if |acts| == 0 then 0
    else (if acts[0].WriteFile? then 1 else 0) + AcceptedCount(acts[1..])
  }

  /** Name and content of each list file action, in order. */
  function Accepted(acts: seq<Action>): (r: seq<(string, string)>)
    ensures |r| == AcceptedCount(acts)
    decreases |acts|
  {
    if |acts| == 0 then []
    else if acts[0].WriteFile? then [(acts[0].name, acts[0].content)] + Accepted(acts[1..])
    else Accepted(acts[1..])
  }

  /** The actions of an archive write its list entries, in archive order. */
  lemma {:induction false} ActionsAccepted(entries: seq<Option<ZipEntry>>)
    ensures Accepted(Actions(entries)) == ListEntries(entries)
    decreases |entries|
  {
    if |entries| > 0 {
      var acts := Actions(entries);
      assert acts[1..] == Actions(entries[1..]);
      EntryActionRoutes(entries[0]);
      ActionsAccepted(entries[1..]);
    }
  }

  /** The actions of an archive write the index exactly when one of its entries is routed there. */
  lemma ActionsIndex(entries: seq<Option<ZipEntry>>)
    ensures HasIndexEntry(Actions(entries)) <==> exists i :: 0 <= i < |entries| && RoutesToIndex(entries[i])
  {
    var acts := Actions(entries);
    if exists i :: 0 <= i < |entries| && RoutesToIndex(entries[i]) {
      var i :| 0 <= i < |entries| && RoutesToIndex(entries[i]);
      EntryActionRoutes(entries[i]);
      assert acts[i].WriteIndex?;
    }
    if HasIndexEntry(acts) {
      var i :| 0 <= i < |acts| && acts[i].WriteIndex?;
      EntryActionRoutes(entries[i]);
      assert RoutesToIndex(entries[i]);
    }
  }

  /** The content of the last index entry, if there is one. */
  function LastIndexContent(acts: seq<Action>): (r: Option<string>)
    ensures r.Some? <==> HasIndexEntry(acts)
    decreases |acts|
  {
    if |acts| == 0 then None
    else
      HasIndexEntryCons(acts);
      var later := LastIndexContent(acts[1..]);
      if later.Some? then later
      else if acts[0].WriteIndex? then Some(acts[0].content)
      else None
  }

  /** The archive holds an index entry. */
  predicate HasIndexEntry(acts: seq<Action>)
  {
    exists i :: 0 <= i < |acts| && acts[i].WriteIndex?
  }

  lemma HasIndexEntryCons(acts: seq<Action>)
    requires |acts| > 0
    ensures HasIndexEntry(acts) <==> acts[0].WriteIndex? || HasIndexEntry(acts[1..])
  {
    var rest := acts[1..];
    if HasIndexEntry(rest) {
      var i :| 0 <= i < |rest| && rest[i].WriteIndex?;
      assert acts[i + 1] == rest[i];
    }
    if HasIndexEntry(acts) && !acts[0].WriteIndex? {
      var i :| 0 <= i < |acts| && acts[i].WriteIndex?;
      assert rest[i - 1] == acts[i];
    }
  }

  /** A run of the loop without exception writes one file per accepted entry
      and no other, and reports the index exactly when an index entry is present. */
  lemma {:induction false} ImportCounts(dir: string, resolve: Resolver, fs: map<string, string>,
                                        acts: seq<Action>, ini: bool)
    ensures var r := ImportActions(dir, resolve, fs, acts, ini);
      r.error.None? ==> |r.written| == AcceptedCount(acts) && (r.ini <==> ini || HasIndexEntry(acts))
    decreases |acts|
  {
    if |acts| > 0 {
      var rest := acts[1..];
      HasIndexEntryCons(acts);
      match acts[0]
      case Skip =>
        ImportCounts(dir, resolve, fs, rest, ini);
      case WriteIndex(content) =>
        ImportCounts(dir, resolve, fs[IndexPath(dir) := content], rest, true);
      case WriteFile(name, content) =>
        match resolve(fs, name)
        case Err(_) =>
        case Ok(full) =>
          ImportCounts(dir, resolve, fs[full := content], rest, ini);
    }
  }

  /** The loop adds no file it did not write, and leaves every file it did
      not write as it was, the index only if no index entry came along. */
  lemma {:induction false} ImportFrame(dir: string, resolve: Resolver, fs: map<string, string>,
                                       acts: seq<Action>, ini: bool)
    ensures forall p :: p in ImportActions(dir, resolve, fs, acts, ini).fs ==>
      p in fs || p == IndexPath(dir) || p in ImportActions(dir, resolve, fs, acts, ini).written
    ensures forall p :: p in fs ==> p in ImportActions(dir, resolve, fs, acts, ini).fs
    ensures forall j :: 0 <= j < |ImportActions(dir, resolve, fs, acts, ini).written| ==>
      ImportActions(dir, resolve, fs, acts, ini).written[j] in ImportActions(dir, resolve, fs, acts, ini).fs
    ensures forall p :: p in fs && p !in ImportActions(dir, resolve, fs, acts, ini).written
                        && (p != IndexPath(dir) || !HasIndexEntry(acts)) ==>
      ImportActions(dir, resolve, fs, acts, ini).fs[p] == fs[p]
    decreases |acts|
  {
    if |acts| > 0 {
      var rest := acts[1..];
      HasIndexEntryCons(acts);
      match acts[0]
      case Skip =>
        ImportFrame(dir, resolve, fs, rest, ini);
      case WriteIndex(content) =>
        ImportFrame(dir, resolve, fs[IndexPath(dir) := content], rest, true);
      case WriteFile(name, content) =>
        match resolve(fs, name)
        case Err(_) =>
        case Ok(full) =>
          var out := ImportActions(dir, resolve, fs[full := content], rest, ini);
          var w := [full] + out.written;
          assert ImportActions(dir, resolve, fs, acts, ini).written == w;
          ImportFrame(dir, resolve, fs[full := content], rest, ini);
          assert forall j :: 1 <= j < |w| ==> w[j] == out.written[j - 1];
    }
  }

  /** The `i`-th list file written holds the content of the `i`-th list
      entry, unless a later entry went to the same file (or, for a file that
      is the index itself, an index entry came along). */
  lemma {:induction false} ImportFileContent(dir: string, resolve: Resolver, fs: map<string, string>,
                                             acts: seq<Action>, ini: bool, i: int)
    requires 0 <= i < |ImportActions(dir, resolve, fs, acts, ini).written|
    requires LastWriteAt(ImportActions(dir, resolve, fs, acts, ini).written, i)
    requires ImportActions(dir, resolve, fs, acts, ini).written[i] != IndexPath(dir) || !HasIndexEntry(acts)
    ensures i < |Accepted(acts)|
    ensures ImportActions(dir, resolve, fs, acts, ini).written[i] in ImportActions(dir, resolve, fs, acts, ini).fs
    ensures ImportActions(dir, resolve, fs, acts, ini).fs[ImportActions(dir, resolve, fs, acts, ini).written[i]]
            == Accepted(acts)[i].1
    decreases |acts|, 2
  {
    var rest := acts[1..];
    assert acts[0..] == acts;
    HasIndexEntryCons(acts);
    match acts[0]
    case Skip =>
      SkipStep(dir, resolve, fs, acts, 0, ini);
      assert Accepted(acts) == Accepted(rest);
      ImportFileContent(dir, resolve, fs, rest, ini, i);
    case WriteIndex(content) =>
      IndexStep(dir, resolve, fs, acts, 0, ini);
      assert Accepted(acts) == Accepted(rest);
      ImportFileContent(dir, resolve, fs[IndexPath(dir) := content], rest, true, i);
    case WriteFile(_, _) =>
      ImportFileContentAtFile(dir, resolve, fs, acts, ini, i);
  }

  /** `ImportFileContent` for a loop that starts at a list file. */
  lemma ImportFileContentAtFile(dir: string, resolve: Resolver, fs: map<string, string>,
                                acts: seq<Action>, ini: bool, i: int)
    requires 0 < |acts| && acts[0].WriteFile?
    requires 0 <= i < |ImportActions(dir, resolve, fs, acts, ini).written|
    requires LastWriteAt(ImportActions(dir, resolve, fs, acts, ini).written, i)
    requires ImportActions(dir, resolve, fs, acts, ini).written[i] != IndexPath(dir) || !HasIndexEntry(acts)
    ensures i < |Accepted(acts)|
    ensures ImportActions(dir, resolve, fs, acts, ini).written[i] in ImportActions(dir, resolve, fs, acts, ini).fs
    ensures ImportActions(dir, resolve, fs, acts, ini).fs[ImportActions(dir, resolve, fs, acts, ini).written[i]]
            == Accepted(acts)[i].1
    decreases |acts|, 1
  {
    var rest := acts[1..];
    assert acts[0..] == acts;
    HasIndexEntryCons(acts);
    FileStep(dir, resolve, fs, acts, 0, ini);
    assert Accepted(acts) == [(acts[0].name, acts[0].content)] + Accepted(rest);
    var full := resolve(fs, acts[0].name).value;
    ImportFileContentWrite(dir, resolve, fs[full := acts[0].content], full, rest, ini, i);
  }

  /** The step of `ImportFileContent` past a list file written to `full`. */
  lemma ImportFileContentWrite(dir: string, resolve: Resolver, fs1: map<string, string>, full: string,
                               rest: seq<Action>, ini: bool, i: int)
    requires full in fs1
    requires 0 <= i <= |ImportActions(dir, resolve, fs1, rest, ini).written|
    requires LastWriteAt([full] + ImportActions(dir, resolve, fs1, rest, ini).written, i)
    requires ([full] + ImportActions(dir, resolve, fs1, rest, ini).written)[i] != IndexPath(dir) || !HasIndexEntry(rest)
    ensures i > 0 ==> i - 1 < |Accepted(rest)|
    ensures ([full] + ImportActions(dir, resolve, fs1, rest, ini).written)[i] in ImportActions(dir, resolve, fs1, rest, ini).fs
    ensures ImportActions(dir, resolve, fs1, rest, ini).fs[([full] + ImportActions(dir, resolve, fs1, rest, ini).written)[i]]
            == if i == 0 then fs1[full] else Accepted(rest)[i - 1].1
    decreases |rest| + 1, 0
  {
    var out := ImportActions(dir, resolve, fs1, rest, ini);
    if i == 0 {
      LastWriteFirst(full, out.written);
      ImportFrame(dir, resolve, fs1, rest, ini);
    } else {
      LastWriteLater(full, out.written, i);
      ImportFileContent(dir, resolve, fs1, rest, ini, i - 1);
    }
  }

  /** After a run without exception, the index holds the last index entry's
      content, unless a list file was written over it. */
  lemma {:induction false} ImportIndexContent(dir: string, resolve: Resolver, fs: map<string, string>,
                                              acts: seq<Action>, ini: bool)
    requires ImportActions(dir, resolve, fs, acts, ini).error.None? && HasIndexEntry(acts)
    requires IndexPath(dir) !in ImportActions(dir, resolve, fs, acts, ini).written
    ensures IndexPath(dir) in ImportActions(dir, resolve, fs, acts, ini).fs
    ensures ImportActions(dir, resolve, fs, acts, ini).fs[IndexPath(dir)] == LastIndexContent(acts).value
    decreases |acts|
  {
    var rest := acts[1..];
    HasIndexEntryCons(acts);
    match acts[0]
    case Skip =>
      ImportIndexContent(dir, resolve, fs, rest, ini);
    case WriteIndex(content) =>
      var fs1 := fs[IndexPath(dir) := content];
      if HasIndexEntry(rest) {
        ImportIndexContent(dir, resolve, fs1, rest, true);
      } else {
        ImportFrame(dir, resolve, fs1, rest, true);
      }
    case WriteFile(name, content) =>
      match resolve(fs, name)
      case Err(_) =>
      case Ok(full) =>
        var out := ImportActions(dir, resolve, fs[full := content], rest, ini);
        assert ImportActions(dir, resolve, fs, acts, ini).written == [full] + out.written;
        ImportIndexContent(dir, resolve, fs[full := content], rest, ini);
  }

  /** A list-file action refused on every disk stops the loop there, after
      every accepted entry before it, when those are accepted on every disk. */
  lemma {:induction false} ImportStopAt(dir: string, resolve: Resolver, fs: map<string, string>,
                                        acts: seq<Action>, ini: bool, k: nat)
    requires k < |acts| && acts[k].WriteFile? && forall d :: resolve(d, acts[k].name).Err?
    requires forall i, d :: 0 <= i < k && acts[i].WriteFile? ==> resolve(d, acts[i].name).Ok?
    ensures var r := ImportActions(dir, resolve, fs, acts, ini);
      r.error.Some? && |r.written| == AcceptedCount(acts[..k])
    decreases k
  {
    var rest := acts[1..];
    if k == 0 {
      assert acts[..0] == [];
    } else {
      assert rest[k - 1] == acts[k];
      assert forall i :: 0 <= i < k - 1 ==> rest[i] == acts[i + 1];
      var before := acts[..k];
      assert before[0] == acts[0] && before[1..] == rest[..k - 1];
      match acts[0]
      case Skip =>
        assert AcceptedCount(before) == AcceptedCount(rest[..k - 1]);
        ImportStopAt(dir, resolve, fs, rest, ini, k - 1);
      case WriteIndex(content) =>
        assert AcceptedCount(before) == AcceptedCount(rest[..k - 1]);
        ImportStopAt(dir, resolve, fs[IndexPath(dir) := content], rest, true, k - 1);
      case WriteFile(name, content) =>
        assert AcceptedCount(before) == 1 + AcceptedCount(rest[..k - 1]);
        var full := resolve(fs, name).value;
        ImportStopAt(dir, resolve, fs[full := content], rest, ini, k - 1);
        var out := ImportActions(dir, resolve, fs[full := content], rest, ini);
        assert ImportActions(dir, resolve, fs, acts, ini) == out.(written := [full] + out.written);
    }
  }

  /** An accepted name containing `..` makes `resolve` throw: the loop stops
      there, after writing every accepted entry before it (when no real path
      lies outside the directory, so that the earlier entries resolve). */
  lemma ImportStopsAtDotDot(dir: string, canon: string -> string, fs: map<string, string>,
                            acts: seq<Action>, ini: bool, k: nat)
    requires k < |acts| && acts[k].WriteFile? && HasDotDot(acts[k].name)
    requires forall i :: 0 <= i < k && acts[i].WriteFile? ==> !HasDotDot(acts[i].name) && MatchesTxtPattern(acts[i].name)
    requires forall p :: StartsWith(canon(p), Base(dir))
    ensures var r := ImportActions(dir, ResolverOf(dir, canon), fs, acts, ini);
      r.error.Some? && |r.written| == AcceptedCount(acts[..k])
  {
    var resolve := ResolverOf(dir, canon);
    forall i, d | 0 <= i < k && acts[i].WriteFile?
      ensures resolve(d, acts[i].name).Ok?
    {
      TxtNameResolves(dir, canon, d, acts[i].name);
    }
    ImportStopAt(dir, resolve, fs, acts, ini, k);
  }

  /** A name the `.txt` pattern accepts ends in `t` or a newline, so it
      names a file rather than the directory itself. */
  lemma TxtNameNamesFile(name: string)
    requires MatchesTxtPattern(name) && !HasDotDot(name)
    ensures !NamesDirItself(ResolveTail(name))
  {
    if TxtName(name) {
      assert name[|name| - 4..][3] == name[|name| - 1];
    }
    LastCharNamesFile(name);
  }

  /** Where no real path lies outside the directory, a name the `.txt`
      pattern accepts resolves unless it contains `..`. */
  lemma TxtNameResolves(dir: string, canon: string -> string, fs: map<string, string>, name: string)
    requires MatchesTxtPattern(name) && !HasDotDot(name)
    requires forall p :: StartsWith(canon(p), Base(dir))
    ensures ResolverOf(dir, canon)(fs, name).Ok?
  {
    TxtNameNamesFile(name);
    ResolveInside(dir, canon, fs, name);
  }

  /** Every list file the import writes lies under `dir/`. */
  lemma {:induction false} ImportUnderDir(dir: string, canon: string -> string, fs: map<string, string>,
                                          acts: seq<Action>, ini: bool)
    ensures AllUnder(dir, ImportActions(dir, ResolverOf(dir, canon), fs, acts, ini).written)
    decreases |acts|
  {
    if |acts| > 0 {
      var resolve := ResolverOf(dir, canon);
      var rest := acts[1..];
      match acts[0]
      case Skip =>
        ImportUnderDir(dir, canon, fs, rest, ini);
      case WriteIndex(content) =>
        ImportUnderDir(dir, canon, fs[IndexPath(dir) := content], rest, true);
      case WriteFile(name, content) =>
        match resolve(fs, name)
        case Err(_) =>
        case Ok(full) =>
          var out := ImportActions(dir, resolve, fs[full := content], rest, ini);
          ImportUnderDir(dir, canon, fs[full := content], rest, ini);
          assert StartsWith(full, Base(dir));
          AllUnderCons(dir, full, out.written);
    }
  }

  lemma NameAccepted(name: string)
    requires name == "a..txt"
    ensures CleanName(name) == name && !IsIndexName(name) && MatchesTxtPattern(name)
  {
    assert ReplaceChar(name, '\\', '/') == name;
    TrimStartNoop(name, IsSlash);
    assert ToLowerAscii(name)[0] == 'a';
    assert name[|name| - 4..] == ".txt";
  }

  lemma NameHasDotDot(name: string)
    requires name == "a..txt"
    ensures HasDotDot(name) && !Skipped(name)
  {
    assert name[1..3] == "..";
    ContainsAt(name, "..", 1);
    assert "../"[2] == '/';
    MissingCharNotContained(name, "../", '/');
  }

  /** `a..txt` passes the name guard and the pattern and still contains `..`. */
  lemma DotDotNameAccepted(content: string)
    ensures EntryAction(Some(ZipEntry("a..txt", content))) == WriteFile("a..txt", content)
    ensures HasDotDot("a..txt")
  {
    NameAccepted("a..txt");
    NameHasDotDot("a..txt");
  }

  /** A name with a final newline passes the pattern too. */
  lemma TrailingNewlineAccepted()
    ensures MatchesTxtPattern("a.txt\n") && !TxtName("a.txt\n")
  {
    var t, u := "a.txt\n", "a.txt";
    assert t[..|t| - 1] == u;
    assert u[|u| - 4..] == ".txt";
    assert forall i :: 0 <= i < |u| ==> IsNameChar(u[i]);
    assert TxtName(u);
    assert !IsNameChar(t[5]);
  }

  /** One turn of the entry loop over an entry it skips. */
  lemma SkipStep(dir: string, resolve: Resolver, fs: map<string, string>, acts: seq<Action>, i: int, ini: bool)
    requires 0 <= i < |acts| && acts[i].Skip?
    ensures ImportActions(dir, resolve, fs, acts[i..], ini) == ImportActions(dir, resolve, fs, acts[i + 1..], ini)
  {
    assert acts[i..][0] == acts[i];
    assert acts[i..][1..] == acts[i + 1..];
  }

  /** One turn of the entry loop over the index entry. */
  lemma IndexStep(dir: string, resolve: Resolver, fs: map<string, string>, acts: seq<Action>, i: int, ini: bool)
    requires 0 <= i < |acts| && acts[i].WriteIndex?
    ensures ImportActions(dir, resolve, fs, acts[i..], ini)
      == ImportActions(dir, resolve, fs[IndexPath(dir) := acts[i].content], acts[i + 1..], true)
  {
    assert acts[i..][0] == acts[i];
    assert acts[i..][1..] == acts[i + 1..];
  }

  /** One turn of the entry loop over a list file: the resolution error
      ends the loop, otherwise the file is written first. */
  lemma FileStep(dir: string, resolve: Resolver, fs: map<string, string>, acts: seq<Action>, i: int, ini: bool)
    requires 0 <= i < |acts| && acts[i].WriteFile?
    ensures resolve(fs, acts[i].name).Err? ==>
      ImportActions(dir, resolve, fs, acts[i..], ini)
      == ImportOutcome(Some(resolve(fs, acts[i].name).error), fs, ini, [])
    ensures resolve(fs, acts[i].name).Ok? ==>
      var full := resolve(fs, acts[i].name).value;
      var out := ImportActions(dir, resolve, fs[full := acts[i].content], acts[i + 1..], ini);
      ImportActions(dir, resolve, fs, acts[i..], ini) == out.(written := [full] + out.written)
  {
    assert acts[i..][0] == acts[i];
    assert acts[i..][1..] == acts[i + 1..];
  }

  /** The loop's progress: what is left to do ends where the whole import
      ends, having written `n` files already. */
  ghost predicate Leads(rest: ImportOutcome, total: ImportOutcome, n: int)
  {
    rest.error == total.error && rest.fs == total.fs && rest.ini == total.ini
    && n + |rest.written| == |total.written|
  }

  /** The result of an upload and the disk afterwards. */
  datatype ImportResult = ImportResult(result: Result<Summary, ArchiveError>, fs: map<string, string>)

  /** `importFromUpload`: the JSON branch by content type, otherwise the archive. */
  function ImportOf(zipAvailable: bool, dir: string, canon: string -> string, fs: map<string, string>,
                    contentType: string, json: JsonDoc, archive: Option<seq<Option<ZipEntry>>>): ImportResult
  {
    if ContainsIgnoringCase(contentType, "application/json") then
      match json
      case NotAnArray => ImportResult(Err(InvalidJson), fs)
      case JsonLists(ini, files) =>
        var out := SaveOf(dir, canon, fs, ini, files);
        match out.error
        case Some(e) => ImportResult(Err(StoreFailure(e)), out.fs)
        case None => ImportResult(Ok(Summary(true, |files|)), out.fs)
    else if !zipAvailable then ImportResult(Err(ZipUnavailable), fs)
    else if archive.None? then ImportResult(Err(CannotOpenArchive), fs)
    else ImportArchive(dir, canon, fs, archive.value)
  }

  /** The loop over the entries of an opened archive. */
  function ImportArchive(dir: string, canon: string -> string, fs: map<string, string>,
                         entries: seq<Option<ZipEntry>>): ImportResult
  {
    var out := ImportActions(dir, ResolverOf(dir, canon), fs, Actions(entries), false);
    match out.error
    case Some(e) => ImportResult(Err(StoreFailure(e)), out.fs)
    case None => ImportResult(Ok(Summary(out.ini, |out.written|)), out.fs)
  }

  /** A JSON upload is saved whole: a non-array throws before anything is
      written; otherwise the summary reports the index and every supplied file. */
  lemma ImportJson(zipAvailable: bool, dir: string, canon: string -> string, fs: map<string, string>,
                   contentType: string, json: JsonDoc, archive: Option<seq<Option<ZipEntry>>>)
    requires ContainsIgnoringCase(contentType, "application/json")
    ensures var r := ImportOf(zipAvailable, dir, canon, fs, contentType, json, archive);
      (json.NotAnArray? ==> r.result == Err(InvalidJson) && r.fs == fs)
      && (json.JsonLists? ==>
            (r.result.Ok? <==> SaveOf(dir, canon, fs, json.ini, json.files).error.None?)
            && (r.result.Ok? ==> r.result.value == Summary(true, |json.files|)
                                 && IndexPath(dir) in r.fs)
            && r.fs == SaveOf(dir, canon, fs, json.ini, json.files).fs)
  {
    if json.JsonLists? {
      var out := SaveOf(dir, canon, fs, json.ini, json.files);
      assert IndexPath(dir) in fs[IndexPath(dir) := json.ini];
    }
  }

  /** A ZIP upload reports at most one written file per entry, none for
      entries that are skipped, rejected or the index, and the index exactly
      when the archive holds one; without ZIP support or a readable archive
      it throws and writes nothing. */
  lemma ImportZip(zipAvailable: bool, dir: string, canon: string -> string, fs: map<string, string>,
                  contentType: string, json: JsonDoc, archive: Option<seq<Option<ZipEntry>>>)
    requires !ContainsIgnoringCase(contentType, "application/json")
    ensures var r := ImportOf(zipAvailable, dir, canon, fs, contentType, json, archive);
      (!zipAvailable ==> r.result == Err(ZipUnavailable) && r.fs == fs)
      && (zipAvailable && archive.None? ==> r.result == Err(CannotOpenArchive) && r.fs == fs)
      && (r.result.Ok? ==>
            var acts := Actions(archive.value);
            r.result.value.files == AcceptedCount(acts) <= |archive.value|
            && (r.result.value.ini <==> HasIndexEntry(acts)))
    ensures var r := ImportOf(zipAvailable, dir, canon, fs, contentType, json, archive);
      r.result.Ok? ==>
        r.result.value.files == |ListEntries(archive.value)|
        && (r.result.value.ini <==> exists i :: 0 <= i < |archive.value| && RoutesToIndex(archive.value[i]))
  {
    if zipAvailable && archive.Some? {
      ImportCounts(dir, ResolverOf(dir, canon), fs, Actions(archive.value), false);
      ActionsAccepted(archive.value);
      ActionsIndex(archive.value);
    }
  }

  // ----- the service object -----

  class ArchiveService {
    const store: ListStore
    /** `class_exists(ZipArchive::class)` */
    const zipAvailable: bool

    constructor (store: ListStore, zipAvailable: bool)
      ensures this.store == store && this.zipAvailable == zipAvailable
    {
      this.store := store;
      this.zipAvailable := zipAvailable;
    }

    /** `exportZip`; `canCreate` says whether the temporary archive could be opened. */
    method ExportZip(canCreate: bool) returns (r: Result<Export, ArchiveError>)
      ensures r == ExportOf(zipAvailable, canCreate, store.configDir, store.parseIni, store.canon, store.fs)
    {
      if !zipAvailable {
        var data := store.Load();
        if data.Err? {
          return Err(StoreFailure(data.error));
        }
        return Ok(Export("email-lists.json", JsonBundle(data.value.ini, data.value.files), "application/json"));
      }
      if !canCreate {
        return Err(CannotCreateZip);
      }
      var entries := [(IndexName, IndexText(store.configDir, store.fs))];
      var paths := store.ReferencedRelPaths();
      var i := 0;
      assert paths[..0] == [];
      while i < |paths|
        invariant 0 <= i <= |paths|
        invariant ExportEntries(store.configDir, store.canon, store.fs, paths[..i]) == Ok(entries)
      {
        assert paths[..i + 1][..i] == paths[..i];
        var full := Resolve(store.configDir, store.canon, store.fs, paths[i]);
        if full.Err? {
          ExportErrorSticks(store.configDir, store.canon, store.fs, paths, i + 1);
          return Err(StoreFailure(full.error));
        }
        entries := Put(entries, paths[i], ContentAt(store.fs, full.value));
        i := i + 1;
      }
      assert paths[..i] == paths;
      r := Ok(Export("email-lists.zip", ZipBundle(entries), "application/zip"));
    }

    /** `importFromUpload`: `json` is the upload decoded as JSON, `archive`
        its entries when it opens as an archive. */
    method ImportFromUpload(contentType: string, json: JsonDoc, archive: Option<seq<Option<ZipEntry>>>)
      returns (r: Result<Summary, ArchiveError>)
      modifies store
      ensures ImportResult(r, store.fs) ==
        ImportOf(zipAvailable, store.configDir, store.canon, old(store.fs), contentType, json, archive)
    {
      if ContainsIgnoringCase(contentType, "application/json") {
        if json.NotAnArray? {
          return Err(InvalidJson);
        }
        var error := store.Save(json.ini, json.files);
        if error.Some? {
          return Err(StoreFailure(error.value));
        }
        return Ok(Summary(true, |json.files|));
      }
      if !zipAvailable {
        return Err(ZipUnavailable);
      }
      if archive.None? {
        return Err(CannotOpenArchive);
      }
      r := ImportEntries(archive.value);
    }

    /** The entry loop of `importFromUpload` over an opened archive. */
    method ImportEntries(entries: seq<Option<ZipEntry>>) returns (r: Result<Summary, ArchiveError>)
      modifies store
      ensures ImportResult(r, store.fs) == ImportArchive(store.configDir, store.canon, old(store.fs), entries)
    {
      ghost var acts := Actions(entries);
      var dir, fs := store.configDir, store.fs;
      var resolve := ResolverOf(dir, store.canon);
      ghost var total := ImportActions(dir, resolve, fs, acts, false);
      var iniWritten := false;
      var filesWritten := 0;
      var i := 0;
      while i < |entries|
        invariant 0 <= i <= |entries|
        invariant Leads(ImportActions(dir, resolve, fs, acts[i..], iniWritten), total, filesWritten)
      {
        var act := EntryAction(entries[i]);
        assert act == acts[i];
        match act {
          case Skip =>
            SkipStep(dir, resolve, fs, acts, i, iniWritten);
            assert Leads(ImportActions(dir, resolve, fs, acts[i + 1..], iniWritten), total, filesWritten);
          case WriteIndex(content) =>
            IndexStep(dir, resolve, fs, acts, i, iniWritten);
            iniWritten := true;
            fs := fs[IndexPath(dir) := content];
            assert Leads(ImportActions(dir, resolve, fs, acts[i + 1..], iniWritten), total, filesWritten);
          case WriteFile(name, content) =>
            FileStep(dir, resolve, fs, acts, i, iniWritten);
            var full := resolve(fs, name);
            if full.Err? {
              store.fs := fs;
              return Err(StoreFailure(full.error));
            }
            ghost var out := ImportActions(dir, resolve, fs[full.value := content], acts[i + 1..], iniWritten);
            fs := fs[full.value := content];
            filesWritten := filesWritten + 1;
            assert Leads(out, total, filesWritten);
        }
        i := i + 1;
      }
      store.fs := fs;
      r := Ok(Summary(iniWritten, filesWritten));
    }
  }
}
