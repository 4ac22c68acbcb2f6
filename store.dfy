/** The list-configuration store: `lists.ini` plus the list files it
    references, all confined to one configuration directory.

    The disk is the map `fs` from absolute path to file content. `realpath`
    is an oracle: a path that names a file resolves to `canon(path)` (where
    symbolic links lead), any other path does not resolve. The result of
    `parse_ini_string(..., true, INI_SCANNER_TYPED)` is an oracle too. */
module Store {
  import opened Common
  import opened Text

  /** A value as `parse_ini_string` with `INI_SCANNER_TYPED` delivers it. */
  datatype IniValue = IniString(s: string) | IniInt(i: int) | IniBool(b: bool) | IniNull | IniArray

  /** A top-level entry of the parsed index: a bare key or a section of keys. */
  datatype IniEntry = TopLevel(value: IniValue) | Section(pairs: seq<(string, IniValue)>)

  /** `parse_ini_string`: `None` when it returns `false`. */
  type IniParser = string -> Option<seq<(string, IniEntry)>>

  datatype StoreError =
    | UnsafeRelativePath(path: string)     // the normalised path contains `..`
    | PathEscapesConfigDir(path: string)   // an existing target resolves outside the directory

  datatype FileInfo = FileInfo(path: string, fullPath: string, content: string)

  /** What `load` returns: the index text and, per section, its file. */
  datatype Loaded = Loaded(ini: string, files: seq<(string, FileInfo)>)

  /** One entry of the `files` argument of `save`. */
  datatype SaveItem = SaveItem(path: string, content: string)

  const Sep: char := '/'

  /** The index file's name inside the configuration directory. */
  const IndexName: string := "lists.ini"

  function IndexPath(dir: string): string
  {
    Base(dir) + IndexName
  }

  /** `is_file($p) ? file_get_contents($p) : ''` */
  function ContentAt(fs: map<string, string>, p: string): string
  {
    if p in fs then fs[p] else ""
  }

  /** The index text `load` sees: the file's content, or '' when it is missing. */
  function IndexText(dir: string, fs: map<string, string>): string
  {
    ContentAt(fs, IndexPath(dir))
  }

  // ----- the index -----

  /** PHP's `(string)` cast of an index value. */
  function CastToString(v: IniValue): string
  {
    match v
    case IniString(s) => s
    case IniInt(i) => IntToString(i)
    case IniBool(b) => if b then "1" else ""
    case IniNull => ""
    case IniArray => "Array"
  }

  predicate IsListFileNameKey(key: string)
  {
    ToLowerAscii(key) == "listfilename"
  }

  /** The `listFileName` value of a section, looked up ignoring case; after
      `array_change_key_case` the last spelling of the key wins. */
  function ListFileName(pairs: seq<(string, IniValue)>): (r: Option<IniValue>)
  {
    if |pairs| == 0 then None
    else if IsListFileNameKey(pairs[|pairs| - 1].0) then Some(pairs[|pairs| - 1].1)
    else ListFileName(pairs[..|pairs| - 1])
  }

  /** The lookup finds a value exactly when some key spells `listFileName` in
      any case, and then it is the value of the last such key. */
  lemma {:induction false} ListFileNameLastWins(pairs: seq<(string, IniValue)>)
    ensures ListFileName(pairs).Some? <==> exists i :: 0 <= i < |pairs| && IsListFileNameKey(pairs[i].0)
    ensures ListFileName(pairs).Some? ==>
      exists i :: 0 <= i < |pairs| && IsListFileNameKey(pairs[i].0) && ListFileName(pairs).value == pairs[i].1
        && forall j :: i < j < |pairs| ==> !IsListFileNameKey(pairs[j].0)
    decreases |pairs|
  {
    if |pairs| > 0 && !IsListFileNameKey(pairs[|pairs| - 1].0) {
      var prefix := pairs[..|pairs| - 1];
      ListFileNameLastWins(prefix);
      assert forall i :: 0 <= i < |prefix| ==> prefix[i] == pairs[i];
      if ListFileName(prefix).Some? {
        var i :| 0 <= i < |prefix| && IsListFileNameKey(prefix[i].0) && ListFileName(prefix).value == prefix[i].1
          && forall j :: i < j < |prefix| ==> !IsListFileNameKey(prefix[j].0);
        assert IsListFileNameKey(pairs[i].0) && ListFileName(pairs).value == pairs[i].1
          && forall j :: i < j < |pairs| ==> !IsListFileNameKey(pairs[j].0);
      }
    }
  }

  /** The referenced path of one section: '' when absent, one leading
      `config/` or `config\` removed. */
  function RefPath(pairs: seq<(string, IniValue)>): (f: string)
  {
    var file := match ListFileName(pairs) case None => "" case Some(v) => CastToString(v);
    if file != "" && (StartsWith(file, "config/") || StartsWith(file, "config\\")) then file[7..]
    else file
  }

  /** The section → path map built over the parsed index, in section order. */
  function RefsOf(sections: seq<(string, IniEntry)>): (refs: seq<(string, string)>)
    ensures DistinctKeys(refs)
    decreases |sections|
  {
    if |sections| == 0 then []
    else
      var acc := RefsOf(sections[..|sections| - 1]);
      var (name, entry) := sections[|sections| - 1];
      match entry
      case TopLevel(_) => acc
      case Section(pairs) =>
        var file := RefPath(pairs);
        if file == "" then acc
        else
          PutInPlace(acc, name, file);
          Put(acc, name, file)
  }

  /** Reference definition: the sections that name a file, in order, one pair each. */
  function Listed(sections: seq<(string, IniEntry)>): seq<(string, string)>
    decreases |sections|
  {
    if |sections| == 0 then []
    else
      var rest := Listed(sections[1..]);
      match sections[0].1
      case TopLevel(_) => rest
      case Section(pairs) => if RefPath(pairs) == "" then rest else [(sections[0].0, RefPath(pairs))] + rest
  }

  lemma {:induction false} ListedKeys(sections: seq<(string, IniEntry)>, k: string)
    requires HasKey(Listed(sections), k)
    ensures exists j :: 0 <= j < |sections| && sections[j].0 == k
    decreases |sections|
  {
    var l := Listed(sections);
    var i :| 0 <= i < |l| && l[i].0 == k;
    if sections[0].0 != k {
      var rest := Listed(sections[1..]);
      assert l == rest || l == [(sections[0].0, RefPath(sections[0].1.pairs))] + rest;
      if l == rest {
        assert HasKey(rest, k);
      } else {
        assert rest[i - 1].0 == k;
      }
      ListedKeys(sections[1..], k);
      var j :| 0 <= j < |sections[1..]| && sections[1..][j].0 == k;
      assert sections[j + 1].0 == k;
    }
  }

  lemma {:induction false} ListedSnoc(sections: seq<(string, IniEntry)>)
    requires |sections| > 0
    ensures Listed(sections) == Listed(sections[..|sections| - 1]) +
      match sections[|sections| - 1].1
      case TopLevel(_) => []
      case Section(pairs) => if RefPath(pairs) == "" then [] else [(sections[|sections| - 1].0, RefPath(pairs))]
    decreases |sections|
  {
    if |sections| > 1 {
      ListedSnoc(sections[1..]);
      assert sections[1..][..|sections[1..]| - 1] == sections[..|sections| - 1][1..];
    }
  }

  /** Section `j` of the parsed index names the file `path`. */
  predicate NamesFile(sections: seq<(string, IniEntry)>, j: int, name: string, path: string)
  {
    0 <= j < |sections| && sections[j].0 == name && sections[j].1.Section?
    && RefPath(sections[j].1.pairs) == path
  }

  /** `Listed` holds exactly the sections that name a non-empty path. */
  lemma {:induction false} ListedElements(sections: seq<(string, IniEntry)>)
    ensures forall p :: p in Listed(sections) ==> p.1 != "" && exists j :: NamesFile(sections, j, p.0, p.1)
    ensures forall j :: 0 <= j < |sections| && sections[j].1.Section? && RefPath(sections[j].1.pairs) != "" ==>
      (sections[j].0, RefPath(sections[j].1.pairs)) in Listed(sections)
    decreases |sections|
  {
    if |sections| > 0 {
      var rest := sections[1..];
      ListedElements(rest);
      forall p | p in Listed(sections) ensures p.1 != "" && exists j :: NamesFile(sections, j, p.0, p.1) {
        if p in Listed(rest) {
          var j :| NamesFile(rest, j, p.0, p.1);
          assert NamesFile(sections, j + 1, p.0, p.1);
        } else {
          assert NamesFile(sections, 0, p.0, p.1);
        }
      }
      forall j | 0 <= j < |sections| && sections[j].1.Section? && RefPath(sections[j].1.pairs) != ""
        ensures (sections[j].0, RefPath(sections[j].1.pairs)) in Listed(sections)
      {
        if j > 0 {
          assert rest[j - 1] == sections[j];
        }
      }
    }
  }

  /** Every reference is one of the listed sections. */
  ghost predicate RefsFromSections(sections: seq<(string, IniEntry)>, refs: seq<(string, string)>)
  {
    forall i :: 0 <= i < |refs| ==> refs[i] in Listed(sections)
  }

  /** Every listed section is referenced. */
  ghost predicate SectionsReferenced(sections: seq<(string, IniEntry)>, refs: seq<(string, string)>)
  {
    forall p :: p in Listed(sections) ==> HasKey(refs, p.0)
  }

  /** Every reference comes from a section that names a non-empty path (top-level
      values are skipped), and every section that names one is referenced. */
  lemma {:induction false} RefsOfSections(sections: seq<(string, IniEntry)>)
    ensures RefsFromSections(sections, RefsOf(sections))
    ensures SectionsReferenced(sections, RefsOf(sections))
    decreases |sections|
  {
    if |sections| > 0 {
      var n := |sections| - 1;
      var prefix := sections[..n];
      RefsOfSections(prefix);
      ListedSnoc(sections);
      var acc := RefsOf(prefix);
      var refs := RefsOf(sections);
      var name, entry := sections[n].0, sections[n].1;
      if entry.Section? && RefPath(entry.pairs) != "" {
        var file := RefPath(entry.pairs);
        PutInPlace(acc, name, file);
        assert refs == Put(acc, name, file);
        assert Listed(sections) == Listed(prefix) + [(name, file)];
        forall i | 0 <= i < |refs| ensures refs[i] in Listed(sections) {
          if i < |acc| && acc[i].0 != name {
            assert refs[i] == acc[i];
          } else {
            assert refs[i] == (name, file);
          }
        }
      } else {
        assert refs == acc;
        assert Listed(sections) == Listed(prefix);
      }
    }
  }

  /** `refsFromIni`: empty text or text the parser rejects gives no references. */
  function Refs(parse: IniParser, iniText: string): seq<(string, string)>
  {
    if iniText == "" then []
    else match parse(iniText)
      case None => []
      case Some(sections) => RefsOf(sections)
  }

  /** No references from an empty or unparsable index; otherwise exactly
      the sections that name a non-empty file, each section once. */
  lemma RefsOfText(parse: IniParser, iniText: string)
    ensures iniText == "" || parse(iniText).None? ==> Refs(parse, iniText) == []
    ensures iniText != "" && parse(iniText).Some? ==>
      var sections := parse(iniText).value;
      RefsFromSections(sections, Refs(parse, iniText)) && SectionsReferenced(sections, Refs(parse, iniText))
      && DistinctKeys(Refs(parse, iniText))
  {
    if iniText != "" && parse(iniText).Some? {
      RefsOfSections(parse(iniText).value);
    }
  }

  predicate DistinctNames(sections: seq<(string, IniEntry)>)
  {
    forall i, j :: 0 <= i < j < |sections| ==> sections[i].0 != sections[j].0
  }

  /** With distinct section names (as in the array PHP returns), the
      references are exactly the sections naming a file, in section order. */
  lemma {:induction false} RefsOfListsSections(sections: seq<(string, IniEntry)>)
    requires DistinctNames(sections)
    ensures RefsOf(sections) == Listed(sections)
    decreases |sections|
  {
    if |sections| > 0 {
      var prefix := sections[..|sections| - 1];
      assert DistinctNames(prefix);
      RefsOfListsSections(prefix);
      ListedSnoc(sections);
      var (name, entry) := sections[|sections| - 1];
      if entry.Section? && RefPath(entry.pairs) != "" && HasKey(Listed(prefix), name) {
        ListedKeys(prefix, name);
        assert false;
      }
    }
  }

  /** The lookup of `listFileName` ignores the key's case, and the last spelling wins. */
  lemma ListFileNameIgnoresCase(pairs: seq<(string, IniValue)>, key: string, v: IniValue)
    requires ToLowerAscii(key) == "listfilename"
    ensures ListFileName(pairs + [(key, v)]) == Some(v)
  {
    assert (pairs + [(key, v)])[|pairs|] == (key, v);
  }

  /** One leading `config/` or `config\` is removed from a referenced path, and no more. */
  lemma RefPathStripsConfigPrefix(pairs: seq<(string, IniValue)>, rest: string, sep: char)
    requires sep == '/' || sep == '\\'
    requires rest != ""
    requires ListFileName(pairs) == Some(IniString("config" + [sep] + rest))
    ensures RefPath(pairs) == rest
  {
    var f := "config" + [sep] + rest;
    assert f[..7] == "config" + [sep];
    assert f[7..] == rest;
  }

  // ----- paths -----

  /** `normalizeRel`: separators unified, one leading `config/` removed, any `..` refused. */
  function NormalizeRel(relative: string): (r: Result<string, StoreError>)
    ensures r.Ok? <==> !HasDotDot(relative)
    ensures r.Ok? ==> !HasDotDot(r.value) && '\\' !in r.value
    ensures r.Ok? ==> var slashed := ReplaceChar(relative, '\\', Sep);
      r.value == slashed || "config/" + r.value == slashed
  {
    var slashed := ReplaceChar(relative, '\\', Sep);
    var stripped := if StartsWith(slashed, "config" + [Sep]) then slashed[7..] else slashed;
    StrippedKeepsDotDot(relative);
    if HasDotDot(stripped) then Err(UnsafeRelativePath(stripped)) else Ok(stripped)
  }

  lemma StrippedKeepsDotDot(relative: string)
    ensures var slashed := ReplaceChar(relative, '\\', Sep);
      var stripped := if StartsWith(slashed, "config" + [Sep]) then slashed[7..] else slashed;
      (HasDotDot(stripped) <==> HasDotDot(relative))
      && (StartsWith(slashed, "config" + [Sep]) ==> slashed == "config/" + stripped)
  {
    var slashed := ReplaceChar(relative, '\\', Sep);
    ReplaceKeepsDotDot(relative, '\\', Sep);
    if StartsWith(slashed, "config" + [Sep]) {
      assert forall i :: 0 <= i < 7 ==> slashed[i] == "config/"[i];
      DropPrefixKeepsDotDot(slashed, 7);
      assert slashed == slashed[..7] + slashed[7..];
    }
  }

  /** `realpath`: defined on the paths that name a file. */
  function RealPath(canon: string -> string, fs: map<string, string>, p: string): Option<string>
  {
    if p in fs then Some(canon(p)) else None
  }

  function Base(dir: string): string
  {
    dir + [Sep]
  }

  /** A tail under `dir/` made of `.` and separators only; once `..` is
      refused its segments are all empty or `.`, so it names the directory itself. */
  predicate NamesDirItself(tail: string)
    decreases |tail|
  {
    |tail| == 0 || ((tail[|tail| - 1] == '.' || tail[|tail| - 1] == Sep) && NamesDirItself(tail[..|tail| - 1]))
  }

  /** `resolve` of a path naming the directory itself: `realpath` gives the
      directory without a trailing separator, which starts with `dir/` only
      when `dir` is empty (the root, whose real path is `/`). */
  function DirItself(dir: string, rel: string): (r: Result<string, StoreError>)
    ensures r.Ok? <==> dir == ""
    ensures r.Ok? ==> r.value == Base(dir)
  {
    if dir == "" then Ok(Base(dir)) else Err(PathEscapesConfigDir(rel))
  }

  /** The part `resolve` puts after `dir/`: the normalised path without leading separators. */
  function ResolveTail(relative: string): (tail: string)
    requires !HasDotDot(relative)
    ensures !HasDotDot(tail) && (|tail| == 0 || tail[0] != Sep)
  {
    var rel := NormalizeRel(relative).value;
    var tail := TrimStart(rel, IsSlash);
    assert HasDotDot(tail) ==> HasDotDot(rel) by {
      if HasDotDot(tail) {
        ContainsInSuffix(rel, "..", |rel| - |tail|);
      }
    }
    tail
  }

  /** `resolve`: every path it accepts lies under `dir/`. */
  function Resolve(dir: string, canon: string -> string, fs: map<string, string>, relative: string)
    : (r: Result<string, StoreError>)
    ensures r.Ok? ==> StartsWith(r.value, Base(dir))
    ensures HasDotDot(relative) ==> r.Err?
  {
    match NormalizeRel(relative)
    case Err(e) => Err(e)
    case Ok(rel) =>
      var base := Base(dir);
      var tail := TrimStart(rel, IsSlash);
      var full := base + tail;
      assert full[..|base|] == base;
      if NamesDirItself(tail) then DirItself(dir, rel)
      else
        match RealPath(canon, fs, full)
        case None => Ok(full)
        case Some(target) => if StartsWith(target, base) then Ok(target) else Err(PathEscapesConfigDir(rel))
  }

  /** A path naming the directory itself resolves to `/` when the directory
      is the root and is refused as escaping it otherwise, whatever the disk holds. */
  lemma ResolveDirItself(dir: string, canon: string -> string, fs: map<string, string>, relative: string)
    requires !HasDotDot(relative) && NamesDirItself(ResolveTail(relative))
    ensures Resolve(dir, canon, fs, relative) == DirItself(dir, NormalizeRel(relative).value)
  {
  }

  /** `''`, `/`, `.` and `config/` all name the directory itself, and are refused unless it is the root. */
  lemma DirNamesRefused(dir: string, canon: string -> string, fs: map<string, string>, x: string)
    requires dir != "" && (x == "" || x == "/" || x == "." || x == "config/")
    ensures Resolve(dir, canon, fs, x) == Err(PathEscapesConfigDir(if x == "config/" then "" else x))
  {
    DotDotAt(x);
    assert x == "config/" ==> x[..7] == "config/" && x[7..] == "";
    assert ReplaceChar(x, '\\', Sep) == x;
    var tail := ResolveTail(x);
    assert NamesDirItself(tail) by {
      assert tail == "" || tail == ".";
    }
    ResolveDirItself(dir, canon, fs, x);
  }

  /** A target that does not exist and is not the directory itself resolves
      to `dir/` plus the normalised path with its leading separators removed. */
  lemma ResolveNew(dir: string, canon: string -> string, fs: map<string, string>, relative: string)
    requires !HasDotDot(relative)
    requires Base(dir) + ResolveTail(relative) !in fs
    ensures Resolve(dir, canon, fs, relative) ==
      if NamesDirItself(ResolveTail(relative)) then DirItself(dir, NormalizeRel(relative).value)
      else Ok(Base(dir) + ResolveTail(relative))
  {
  }

  /** An existing target resolves to its real path, which must lie under `dir/`. */
  lemma ResolveExisting(dir: string, canon: string -> string, fs: map<string, string>, relative: string)
    requires !HasDotDot(relative)
    requires Base(dir) + ResolveTail(relative) in fs
    ensures var target := canon(Base(dir) + ResolveTail(relative));
      Resolve(dir, canon, fs, relative) ==
        if NamesDirItself(ResolveTail(relative)) then DirItself(dir, NormalizeRel(relative).value)
        else if StartsWith(target, Base(dir)) then Ok(target)
        else Err(PathEscapesConfigDir(NormalizeRel(relative).value))
  {
  }

  /** A path `resolve` may accept: no `..`, and not the directory itself
      unless that is the root. */
  predicate Resolvable(dir: string, relative: string)
  {
    !HasDotDot(relative) && (dir == "" || !NamesDirItself(ResolveTail(relative)))
  }

  /** Where no real path lies outside the directory, exactly the resolvable paths resolve. */
  lemma ResolveInside(dir: string, canon: string -> string, fs: map<string, string>, relative: string)
    requires forall p :: StartsWith(canon(p), Base(dir))
    ensures Resolve(dir, canon, fs, relative).Ok? <==> Resolvable(dir, relative)
  {
    if !HasDotDot(relative) {
      var full := Base(dir) + ResolveTail(relative);
      if NamesDirItself(ResolveTail(relative)) {
        ResolveDirItself(dir, canon, fs, relative);
      } else if full in fs {
        assert StartsWith(canon(full), Base(dir));
        ResolveExisting(dir, canon, fs, relative);
      } else {
        ResolveNew(dir, canon, fs, relative);
      }
    }
  }

  /** A path whose last character is not `.` or a separator names a file, not the directory. */
  lemma LastCharNamesFile(relative: string)
    requires !HasDotDot(relative) && |relative| > 0
    requires relative[|relative| - 1] !in {'.', '/', '\\'}
    ensures !NamesDirItself(ResolveTail(relative))
  {
    NormalizeKeepsLastChar(relative);
    var rel := NormalizeRel(relative).value;
    var tail := TrimStart(rel, IsSlash);
    assert !IsSlash(rel[|rel| - 1]);
    assert |tail| > 0 && tail[|tail| - 1] == rel[|rel| - 1];
  }

  /** `normalizeRel` keeps a last character that is not a separator. */
  lemma NormalizeKeepsLastChar(relative: string)
    requires !HasDotDot(relative) && |relative| > 0
    requires relative[|relative| - 1] !in {'/', '\\'}
    ensures var rel := NormalizeRel(relative).value;
      |rel| > 0 && rel[|rel| - 1] == relative[|relative| - 1]
  {
    var slashed := ReplaceChar(relative, '\\', Sep);
    assert slashed[|slashed| - 1] == relative[|relative| - 1];
    assert StartsWith(slashed, "config" + [Sep]) ==> slashed[6] == Sep;
  }

  /** `save` normalises a path and `resolve` normalises it again, so two
      leading `config/` segments are removed, and backslashes become separators. */
  lemma SaveNormalisesTwice(x: string)
    requires !HasDotDot(x)
    ensures var y := ReplaceChar(x, '\\', Sep);
      NormalizeRel("config/config/" + x) == Ok("config/" + y)
      && NormalizeRel("config/" + y) == Ok(y)
  {
    var y := ReplaceChar(x, '\\', Sep);
    ReplaceKeepsDotDot(x, '\\', Sep);
    var s := "config/config/" + x;
    var t := "config/" + y;
    var u := "config/config/" + y;
    assert ReplaceChar(s, '\\', Sep) == u;
    assert ReplaceChar(t, '\\', Sep) == t;
    assert u[..7] == "config/" && u[7..] == t;
    assert t[..7] == "config/" && t[7..] == y;
    DropPrefixKeepsDotDot(t, 7);
  }

  // ----- load and save -----

  /** The per-section files `load` returns, or the first resolution failure. */
  function LoadFiles(dir: string, canon: string -> string, fs: map<string, string>, refs: seq<(string, string)>)
    : Result<seq<(string, FileInfo)>, StoreError>
    decreases |refs|
  {
    if |refs| == 0 then Ok([])
    else
      var (section, rel) := refs[0];
      match Resolve(dir, canon, fs, rel)
      case Err(e) => Err(e)
      case Ok(full) =>
        var content := ContentAt(fs, full);
        match LoadFiles(dir, canon, fs, refs[1..])
        case Err(e) => Err(e)
        case Ok(rest) => Ok([(section, FileInfo(rel, full, content))] + rest)
  }

  /** A file of `load`'s result read for a reference: same section and
      path, resolved where the reference resolves, holding what is there
      ('' for a missing file). */
  predicate ReadAs(dir: string, canon: string -> string, fs: map<string, string>,
                   ref: (string, string), file: (string, FileInfo))
  {
    file.0 == ref.0 && file.1.path == ref.1
    && Resolve(dir, canon, fs, ref.1) == Ok(file.1.fullPath)
    && file.1.content == ContentAt(fs, file.1.fullPath)
  }

  /** `load` reads one file per reference. */
  lemma {:induction false} LoadFilesLength(dir: string, canon: string -> string, fs: map<string, string>,
                                           refs: seq<(string, string)>)
    ensures LoadFiles(dir, canon, fs, refs).Ok? ==> |LoadFiles(dir, canon, fs, refs).value| == |refs|
    decreases |refs|
  {
    if |refs| > 0 {
      LoadFilesLength(dir, canon, fs, refs[1..]);
    }
  }

  /** Entry `i` of `load`'s files is read for reference `i`. */
  lemma {:induction false} LoadFilesAt(dir: string, canon: string -> string, fs: map<string, string>,
                                       refs: seq<(string, string)>, i: int)
    requires 0 <= i < |refs|
    ensures LoadFiles(dir, canon, fs, refs).Ok? ==>
      i < |LoadFiles(dir, canon, fs, refs).value|
      && ReadAs(dir, canon, fs, refs[i], LoadFiles(dir, canon, fs, refs).value[i])
    decreases |refs|
  {
    if LoadFiles(dir, canon, fs, refs).Ok? {
      LoadFilesCons(dir, canon, fs, refs);
      if i > 0 {
        LoadFilesAt(dir, canon, fs, refs[1..], i - 1);
        assert refs[1..][i - 1] == refs[i];
      }
    }
  }

  /** A successful `load` reads the first reference, then the others. */
  lemma LoadFilesCons(dir: string, canon: string -> string, fs: map<string, string>, refs: seq<(string, string)>)
    requires |refs| > 0 && LoadFiles(dir, canon, fs, refs).Ok?
    ensures var r := LoadFiles(dir, canon, fs, refs).value;
      var rest := LoadFiles(dir, canon, fs, refs[1..]);
      |r| > 0 && ReadAs(dir, canon, fs, refs[0], r[0])
      && rest.Ok? && r[1..] == rest.value
  {
  }

  /** Entry `i` of `load`'s files is read for reference `i`, for every `i`. */
  lemma LoadFilesSpec(dir: string, canon: string -> string, fs: map<string, string>,
                      refs: seq<(string, string)>)
    ensures LoadFiles(dir, canon, fs, refs).Ok? ==> |LoadFiles(dir, canon, fs, refs).value| == |refs|
    ensures LoadFiles(dir, canon, fs, refs).Ok? ==>
      forall i :: 0 <= i < |refs| ==> ReadAs(dir, canon, fs, refs[i], LoadFiles(dir, canon, fs, refs).value[i])
  {
    LoadFilesLength(dir, canon, fs, refs);
    forall i | 0 <= i < |refs|
      ensures LoadFiles(dir, canon, fs, refs).Ok? ==>
        i < |LoadFiles(dir, canon, fs, refs).value|
        && ReadAs(dir, canon, fs, refs[i], LoadFiles(dir, canon, fs, refs).value[i])
    {
      LoadFilesAt(dir, canon, fs, refs, i);
    }
  }

  /** A reference with `..` makes `load` throw. */
  lemma {:induction false} LoadFilesRefusesDotDot(dir: string, canon: string -> string, fs: map<string, string>,
                                                  refs: seq<(string, string)>, i: int)
    requires 0 <= i < |refs| && HasDotDot(refs[i].1)
    ensures LoadFiles(dir, canon, fs, refs).Err?
    decreases |refs|
  {
    LoadFilesOk(dir, canon, fs, refs);
  }

  /** `load` succeeds exactly when every reference resolves. */
  lemma {:induction false} LoadFilesOk(dir: string, canon: string -> string, fs: map<string, string>,
                                       refs: seq<(string, string)>)
    ensures LoadFiles(dir, canon, fs, refs).Ok? <==>
      forall i :: 0 <= i < |refs| ==> Resolve(dir, canon, fs, refs[i].1).Ok?
    decreases |refs|
  {
    if |refs| > 0 {
      LoadFilesOk(dir, canon, fs, refs[1..]);
      assert forall i :: 1 <= i < |refs| ==> refs[i] == refs[1..][i - 1];
    }
  }

  /** The files read so far, followed by those still to read, or the failure that stops the read. */
  function AfterRead(done: seq<(string, FileInfo)>, rest: Result<seq<(string, FileInfo)>, StoreError>)
    : Result<seq<(string, FileInfo)>, StoreError>
  {
    match rest
    case Err(e) => Err(e)
    case Ok(files) => Ok(done + files)
  }

  lemma AfterReadNothing(rest: Result<seq<(string, FileInfo)>, StoreError>)
    ensures AfterRead([], rest) == rest
  {
    if rest.Ok? {
      assert [] + rest.value == rest.value;
    }
  }

  /** One step of the read loop of `load`. */
  lemma LoadFilesStep(dir: string, canon: string -> string, fs: map<string, string>,
                      refs: seq<(string, string)>, i: nat, done: seq<(string, FileInfo)>)
    requires i < |refs|
    ensures Resolve(dir, canon, fs, refs[i].1).Err? ==>
      AfterRead(done, LoadFiles(dir, canon, fs, refs[i..])) == Err(Resolve(dir, canon, fs, refs[i].1).error)
    ensures Resolve(dir, canon, fs, refs[i].1).Ok? ==>
      var full := Resolve(dir, canon, fs, refs[i].1).value;
      AfterRead(done, LoadFiles(dir, canon, fs, refs[i..]))
        == AfterRead(done + [(refs[i].0, FileInfo(refs[i].1, full, ContentAt(fs, full)))], LoadFiles(dir, canon, fs, refs[i + 1..]))
  {
    var tail := refs[i..];
    assert tail[0] == refs[i] && tail[1..] == refs[i + 1..];
    var full := Resolve(dir, canon, fs, refs[i].1);
    if full.Ok? {
      var info := (refs[i].0, FileInfo(refs[i].1, full.value, ContentAt(fs, full.value)));
      var more := LoadFiles(dir, canon, fs, refs[i + 1..]);
      if more.Ok? {
        assert LoadFiles(dir, canon, fs, tail) == Ok([info] + more.value);
        assert done + ([info] + more.value) == (done + [info]) + more.value;
      } else {
        assert LoadFiles(dir, canon, fs, tail) == Err(more.error);
      }
    } else {
      assert LoadFiles(dir, canon, fs, tail) == Err(full.error);
    }
  }

  function LoadOf(dir: string, parse: IniParser, canon: string -> string, fs: map<string, string>)
    : Result<Loaded, StoreError>
  {
    var ini := IndexText(dir, fs);
    match LoadFiles(dir, canon, fs, Refs(parse, ini))
    case Err(e) => Err(e)
    case Ok(files) => Ok(Loaded(ini, files))
  }

  /** What a run of `save` did: the exception it threw, if any, the disk
      afterwards, and the paths of the list files it wrote, in order. */
  datatype SaveOutcome = SaveOutcome(error: Option<StoreError>, fs: map<string, string>, written: seq<string>)

  /** Where `save` writes an entry: normalised, then resolved. */
  function SaveTarget(dir: string, canon: string -> string, fs: map<string, string>, path: string)
    : (r: Result<string, StoreError>)
    ensures r.Ok? ==> StartsWith(r.value, Base(dir))
    ensures HasDotDot(path) ==> r.Err?
  {
    match NormalizeRel(path)
    case Err(e) => Err(e)
    case Ok(rel) => Resolve(dir, canon, fs, rel)
  }

  /** Where a loop writes a file, given the disk and the entry's path. */
  type Resolver = (map<string, string>, string) -> Result<string, StoreError>

  /** `save`'s target for an entry of the store in `dir`. */
  function SaveTargetOf(dir: string, canon: string -> string): Resolver
  {
    (d: map<string, string>, path: string) => SaveTarget(dir, canon, d, path)
  }

  /** The file loop of `save`, stopping at the first exception. */
  function WriteFiles(target: Resolver, fs: map<string, string>, files: seq<(string, SaveItem)>)
    : (r: SaveOutcome)
    ensures |r.written| <= |files|
    ensures r.error.None? <==> |r.written| == |files|
    ensures forall i :: 0 <= i < |r.written| ==> r.written[i] in r.fs
    ensures forall p :: p in fs ==> p in r.fs
    ensures forall p :: p in fs && p !in r.written ==> r.fs[p] == fs[p]
    ensures forall p :: p in r.fs ==> p in fs || p in r.written
    decreases |files|
  {
    if |files| == 0 then SaveOutcome(None, fs, [])
    else
      match target(fs, files[0].1.path)
      case Err(e) => SaveOutcome(Some(e), fs, [])
      case Ok(full) =>
        var rest := WriteFiles(target, fs[full := files[0].1.content], files[1..]);
        SaveOutcome(rest.error, rest.fs, [full] + rest.written)
  }

  predicate AllUnder(dir: string, paths: seq<string>)
  {
    forall i :: 0 <= i < |paths| ==> StartsWith(paths[i], Base(dir))
  }

  lemma AllUnderCons(dir: string, full: string, rest: seq<string>)
    requires StartsWith(full, Base(dir)) && AllUnder(dir, rest)
    ensures AllUnder(dir, [full] + rest)
  {
    var w := [full] + rest;
    forall i | 0 <= i < |w|
      ensures StartsWith(w[i], Base(dir))
    {
      if i > 0 {
        assert w[i] == rest[i - 1];
      }
    }
  }

  /** No later write goes to the same path as the `i`-th one. */
  predicate LastWriteAt(written: seq<string>, i: int)
    requires 0 <= i < |written|
  {
    forall j :: i < j < |written| ==> written[j] != written[i]
  }

  lemma LastWriteFirst(full: string, rest: seq<string>)
    requires LastWriteAt([full] + rest, 0)
    ensures full !in rest
  {
    var w := [full] + rest;
    forall j | 0 <= j < |rest|
      ensures rest[j] != full
    {
      assert w[j + 1] == rest[j];
    }
  }

  lemma LastWriteLater(full: string, rest: seq<string>, i: int)
    requires 0 < i <= |rest| && LastWriteAt([full] + rest, i)
    ensures LastWriteAt(rest, i - 1) && ([full] + rest)[i] == rest[i - 1]
  {
    var w := [full] + rest;
    forall j | i - 1 < j < |rest|
      ensures rest[j] != rest[i - 1]
    {
      assert w[j + 1] == rest[j] && w[i] == rest[i - 1];
    }
  }

  /** A file that no later file of the same call overwrites keeps the content written to it. */
  lemma {:induction false} WriteFilesContent(target: Resolver, fs: map<string, string>,
                                             files: seq<(string, SaveItem)>, i: int)
    requires 0 <= i < |WriteFiles(target, fs, files).written|
    requires LastWriteAt(WriteFiles(target, fs, files).written, i)
    ensures WriteFiles(target, fs, files).fs[WriteFiles(target, fs, files).written[i]] == files[i].1.content
    decreases |files|
  {
    match target(fs, files[0].1.path)
    case Err(_) =>
    case Ok(full) =>
      var fs1 := fs[full := files[0].1.content];
      var rest := WriteFiles(target, fs1, files[1..]);
      var w := [full] + rest.written;
      assert WriteFiles(target, fs, files) == SaveOutcome(rest.error, rest.fs, w);
      if i == 0 {
        LastWriteFirst(full, rest.written);
      } else {
        assert files[1..][i - 1] == files[i];
        LastWriteLater(full, rest.written, i);
        WriteFilesContent(target, fs1, files[1..], i - 1);
      }
  }

  /** An entry that names the directory itself once normalised twice. */
  predicate SavesToDirItself(path: string)
  {
    !HasDotDot(path) && NamesDirItself(ResolveTail(NormalizeRel(path).value))
  }

  /** The path `save` writes an entry to before `realpath` is consulted:
      normalised twice (by `save` and by `resolve`) and put under `dir/`;
      `dir/` itself for an entry naming the directory. */
  function SavePath(dir: string, path: string): (p: string)
    requires !HasDotDot(path)
    ensures StartsWith(p, Base(dir))
  {
    var tail := ResolveTail(NormalizeRel(path).value);
    assert (Base(dir) + tail)[..|Base(dir)|] == Base(dir);
    if NamesDirItself(tail) then Base(dir) else Base(dir) + tail
  }

  /** An entry naming the directory goes to the root itself (the only
      directory it is accepted for); any other entry goes to its path, or,
      when that path exists, to where `realpath` leads. */
  lemma SaveTargetIs(dir: string, canon: string -> string, fs: map<string, string>, path: string)
    requires SaveTarget(dir, canon, fs, path).Ok?
    ensures !HasDotDot(path)
    ensures SavesToDirItself(path) ==> dir == "" && SaveTarget(dir, canon, fs, path).value == SavePath(dir, path)
    ensures var t := SavePath(dir, path);
      !SavesToDirItself(path) ==> SaveTarget(dir, canon, fs, path).value == (if t in fs then canon(t) else t)
  {
  }

  /** The entries `save` refuses whatever the disk holds: a path with `..`,
      or one naming the directory itself when that is not the root. */
  predicate SaveRefused(dir: string, path: string)
  {
    HasDotDot(path) || (dir != "" && SavesToDirItself(path))
  }

  /** The exception `save` throws for a refused entry. */
  function SaveRefusal(path: string): StoreError
  {
    if HasDotDot(path) then NormalizeRel(path).error
    else PathEscapesConfigDir(NormalizeRel(NormalizeRel(path).value).value)
  }

  /** A refused entry throws `normalizeRel`'s error for `..`, or `Path escapes config dir`. */
  lemma SaveTargetRefuses(dir: string, canon: string -> string, fs: map<string, string>, path: string)
    requires SaveRefused(dir, path)
    ensures SaveTarget(dir, canon, fs, path) == Err(SaveRefusal(path))
  {
    if !HasDotDot(path) {
      ResolveDirItself(dir, canon, fs, NormalizeRel(path).value);
    }
  }

  /** Where no real path lies outside the directory, exactly the entries
      that are not refused are accepted. */
  lemma SaveTargetInside(dir: string, canon: string -> string, fs: map<string, string>, path: string)
    requires forall p :: StartsWith(canon(p), Base(dir))
    ensures SaveTarget(dir, canon, fs, path).Ok? <==> !SaveRefused(dir, path)
  {
    if !HasDotDot(path) {
      ResolveInside(dir, canon, fs, NormalizeRel(path).value);
    }
  }

  /** `full` is where `save` may write an entry with this path: the path
      itself or where `realpath` leads from it. */
  predicate TargetOf(dir: string, canon: string -> string, full: string, path: string)
  {
    !HasDotDot(path) && (full == SavePath(dir, path) || full == canon(SavePath(dir, path)))
  }

  /** The `i`-th file written is the `i`-th entry, at its path or where `realpath` leads from it. */
  lemma {:induction false} WriteFilesTargets(dir: string, canon: string -> string, fs: map<string, string>,
                                             files: seq<(string, SaveItem)>, i: int)
    requires 0 <= i < |WriteFiles(SaveTargetOf(dir, canon), fs, files).written|
    ensures TargetOf(dir, canon, WriteFiles(SaveTargetOf(dir, canon), fs, files).written[i], files[i].1.path)
    decreases |files|
  {
    if i > 0 {
      assert files[1..][i - 1] == files[i];
    }
    match SaveTarget(dir, canon, fs, files[0].1.path)
    case Err(_) =>
    case Ok(full) =>
      var fs1 := fs[full := files[0].1.content];
      var rest := WriteFiles(SaveTargetOf(dir, canon), fs1, files[1..]);
      assert WriteFiles(SaveTargetOf(dir, canon), fs, files).written == [full] + rest.written;
      if i == 0 {
        SaveTargetIs(dir, canon, fs, files[0].1.path);
      } else {
        WriteFilesTargets(dir, canon, fs1, files[1..], i - 1);
      }
  }

  /** When the loop throws, the exception is the one the first entry it did
      not write throws on the disk it leaves, which is the disk as it was
      when that entry was reached. */
  lemma {:induction false} WriteFilesFailsAt(target: Resolver, fs: map<string, string>, files: seq<(string, SaveItem)>)
    requires WriteFiles(target, fs, files).error.Some?
    ensures var r := WriteFiles(target, fs, files);
      |r.written| < |files| && target(r.fs, files[|r.written|].1.path) == Err(r.error.value)
    decreases |files|
  {
    match target(fs, files[0].1.path)
    case Err(_) =>
    case Ok(full) =>
      var fs1 := fs[full := files[0].1.content];
      var rest := WriteFiles(target, fs1, files[1..]);
      WriteFilesFailsAt(target, fs1, files[1..]);
      assert files[1..][|rest.written|] == files[|rest.written| + 1];
      assert WriteFiles(target, fs, files) == SaveOutcome(rest.error, rest.fs, [full] + rest.written);
  }

  /** An entry refused on every disk stops the loop at or before it, and
      exactly there when every earlier entry is accepted on every disk. */
  lemma {:induction false} WriteFilesStopAt(target: Resolver, fs: map<string, string>,
                                            files: seq<(string, SaveItem)>, k: nat)
    requires k < |files| && forall d :: target(d, files[k].1.path).Err?
    ensures |WriteFiles(target, fs, files).written| <= k
    ensures (forall i, d :: 0 <= i < k ==> target(d, files[i].1.path).Ok?) ==> |WriteFiles(target, fs, files).written| == k
    decreases k
  {
    if k > 0 {
      assert files[1..][k - 1] == files[k];
      assert forall i :: 0 <= i < k - 1 ==> files[1..][i] == files[i + 1];
      match target(fs, files[0].1.path)
      case Err(_) =>
      case Ok(full) =>
        WriteFilesStopAt(target, fs[full := files[0].1.content], files[1..], k - 1);
    }
  }

  /** When no real path lies outside the directory, the loop writes every
      entry before the first refused one and throws that entry's error. */
  lemma WriteFilesReachUnsafePath(dir: string, canon: string -> string, fs: map<string, string>,
                                  files: seq<(string, SaveItem)>, k: nat)
    requires k < |files| && SaveRefused(dir, files[k].1.path)
    requires forall i :: 0 <= i < k ==> !SaveRefused(dir, files[i].1.path)
    requires forall p :: StartsWith(canon(p), Base(dir))
    ensures |WriteFiles(SaveTargetOf(dir, canon), fs, files).written| == k
    ensures WriteFiles(SaveTargetOf(dir, canon), fs, files).error == Some(SaveRefusal(files[k].1.path))
  {
    var target := SaveTargetOf(dir, canon);
    forall d
      ensures target(d, files[k].1.path) == Err(SaveRefusal(files[k].1.path))
    {
      SaveTargetRefuses(dir, canon, d, files[k].1.path);
    }
    forall i, d | 0 <= i < k
      ensures target(d, files[i].1.path).Ok?
    {
      SaveTargetInside(dir, canon, d, files[i].1.path);
    }
    WriteFilesStopAt(target, fs, files, k);
    WriteFilesFailsAt(target, fs, files);
  }

  /** Every file `save` writes lies under `dir/`. */
  lemma {:induction false} WriteFilesUnderDir(dir: string, canon: string -> string, fs: map<string, string>,
                                              files: seq<(string, SaveItem)>)
    ensures AllUnder(dir, WriteFiles(SaveTargetOf(dir, canon), fs, files).written)
    decreases |files|
  {
    if |files| > 0 {
      match SaveTarget(dir, canon, fs, files[0].1.path)
      case Err(_) =>
      case Ok(full) =>
        var rest := WriteFiles(SaveTargetOf(dir, canon), fs[full := files[0].1.content], files[1..]);
        WriteFilesUnderDir(dir, canon, fs[full := files[0].1.content], files[1..]);
        assert StartsWith(full, Base(dir));
        AllUnderCons(dir, full, rest.written);
    }
  }

  /** `save`: the index is written first, then each file. */
  function SaveOf(dir: string, canon: string -> string, fs: map<string, string>, iniText: string,
                  files: seq<(string, SaveItem)>): SaveOutcome
  {
    WriteFiles(SaveTargetOf(dir, canon), fs[IndexPath(dir) := iniText], files)
  }

  /** After `save`, whether or not it threw, `load` reads back the saved
      index, unless one of the list files was written over it. */
  lemma SaveThenLoadIndex(dir: string, parse: IniParser, canon: string -> string, fs: map<string, string>,
                          iniText: string, files: seq<(string, SaveItem)>)
    requires IndexPath(dir) !in SaveOf(dir, canon, fs, iniText, files).written
    ensures var after := SaveOf(dir, canon, fs, iniText, files).fs;
      IndexText(dir, after) == iniText
      && (LoadOf(dir, parse, canon, after).Ok? ==> LoadOf(dir, parse, canon, after).value.ini == iniText)
  {
  }

  /** `realpath` where no path is a symbolic link. */
  function Identity(p: string): string
  {
    p
  }

  lemma NormalizeIndexName()
    ensures NormalizeRel("lists.ini") == Ok("lists.ini")
  {
    var rel := "lists.ini";
    IndexNameIsPlain();
    var r := NormalizeRel(rel);
    assert "config/" + r.value != rel by {
      assert ("config/" + r.value)[0] == 'c';
    }
  }

  /** `lists.ini` has no `..` and no backslash. */
  lemma IndexNameIsPlain()
    ensures !HasDotDot("lists.ini")
    ensures ReplaceChar("lists.ini", '\\', Sep) == "lists.ini"
  {
    var rel := "lists.ini";
    IndexNameHasNoDotDot();
    assert forall i :: 0 <= i < |rel| ==> rel[i] != '\\';
    ReplaceAbsentChar(rel, '\\', Sep);
  }

  lemma IndexNameHasNoDotDot()
    ensures !HasDotDot("lists.ini")
  {
    var rel := "lists.ini";
    DotDotAt(rel);
    assert forall i :: 0 <= i < |rel| - 1 ==> rel[i] != '.' || rel[i + 1] != '.';
  }

  lemma ReplaceAbsentChar(s: string, from: char, to: char)
    requires forall i :: 0 <= i < |s| ==> s[i] != from
    ensures ReplaceChar(s, from, to) == s
  {
  }

  /** Once the index exists, a list file path `lists.ini` resolves to the index itself. */
  lemma IndexNameResolvesToIndex(dir: string, fs: map<string, string>)
    requires IndexPath(dir) in fs
    ensures SaveTarget(dir, Identity, fs, "lists.ini") == Ok(IndexPath(dir))
  {
    NormalizeIndexName();
    assert !NamesDirItself(IndexName) by {
      assert IndexName[0] == 'l';
    }
    ExistingNameResolvesToItself(dir, fs, IndexName);
  }

  /** A normalised, existing name without a leading separator resolves to itself under `dir/`. */
  lemma ExistingNameResolvesToItself(dir: string, fs: map<string, string>, rel: string)
    requires NormalizeRel(rel) == Ok(rel) && 0 < |rel| && rel[0] != '/' && !NamesDirItself(rel)
    requires Base(dir) + rel in fs
    ensures SaveTarget(dir, Identity, fs, rel) == Ok(Base(dir) + rel)
  {
    TrimStartNoop(rel, IsSlash);
    assert ResolveTail(rel) == rel;
    var full := Base(dir) + rel;
    assert StartsWith(full, Base(dir)) by {
      assert full[..|Base(dir)|] == Base(dir);
    }
    ResolveExisting(dir, Identity, fs, rel);
  }

  /** A list file whose path is `lists.ini` overwrites the index that `save` wrote just before. */
  lemma SaveCanOverwriteIndex(dir: string, fs: map<string, string>, iniText: string, section: string, content: string)
    ensures var out := SaveOf(dir, Identity, fs, iniText, [(section, SaveItem("lists.ini", content))]);
      out.error.None? && out.written == [IndexPath(dir)] && IndexText(dir, out.fs) == content
  {
    var files := [(section, SaveItem("lists.ini", content))];
    var fs1 := fs[IndexPath(dir) := iniText];
    IndexNameResolvesToIndex(dir, fs1);
    WriteSingleFile(dir, Identity, fs1, files[0], IndexPath(dir));
  }

  /** Writing a single file whose target resolves writes exactly that file. */
  lemma WriteSingleFile(dir: string, canon: string -> string, fs: map<string, string>,
                        file: (string, SaveItem), full: string)
    requires SaveTarget(dir, canon, fs, file.1.path) == Ok(full)
    ensures WriteFiles(SaveTargetOf(dir, canon), fs, [file]) == SaveOutcome(None, fs[full := file.1.content], [full])
  {
    var files := [file];
    assert files[1..] == [];
    var fs2 := fs[full := file.1.content];
    assert WriteFiles(SaveTargetOf(dir, canon), fs2, []) == SaveOutcome(None, fs2, []);
  }

  /** An unsafe path throws only after the index and every earlier file were written. */
  lemma SaveStopsAtUnsafePath(dir: string, canon: string -> string, fs: map<string, string>, iniText: string,
                              files: seq<(string, SaveItem)>, k: nat)
    requires k < |files| && SaveRefused(dir, files[k].1.path)
    ensures var out := SaveOf(dir, canon, fs, iniText, files);
      out.error.Some? && IndexPath(dir) in out.fs && |out.written| <= k
    ensures var out := SaveOf(dir, canon, fs, iniText, files);
      IndexPath(dir) !in out.written ==> IndexText(dir, out.fs) == iniText
    ensures var out := SaveOf(dir, canon, fs, iniText, files);
      (forall p :: StartsWith(canon(p), Base(dir))) && (forall i :: 0 <= i < k ==> !SaveRefused(dir, files[i].1.path)) ==>
        |out.written| == k && out.error == Some(SaveRefusal(files[k].1.path))
  {
    var fs1 := fs[IndexPath(dir) := iniText];
    WriteFilesStopsAtUnsafePath(dir, canon, fs1, files, k);
    if (forall p :: StartsWith(canon(p), Base(dir))) && (forall i :: 0 <= i < k ==> !SaveRefused(dir, files[i].1.path)) {
      WriteFilesReachUnsafePath(dir, canon, fs1, files, k);
    }
  }

  /** What `save` leaves on disk: the index it wrote unless a list file went
      over it, each list file with the content of the last entry written
      there, every other file as before, and nothing else. */
  lemma SaveWrites(dir: string, canon: string -> string, fs: map<string, string>, iniText: string,
                   files: seq<(string, SaveItem)>)
    ensures forall p :: p in SaveOf(dir, canon, fs, iniText, files).fs ==>
      p in fs || p == IndexPath(dir) || p in SaveOf(dir, canon, fs, iniText, files).written
    ensures IndexPath(dir) !in SaveOf(dir, canon, fs, iniText, files).written ==>
      SaveOf(dir, canon, fs, iniText, files).fs[IndexPath(dir)] == iniText
    ensures forall p :: p in fs && p != IndexPath(dir) && p !in SaveOf(dir, canon, fs, iniText, files).written ==>
      SaveOf(dir, canon, fs, iniText, files).fs[p] == fs[p]
    ensures forall i :: 0 <= i < |SaveOf(dir, canon, fs, iniText, files).written| ==>
      TargetOf(dir, canon, SaveOf(dir, canon, fs, iniText, files).written[i], files[i].1.path)
    ensures forall i :: 0 <= i < |SaveOf(dir, canon, fs, iniText, files).written|
                        && LastWriteAt(SaveOf(dir, canon, fs, iniText, files).written, i) ==>
      SaveOf(dir, canon, fs, iniText, files).fs[SaveOf(dir, canon, fs, iniText, files).written[i]] == files[i].1.content
  {
    WriteFilesAllTargets(dir, canon, fs[IndexPath(dir) := iniText], files);
    WriteFilesAllContent(SaveTargetOf(dir, canon), fs[IndexPath(dir) := iniText], files);
  }

  lemma WriteFilesAllTargets(dir: string, canon: string -> string, fs: map<string, string>,
                             files: seq<(string, SaveItem)>)
    ensures forall i :: 0 <= i < |WriteFiles(SaveTargetOf(dir, canon), fs, files).written| ==>
      TargetOf(dir, canon, WriteFiles(SaveTargetOf(dir, canon), fs, files).written[i], files[i].1.path)
  {
    forall i | 0 <= i < |WriteFiles(SaveTargetOf(dir, canon), fs, files).written|
      ensures TargetOf(dir, canon, WriteFiles(SaveTargetOf(dir, canon), fs, files).written[i], files[i].1.path)
    {
      WriteFilesTargets(dir, canon, fs, files, i);
    }
  }

  lemma WriteFilesAllContent(target: Resolver, fs: map<string, string>,
                             files: seq<(string, SaveItem)>)
    ensures var out := WriteFiles(target, fs, files);
      forall i :: 0 <= i < |out.written| && LastWriteAt(out.written, i) ==>
        out.fs[out.written[i]] == files[i].1.content
  {
    var out := WriteFiles(target, fs, files);
    forall i | 0 <= i < |out.written| && LastWriteAt(out.written, i)
      ensures out.fs[out.written[i]] == files[i].1.content
    {
      WriteFilesContent(target, fs, files, i);
    }
  }

  lemma WriteFilesStopsAtUnsafePath(dir: string, canon: string -> string, fs: map<string, string>,
                                    files: seq<(string, SaveItem)>, k: nat)
    requires k < |files| && SaveRefused(dir, files[k].1.path)
    ensures |WriteFiles(SaveTargetOf(dir, canon), fs, files).written| <= k
  {
    forall d
      ensures SaveTargetOf(dir, canon)(d, files[k].1.path).Err?
    {
      SaveTargetRefuses(dir, canon, d, files[k].1.path);
    }
    WriteFilesStopAt(SaveTargetOf(dir, canon), fs, files, k);
  }

  /** `load` pairs each reference with its file and throws on any reference containing `..`. */
  lemma LoadReadsReferences(dir: string, parse: IniParser, canon: string -> string, fs: map<string, string>)
    ensures var refs := Refs(parse, IndexText(dir, fs));
      var r := LoadOf(dir, parse, canon, fs);
      (r.Ok? ==> r.value.ini == IndexText(dir, fs) && Keys(r.value.files) == Keys(refs)
                 && forall i :: 0 <= i < |refs| ==> r.value.files[i].1.path == refs[i].1)
      && ((exists i :: 0 <= i < |refs| && HasDotDot(refs[i].1)) ==> r.Err?)
  {
    var refs := Refs(parse, IndexText(dir, fs));
    LoadFilesSpec(dir, canon, fs, refs);
    if exists i :: 0 <= i < |refs| && HasDotDot(refs[i].1) {
      var i :| 0 <= i < |refs| && HasDotDot(refs[i].1);
      LoadFilesRefusesDotDot(dir, canon, fs, refs, i);
    }
  }

  /** A missing index loads as '' with no files. */
  lemma LoadMissingIndex(dir: string, parse: IniParser, canon: string -> string, fs: map<string, string>)
    requires IndexPath(dir) !in fs
    ensures LoadOf(dir, parse, canon, fs) == Ok(Loaded("", []))
  {
  }

  // ----- the store object -----

  class ListStore {
    const configDir: string
    const parseIni: IniParser
    const canon: string -> string
    var fs: map<string, string>

    /** The directory is kept without trailing separators. */
    constructor (configDir: string, parseIni: IniParser, canon: string -> string, fs: map<string, string>)
      ensures this.configDir == TrimEnd(configDir, IsSlash)
      ensures this.parseIni == parseIni && this.canon == canon && this.fs == fs
    {
      this.configDir := TrimEnd(configDir, IsSlash);
      this.parseIni := parseIni;
      this.canon := canon;
      this.fs := fs;
    }

    function IniPath(): (p: string)
      ensures EndsWith(p, "/lists.ini") && StartsWith(p, configDir)
      ensures |p| == |configDir| + |"/lists.ini"|
    {
      var p := IndexPath(configDir);
      assert p[..|configDir|] == configDir;
      assert p[|p| - 10..] == [Sep] + IndexName;
      p
    }

    /** `refsFromIni`, section by section. */
    method RefsFromIni(iniText: string) returns (refs: seq<(string, string)>)
      ensures refs == Refs(parseIni, iniText)
    {
      refs := [];
      if iniText == "" {
        return;
      }
      var parsed := parseIni(iniText);
      if parsed.None? {
        return;
      }
      var sections := parsed.value;
      var i := 0;
      while i < |sections|
        invariant 0 <= i <= |sections|
        invariant refs == RefsOf(sections[..i])
      {
        assert sections[..i + 1][..i] == sections[..i];
        var (section, entry) := sections[i];
        if entry.Section? {
          var file := RefPath(entry.pairs);
          if file != "" {
            refs := Put(refs, section, file);
          }
        }
        i := i + 1;
      }
      assert sections[..i] == sections;
    }

    /** `load`: the index text and, per referenced section, its file. */
    method Load() returns (r: Result<Loaded, StoreError>)
      ensures r == LoadOf(configDir, parseIni, canon, fs)
    {
      var iniText := IndexText(configDir, fs);
      var refs := RefsFromIni(iniText);
      var files := ReadFiles(refs);
      if files.Err? {
        return Err(files.error);
      }
      r := Ok(Loaded(iniText, files.value));
    }

    /** The loop of `load` over the references, stopping at the first that does not resolve. */
    method ReadFiles(refs: seq<(string, string)>) returns (r: Result<seq<(string, FileInfo)>, StoreError>)
      ensures r == LoadFiles(configDir, canon, fs, refs)
    {
      var files: seq<(string, FileInfo)> := [];
      var i := 0;
      assert refs[i..] == refs;
      AfterReadNothing(LoadFiles(configDir, canon, fs, refs));
      while i < |refs|
        invariant 0 <= i <= |refs|
        invariant LoadFiles(configDir, canon, fs, refs) == AfterRead(files, LoadFiles(configDir, canon, fs, refs[i..]))
      {
        var (section, rel) := refs[i];
        LoadFilesStep(configDir, canon, fs, refs, i, files);
        var full := Resolve(configDir, canon, fs, rel);
        if full.Err? {
          return Err(full.error);
        }
        var content := ContentAt(fs, full.value);
        files := files + [(section, FileInfo(rel, full.value, content))];
        i := i + 1;
      }
      assert refs[i..] == [];
      assert files + [] == files;
      r := Ok(files);
    }

    /** `save`: the index verbatim, then every file; stops at the first unsafe path. */
    method Save(iniText: string, files: seq<(string, SaveItem)>) returns (error: Option<StoreError>)
      modifies this
      ensures var out := SaveOf(configDir, canon, old(fs), iniText, files);
        error == out.error && fs == out.fs
    {
      ghost var out := SaveOf(configDir, canon, fs, iniText, files);
      fs := fs[IniPath() := iniText];
      var i := 0;
      while i < |files|
        invariant 0 <= i <= |files|
        invariant WriteFiles(SaveTargetOf(configDir, canon), fs, files[i..]).error == out.error
        invariant WriteFiles(SaveTargetOf(configDir, canon), fs, files[i..]).fs == out.fs
      {
        assert files[i..][1..] == files[i + 1..];
        var full := SaveTarget(configDir, canon, fs, files[i].1.path);
        if full.Err? {
          return Some(full.error);
        }
        fs := fs[full.value := files[i].1.content];
        i := i + 1;
      }
      error := None;
    }

    /** `referencedRelPaths`: the referenced paths of the stored index, in section order. */
    method ReferencedRelPaths() returns (paths: seq<string>)
      ensures paths == Values(Refs(parseIni, IndexText(configDir, fs)))
    {
      var iniText := IndexText(configDir, fs);
      var refs := RefsFromIni(iniText);
      paths := Values(refs);
    }
  }

  /** `referencedRelPaths` lists the same paths, in the same order, as the files `load` returns. */
  lemma ReferencedPathsMatchLoad(dir: string, parse: IniParser, canon: string -> string, fs: map<string, string>)
    requires LoadOf(dir, parse, canon, fs).Ok?
    ensures var files := LoadOf(dir, parse, canon, fs).value.files;
      Values(Refs(parse, IndexText(dir, fs))) == seq(|files|, i requires 0 <= i < |files| => files[i].1.path)
  {
    LoadFilesSpec(dir, canon, fs, Refs(parse, IndexText(dir, fs)));
  }
}
