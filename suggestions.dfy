/** The store of suggestion domains: one domain per line in
    `suggestions.txt` inside the configuration directory.

    The disk is the map `fs` from absolute path to file content. */
module Suggestions {
  import opened Text

  const FileName: string := "suggestions.txt"

  /** `strtolower(trim($ln))`: what both `load` and `save` make of a domain. */
  function Normalize(s: string): (r: string)
    ensures |r| <= |s|
  {
    ToLowerAscii(PhpTrim(s))
  }

  /** A normalised domain is trimmed and in lower case, so normalising again changes nothing. */
  lemma NormalizeIsNormal(s: string)
    ensures Normal(Normalize(s))
    ensures Normalize(Normalize(s)) == Normalize(s)
  {
    LowerTrimStable(s);
    var r := Normalize(s);
    var t := PhpTrim(s);
    if |r| > 0 {
      assert r[0] == LowerChar(t[0]) && r[|r| - 1] == LowerChar(t[|t| - 1]);
    }
    PhpTrimNoop(r);
    ToLowerIdempotent(t);
  }

  /** Normalising cannot introduce a line break. */
  lemma NormalizeNoLineBreak(s: string)
    requires NoLineBreak(s)
    ensures NoLineBreak(Normalize(s))
  {
    var t := PhpTrim(s);
    TrimmedChars(s);
    var r := Normalize(s);
    forall i | 0 <= i < |r|
      ensures !IsLineBreak(r[i])
    {
      assert r[i] == LowerChar(t[i]);
    }
  }

  /** A domain as `load` and `save` leave it: trimmed and in lower case. */
  predicate Normal(s: string)
  {
    PhpTrim(s) == s && ToLowerAscii(s) == s
  }

  lemma TrimmedChars(s: string)
    ensures forall i :: 0 <= i < |PhpTrim(s)| ==> PhpTrim(s)[i] in s
  {
    var a := TrimStart(s, IsPhpSpace);
    var b := TrimEnd(a, IsPhpSpace);
    forall i | 0 <= i < |b|
      ensures b[i] in s
    {
      assert b[i] == a[i];
      assert a[i] == s[|s| - |a| + i];
    }
  }

  /** A line `load` keeps: not empty and not a `#` comment. */
  predicate Listed(ln: string)
  {
    ln != "" && ln[0] != '#'
  }

  /** The loop of `load`: every line normalised, empty and comment lines dropped. */
  function Domains(lines: seq<string>): (r: seq<string>)
    ensures |r| <= |lines|
    decreases |lines|
  {
    if |lines| == 0 then []
    else Domains(lines[..|lines| - 1]) + Kept(lines[|lines| - 1])
  }

  /** Every domain the loop keeps is normalised, not empty and not a comment. */
  lemma {:induction false} DomainsAreClean(lines: seq<string>)
    ensures forall i :: 0 <= i < |Domains(lines)| ==> Normal(Domains(lines)[i]) && Listed(Domains(lines)[i])
    decreases |lines|
  {
    if |lines| > 0 {
      var init := Domains(lines[..|lines| - 1]);
      DomainsAreClean(lines[..|lines| - 1]);
      NormalizeIsNormal(lines[|lines| - 1]);
      var r := Domains(lines);
      forall i | 0 <= i < |r|
        ensures Normal(r[i]) && Listed(r[i])
      {
        if i < |init| {
          assert r[i] == init[i];
        }
      }
    }
  }

  /** One more line adds its domain, if it is kept, at the end. */
  lemma DomainsSnoc(lines: seq<string>, ln: string)
    ensures Domains(lines + [ln]) == Domains(lines) + Kept(ln)
  {
    assert (lines + [ln])[..|lines|] == lines;
  }

  /** The domain a single line contributes. */
  function Kept(line: string): (r: seq<string>)
    ensures |r| <= 1
  {
    var ln := Normalize(line);
    if Listed(ln) then [ln] else []
  }

  lemma {:induction false} DomainsAppend(xs: seq<string>, ys: seq<string>)
    ensures Domains(xs + ys) == Domains(xs) + Domains(ys)
    decreases |ys|
  {
    if |ys| > 0 {
      var init := ys[..|ys| - 1];
      var y := ys[|ys| - 1];
      assert xs + ys == (xs + init) + [y];
      assert ys == init + [y];
      DomainsSnoc(xs + init, y);
      DomainsSnoc(init, y);
      DomainsAppend(xs, init);
    } else {
      assert xs + ys == xs;
    }
  }

  /** Normalising the lines first changes nothing. */
  lemma {:induction false} DomainsOfNormalized(ds: seq<string>)
    ensures Domains(NormalizeAll(ds)) == Domains(ds)
    decreases |ds|
  {
    if |ds| > 0 {
      var n := NormalizeAll(ds);
      var init, last := ds[..|ds| - 1], ds[|ds| - 1];
      DomainsOfNormalized(init);
      assert n[..|n| - 1] == NormalizeAll(init);
      assert Kept(n[|n| - 1]) == Kept(last) by {
        NormalizeIsNormal(last);
      }
    }
  }

  /** `array_values(array_unique(...))`: later repetitions dropped, first ones kept in order. */
  function Unique(xs: seq<string>): (u: seq<string>)
    ensures |u| <= |xs|
    ensures forall x :: x in u <==> x in xs
    ensures forall i, j :: 0 <= i < j < |u| ==> u[i] != u[j]
    decreases |xs|
  {
    if |xs| == 0 then []
    else
      var init := xs[..|xs| - 1];
      var last := xs[|xs| - 1];
      assert forall x :: x in xs <==> x in init || x == last;
      if last in init then Unique(init) else Unique(init) + [last]
  }

  /** Where `x` occurs first in `xs`. */
  function FirstIndex(xs: seq<string>, x: string): (k: nat)
    requires x in xs
    ensures k < |xs| && xs[k] == x && x !in xs[..k]
  {
    if xs[0] == x then 0
    else
      var k := 1 + FirstIndex(xs[1..], x);
      assert xs[..k] == [xs[0]] + xs[1..][..k - 1];
      k
  }

  lemma FirstIndexInPrefix(xs: seq<string>, n: nat, x: string)
    requires n <= |xs| && x in xs[..n]
    ensures FirstIndex(xs, x) == FirstIndex(xs[..n], x)
  {
    var k := FirstIndex(xs[..n], x);
    assert xs[..n][..k] == xs[..k];
  }

  /** The de-duplicated list keeps the order of first occurrence. */
  lemma {:induction false} UniqueKeepsFirstOrder(xs: seq<string>)
    ensures forall i, j :: 0 <= i < j < |Unique(xs)| ==> FirstIndex(xs, Unique(xs)[i]) < FirstIndex(xs, Unique(xs)[j])
    decreases |xs|
  {
    if |xs| > 0 {
      var init := xs[..|xs| - 1];
      var last := xs[|xs| - 1];
      var u0 := Unique(init);
      UniqueKeepsFirstOrder(init);
      var u := Unique(xs);
      forall i, j | 0 <= i < j < |u|
        ensures FirstIndex(xs, u[i]) < FirstIndex(xs, u[j])
      {
        assert u[i] == u0[i] && u[i] in init;
        FirstIndexInPrefix(xs, |xs| - 1, u[i]);
        if j < |u0| {
          assert u[j] == u0[j];
          FirstIndexInPrefix(xs, |xs| - 1, u[j]);
        } else {
          assert u[j] == last && last !in init;
          assert FirstIndex(xs, last) == |xs| - 1;
        }
      }
    }
  }

  /** What `load` returns for the file at `path`. */
  function LoadOf(fs: map<string, string>, path: string): seq<string>
  {
    if path in fs then Unique(Domains(SplitLines(fs[path]))) else []
  }

  /** Every domain `load` returns is trimmed, lower case, not empty, not a
      comment and listed once; a missing file yields no domains. */
  lemma LoadedDomainsAreClean(fs: map<string, string>, path: string)
    ensures path !in fs ==> LoadOf(fs, path) == []
    ensures forall i :: 0 <= i < |LoadOf(fs, path)| ==> Normal(LoadOf(fs, path)[i]) && Listed(LoadOf(fs, path)[i])
    ensures forall i, j :: 0 <= i < j < |LoadOf(fs, path)| ==> LoadOf(fs, path)[i] != LoadOf(fs, path)[j]
  {
    if path in fs {
      var ds := Domains(SplitLines(fs[path]));
      DomainsAreClean(SplitLines(fs[path]));
      forall i | 0 <= i < |LoadOf(fs, path)|
        ensures Normal(LoadOf(fs, path)[i]) && Listed(LoadOf(fs, path)[i])
      {
        var x := LoadOf(fs, path)[i];
        assert x in ds;
      }
    }
  }

  function NormalizeAll(ds: seq<string>): (r: seq<string>)
    ensures |r| == |ds|
    ensures forall i :: 0 <= i < |ds| ==> r[i] == Normalize(ds[i])
  {
    seq(|ds|, i requires 0 <= i < |ds| => Normalize(ds[i]))
  }

  /** Every domain `save` writes is normal, so normalising the list again changes nothing. */
  lemma NormalizeAllIsNormal(ds: seq<string>)
    ensures forall i :: 0 <= i < |ds| ==> Normal(NormalizeAll(ds)[i])
    ensures NormalizeAll(NormalizeAll(ds)) == NormalizeAll(ds)
  {
    forall i | 0 <= i < |ds|
      ensures Normal(NormalizeAll(ds)[i]) && Normalize(NormalizeAll(ds)[i]) == NormalizeAll(ds)[i]
    {
      NormalizeIsNormal(ds[i]);
    }
  }

  /** The text `save` writes: each domain normalised, one per line, with a final newline. */
  function SaveText(domains: seq<string>): string
  {
    Join(NormalizeAll(domains), '\n') + "\n"
  }

  /** Splitting a newline-terminated join yields the lines and one empty tail. */
  lemma {:induction false} SplitJoinedLines(xs: seq<string>)
    requires |xs| >= 1
    requires forall i :: 0 <= i < |xs| ==> NoLineBreak(xs[i])
    ensures SplitLines(Join(xs, '\n') + "\n") == xs + [""]
    decreases |xs|
  {
    if |xs| == 1 {
      SplitLinesLine(xs[0], "");
      assert xs[0] + "\n" == xs[0] + "\n" + "";
    } else {
      var rest := Join(xs[1..], '\n');
      assert Join(xs, '\n') + "\n" == xs[0] + "\n" + (rest + "\n");
      SplitLinesLine(xs[0], rest + "\n");
      SplitJoinedLines(xs[1..]);
      assert [xs[0]] + (xs[1..] + [""]) == xs + [""];
    }
  }

  /** When no domain holds a line break, loading what `save` wrote gives the
      normalised domains without empty or comment lines, each once, in
      order of first occurrence. */
  lemma SaveThenLoad(fs: map<string, string>, path: string, domains: seq<string>)
    requires forall i :: 0 <= i < |domains| ==> NoLineBreak(domains[i])
    ensures LoadOf(fs[path := SaveText(domains)], path) == Unique(Domains(domains))
  {
    if |domains| == 0 {
      EmptySaveHasNoDomains();
    } else {
      SavedLinesHoldTheDomains(domains);
    }
  }

  lemma EmptyLineIsDropped()
    ensures Domains([""]) == []
  {
    assert [""][..0] == [];
    assert Normalize("") == "";
  }

  /** Saving no domains writes a lone newline, which loads as nothing. */
  lemma EmptySaveHasNoDomains()
    ensures Domains(SplitLines(SaveText([]))) == []
  {
    assert SaveText([]) == "\n";
    assert SplitLines("\n") == ["", ""] by {
      assert "\n"[1..] == "";
    }
    EmptyLineIsDropped();
    DomainsAppend([""], [""]);
    assert [""] + [""] == ["", ""];
  }

  lemma SavedLinesHoldTheDomains(domains: seq<string>)
    requires |domains| > 0
    requires forall i :: 0 <= i < |domains| ==> NoLineBreak(domains[i])
    ensures Domains(SplitLines(SaveText(domains))) == Domains(domains)
  {
    var n := NormalizeAll(domains);
    forall i | 0 <= i < |n|
      ensures NoLineBreak(n[i])
    {
      NormalizeNoLineBreak(domains[i]);
    }
    SplitJoinedLines(n);
    EmptyLineIsDropped();
    DomainsAppend(n, [""]);
    DomainsOfNormalized(domains);
  }

  class SuggestionStore {
    const configDir: string
    var fs: map<string, string>

    /** The directory is kept without trailing separators. */
    constructor (configDir: string, fs: map<string, string>)
      ensures this.configDir == TrimEnd(configDir, IsSlash) && this.fs == fs
    {
      this.configDir := TrimEnd(configDir, IsSlash);
      this.fs := fs;
    }

    /** The file lies directly in the directory and is called `suggestions.txt`. */
    function Path(): (p: string)
      ensures StartsWith(p, configDir + "/") && EndsWith(p, "/" + FileName)
      ensures |p| == |configDir| + 1 + |FileName|
    {
      var p := configDir + "/" + FileName;
      assert p[..|configDir + "/"|] == configDir + "/";
      assert p[|p| - |"/" + FileName|..] == "/" + FileName;
      p
    }

    /** `load`: the cleaned domains of the file, or none when it is missing. */
    method Load() returns (domains: seq<string>)
      ensures domains == LoadOf(fs, Path())
    {
      var file := Path();
      if file !in fs {
        return [];
      }
      var lines := SplitLines(fs[file]);
      var out: seq<string> := [];
      var i := 0;
      while i < |lines|
        invariant 0 <= i <= |lines|
        invariant out == Domains(lines[..i])
      {
        assert lines[..i + 1][..i] == lines[..i];
        var ln := Normalize(lines[i]);
        if Listed(ln) {
          out := out + [ln];
        }
        i := i + 1;
      }
      assert lines[..i] == lines;
      domains := Unique(out);
    }

    /** `save`: overwrite the file with the normalised domains, one per line. */
    method Save(domains: seq<string>)
      modifies this
      ensures fs == old(fs)[Path() := SaveText(domains)]
    {
      var text := Join(NormalizeAll(domains), '\n') + "\n";
      fs := fs[Path() := text];
    }
  }
}
