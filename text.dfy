/** String operations of PHP and JavaScript used by the model, over
    `seq<char>` (one char per code point). */
module Text {

  predicate StartsWith(s: string, prefix: string)
  {
    |prefix| <= |s| && s[..|prefix|] == prefix
  }

  predicate EndsWith(s: string, suffix: string)
  {
    |suffix| <= |s| && s[|s| - |suffix|..] == suffix
  }

  /** PHP `str_contains` (true for the empty needle, as in PHP 8). */
  predicate Contains(s: string, needle: string)
    decreases |s|
  {
    StartsWith(s, needle) || (|s| > 0 && Contains(s[1..], needle))
  }

  lemma {:induction false} ContainsAt(s: string, needle: string, i: nat)
    requires i + |needle| <= |s| && s[i..i + |needle|] == needle
    ensures Contains(s, needle)
  {
    if i > 0 {
      assert s[1..][i - 1..i - 1 + |needle|] == needle;
      ContainsAt(s[1..], needle, i - 1);
    }
  }

  lemma {:induction false} ContainsInSuffix(s: string, needle: string, k: nat)
    requires k <= |s| && Contains(s[k..], needle)
    ensures Contains(s, needle)
  {
    if k > 0 {
      assert s[1..][k - 1..] == s[k..];
      ContainsInSuffix(s[1..], needle, k - 1);
    }
  }

  lemma {:induction false} ContainsInPrefix(s: string, needle: string, k: nat)
    requires k <= |s| && Contains(s[..k], needle)
    ensures Contains(s, needle)
  {
    if StartsWith(s[..k], needle) {
      assert s[..|needle|] == s[..k][..|needle|];
    } else {
      assert s[..k][1..] == s[1..][..k - 1];
      ContainsInPrefix(s[1..], needle, k - 1);
    }
  }

  /** A needle holding a character that `s` lacks is not contained in `s`. */
  lemma {:induction false} MissingCharNotContained(s: string, needle: string, c: char)
    requires c in needle && c !in s
    ensures !Contains(s, needle)
    decreases |s|
  {
    if |needle| <= |s| {
      assert c !in s[..|needle|];
    }
    if |s| > 0 {
      MissingCharNotContained(s[1..], needle, c);
    }
  }

  /** `..` occurs in `s`. */
  predicate HasDotDot(s: string)
  {
    Contains(s, "..")
  }

  /** `..` occurs exactly where two adjacent characters are both '.'. */
  lemma {:induction false} DotDotAt(s: string)
    ensures HasDotDot(s) <==> exists i :: 0 <= i < |s| - 1 && s[i] == '.' && s[i + 1] == '.'
    decreases |s|
  {
    if |s| >= 2 {
      DotDotAt(s[1..]);
      assert s[..2] == [s[0], s[1]];
      if exists i :: 0 <= i < |s| - 2 && s[1..][i] == '.' && s[1..][i + 1] == '.' {
        var i :| 0 <= i < |s| - 2 && s[1..][i] == '.' && s[1..][i + 1] == '.';
        assert s[i + 1] == '.' && s[i + 2] == '.';
      }
      if exists i :: 0 <= i < |s| - 1 && s[i] == '.' && s[i + 1] == '.' {
        var i :| 0 <= i < |s| - 1 && s[i] == '.' && s[i + 1] == '.';
        if i > 0 {
          assert s[1..][i - 1] == '.' && s[1..][i] == '.';
        }
      }
    } else {
      assert |".."| == 2;
      if |s| == 1 {
        assert !Contains(s[1..], "..");
      }
    }
  }

  /** Every occurrence of `from` replaced by `to` (PHP `str_replace` of one character). */
  function ReplaceChar(s: string, from: char, to: char): (r: string)
    ensures |r| == |s|
    ensures forall i :: 0 <= i < |s| ==> r[i] == if s[i] == from then to else s[i]
  {
    seq(|s|, i requires 0 <= i < |s| => if s[i] == from then to else s[i])
  }

  /** Replacing a character other than '.' by another one neither creates nor removes `..`. */
  lemma {:induction false} ReplaceKeepsDotDot(s: string, from: char, to: char)
    requires from != '.' && to != '.'
    ensures HasDotDot(ReplaceChar(s, from, to)) <==> HasDotDot(s)
    decreases |s|
  {
    var r := ReplaceChar(s, from, to);
    assert StartsWith(r, "..") <==> StartsWith(s, "..") by {
      if |s| >= 2 {
        assert r[..2] == [r[0], r[1]] && s[..2] == [s[0], s[1]];
      }
    }
    if |s| > 0 {
      assert r[1..] == ReplaceChar(s[1..], from, to);
      ReplaceKeepsDotDot(s[1..], from, to);
    }
  }

  /** Dropping a prefix that holds no '.' neither creates nor removes `..`. */
  lemma {:induction false} DropPrefixKeepsDotDot(s: string, k: nat)
    requires 0 < k <= |s|
    requires forall i :: 0 <= i < k ==> s[i] != '.'
    ensures HasDotDot(s[k..]) <==> HasDotDot(s)
  {
    if HasDotDot(s[k..]) {
      ContainsInSuffix(s, "..", k);
    }
    var j := 0;
    while j < k
      invariant 0 <= j <= k
      invariant HasDotDot(s) ==> HasDotDot(s[j..])
    {
      assert s[j..][1..] == s[j + 1..];
      assert !StartsWith(s[j..], "..") by {
        if |s[j..]| >= 2 { assert s[j..][..2][0] == s[j]; }
      }
      j := j + 1;
    }
  }

  // ----- trimming -----

  /** PHP `ltrim` with a character class. */
  function TrimStart(s: string, drop: char -> bool): (r: string)
    ensures |r| <= |s| && r == s[|s| - |r|..]
    ensures |r| > 0 ==> !drop(r[0])
    ensures forall i :: 0 <= i < |s| - |r| ==> drop(s[i])
    decreases |s|
  {
    if |s| > 0 && drop(s[0]) then
      var r := TrimStart(s[1..], drop);
      assert s[1..][|s| - 1 - |r|..] == s[|s| - |r|..];
      assert forall i :: 1 <= i < |s| - |r| ==> s[i] == s[1..][i - 1];
      r
    else s
  }

  /** PHP `rtrim` with a character class. */
  function TrimEnd(s: string, drop: char -> bool): (r: string)
    ensures |r| <= |s| && r == s[..|r|]
    ensures |r| > 0 ==> !drop(r[|r| - 1])
    ensures forall i :: |r| <= i < |s| ==> drop(s[i])
    decreases |s|
  {
    if |s| > 0 && drop(s[|s| - 1]) then
      var r := TrimEnd(s[..|s| - 1], drop);
      assert s[..|s| - 1][..|r|] == s[..|r|];
      assert forall i :: |r| <= i < |s| - 1 ==> s[i] == s[..|s| - 1][i];
      r
    else s
  }

  lemma TrimStartNoop(s: string, drop: char -> bool)
    requires |s| == 0 || !drop(s[0])
    ensures TrimStart(s, drop) == s
  {
  }

  lemma TrimEndNoop(s: string, drop: char -> bool)
    requires |s| == 0 || !drop(s[|s| - 1])
    ensures TrimEnd(s, drop) == s
  {
  }

  predicate IsSlash(c: char) { c == '/' }

  /** The characters PHP's `trim` removes by default. */
  predicate IsPhpSpace(c: char)
  {
    c == ' ' || c == '\t' || c == '\n' || c == '\r' || c == '\0' || c == '\U{000B}'
  }

  /** PHP `trim($s)`. */
  function PhpTrim(s: string): (r: string)
    ensures |r| == 0 || (!IsPhpSpace(r[0]) && !IsPhpSpace(r[|r| - 1]))
  {
    TrimEnd(TrimStart(s, IsPhpSpace), IsPhpSpace)
  }

  lemma PhpTrimNoop(s: string)
    requires |s| == 0 || (!IsPhpSpace(s[0]) && !IsPhpSpace(s[|s| - 1]))
    ensures PhpTrim(s) == s
  {
    TrimStartNoop(s, IsPhpSpace);
    TrimEndNoop(s, IsPhpSpace);
  }

  /** White space and line terminators as JavaScript's `String.prototype.trim` removes them. */
  predicate IsJsSpace(c: char)
  {
    c == ' ' || c == '\t' || c == '\n' || c == '\r' || c == '\U{000B}' || c == '\U{000C}'
    || c == '\U{00A0}' || c == '\U{1680}' || ('\U{2000}' <= c <= '\U{200A}')
    || c == '\U{2028}' || c == '\U{2029}' || c == '\U{202F}' || c == '\U{205F}'
    || c == '\U{3000}' || c == '\U{FEFF}'
  }

  /** JavaScript `s.trim()`. */
  function JsTrim(s: string): (r: string)
    ensures |r| == 0 || (!IsJsSpace(r[0]) && !IsJsSpace(r[|r| - 1]))
  {
    TrimEnd(TrimStart(s, IsJsSpace), IsJsSpace)
  }

  // ----- case -----

  function LowerChar(c: char): char
  {
    if 'A' <= c <= 'Z' then (c as int + 32) as char else c
  }

  /** PHP 8 `strtolower`: ASCII letters only. */
  function ToLowerAscii(s: string): (r: string)
    ensures |r| == |s|
    ensures forall i :: 0 <= i < |s| ==> r[i] == LowerChar(s[i])
  {
    seq(|s|, i requires 0 <= i < |s| => LowerChar(s[i]))
  }

  lemma ToLowerIdempotent(s: string)
    ensures ToLowerAscii(ToLowerAscii(s)) == ToLowerAscii(s)
  {
  }

  /** Lowering a trimmed string leaves nothing for `trim` to remove. */
  lemma LowerTrimStable(s: string)
    ensures ToLowerAscii(PhpTrim(ToLowerAscii(PhpTrim(s)))) == ToLowerAscii(PhpTrim(s))
  {
    var x := ToLowerAscii(PhpTrim(s));
    PhpTrimNoop(x);
    ToLowerIdempotent(PhpTrim(s));
  }

  /** PHP `stripos($s, $needle) !== false` (ASCII case folding). */
  predicate ContainsIgnoringCase(s: string, needle: string)
  {
    Contains(ToLowerAscii(s), ToLowerAscii(needle))
  }

  // ----- splitting and joining -----

  /** The line breaks PCRE's `\R` matches in UTF-8 mode (besides the pair CR LF). */
  predicate IsLineBreak(c: char)
  {
    c == '\n' || c == '\U{000B}' || c == '\U{000C}' || c == '\r' || c == '\U{0085}'
    || c == '\U{2028}' || c == '\U{2029}'
  }

  predicate NoLineBreak(s: string)
  {
    forall i :: 0 <= i < |s| ==> !IsLineBreak(s[i])
  }

  /** PHP `preg_split('/\R/u', $s)`: CR LF counts as one break. */
  function SplitLines(s: string): (r: seq<string>)
    ensures |r| >= 1
    decreases |s|
  {
    if |s| == 0 then [""]
    else if s[0] == '\r' && |s| >= 2 && s[1] == '\n' then [""] + SplitLines(s[2..])
    else if IsLineBreak(s[0]) then [""] + SplitLines(s[1..])
    else
      var rest := SplitLines(s[1..]);
      [[s[0]] + rest[0]] + rest[1..]
  }

  lemma {:induction false} SplitLinesLine(x: string, rest: string)
    requires NoLineBreak(x)
    ensures SplitLines(x + "\n" + rest) == [x] + SplitLines(rest)
    decreases |x|
  {
    var s := x + "\n" + rest;
    if |x| == 0 {
      assert s == "\n" + rest && s[1..] == rest;
    } else {
      assert s[1..] == x[1..] + "\n" + rest;
      SplitLinesLine(x[1..], rest);
      assert [x[0]] + x[1..] == x;
    }
  }

  /** JavaScript `s.split(sep)` and PHP `explode` for a one-character separator. */
  function Split(s: string, sep: char): (r: seq<string>)
    ensures |r| >= 1
    ensures forall i, j :: 0 <= i < |r| && 0 <= j < |r[i]| ==> r[i][j] != sep
    decreases |s|
  {
    if |s| == 0 then [""]
    else
      var rest := Split(s[1..], sep);
      if s[0] == sep then [""] + rest
      else
        var r := [[s[0]] + rest[0]] + rest[1..];
        assert forall i :: 1 <= i < |r| ==> r[i] == rest[i];
        r
  }

  /** PHP `implode` and JavaScript `join` with a one-character separator. */
  function Join(xs: seq<string>, sep: char): string
    decreases |xs|
  {
    if |xs| == 0 then ""
    else if |xs| == 1 then xs[0]
    else xs[0] + [sep] + Join(xs[1..], sep)
  }

  lemma {:induction false} SplitAfter(x: string, sep: char, rest: string)
    requires forall j :: 0 <= j < |x| ==> x[j] != sep
    ensures Split(x + [sep] + rest, sep) == [x] + Split(rest, sep)
    decreases |x|
  {
    var s := x + [sep] + rest;
    if |x| == 0 {
      assert s[1..] == rest;
    } else {
      assert s[1..] == x[1..] + [sep] + rest;
      SplitAfter(x[1..], sep, rest);
      assert [x[0]] + x[1..] == x;
    }
  }

  lemma {:induction false} SplitWhole(x: string, sep: char)
    requires forall j :: 0 <= j < |x| ==> x[j] != sep
    ensures Split(x, sep) == [x]
    decreases |x|
  {
    if |x| > 0 {
      SplitWhole(x[1..], sep);
      assert [x[0]] + x[1..] == x;
    }
  }

  /** Splitting undoes joining when no element holds the separator. */
  lemma {:induction false} SplitJoin(xs: seq<string>, sep: char)
    requires |xs| >= 1
    requires forall i, j :: 0 <= i < |xs| && 0 <= j < |xs[i]| ==> xs[i][j] != sep
    ensures Split(Join(xs, sep), sep) == xs
    decreases |xs|
  {
    if |xs| == 1 {
      SplitWhole(xs[0], sep);
    } else {
      SplitJoin(xs[1..], sep);
      SplitAfter(xs[0], sep, Join(xs[1..], sep));
      assert [xs[0]] + xs[1..] == xs;
    }
  }

  // ----- numbers -----

  function DigitChar(d: nat): char
    requires d < 10
  {
    "0123456789"[d]
  }

  /** Decimal digits of a natural number. */
  function NatToString(n: nat): (r: string)
    ensures |r| >= 1
    decreases n
  {
    if n < 10 then [DigitChar(n)] else NatToString(n / 10) + [DigitChar(n % 10)]
  }

  /** PHP `(string)$i` for an integer. */
  function IntToString(i: int): string
  {
    if i < 0 then "-" + NatToString(-i) else NatToString(i)
  }
}
