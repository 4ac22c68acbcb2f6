/** The browser's list editor: "Clean & sort" and the entry count shown
    beside each list. `toLowerCase` is the oracle `lower` and the
    `localeCompare` comparator the oracle `cmp` (negative, zero or
    positive, as `Array.prototype.sort` expects). */
module ListsEditor {
  import opened Common
  import opened Text

  /** The characters a JavaScript regular expression's `.` does not match. */
  predicate IsLineTerminator(c: char)
  {
    c == '\n' || c == '\r' || c == '\U{2028}' || c == '\U{2029}'
  }

  predicate NoTerminator(s: string)
  {
    forall i :: 0 <= i < |s| ==> !IsLineTerminator(s[i])
  }

  /** What is left of a line from a `#` on: everything from the next line terminator. */
  function AfterComment(s: string): (r: string)
    ensures |r| <= |s| && r == s[|s| - |r|..]
    ensures |r| > 0 ==> IsLineTerminator(r[0])
    ensures NoTerminator(s[..|s| - |r|])
    ensures NoTerminator(s) ==> r == ""
    decreases |s|
  {
    if |s| == 0 || IsLineTerminator(s[0]) then s
    else
      var r := AfterComment(s[1..]);
      assert s[1..][|s| - 1 - |r|..] == s[|s| - |r|..];
      var head, tail := s[..|s| - |r|], s[1..][..|s| - 1 - |r|];
      assert forall i :: 1 <= i < |head| ==> head[i] == tail[i - 1];
      r
  }

  /** The comment removal of `cleanList` and the count (a regular expression
      replace of `#.*`): the first `#` and what follows it up to
      the next line terminator are removed. */
  function StripComment(s: string): (r: string)
    ensures |r| <= |s|
    decreases |s|
  {
    if |s| == 0 then ""
    else if s[0] == '#' then AfterComment(s)
    else [s[0]] + StripComment(s[1..])
  }

  /** A line without `#` is left as it is. */
  lemma {:induction false} StripCommentWithoutHash(s: string)
    requires forall i :: 0 <= i < |s| ==> s[i] != '#'
    ensures StripComment(s) == s
    decreases |s|
  {
    if |s| > 0 {
      StripCommentWithoutHash(s[1..]);
      assert [s[0]] + s[1..] == s;
    }
  }

  /** On a line without line terminators the removal keeps exactly what
      comes before the first `#`. */
  lemma {:induction false} StripCommentCutsAtHash(s: string)
    requires NoTerminator(s)
    ensures var r := StripComment(s);
      r == s[..|r|] && (forall i :: 0 <= i < |r| ==> r[i] != '#') && (|r| < |s| ==> s[|r|] == '#')
    decreases |s|
  {
    if |s| > 0 && s[0] != '#' {
      assert NoTerminator(s[1..]);
      StripCommentCutsAtHash(s[1..]);
      var rest := StripComment(s[1..]);
      var r := [s[0]] + rest;
      assert forall i :: 1 <= i < |r| ==> r[i] == rest[i - 1];
      assert r == s[..|r|];
    }
  }

  /** Every character left comes from the line. */
  lemma {:induction false} StripCommentKeepsChars(s: string)
    ensures forall i :: 0 <= i < |StripComment(s)| ==> StripComment(s)[i] in s
    decreases |s|
  {
    if |s| > 0 {
      if s[0] == '#' {
        var r := AfterComment(s);
        assert forall i :: 0 <= i < |r| ==> r[i] == s[|s| - |r| + i];
      } else {
        StripCommentKeepsChars(s[1..]);
        var rest := StripComment(s[1..]);
        assert forall i :: 1 <= i < |rest| + 1 ==> ([s[0]] + rest)[i] == rest[i - 1];
      }
    }
  }

  /** One line as both `cleanList` and the count see it: comment stripped, then trimmed. */
  function Entry(raw: string): string
  {
    JsTrim(StripComment(raw))
  }

  /** The lines that are not empty once comments are stripped, in order. */
  function Entries(lines: seq<string>): (es: seq<string>)
    ensures |es| <= |lines|
    ensures forall i :: 0 <= i < |es| ==> es[i] != ""
    decreases |lines|
  {
    if |lines| == 0 then []
    else
      var e := Entry(lines[|lines| - 1]);
      Entries(lines[..|lines| - 1]) + (if e == "" then [] else [e])
  }

  /** `lines.map(l => ...)`: every line stripped and trimmed. */
  function Stripped(lines: seq<string>): (r: seq<string>)
    ensures |r| == |lines|
    ensures forall i :: 0 <= i < |lines| ==> r[i] == Entry(lines[i])
  {
    seq(|lines|, i requires 0 <= i < |lines| => Entry(lines[i]))
  }

  /** `.filter(Boolean)` on strings: the non-empty ones, in order. */
  function NonEmpty(xs: seq<string>): (r: seq<string>)
    ensures |r| <= |xs|
    ensures forall i :: 0 <= i < |r| ==> r[i] != ""
    decreases |xs|
  {
    if |xs| == 0 then []
    else (if xs[0] == "" then [] else [xs[0]]) + NonEmpty(xs[1..])
  }

  /** The count `updateCount` shows beside a list. */
  function EntryCount(text: string): nat
  {
    |NonEmpty(Stripped(Split(text, '\n')))|
  }

  /** The `seen` map after a run of entries: keyed by the lowered entry,
      holding the first spelling, in order of first appearance. */
  function Dedup(es: seq<string>, lower: string -> string): seq<(string, string)>
    decreases |es|
  {
    if |es| == 0 then []
    else
      var seen := Dedup(es[..|es| - 1], lower);
      var s := es[|es| - 1];
      if HasKey(seen, lower(s)) then seen else seen + [(lower(s), s)]
  }

  /** `seen` is a map keyed by the lowered spelling it holds, and has no
      more entries than were seen. */
  lemma {:induction false} DedupIsKeyedByLowering(es: seq<string>, lower: string -> string)
    ensures |Dedup(es, lower)| <= |es|
    ensures DistinctKeys(Dedup(es, lower))
    ensures forall i :: 0 <= i < |Dedup(es, lower)| ==> Dedup(es, lower)[i].0 == lower(Dedup(es, lower)[i].1)
    decreases |es|
  {
    if |es| > 0 {
      var init := es[..|es| - 1];
      var s := es[|es| - 1];
      DedupIsKeyedByLowering(init, lower);
      var seen := Dedup(init, lower);
      if !HasKey(seen, lower(s)) {
        var r := seen + [(lower(s), s)];
        assert forall i :: 0 <= i < |seen| ==> r[i] == seen[i];
        assert forall i :: 0 <= i < |seen| ==> r[i].0 != lower(s);
      }
    }
  }

  /** Place `x` after every element at the back that does not compare greater than it. */
  function Insert(x: string, ys: seq<string>, cmp: (string, string) -> int): (r: seq<string>)
    ensures multiset(r) == multiset(ys) + multiset{x}
    ensures |r| == |ys| + 1
    decreases |ys|
  {
    if |ys| == 0 then [x]
    else if cmp(ys[|ys| - 1], x) <= 0 then ys + [x]
    else
      assert ys == ys[..|ys| - 1] + [ys[|ys| - 1]];
      Insert(x, ys[..|ys| - 1], cmp) + [ys[|ys| - 1]]
  }

  /** The order `sort` leaves: a stable insertion sort by `cmp`. */
  function Sort(xs: seq<string>, cmp: (string, string) -> int): (r: seq<string>)
    ensures multiset(r) == multiset(xs)
    decreases |xs|
  {
    if |xs| == 0 then []
    else
      assert xs == xs[..|xs| - 1] + [xs[|xs| - 1]];
      Insert(xs[|xs| - 1], Sort(xs[..|xs| - 1], cmp), cmp)
  }

  /** What one line does to `seen`: an empty entry or a key already
      present leaves it; otherwise the entry is appended under its key. */
  function Remember(seen: seq<(string, string)>, s: string, lower: string -> string): seq<(string, string)>
  {
    if s == "" || HasKey(seen, lower(s)) then seen else seen + [(lower(s), s)]
  }

  lemma EntriesSnoc(lines: seq<string>, i: nat)
    requires i < |lines|
    ensures Entries(lines[..i + 1]) == Entries(lines[..i]) + (if Entry(lines[i]) == "" then [] else [Entry(lines[i])])
  {
    assert lines[..i + 1][..i] == lines[..i];
  }

  lemma DedupSnoc(es: seq<string>, s: string, lower: string -> string)
    ensures Dedup(es + [s], lower) ==
      if HasKey(Dedup(es, lower), lower(s)) then Dedup(es, lower) else Dedup(es, lower) + [(lower(s), s)]
  {
    assert (es + [s])[..|es|] == es;
  }

  lemma SeenStep(lines: seq<string>, i: nat, lower: string -> string)
    requires i < |lines|
    ensures Dedup(Entries(lines[..i + 1]), lower) == Remember(Dedup(Entries(lines[..i]), lower), Entry(lines[i]), lower)
  {
    EntriesSnoc(lines, i);
    var s := Entry(lines[i]);
    if s != "" {
      DedupSnoc(Entries(lines[..i]), s, lower);
    } else {
      assert Entries(lines[..i + 1]) == Entries(lines[..i]);
    }
  }

  /** The entries of a text split on `\n`. */
  function TextEntries(text: string): seq<string>
  {
    Entries(Split(text, '\n'))
  }

  /** The lines "Clean & sort" leaves, before they are joined. */
  function CleanLines(text: string, lower: string -> string, cmp: (string, string) -> int): seq<string>
  {
    Sort(Values(Dedup(TextEntries(text), lower)), cmp)
  }

  /** `cleanList(text)`. */
  function CleanOf(text: string, lower: string -> string, cmp: (string, string) -> int): string
  {
    Join(CleanLines(text, lower, cmp), '\n')
  }

  // ----- the count -----

  lemma {:induction false} NonEmptyAppend(a: seq<string>, b: seq<string>)
    ensures NonEmpty(a + b) == NonEmpty(a) + NonEmpty(b)
    decreases |a|
  {
    if |a| > 0 {
      assert (a + b)[1..] == a[1..] + b;
      NonEmptyAppend(a[1..], b);
    } else {
      assert a + b == b;
    }
  }

  /** The count's map-and-filter sees exactly the entries the `cleanList`
      loop goes through, in the same order. */
  lemma StrippedSnoc(lines: seq<string>)
    requires |lines| > 0
    ensures Stripped(lines) == Stripped(lines[..|lines| - 1]) + [Entry(lines[|lines| - 1])]
  {
    var init := lines[..|lines| - 1];
    var r := Stripped(init) + [Entry(lines[|lines| - 1])];
    forall k | 0 <= k < |lines|
      ensures Stripped(lines)[k] == r[k]
    {
      if k < |init| {
        assert init[k] == lines[k];
      }
    }
  }

  /** The count's map-and-filter sees exactly the entries the `cleanList`
      loop goes through, in the same order. */
  lemma {:induction false} CountSeesTheEntries(lines: seq<string>)
    ensures NonEmpty(Stripped(lines)) == Entries(lines)
    decreases |lines|
  {
    var n := |lines|;
    if n > 0 {
      var init := lines[..n - 1];
      var e := Entry(lines[n - 1]);
      CountSeesTheEntries(init);
      StrippedSnoc(lines);
      NonEmptyAppend(Stripped(init), [e]);
      assert NonEmpty([e]) == (if e == "" then [] else [e]) by {
        assert [e][1..] == [];
      }
    }
  }

  // ----- de-duplication -----

  /** Every entry's lowered form ends up a key of `seen`. */
  lemma {:induction false} DedupCoversEvery(es: seq<string>, lower: string -> string)
    ensures forall j :: 0 <= j < |es| ==> HasKey(Dedup(es, lower), lower(es[j]))
    decreases |es|
  {
    if |es| > 0 {
      var init := es[..|es| - 1];
      DedupCoversEvery(init, lower);
      var seen := Dedup(init, lower);
      var last := es[|es| - 1];
      var r := Dedup(es, lower);
      forall j | 0 <= j < |es|
        ensures HasKey(r, lower(es[j]))
      {
        if j < |es| - 1 {
          assert es[j] == init[j];
          var k :| 0 <= k < |seen| && seen[k].0 == lower(es[j]);
          assert r[k] == seen[k];
        } else if !HasKey(seen, lower(last)) {
          assert r[|seen|].0 == lower(last);
        }
      }
    }
  }

  /** `seen` keeps the first spelling: the value at each position is an
      entry no earlier entry of which lowers to the same key. */
  lemma {:induction false} DedupKeepsFirstSpelling(es: seq<string>, lower: string -> string, i: int)
    requires 0 <= i < |Dedup(es, lower)|
    ensures exists k :: 0 <= k < |es| && es[k] == Dedup(es, lower)[i].1
                        && forall m :: 0 <= m < k ==> lower(es[m]) != Dedup(es, lower)[i].0
    decreases |es|
  {
    var init := es[..|es| - 1];
    var last := es[|es| - 1];
    var seen := Dedup(init, lower);
    var r := Dedup(es, lower);
    assert es == init + [last];
    DedupSnoc(init, last, lower);
    if i < |seen| {
      assert r[i] == seen[i];
      DedupKeepsFirstSpelling(init, lower, i);
      var k :| 0 <= k < |init| && init[k] == seen[i].1 && forall m :: 0 <= m < k ==> lower(init[m]) != seen[i].0;
      assert es[k] == r[i].1;
      assert forall m :: 0 <= m < k ==> es[m] == init[m];
    } else {
      assert r[i] == (lower(last), last);
      DedupCoversEvery(init, lower);
      assert forall m :: 0 <= m < |es| - 1 ==> es[m] == init[m];
      assert es[|es| - 1] == r[i].1;
    }
  }

  /** No two strings of a list lower to the same key. */
  predicate CaseDistinct(xs: seq<string>, lower: string -> string)
  {
    forall i, j :: 0 <= i < j < |xs| ==> lower(xs[i]) != lower(xs[j])
  }

  lemma DedupIsCaseDistinct(es: seq<string>, lower: string -> string)
    ensures CaseDistinct(Values(Dedup(es, lower)), lower)
  {
    DedupIsKeyedByLowering(es, lower);
    var seen := Dedup(es, lower);
    var vs := Values(seen);
    forall i, j | 0 <= i < j < |vs|
      ensures lower(vs[i]) != lower(vs[j])
    {
      assert seen[i].0 != seen[j].0;
    }
  }

  /** A list whose strings are case-distinct passes `seen` whole. */
  lemma {:induction false} DedupOfCaseDistinct(xs: seq<string>, lower: string -> string)
    requires CaseDistinct(xs, lower)
    ensures Values(Dedup(xs, lower)) == xs
    decreases |xs|
  {
    if |xs| > 0 {
      var init := xs[..|xs| - 1];
      var last := xs[|xs| - 1];
      DedupOfCaseDistinct(init, lower);
      DedupIsKeyedByLowering(init, lower);
      var seen := Dedup(init, lower);
      assert !HasKey(seen, lower(last));
      assert Values(Dedup(xs, lower)) == Values(seen) + [last];
      assert init + [last] == xs;
    }
  }

  // ----- sorting -----

  /** A comparator that does not contradict itself on swapped arguments. */
  ghost predicate Antisymmetric(cmp: (string, string) -> int)
  {
    forall a, b :: cmp(a, b) > 0 ==> cmp(b, a) < 0
  }

  /** Each line compares at most equal to the next. */
  predicate SortedBy(xs: seq<string>, cmp: (string, string) -> int)
  {
    forall i :: 0 <= i < |xs| - 1 ==> cmp(xs[i], xs[i + 1]) <= 0
  }

  /** Appending a line that the last one does not exceed keeps a list in order. */
  lemma SortedSnoc(xs: seq<string>, x: string, cmp: (string, string) -> int)
    requires SortedBy(xs, cmp)
    requires |xs| > 0 ==> cmp(xs[|xs| - 1], x) <= 0
    ensures SortedBy(xs + [x], cmp)
  {
    var r := xs + [x];
    forall i | 0 <= i < |r| - 1
      ensures cmp(r[i], r[i + 1]) <= 0
    {
      if i < |xs| - 1 {
        assert r[i] == xs[i] && r[i + 1] == xs[i + 1];
      }
    }
  }

  /** A prefix of a list in order is in order. */
  lemma SortedInit(xs: seq<string>, cmp: (string, string) -> int)
    requires |xs| > 0 && SortedBy(xs, cmp)
    ensures SortedBy(xs[..|xs| - 1], cmp)
    ensures |xs| > 1 ==> cmp(xs[|xs| - 2], xs[|xs| - 1]) <= 0
  {
    var init := xs[..|xs| - 1];
    forall i | 0 <= i < |init| - 1
      ensures cmp(init[i], init[i + 1]) <= 0
    {
      assert init[i] == xs[i] && init[i + 1] == xs[i + 1];
    }
  }

  /** The last element after an insertion is the inserted one or the old last one. */
  lemma InsertLast(x: string, ys: seq<string>, cmp: (string, string) -> int)
    requires |ys| > 0
    ensures Insert(x, ys, cmp)[|ys|] == x || Insert(x, ys, cmp)[|ys|] == ys[|ys| - 1]
  {
    assert |Insert(x, ys, cmp)| == |ys| + 1 by {
      assert |multiset(Insert(x, ys, cmp))| == |multiset(ys) + multiset{x}|;
    }
  }

  lemma {:induction false} InsertSorted(x: string, ys: seq<string>, cmp: (string, string) -> int)
    requires Antisymmetric(cmp) && SortedBy(ys, cmp)
    ensures SortedBy(Insert(x, ys, cmp), cmp)
    decreases |ys|
  {
    if |ys| == 0 {
    } else if cmp(ys[|ys| - 1], x) <= 0 {
      SortedSnoc(ys, x, cmp);
    } else {
      var init := ys[..|ys| - 1];
      var last := ys[|ys| - 1];
      SortedInit(ys, cmp);
      InsertSorted(x, init, cmp);
      var r0 := Insert(x, init, cmp);
      if |init| == 0 {
        assert r0 == [x];
      } else {
        InsertLast(x, init, cmp);
        assert |r0| == |init| + 1 by {
          assert |multiset(r0)| == |multiset(init) + multiset{x}|;
        }
      }
      assert cmp(r0[|r0| - 1], last) <= 0;
      SortedSnoc(r0, last, cmp);
    }
  }

  /** The sorted lines are in comparator order. */
  lemma {:induction false} SortIsSorted(xs: seq<string>, cmp: (string, string) -> int)
    requires Antisymmetric(cmp)
    ensures SortedBy(Sort(xs, cmp), cmp)
    decreases |xs|
  {
    if |xs| > 0 {
      SortIsSorted(xs[..|xs| - 1], cmp);
      InsertSorted(xs[|xs| - 1], Sort(xs[..|xs| - 1], cmp), cmp);
    }
  }

  /** Sorting lines already in order leaves them where they are. */
  lemma {:induction false} SortKeepsSorted(xs: seq<string>, cmp: (string, string) -> int)
    requires SortedBy(xs, cmp)
    ensures Sort(xs, cmp) == xs
    decreases |xs|
  {
    if |xs| > 0 {
      var init := xs[..|xs| - 1];
      SortedInit(xs, cmp);
      SortKeepsSorted(init, cmp);
      assert init + [xs[|xs| - 1]] == xs;
    }
  }

  /** A string found at two positions occurs at least twice. */
  lemma TwoPositions(r: seq<string>, i: int, j: int)
    requires 0 <= i < j < |r| && r[i] == r[j]
    ensures multiset(r)[r[i]] >= 2
  {
    assert r == r[..i] + [r[i]] + r[i + 1..];
    assert r[i + 1..][j - i - 1] == r[j];
  }

  /** Sorting keeps a case-distinct list case-distinct. */
  lemma SortKeepsCaseDistinct(xs: seq<string>, lower: string -> string, cmp: (string, string) -> int)
    requires CaseDistinct(xs, lower)
    ensures CaseDistinct(Sort(xs, cmp), lower)
  {
    var r := Sort(xs, cmp);
    forall i, j | 0 <= i < j < |r|
      ensures lower(r[i]) != lower(r[j])
    {
      SortedPairFromDistinct(xs, r, lower, i, j);
    }
  }

  lemma SortedPairFromDistinct(xs: seq<string>, r: seq<string>, lower: string -> string, i: int, j: int)
    requires CaseDistinct(xs, lower) && multiset(r) == multiset(xs) && 0 <= i < j < |r|
    ensures lower(r[i]) != lower(r[j])
  {
    assert r[i] in multiset(xs) && r[j] in multiset(xs);
    var a :| 0 <= a < |xs| && xs[a] == r[i];
    var b :| 0 <= b < |xs| && xs[b] == r[j];
    if a == b {
      TwoPositions(r, i, j);
      MultiplicityOfDistinct(xs, lower, a);
      assert false;
    } else if a < b {
      assert lower(xs[a]) != lower(xs[b]);
    } else {
      assert lower(xs[b]) != lower(xs[a]);
    }
  }

  /** In a case-distinct list every string occurs once. */
  lemma MultiplicityOfDistinct(xs: seq<string>, lower: string -> string, a: int)
    requires CaseDistinct(xs, lower) && 0 <= a < |xs|
    ensures multiset(xs)[xs[a]] == 1
  {
    assert xs == xs[..a] + [xs[a]] + xs[a + 1..];
    assert xs[a] !in xs[..a] by {
      forall k | 0 <= k < a ensures xs[..a][k] != xs[a] { assert lower(xs[k]) != lower(xs[a]); }
    }
    assert xs[a] !in xs[a + 1..] by {
      forall k | a < k < |xs| ensures xs[k] != xs[a] { assert lower(xs[a]) != lower(xs[k]); }
    }
  }

  // ----- what "Clean & sort" promises -----

  /** The cleaned lines are in comparator order, no two of them lower to
      the same key, and there are no more of them than the count shows. */
  lemma CleanLinesAreSortedAndDistinct(text: string, lower: string -> string, cmp: (string, string) -> int)
    requires Antisymmetric(cmp)
    ensures SortedBy(CleanLines(text, lower, cmp), cmp)
    ensures CaseDistinct(CleanLines(text, lower, cmp), lower)
    ensures |CleanLines(text, lower, cmp)| <= EntryCount(text)
  {
    var es := TextEntries(text);
    DedupIsKeyedByLowering(es, lower);
    SortIsSorted(Values(Dedup(es, lower)), cmp);
    DedupIsCaseDistinct(es, lower);
    SortKeepsCaseDistinct(Values(Dedup(es, lower)), lower, cmp);
    CountSeesTheEntries(Split(text, '\n'));
    assert |multiset(CleanLines(text, lower, cmp))| == |multiset(Values(Dedup(es, lower)))|;
  }

  /** Every cleaned line is an entry of the text, spelled as the first
      entry with its lowered form. */
  lemma CleanLineIsFirstSpelling(text: string, lower: string -> string, cmp: (string, string) -> int, k: int)
    requires 0 <= k < |CleanLines(text, lower, cmp)|
    ensures exists j :: 0 <= j < |TextEntries(text)| && TextEntries(text)[j] == CleanLines(text, lower, cmp)[k]
                        && forall m :: 0 <= m < j ==> lower(TextEntries(text)[m]) != lower(CleanLines(text, lower, cmp)[k])
  {
    var es := TextEntries(text);
    var seen := Dedup(es, lower);
    var line := CleanLines(text, lower, cmp)[k];
    assert line in multiset(Values(seen));
    var q :| 0 <= q < |seen| && Values(seen)[q] == line;
    DedupIsKeyedByLowering(es, lower);
    DedupKeepsFirstSpelling(es, lower, q);
  }

  /** Every entry of the text is represented by a cleaned line with the same lowered form. */
  lemma CleanKeepsEveryEntry(text: string, lower: string -> string, cmp: (string, string) -> int, j: int)
    requires 0 <= j < |TextEntries(text)|
    ensures exists k :: 0 <= k < |CleanLines(text, lower, cmp)|
                        && lower(CleanLines(text, lower, cmp)[k]) == lower(TextEntries(text)[j])
  {
    var es := TextEntries(text);
    var seen := Dedup(es, lower);
    DedupCoversEvery(es, lower);
    DedupIsKeyedByLowering(es, lower);
    var q :| 0 <= q < |seen| && seen[q].0 == lower(es[j]);
    assert Values(seen)[q] in multiset(CleanLines(text, lower, cmp));
    var k :| 0 <= k < |CleanLines(text, lower, cmp)| && CleanLines(text, lower, cmp)[k] == Values(seen)[q];
  }

  // ----- lines, characters and idempotence -----

  predicate NoHash(s: string)
  {
    forall i :: 0 <= i < |s| ==> s[i] != '#'
  }

  /** A line "Clean & sort" can leave: not empty, one line, no comment, trimmed. */
  predicate Clean(l: string)
  {
    l != "" && NoTerminator(l) && NoHash(l) && !IsJsSpace(l[0]) && !IsJsSpace(l[|l| - 1])
  }

  lemma JsTrimKeepsChars(s: string)
    ensures forall i :: 0 <= i < |JsTrim(s)| ==> JsTrim(s)[i] in s
  {
    var t := TrimStart(s, IsJsSpace);
    var r := TrimEnd(t, IsJsSpace);
    assert forall i :: 0 <= i < |r| ==> r[i] == t[i] == s[|s| - |t| + i];
  }

  lemma EntryIsClean(line: string)
    requires NoTerminator(line) && Entry(line) != ""
    ensures Clean(Entry(line))
  {
    var sc := StripComment(line);
    StripCommentCutsAtHash(line);
    assert forall i :: 0 <= i < |sc| ==> sc[i] == line[i];
    JsTrimKeepsChars(sc);
  }

  lemma CleanIsOwnEntry(l: string)
    requires Clean(l)
    ensures Entry(l) == l
  {
    StripCommentWithoutHash(l);
    TrimStartNoop(l, IsJsSpace);
    TrimEndNoop(l, IsJsSpace);
  }

  lemma {:induction false} EntriesAreClean(lines: seq<string>)
    requires forall i :: 0 <= i < |lines| ==> NoTerminator(lines[i])
    ensures forall i :: 0 <= i < |Entries(lines)| ==> Clean(Entries(lines)[i])
    decreases |lines|
  {
    if |lines| > 0 {
      EntriesAreClean(lines[..|lines| - 1]);
      if Entry(lines[|lines| - 1]) != "" {
        EntryIsClean(lines[|lines| - 1]);
      }
    }
  }

  lemma {:induction false} EntriesOfCleanLines(xs: seq<string>)
    requires forall i :: 0 <= i < |xs| ==> Clean(xs[i])
    ensures Entries(xs) == xs
    decreases |xs|
  {
    if |xs| > 0 {
      var init := xs[..|xs| - 1];
      var last := xs[|xs| - 1];
      EntriesOfCleanLines(init);
      CleanIsOwnEntry(last);
      assert Entries(xs) == Entries(init) + [last];
    }
  }

  /** Splitting on `\n` a text whose only line terminator is `\n` gives lines without any. */
  lemma {:induction false} SplitLinesHaveNoTerminator(text: string)
    requires forall i :: 0 <= i < |text| ==> text[i] == '\n' || !IsLineTerminator(text[i])
    ensures forall i :: 0 <= i < |Split(text, '\n')| ==> NoTerminator(Split(text, '\n')[i])
    decreases |text|
  {
    if |text| > 0 {
      SplitLinesHaveNoTerminator(text[1..]);
      var rest := Split(text[1..], '\n');
      if text[0] != '\n' {
        var first := [text[0]] + rest[0];
        assert forall j :: 1 <= j < |first| ==> first[j] == rest[0][j - 1];
      }
    }
  }

  /** Cleaned lines never hold a `\n`, so the joined text splits back into them. */
  lemma CleanOutputSplitsIntoLines(text: string, lower: string -> string, cmp: (string, string) -> int)
    ensures |CleanLines(text, lower, cmp)| == 0 ==> CleanOf(text, lower, cmp) == ""
    ensures |CleanLines(text, lower, cmp)| > 0 ==> Split(CleanOf(text, lower, cmp), '\n') == CleanLines(text, lower, cmp)
  {
    var ls := CleanLines(text, lower, cmp);
    forall k, c | 0 <= k < |ls| && 0 <= c < |ls[k]|
      ensures ls[k][c] != '\n'
    {
      CleanLineIsFirstSpelling(text, lower, cmp, k);
      var j :| 0 <= j < |TextEntries(text)| && TextEntries(text)[j] == ls[k];
      EntryAvoidsNewline(Split(text, '\n'), j);
    }
    if |ls| > 0 {
      SplitJoin(ls, '\n');
    }
  }

  /** An entry of lines without `\n` has no `\n`. */
  lemma {:induction false} EntryAvoidsNewline(lines: seq<string>, j: int)
    requires forall i, c :: 0 <= i < |lines| && 0 <= c < |lines[i]| ==> lines[i][c] != '\n'
    requires 0 <= j < |Entries(lines)|
    ensures forall c :: 0 <= c < |Entries(lines)[j]| ==> Entries(lines)[j][c] != '\n'
    decreases |lines|
  {
    var init := lines[..|lines| - 1];
    var last := lines[|lines| - 1];
    if j < |Entries(init)| {
      EntryAvoidsNewline(init, j);
    } else {
      StripCommentKeepsChars(last);
      JsTrimKeepsChars(StripComment(last));
      assert Entries(lines)[j] == Entry(last);
    }
  }

  /** Cleaning a cleaned text changes nothing, provided the text has no
      line terminator other than `\n` (the comment removal stops at any). */
  lemma CleanIsIdempotent(text: string, lower: string -> string, cmp: (string, string) -> int)
    requires Antisymmetric(cmp)
    requires forall i :: 0 <= i < |text| ==> text[i] == '\n' || !IsLineTerminator(text[i])
    ensures CleanOf(CleanOf(text, lower, cmp), lower, cmp) == CleanOf(text, lower, cmp)
  {
    var ls := CleanLines(text, lower, cmp);
    var out := CleanOf(text, lower, cmp);
    CleanLinesAreSortedAndDistinct(text, lower, cmp);
    SplitLinesHaveNoTerminator(text);
    EntriesAreClean(Split(text, '\n'));
    forall k | 0 <= k < |ls|
      ensures Clean(ls[k])
    {
      CleanLineIsFirstSpelling(text, lower, cmp, k);
    }
    CleanOutputSplitsIntoLines(text, lower, cmp);
    if |ls| == 0 {
      assert Split(out, '\n') == [""];
      assert Entries([""]) == [];
    } else {
      EntriesOfCleanLines(ls);
      DedupOfCaseDistinct(ls, lower);
      SortKeepsSorted(ls, cmp);
    }
  }

  /** `cleanList`: one pass over the lines filling the `seen` map, then
      its values sorted and joined. */
  method CleanList(text: string, lower: string -> string, cmp: (string, string) -> int) returns (out: string)
    ensures out == CleanOf(text, lower, cmp)
  {
    var lines := Split(text, '\n');
    var seen: seq<(string, string)> := [];
    var i := 0;
    while i < |lines|
      invariant 0 <= i <= |lines|
      invariant seen == Dedup(Entries(lines[..i]), lower)
    {
      var s := JsTrim(StripComment(lines[i]));
      SeenStep(lines, i, lower);
      if s != "" {
        var key := lower(s);
        if !HasKey(seen, key) {
          seen := seen + [(key, s)];
        }
      }
      i := i + 1;
    }
    assert lines[..|lines|] == lines;
    assert seen == Dedup(TextEntries(text), lower);
    out := Join(Sort(Values(seen), cmp), '\n');
  }
}
