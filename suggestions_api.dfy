/** The suggestions endpoints: reading the stored domains and replacing
    them from a JSON request. */
module SuggestionsApi {
  import opened Common
  import opened Text
  import opened Http
  import opened Suggestions

  /** What `save` decides before touching the store. A `domains` item the
      store's typed closure cannot take as a string throws a `TypeError`. */
  datatype SaveDecision = Reject(status: int, error: string) | Store(list: seq<string>) | Throws

  /** A trimmed line `save` keeps from `content`: not empty and not a `#` comment. */
  predicate IsContentLine(x: string)
  {
    x != "" && x[0] != '#'
  }

  /** `trim` of every line of `content`, empty lines and `#` lines dropped, nothing lowered. */
  function ContentLines(lines: seq<string>): (r: seq<string>)
    ensures |r| <= |lines|
    ensures forall i :: 0 <= i < |r| ==> IsContentLine(r[i]) && PhpTrim(r[i]) == r[i]
    decreases |lines|
  {
    if |lines| == 0 then []
    else
      var x := PhpTrim(lines[0]);
      var rest := ContentLines(lines[1..]);
      if IsContentLine(x) then
        PhpTrimNoop(x);
        var r := [x] + rest;
        assert r[0] == x && r[1..] == rest;
        r
      else rest
  }

  lemma ContentLinesUnfold(lines: seq<string>)
    requires |lines| > 0
    ensures ContentLines(lines) ==
      (if IsContentLine(PhpTrim(lines[0])) then [PhpTrim(lines[0])] else []) + ContentLines(lines[1..])
  {
  }

  /** One line of `content` contributes its trimmed form exactly when that is kept. */
  lemma ContentLinesOne(x: string)
    ensures ContentLines([x]) == if IsContentLine(PhpTrim(x)) then [PhpTrim(x)] else []
  {
    assert [x][1..] == [];
  }

  /** Every line of `content` that is not empty and not a comment once
      trimmed is kept, trimmed. */
  lemma {:induction false} ContentLinesKeepEvery(lines: seq<string>)
    ensures forall i :: 0 <= i < |lines| && IsContentLine(PhpTrim(lines[i])) ==> PhpTrim(lines[i]) in ContentLines(lines)
    decreases |lines|
  {
    if |lines| > 0 {
      ContentLinesKeepEvery(lines[1..]);
      assert forall i :: 1 <= i < |lines| ==> lines[i] == lines[1..][i - 1];
    }
  }

  /** The lines are processed one after the other: the kept lines of a
      concatenation are those of each part, in order. */
  lemma {:induction false} ContentLinesAppend(a: seq<string>, b: seq<string>)
    ensures ContentLines(a + b) == ContentLines(a) + ContentLines(b)
    decreases |a|
  {
    if |a| > 0 {
      assert (a + b)[0] == a[0];
      assert (a + b)[1..] == a[1..] + b;
      ContentLinesUnfold(a);
      ContentLinesUnfold(a + b);
      ContentLinesAppend(a[1..], b);
    } else {
      assert a + b == b;
    }
  }

  /** A `domains` item as the store's `fn (string $d)` receives it: integers
      and booleans are converted, anything else throws. */
  function AsDomain(item: Json): Option<string>
  {
    match item
    case JString(s) => Some(s)
    case JInt(i) => Some(IntToString(i))
    case JBool(b) => Some(if b then "1" else "")
    case _ => None
  }

  /** The items of a `domains` array, or `None` when one of them cannot be taken as a string. */
  function AsDomains(items: seq<Json>): (r: Option<seq<string>>)
    ensures r.Some? <==> forall i :: 0 <= i < |items| ==> AsDomain(items[i]).Some?
    ensures r.Some? ==> |r.value| == |items|
    ensures r.Some? ==> forall i :: 0 <= i < |items| ==> r.value[i] == AsDomain(items[i]).value
    decreases |items|
  {
    if |items| == 0 then Some([])
    else
      match (AsDomain(items[0]), AsDomains(items[1..]))
      case (Some(d), Some(ds)) =>
        assert forall i :: 1 <= i < |items| ==> items[i] == items[1..][i - 1];
        Some([d] + ds)
      case (None, _) => None
      case (Some(_), None) =>
        assert forall i :: 1 <= i < |items| ==> items[i] == items[1..][i - 1];
        None
  }

  /** The values of a PHP array given as `domains`. */
  function ArrayValues(v: Json): seq<Json>
  {
    match v
    case JArray(items) => items
    case JObject(fields) => Values(fields)
    case _ => []
  }

  /** The request decides the list: a string `content` first, then an array `domains`. */
  function SaveDecisionOf(json: Option<seq<(string, Json)>>): (d: SaveDecision)
    ensures d == Reject(415, "Use application/json") <==> json.None?
    ensures d.Reject? ==> d.status == 415 || d.status == 400
  {
    if json.None? then Reject(415, "Use application/json")
    else
      var domains := JsonField(json, "domains");
      var content := JsonField(json, "content");
      if content.Some? && content.value.JString? then
        Store(ContentLines(SplitLines(content.value.s)))
      else if domains.Some? && (domains.value.JArray? || domains.value.JObject?) then
        match AsDomains(ArrayValues(domains.value))
        case Some(list) => Store(list)
        case None => Throws
      else Reject(400, "Provide \"domains\": string[] or \"content\": string")
  }

  /** The 200 answer after saving a list. */
  function SavedResponse(list: seq<string>): Response
  {
    JsonResponse(200, JObject([("status", JString("ok")), ("count", JInt(|list|))]))
  }

  /** A string `content` decides the list whatever `domains` holds; each
      of its lines is trimmed, and empty and comment lines are dropped. */
  lemma ContentTakesPrecedence(fields: seq<(string, Json)>, other: seq<(string, Json)>, content: string)
    requires JsonField(Some(fields), "content") == Some(JString(content))
    requires JsonField(Some(other), "content") == Some(JString(content))
    ensures SaveDecisionOf(Some(fields)) == SaveDecisionOf(Some(other))
    ensures SaveDecisionOf(Some(fields)) == Store(ContentLines(SplitLines(content)))
  {
  }

  /** Without a string `content` or an array `domains` the request is
      rejected with 400, and only then. */
  lemma MissingListIsRejected(json: Option<seq<(string, Json)>>)
    requires json.Some?
    ensures var content := JsonField(json, "content");
      var domains := JsonField(json, "domains");
      SaveDecisionOf(json).Reject? <==>
        !(content.Some? && content.value.JString?) && !(domains.Some? && (domains.value.JArray? || domains.value.JObject?))
  {
  }

  /** The controller neither lowers nor de-duplicates `content`: lines
      that are already trimmed, not empty and not comments pass unchanged,
      repetitions and capitals included. */
  lemma {:induction false} ContentKeepsCleanLines(lines: seq<string>)
    requires forall i :: 0 <= i < |lines| ==> IsContentLine(lines[i]) && PhpTrim(lines[i]) == lines[i]
    ensures ContentLines(lines) == lines
    decreases |lines|
  {
    if |lines| > 0 {
      ContentLinesUnfold(lines);
      ContentKeepsCleanLines(lines[1..]);
      assert [lines[0]] + lines[1..] == lines;
    }
  }

  /** The count `save` reports is the length of the list it hands to the
      store; reading the file back can give fewer domains, never more. */
  lemma ReportedCountBoundsStoredDomains(fs: map<string, string>, path: string, list: seq<string>)
    requires forall i :: 0 <= i < |list| ==> NoLineBreak(list[i])
    ensures |LoadOf(fs[path := SaveText(list)], path)| <= |list|
    ensures SavedResponse(list).body == JsonBody(JObject([("status", JString("ok")), ("count", JInt(|list|))]))
  {
    SaveThenLoad(fs, path, list);
  }

  class SuggestionsController {
    const store: SuggestionStore

    constructor (store: SuggestionStore)
      ensures this.store == store
    {
      this.store := store;
    }

    /** `get`: the stored domains and their number. */
    method Get(r: Request) returns (resp: Response)
      ensures var domains := LoadOf(store.fs, store.Path());
        resp == JsonResponse(200, JObject([("path", JString("config/suggestions.txt")),
                                           ("count", JInt(|domains|)),
                                           ("domains", JArray(seq(|domains|, i requires 0 <= i < |domains| => JString(domains[i]))))]))
    {
      var domains := store.Load();
      resp := JsonResponse(200, JObject([("path", JString("config/suggestions.txt")),
                                         ("count", JInt(|domains|)),
                                         ("domains", JArray(seq(|domains|, i requires 0 <= i < |domains| => JString(domains[i]))))]));
    }

    /** `save`: 415 without a JSON body, 400 without a list, otherwise the
        list is stored and its length reported. `None` is the `TypeError`
        of an item the store cannot take, which leaves the file untouched. */
    method Save(r: Request) returns (resp: Option<Response>)
      modifies store
      ensures var d := SaveDecisionOf(r.json);
        match d
        case Reject(status, error) =>
          resp == Some(JsonResponse(status, JObject([("error", JString(error))]))) && store.fs == old(store.fs)
        case Store(list) =>
          resp == Some(SavedResponse(list)) && store.fs == old(store.fs)[store.Path() := SaveText(list)]
        case Throws => resp.None? && store.fs == old(store.fs)
    {
      if r.json.None? {
        return Some(JsonResponse(415, JObject([("error", JString("Use application/json"))])));
      }
      var domains := JsonField(r.json, "domains");
      var content := JsonField(r.json, "content");
      var list: seq<string>;
      if content.Some? && content.value.JString? {
        list := ContentLines(SplitLines(content.value.s));
      } else if domains.Some? && (domains.value.JArray? || domains.value.JObject?) {
        var items := AsDomains(ArrayValues(domains.value));
        if items.None? {
          return None;
        }
        list := items.value;
      } else {
        return Some(JsonResponse(400, JObject([("error", JString("Provide \"domains\": string[] or \"content\": string"))])));
      }
      store.Save(list);
      resp := Some(SavedResponse(list));
    }
  }
}
