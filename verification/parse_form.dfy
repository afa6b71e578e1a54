/** The Google Form entry scraper behind `/api/parse-form`: find the
    `data-params="…"…>` spans of the page HTML left to right, pull an entry id
    and a label out of each, and map the outcome to an HTTP status.  The three
    regular expressions are replaced by dedicated scanners, each proved to find
    exactly the leftmost match the pattern describes. */
module ParseForm {
  import opened Wrappers
  import opened Text

  /** One scraped field: its numeric entry id and its label. */
  datatype Entry = Entry(id: string, labelText: string)

  predicate IsDigit(c: char)
  {
    '0' <= c <= '9'
  }

  /** What every emitted entry satisfies: a non-empty run of digits as id, a
      non-empty label without `&`. */
  predicate ValidEntry(e: Entry)
  {
    && |e.id| > 0 && (forall k :: 0 <= k < |e.id| ==> IsDigit(e.id[k]))
    && |e.labelText| > 0 && '&' !in e.labelText
  }

  // ---------------------------------------------------------------------
  // The spans: /data-params="[^"]*"(?:[^>]*>)/g

  const SpanOpen := "data-params=\""

  /** The pattern matches `s[i..e]`: the opening text, no quote up to the
      closing quote at `q`, then no `>` up to the `>` at `e - 1`. */
  predicate SpanMatch(s: string, i: int, q: int, e: int)
  {
    && StartsAt(s, i, SpanOpen)
    && i + |SpanOpen| <= q && q + 1 < e <= |s|
    && Lacks(s, i + |SpanOpen|, q, '"') && s[q] == '"'
    && Lacks(s, q + 1, e - 1, '>') && s[e - 1] == '>'
  }

  /** The end of the match starting at `i`, if the pattern matches there. */
  function SpanEndAt(s: string, i: nat): (r: Option<nat>)
    requires i <= |s|
    ensures r.Some? ==> i < r.value <= |s|
    ensures r.Some? ==> StartsAt(s, i, SpanOpen) && s[r.value - 1] == '>'
  {
    if !StartsAt(s, i, SpanOpen) then None
    else
      match IndexOf(s, '"', i + |SpanOpen|)
      case None => None
      case Some(q) =>
        match IndexOf(s, '>', q + 1)
        case None => None
        case Some(g) => Some(g + 1)
  }

  /** `SpanEndAt` finds exactly the matches of the pattern: it gives `e` at `i`
      when some match spans `s[i..e]`, and such a match is unique. */
  lemma SpanEndAtMatches(s: string, i: nat)
    requires i <= |s|
    ensures SpanEndAt(s, i).Some? ==> exists q :: SpanMatch(s, i, q, SpanEndAt(s, i).value)
    ensures forall q, e :: SpanMatch(s, i, q, e) ==> SpanEndAt(s, i) == Some(e)
  {
    if SpanEndAt(s, i).Some? {
      var q := IndexOf(s, '"', i + |SpanOpen|).value;
      assert SpanMatch(s, i, q, SpanEndAt(s, i).value);
    }
  }

  /** A match `s[start..end]`. */
  datatype Span = Span(start: nat, end: nat)

  /** `matchAll` from position `p`: the leftmost match, then the search
      resumes at its end.  The spans are matches, in order, and disjoint. */
  function Matches(s: string, p: nat): (r: seq<Span>)
    requires p <= |s|
    ensures forall k :: 0 <= k < |r| ==> p <= r[k].start < r[k].end <= |s|
    ensures forall k :: 0 <= k < |r| ==> SpanEndAt(s, r[k].start) == Some(r[k].end)
    ensures forall k :: 0 <= k < |r| - 1 ==> r[k].end <= r[k + 1].start
    decreases |s| - p
  {
    if p == |s| then []
    else
      match SpanEndAt(s, p)
      case Some(e) => [Span(p, e)] + Matches(s, e)
      case None => Matches(s, p + 1)
  }

  /** No match is skipped: every position where the pattern matches lies in
      one of the reported spans. */
  lemma {:induction false} MatchesCover(s: string, p: nat, i: nat)
    requires p <= i < |s| && SpanEndAt(s, i).Some?
    ensures exists k :: 0 <= k < |Matches(s, p)| && Matches(s, p)[k].start <= i < Matches(s, p)[k].end
    decreases |s| - p
  {
    var r := Matches(s, p);
    match SpanEndAt(s, p)
    case Some(e) =>
      if i >= e {
        MatchesCover(s, e, i);
        var k :| 0 <= k < |Matches(s, e)| && Matches(s, e)[k].start <= i < Matches(s, e)[k].end;
        assert r[k + 1] == Matches(s, e)[k];
      } else {
        assert r[0] == Span(p, e);
      }
    case None =>
      MatchesCover(s, p + 1, i);
  }

  /** The text of each match, in document order. */
  function SpanTexts(html: string): (r: seq<string>)
  {
    var m := Matches(html, 0);
    seq(|m|, k requires 0 <= k < |m| => html[m[k].start..m[k].end])
  }

  /** `match[0]` of each match: one text per match, starting with
      `data-params="` and ending with `>`. */
  lemma SpanTextsMatches(html: string)
    ensures var r, m := SpanTexts(html), Matches(html, 0);
      && |r| == |m|
      && forall k :: 0 <= k < |r| ==>
        r[k] == html[m[k].start..m[k].end] && StartsAt(r[k], 0, SpanOpen) && r[k][|r[k]| - 1] == '>'
  {
    var r, m := SpanTexts(html), Matches(html, 0);
    forall k | 0 <= k < |r|
      ensures StartsAt(r[k], 0, SpanOpen) && r[k][|r[k]| - 1] == '>'
    {
      SpanTextAt(html, m[k].start, m[k].end);
    }
  }

  /** The text of one match starts with `data-params="` and ends with `>`. */
  lemma SpanTextAt(html: string, a: nat, b: nat)
    requires a <= |html| && SpanEndAt(html, a) == Some(b)
    ensures StartsAt(html[a..b], 0, SpanOpen) && html[a..b][b - a - 1] == '>'
  {
    assert html[a..b][..|SpanOpen|] == html[a..a + |SpanOpen|];
  }

  /** The HTML has no match at all exactly when no span is found. */
  lemma NoMatchNoSpans(html: string)
    ensures SpanTexts(html) == [] <==> forall i, q, e :: !SpanMatch(html, i, q, e)
  {
    var m := Matches(html, 0);
    if m != [] {
      SpanEndAtMatches(html, m[0].start);
      var q :| SpanMatch(html, m[0].start, q, m[0].end);
    } else {
      forall i, q, e | SpanMatch(html, i, q, e) ensures false {
        SpanEndAtMatches(html, i);
        MatchesCover(html, 0, i);
      }
    }
  }

  // ---------------------------------------------------------------------
  // The id: /\[([0-9]+),null/

  /** The pattern matches at `i` with the digits `s[i + 1..j]`. */
  predicate IdMatch(s: string, i: int, j: int)
  {
    && 0 <= i && i + 1 < j && j + 5 <= |s| && s[i] == '['
    && (forall k :: i < k < j ==> IsDigit(s[k]))
    && s[j..j + 5] == ",null"
  }

  /** The end of the run of digits starting at `from`. */
  function DigitsEnd(s: string, from: nat): (j: nat)
    requires from <= |s|
    ensures from <= j <= |s|
    ensures forall k :: from <= k < j ==> IsDigit(s[k])
    ensures j == |s| || !IsDigit(s[j])
    decreases |s| - from
  {
    if from < |s| && IsDigit(s[from]) then DigitsEnd(s, from + 1) else from
  }

  /** The greedy digit run admits one match at most per position. */
  lemma IdMatchEnd(s: string, i: int, j: int)
    requires IdMatch(s, i, j)
    ensures j == DigitsEnd(s, i + 1)
  {
    var d := DigitsEnd(s, i + 1);
    assert s[j] == ',';
  }

  /** The leftmost match at or after `p`, as `(i, j)`. */
  function FindIdFrom(s: string, p: nat): (r: Option<(nat, nat)>)
    requires p <= |s|
    ensures r.Some? ==> p <= r.value.0 && IdMatch(s, r.value.0, r.value.1)
    ensures r.Some? ==> forall i, j :: p <= i < r.value.0 ==> !IdMatch(s, i, j)
    ensures r.None? ==> forall i, j :: p <= i ==> !IdMatch(s, i, j)
    decreases |s| - p
  {
    if p == |s| then None
    else
      var j := DigitsEnd(s, p + 1);
      if s[p] == '[' && j > p + 1 && StartsAt(s, j, ",null") then Some((p, j))
      else
        assert forall j' :: !IdMatch(s, p, j') by {
          forall j' | IdMatch(s, p, j') ensures false { IdMatchEnd(s, p, j'); }
        }
        FindIdFrom(s, p + 1)
  }

  /** `idMatch[1]`: the digits of the leftmost match, if any. */
  function FindId(span: string): (r: Option<string>)
    ensures r.Some? ==> |r.value| > 0 && forall k :: 0 <= k < |r.value| ==> IsDigit(r.value[k])
    ensures r.None? <==> forall i, j :: !IdMatch(span, i, j)
  {
    match FindIdFrom(span, 0)
    case None => None
    case Some((i, j)) => Some(span[i + 1..j])
  }

  // ---------------------------------------------------------------------
  // The label: /,&quot;([^&]+)&quot;/

  const LabelOpen := ",&quot;"
  const LabelClose := "&quot;"

  /** The pattern matches at `i` with the label `s[i + 7..j]`. */
  predicate LabelMatch(s: string, i: int, j: int)
  {
    && StartsAt(s, i, LabelOpen) && i + |LabelOpen| < j
    && StartsAt(s, j, LabelClose)
    && Lacks(s, i + |LabelOpen|, j, '&')
  }

  /** The label run stops at the first `&`: one match at most per position. */
  lemma LabelMatchEnd(s: string, i: int, j: int)
    requires LabelMatch(s, i, j)
    ensures IndexOf(s, '&', i + |LabelOpen|) == Some(j)
  {
    var r := IndexOf(s, '&', i + |LabelOpen|);
    assert s[j] == '&';
  }

  function FindLabelFrom(s: string, p: nat): (r: Option<(nat, nat)>)
    requires p <= |s|
    ensures r.Some? ==> p <= r.value.0 && LabelMatch(s, r.value.0, r.value.1)
    ensures r.Some? ==> forall i, j :: p <= i < r.value.0 ==> !LabelMatch(s, i, j)
    ensures r.None? ==> forall i, j :: p <= i ==> !LabelMatch(s, i, j)
    decreases |s| - p
  {
    if p == |s| then None
    else
      var amp := if StartsAt(s, p, LabelOpen) then IndexOf(s, '&', p + |LabelOpen|) else None;
      if amp.Some? && amp.value > p + |LabelOpen| && StartsAt(s, amp.value, LabelClose) then
        Some((p, amp.value))
      else
        assert forall j' :: !LabelMatch(s, p, j') by {
          forall j' | LabelMatch(s, p, j') ensures false { LabelMatchEnd(s, p, j'); }
        }
        FindLabelFrom(s, p + 1)
  }

  /** `labelMatch[1]`: the label of the leftmost match, if any. */
  function FindLabel(span: string): (r: Option<string>)
    ensures r.Some? ==> |r.value| > 0 && '&' !in r.value
    ensures r.None? <==> forall i, j :: !LabelMatch(span, i, j)
  {
    match FindLabelFrom(span, 0)
    case None => None
    case Some((i, j)) => Some(span[i + |LabelOpen|..j])
  }

  /** The id found is the capture of the leftmost match: at any match
      `(i, j)` with no match further left, it is `span[i + 1..j]`. */
  lemma FindIdLeftmost(span: string, i: int, j: int)
    requires IdMatch(span, i, j)
    requires forall i', j' :: 0 <= i' < i ==> !IdMatch(span, i', j')
    ensures FindId(span) == Some(span[i + 1..j])
  {
    var r := FindIdFrom(span, 0);
    IdMatchEnd(span, i, j);
    IdMatchEnd(span, r.value.0, r.value.1);
  }

  /** The label found is the capture of the leftmost match. */
  lemma FindLabelLeftmost(span: string, i: int, j: int)
    requires LabelMatch(span, i, j)
    requires forall i', j' :: 0 <= i' < i ==> !LabelMatch(span, i', j')
    ensures FindLabel(span) == Some(span[i + |LabelOpen|..j])
  {
    var r := FindLabelFrom(span, 0);
    LabelMatchEnd(span, i, j);
    LabelMatchEnd(span, r.value.0, r.value.1);
  }

  /** A field of a live form page: `[1037971436,null` gives the id. */
  lemma IdExample()
    ensures FindId("[1037971436,null") == Some("1037971436")
  {
    var digits := "1037971436";
    var s := "[" + digits + ",null";
    assert s == "[1037971436,null";
    assert s[11..16] == ",null";
    assert forall k :: 0 < k < 11 ==> IsDigit(s[k]);
    FindIdLeftmost(s, 0, 11);
    assert s[1..11] == digits;
  }

  /** `,&quot;Company&quot;` gives the label. */
  lemma LabelExample()
    ensures FindLabel(",&quot;Company&quot;") == Some("Company")
  {
    var t := ",&quot;Company&quot;";
    assert t[..7] == LabelOpen && t[14..20] == LabelClose;
    assert forall k :: 7 <= k < 14 ==> t[k] != '&';
    FindLabelLeftmost(t, 0, 14);
    assert t[7..14] == "Company";
  }

  // ---------------------------------------------------------------------
  // Entries

  /** The entry of one span: present only when both id and label are found. */
  function ExtractEntry(span: string): (r: Option<Entry>)
    ensures r.Some? <==> FindId(span).Some? && FindLabel(span).Some?
    ensures r.Some? ==> ValidEntry(r.value)
  {
    match (FindId(span), FindLabel(span))
    case (Some(id), Some(text)) => Some(Entry(id, text))
    case _ => None
  }

  /** What each span yields, in span order. */
  function Outcomes(spans: seq<string>): (r: seq<Option<Entry>>)
    ensures |r| == |spans|
  {
    seq(|spans|, k requires 0 <= k < |spans| => ExtractEntry(spans[k]))
  }

  /** The entries present in a list of outcomes, in order; the absent ones are
      skipped. */
  function Present(outs: seq<Option<Entry>>): (r: seq<Entry>)
    ensures |r| <= |outs|
  {
    if outs == [] then []
    else
      var n := |outs| - 1;
      Present(outs[..n]) + Found(outs[n])
  }

  /** The entry of one outcome, as a list of at most one. */
  function Found(out: Option<Entry>): seq<Entry>
  {
    match out
    case Some(e) => [e]
    case None => []
  }

  /** One more outcome adds its entry, if present, at the end. */
  lemma PresentPrefix(outs: seq<Option<Entry>>, k: nat)
    requires k < |outs|
    ensures Present(outs[..k + 1]) == Present(outs[..k]) + Found(outs[k])
  {
    assert outs[..k + 1][..k] == outs[..k];
  }

  /** Indices of the outcomes that are present, in increasing order. */
  function Kept(outs: seq<Option<Entry>>): (r: seq<nat>)
    ensures forall j :: 0 <= j < |r| ==> r[j] < |outs|
  {
    if outs == [] then []
    else
      var n := |outs| - 1;
      Kept(outs[..n]) + (if outs[n].Some? then [n] else [])
  }

  /** One entry per present outcome. */
  lemma {:induction false} PresentKeptLength(outs: seq<Option<Entry>>)
    ensures |Present(outs)| == |Kept(outs)|
  {
    if outs != [] {
      PresentKeptLength(outs[..|outs| - 1]);
    }
  }

  /** The `j`-th entry is the value of the `j`-th present outcome. */
  lemma {:induction false} PresentKeptAt(outs: seq<Option<Entry>>)
    ensures |Present(outs)| == |Kept(outs)|
    ensures forall j :: 0 <= j < |Kept(outs)| ==> outs[Kept(outs)[j]] == Some(Present(outs)[j])
  {
    PresentKeptLength(outs);
    if outs != [] {
      var n := |outs| - 1;
      var init := outs[..n];
      PresentKeptAt(init);
      var r0, k0 := Present(init), Kept(init);
      var r, kept := Present(outs), Kept(outs);
      forall j | 0 <= j < |kept|
        ensures outs[kept[j]] == Some(r[j])
      {
        if j < |k0| {
          assert kept[j] == k0[j] && r[j] == r0[j] && outs[k0[j]] == init[k0[j]];
        }
      }
    }
  }

  /** The kept indices increase. */
  lemma {:induction false} KeptIncreasing(outs: seq<Option<Entry>>)
    ensures forall j, j' :: 0 <= j < j' < |Kept(outs)| ==> Kept(outs)[j] < Kept(outs)[j']
  {
    if outs != [] {
      KeptIncreasing(outs[..|outs| - 1]);
    }
  }

  /** Every present outcome is kept. */
  lemma {:induction false} KeptComplete(outs: seq<Option<Entry>>)
    ensures forall k :: 0 <= k < |outs| && outs[k].Some? ==> k in Kept(outs)
  {
    if outs != [] {
      var n := |outs| - 1;
      var init := outs[..n];
      KeptComplete(init);
      forall k | 0 <= k < |outs| && outs[k].Some? ensures k in Kept(outs) {
        if k < n {
          assert init[k] == outs[k];
          assert k in Kept(init);
        }
      }
    }
  }

  /** `Present` keeps exactly the present outcomes, one entry each, in order. */
  lemma PresentKept(outs: seq<Option<Entry>>)
    ensures var r, kept := Present(outs), Kept(outs);
      && |r| == |kept|
      && (forall j :: 0 <= j < |kept| ==> kept[j] < |outs| && outs[kept[j]] == Some(r[j]))
      && (forall j, j' :: 0 <= j < j' < |kept| ==> kept[j] < kept[j'])
      && (forall k :: 0 <= k < |outs| && outs[k].Some? ==> k in kept)
  {
    PresentKeptAt(outs);
    KeptIncreasing(outs);
    KeptComplete(outs);
  }

  /** The entries of a list of spans: never more entries than spans, every one
      well formed. */
  function ExtractAll(spans: seq<string>): (r: seq<Entry>)
    ensures |r| <= |spans|
    ensures forall j :: 0 <= j < |r| ==> ValidEntry(r[j])
  {
    var outs := Outcomes(spans);
    PresentKept(outs);
    Present(outs)
  }

  /** The entries are exactly those of the spans that yield one, one per such
      span and in document order. */
  lemma ExtractAllKept(spans: seq<string>)
    ensures var r, kept := ExtractAll(spans), Kept(Outcomes(spans));
      && |r| == |kept|
      && (forall j :: 0 <= j < |kept| ==> kept[j] < |spans| && ExtractEntry(spans[kept[j]]) == Some(r[j]))
      && (forall j, j' :: 0 <= j < j' < |kept| ==> kept[j] < kept[j'])
      && (forall k :: 0 <= k < |spans| && ExtractEntry(spans[k]).Some? ==> k in kept)
  {
    PresentKept(Outcomes(spans));
  }

  // ---------------------------------------------------------------------
  // Fetching and the API endpoint

  /** What `fetch(formUrl)` produced: a rejection, or a response with its `ok`
      flag, status text and body text. */
  datatype FetchOutcome = Rejected | Response(ok: bool, statusText: string, html: string)

  /** Why `GFromQuickSubmitFormEntriesParse` threw. */
  datatype ScrapeError = FetchError | BadStatus(message: string)

  /** `GFromQuickSubmitFormEntriesParse`, from the fetched page on. */
  method ParseFormEntries(fetch: FetchOutcome) returns (r: Result<seq<Entry>, ScrapeError>)
    ensures fetch.Rejected? ==> r == Failure(FetchError)
    ensures fetch.Response? && !fetch.ok ==>
      r == Failure(BadStatus("Failed to fetch form HTML: " + fetch.statusText))
    ensures fetch.Response? && fetch.ok ==> r == Success(ExtractAll(SpanTexts(fetch.html)))
    ensures r.Success? ==> |r.value| <= |SpanTexts(fetch.html)|
    ensures r.Success? ==> forall k :: 0 <= k < |r.value| ==> ValidEntry(r.value[k])
  {
    if fetch.Rejected? {
      return Failure(FetchError);
    }
    if !fetch.ok {
      return Failure(BadStatus("Failed to fetch form HTML: " + fetch.statusText));
    }
    var entries := ExtractEntries(SpanTexts(fetch.html));
    return Success(entries);
  }

  /** The body of the loop: the id and label regexes run on one span text,
      and an entry results only when both match. */
  method EntryOf(paramsString: string) returns (e: Option<Entry>)
    ensures e == ExtractEntry(paramsString)
    ensures e.Some? ==> ValidEntry(e.value)
  {
    var id := FindId(paramsString);
    var labelMatch := FindLabel(paramsString);
    if id.Some? && labelMatch.Some? {
      return Some(Entry(id.value, labelMatch.value));
    }
    return None;
  }

  /** The loop of `GFromQuickSubmitFormEntriesParse` over the span texts: an
      entry for each span holding both an id and a label, in order. */
  method ExtractEntries(matches: seq<string>) returns (entries: seq<Entry>)
    ensures entries == ExtractAll(matches)
    ensures |entries| <= |matches|
  {
    ghost var outs := Outcomes(matches);
    entries := [];
    var k := 0;
    while k < |matches|
      invariant 0 <= k <= |matches|
      invariant entries == Present(outs[..k])
    {
      var paramsString := matches[k];
      var e := EntryOf(paramsString);
      entries := entries + Found(e);
      PresentPrefix(outs, k);
      k := k + 1;
    }
    assert outs[..k] == outs;
  }

  /** The JSON body of the endpoint's answer. */
  datatype Body = ErrorBody(error: string) | EntriesBody(entries: seq<Entry>)

  datatype ApiResponse = ApiResponse(status: int, body: Body)

  /** `GET /api/parse-form?url=…`: `fetched` is the URL handed to the scraper
      (none when it is not called), `response` the status and JSON body. */
  method Get(urlParam: Option<string>, fetch: FetchOutcome) returns (fetched: Option<string>, response: ApiResponse)
    ensures !Truthy(urlParam) ==> fetched == None && response == ApiResponse(400, ErrorBody("URL parameter is required"))
    ensures Truthy(urlParam) ==> fetched == urlParam
    ensures Truthy(urlParam) && !(fetch.Response? && fetch.ok) ==>
      response == ApiResponse(500, ErrorBody("Failed to parse Google Form"))
    ensures Truthy(urlParam) && fetch.Response? && fetch.ok ==>
      response == ApiResponse(200, EntriesBody(ExtractAll(SpanTexts(fetch.html))))
    ensures response.status == 200 <==> Truthy(urlParam) && fetch.Response? && fetch.ok
  {
    if !Truthy(urlParam) {
      return None, ApiResponse(400, ErrorBody("URL parameter is required"));
    }
    fetched := urlParam;
    var entries := ParseFormEntries(fetch);
    match entries
    case Success(list) =>
      response := ApiResponse(200, EntriesBody(list));
    case Failure(_) =>
      response := ApiResponse(500, ErrorBody("Failed to parse Google Form"));
  }
}
