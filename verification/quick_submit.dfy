/** `GFromQuickSubmitFormPOST`: resolve the form URL, build the
    `entry.<key>=<value>` body in a URLSearchParams object, POST it to
    `<url>/formResponse` and report `{success, error?}`.  The environment
    default and the outcome of the fetch are parameters. */
module QuickSubmit {
  import opened Wrappers
  import opened Text
  import FormUrlEncoded
  import Utf8

  type Pair = FormUrlEncoded.Pair

  /** One `{key, value}` item; a `value` of `undefined` is `None`. */
  datatype Item = Item(key: string, value: Option<string>)

  /** The call's argument: an optional form URL and the items. */
  datatype PostProps = PostProps(formUrl: Option<string>, data: seq<Item>)

  /** What `fetch` produced: a rejected promise, or a response and its `ok` flag. */
  datatype FetchOutcome = Rejected | Response(ok: bool)

  /** The caught error: one of the two errors the call throws itself, or
      whatever `fetch` rejected with. */
  datatype SubmitError = Thrown(message: string) | FetchError

  const UrlNotDefined := Thrown("Form URL is not defined in environment variables.")
  const SubmitFailed := Thrown("Failed to submit the form.")

  datatype PostResult = PostResult(success: bool, error: Option<SubmitError>)

  datatype Request = Request(url: string, httpMethod: string, body: string, contentType: string)

  const FormResponsePath := "/formResponse"
  const FormContentType := "application/x-www-form-urlencoded"

  /** `data.formUrl || env`, followed by the `!form_url` test: the URL used,
      or `None` when neither is truthy. */
  function ResolveFormUrl(formUrl: Option<string>, envDefault: Option<string>): (r: Option<string>)
    ensures r.Some? <==> Truthy(formUrl) || Truthy(envDefault)
    ensures r.Some? ==> r.value != ""
    ensures Truthy(formUrl) ==> r == formUrl
    ensures !Truthy(formUrl) && Truthy(envDefault) ==> r == envDefault
  {
    if Truthy(formUrl) then formUrl
    else if Truthy(envDefault) then envDefault
    else None
  }

  /** The template string `${item.value}`: `undefined` prints as "undefined". */
  function ValueText(v: Option<string>): (r: string)
    ensures v.Some? ==> r == v.value
    ensures r == "undefined" <==> v.None? || v == Some("undefined")
  {
    match v
    case Some(s) => s
    case None => "undefined"
  }

  /** The arguments of `append` for one item: `entry.` and the key, then the
      value's text. */
  function EntryPair(item: Item): (r: Pair)
    ensures |r.0| == 6 + |item.key| && r.0[..6] == "entry." && r.0[6..] == item.key
    ensures r.1 == ValueText(item.value)
  {
    ("entry." + item.key, ValueText(item.value))
  }

  /** The pairs appended for the items, one per item and in order. */
  function EntryPairs(items: seq<Item>): (r: seq<Pair>)
    ensures |r| == |items|
  {
    seq(|items|, k requires 0 <= k < |items| => EntryPair(items[k]))
  }

  /** The URLSearchParams object: an ordered list of name-value pairs in
      which `append` keeps duplicates. */
  class SearchParams {
    var list: seq<Pair>

    constructor()
      ensures list == []
    {
      list := [];
    }

    method Append(name: string, value: string)
      modifies this
      ensures list == old(list) + [(name, value)]
    {
      list := list + [(name, value)];
    }

    /** `toString()`: the urlencoded serialization, whose UTF-8 bytes parse
        back to the list. */
    function ToString(): (s: string)
      reads this
      ensures FormUrlEncoded.Parse(Utf8.Encode(s)) == list
    {
      FormUrlEncoded.ParseSerialize(list);
      FormUrlEncoded.Serialize(list)
    }
  }

  /** The submission.  `request` is the POST handed to `fetch` (none when no
      URL resolves), `result` what the call returns. */
  method FormPost(props: PostProps, envDefault: Option<string>, fetch: FetchOutcome)
    returns (request: Option<Request>, result: PostResult)
    ensures var url := ResolveFormUrl(props.formUrl, envDefault);
      && (request.Some? <==> url.Some?)
      && (url.Some? ==> request.value == Request(url.value + FormResponsePath, "POST",
            FormUrlEncoded.Serialize(EntryPairs(props.data)), FormContentType))
    ensures result.success <==> request.Some? && fetch == Response(true)
    ensures result.success <==> result.error.None?
    ensures request.None? ==> result.error == Some(UrlNotDefined)
    ensures request.Some? && fetch == Response(false) ==> result.error == Some(SubmitFailed)
    ensures request.Some? && fetch == Rejected ==> result.error == Some(FetchError)
  {
    var formUrl := ResolveFormUrl(props.formUrl, envDefault);
    if formUrl.None? {
      return None, PostResult(false, Some(UrlNotDefined));
    }
    var query := new SearchParams();
    var i := 0;
    while i < |props.data|
      invariant 0 <= i <= |props.data|
      invariant query.list == EntryPairs(props.data[..i])
    {
      var item := props.data[i];
      query.Append("entry." + item.key, ValueText(item.value));
      i := i + 1;
    }
    assert props.data[..i] == props.data;
    request := Some(Request(formUrl.value + FormResponsePath, "POST", query.ToString(), FormContentType));
    match fetch
    case Rejected =>
      result := PostResult(false, Some(FetchError));
    case Response(ok) =>
      if !ok {
        result := PostResult(false, Some(SubmitFailed));
      } else {
        result := PostResult(true, None);
      }
  }

  /** The body holds exactly one pair per item, in order, duplicates kept:
      parsed back it gives `entry.<key>` and the printed value of each item,
      so an `undefined` value arrives as the text "undefined". */
  lemma BodyDecodesToItems(items: seq<Item>)
    ensures var pairs := FormUrlEncoded.Parse(Utf8.Encode(FormUrlEncoded.Serialize(EntryPairs(items))));
      && |pairs| == |items|
      && (forall k :: 0 <= k < |items| ==> pairs[k].0 == "entry." + items[k].key)
      && (forall k :: 0 <= k < |items| && items[k].value.Some? ==> pairs[k].1 == items[k].value.value)
      && (forall k :: 0 <= k < |items| && items[k].value.None? ==> pairs[k].1 == "undefined")
  {
    FormUrlEncoded.ParseSerialize(EntryPairs(items));
  }
}
