# gform-quick-submit, modelled in Dafny

gform-quick-submit sends key/value data to a Google Form. It POSTs
`entry.<id>=<value>` pairs, URL-encoded, to the form's `/formResponse`
endpoint. A companion endpoint, `/api/parse-form`, scrapes a public form's
HTML for the entry ids and field labels. A page on the project's website turns
the scraped ids into a ready-to-paste call snippet and checks that the URL it
is given looks like a Google Form address.

This project models those three pieces of logic with the network cut away. The
HTML a fetch returns, its `ok` flag, and the environment's default form URL are
parameters.

| file | module | models |
|---|---|---|
| `wrappers.dfy` | `Wrappers` | `Option` / `Result`, standing in for `undefined` and for thrown errors |
| `text.dfy` | `Text` | index search and substring tests shared by the scanners |
| `utf8.dfy` | `Utf8` | the UTF-8 encoder and decoder of the WHATWG Encoding Standard |
| `urlencoded.dfy` | `FormUrlEncoded` | the `application/x-www-form-urlencoded` serializer (section 5.2 of the WHATWG URL Standard, used by `URLSearchParams`) and parser (section 5.1) |
| `quick_submit.dfy` | `QuickSubmit` | `GFromQuickSubmitFormPOST` in `packages/gform-quick-submit/src/index.js` |
| `parse_form.dfy` | `ParseForm` | `GFromQuickSubmitFormEntriesParse` and `GET` in `website/src/app/api/parse-form/route.ts` |
| `entries_page.dfy` | `EntriesPage` | `generateCodeString` and the Google Form URL regex in `website/src/app/entriesparse/page.tsx` |

Each module follows the form of its source file:

- **Submission.** The URLSearchParams object is a class, `SearchParams`, whose
  `Append` extends its list in place. `FormPost` fills it in a loop, as the
  source does inside `map`, and its contract gives the request and the result
  outright.
- **Scraper.** The per-span `push` loop is the method `ExtractEntries`, which
  `ParseFormEntries` calls on the page's span texts.
  - Each of the three regular expressions has two parts: a declarative
    description of a match (`SpanMatch`, `IdMatch`, `LabelMatch`) and a
    dedicated scanner.
  - Each scanner is proved to return exactly the leftmost match that its
    pattern admits.
  - Each match is unique, because the patterns' greedy runs cannot backtrack.
- **Snippet.** The generator is a pure function. Its partner, `RecoverIds`,
  reads the ids back from a generated snippet.

The body the submission sends is the serializer's output. `ParseSerialize`
proves that the standard's parser reads the UTF-8 bytes of that body back as
the original pair list: pair for pair, in order, with duplicates kept.

## Model

| member | source | states |
|---|---|---|
| `QuickSubmit.ResolveFormUrl` | packages/gform-quick-submit/src/index.js:13-16 | a URL is resolved exactly when `formUrl` or the environment default is truthy; a truthy `formUrl` wins, else the default is used; the resolved URL is never empty |
| `QuickSubmit.ValueText` | packages/gform-quick-submit/src/index.js:21 | a defined value prints as itself; the text is "undefined" exactly when the value is undefined or is the string "undefined", so the two cannot be told apart on the wire |
| `QuickSubmit.EntryPair` | packages/gform-quick-submit/src/index.js:21 | the name is `entry.` followed by the key, so the key can be read back from it; the value is the printed value |
| `QuickSubmit.EntryPairs` | packages/gform-quick-submit/src/index.js:20-22 | one pair per item |
| `QuickSubmit.SearchParams.constructor` | packages/gform-quick-submit/src/index.js:18 | a new URLSearchParams holds no pairs |
| `QuickSubmit.SearchParams.Append` | packages/gform-quick-submit/src/index.js:21 | `append` adds the pair at the end and keeps earlier pairs, duplicates included |
| `QuickSubmit.SearchParams.ToString` | packages/gform-quick-submit/src/index.js:26 | the serialized string's UTF-8 bytes parse back to the object's list |
| `QuickSubmit.FormPost` | packages/gform-quick-submit/src/index.js:11-40 | without a resolved URL no request is made and the error is the "Form URL is not defined…" error. Otherwise the request is a POST to `<url>/formResponse` with content type `application/x-www-form-urlencoded` and the serialized `entry.<key>` pairs as body. `success` holds exactly when a URL resolved and the response was ok, and `error` is absent exactly when `success` holds. A non-ok response gives "Failed to submit the form."; a rejected fetch gives its own error |
| `QuickSubmit.BodyDecodesToItems` | packages/gform-quick-submit/src/index.js:18-26 | the body, parsed back, has exactly one pair per item, in order; each name is `entry.` plus the key; each value is the item's value, or the text "undefined" when the value is undefined |
| `FormUrlEncoded.EncodeByte` | packages/gform-quick-submit/src/index.js:26 | one byte becomes one to three ASCII characters, never `&` or `=`; a `+` appears exactly when the byte is a space |
| `FormUrlEncoded.Serialize` | packages/gform-quick-submit/src/index.js:26 | the body is pure ASCII and is empty exactly when there are no pairs |
| `FormUrlEncoded.ParseSerialize` | packages/gform-quick-submit/src/index.js:18-26 | parsing the UTF-8 bytes of a serialized pair list gives the list back |
| `FormUrlEncoded.PairRoundTrip` | packages/gform-quick-submit/src/index.js:21 | one serialized `name=value` pair contains no `&` and parses back to the same name and value |
| `FormUrlEncoded.WireDecodes` | packages/gform-quick-submit/src/index.js:26 | a percent-encoded component, with `+` read back as space, percent-decodes to its bytes and contains neither `&` nor `=` |
| `FormUrlEncoded.EncodeByteWire` | packages/gform-quick-submit/src/index.js:26 | the wire bytes of one encoded byte hold neither `&` nor `=`; with `+` read back as space they percent-decode to that byte, whatever follows them |
| `FormUrlEncoded.EncodeComponent` | packages/gform-quick-submit/src/index.js:21 | an encoded name or value is pure ASCII |
| `FormUrlEncoded.SplitOnPiece` | packages/gform-quick-submit/src/index.js:26 | splitting on `&` separates a piece that contains no `&` from the rest |
| `Utf8.EncodeChar` | packages/gform-quick-submit/src/index.js:26 | a scalar value takes 1 to 4 bytes; ASCII takes one byte; the lead byte is in 0xC2..0xF4 and the continuation bytes are in 0x80..0xBF |
| `Utf8.DecodeFirstEncodeChar` | packages/gform-quick-submit/src/index.js:26 | the decoder reads back exactly one encoded scalar value and consumes exactly its bytes |
| `Utf8.DecodeEncode` | packages/gform-quick-submit/src/index.js:26 | decoding the UTF-8 encoding of a string gives the string back |
| `ParseForm.SpanEndAt` | website/src/app/api/parse-form/route.ts:23 | a match at `i` ends after `i` and inside the text; it starts with `data-params="` at `i` and its last character is `>` |
| `ParseForm.SpanEndAtMatches` | website/src/app/api/parse-form/route.ts:23 | there is a result at `i` exactly when `data-params="…"…>` matches at `i`; the end it gives is that of the only match |
| `ParseForm.Matches` | website/src/app/api/parse-form/route.ts:23-26 | the spans are matches, lie inside the HTML, come in document order and do not overlap |
| `ParseForm.SpanTextsMatches` | website/src/app/api/parse-form/route.ts:26-30 | there is one span text per match, in order; each is the matched slice of the HTML, starting with `data-params="` and ending with `>` |
| `ParseForm.MatchesCover` | website/src/app/api/parse-form/route.ts:23-26 | no match is skipped: each position where the pattern matches lies in a reported span |
| `ParseForm.NoMatchNoSpans` | website/src/app/api/parse-form/route.ts:23-26 | no span is found exactly when the pattern matches nowhere in the HTML |
| `ParseForm.IdMatchEnd` | website/src/app/api/parse-form/route.ts:33 | at a given position `\[([0-9]+),null` matches in one way at most: its digits run to the end of the digit run |
| `ParseForm.FindIdFrom` | website/src/app/api/parse-form/route.ts:33 | the scanner finds a match of the id pattern with no match further left, or reports that there is none |
| `ParseForm.FindId` | website/src/app/api/parse-form/route.ts:33-38 | the id is a non-empty string of ASCII digits; there is none exactly when the pattern never matches |
| `ParseForm.FindIdLeftmost` | website/src/app/api/parse-form/route.ts:33-38 | the id is the capture group of the leftmost match |
| `ParseForm.IdExample` | website/src/app/api/parse-form/route.ts:33-38 | `[1037971436,null` gives the id `1037971436` |
| `ParseForm.LabelMatchEnd` | website/src/app/api/parse-form/route.ts:35 | at a given position `,&quot;([^&]+)&quot;` matches in one way at most: the label runs to the first `&` |
| `ParseForm.FindLabelFrom` | website/src/app/api/parse-form/route.ts:35 | the scanner finds a match of the label pattern with no match further left, or reports that there is none |
| `ParseForm.FindLabel` | website/src/app/api/parse-form/route.ts:35-39 | the label is non-empty and contains no `&`; there is none exactly when the pattern never matches |
| `ParseForm.FindLabelLeftmost` | website/src/app/api/parse-form/route.ts:35-39 | the label is the capture group of the leftmost match |
| `ParseForm.LabelExample` | website/src/app/api/parse-form/route.ts:35-39 | `,&quot;Company&quot;` gives the label `Company` |
| `ParseForm.ExtractEntry` | website/src/app/api/parse-form/route.ts:29-42 | a span yields an entry exactly when both the id and the label are found; every entry it yields is well formed |
| `ParseForm.ExtractAll` | website/src/app/api/parse-form/route.ts:25-42 | there are never more entries than spans; every entry is well formed |
| `ParseForm.ExtractAllKept` | website/src/app/api/parse-form/route.ts:29-42 | the entries are exactly those of the spans that yield one, one per such span and in span order; other spans are skipped |
| `ParseForm.EntryOf` | website/src/app/api/parse-form/route.ts:30-41 | one span yields the entry of `ExtractEntry`: an entry exactly when both the id and the label are found, and every such entry is well formed |
| `ParseForm.ExtractEntries` | website/src/app/api/parse-form/route.ts:25-42 | the loop pushes exactly the entries of `ExtractAll` over the span texts, in order, and never more entries than spans |
| `ParseForm.ParseFormEntries` | website/src/app/api/parse-form/route.ts:10-49 | a rejected fetch fails. A non-ok response fails with "Failed to fetch form HTML: " and the status text. Otherwise the result succeeds with the entries of the span texts in order: at most one per span, each well formed. A page without a span is not an error |
| `ParseForm.Get` | website/src/app/api/parse-form/route.ts:52-72 | a missing or empty `url` gives 400 with "URL parameter is required" and no fetch. A failed parse gives 500 with "Failed to parse Google Form". Otherwise the status is 200 with the entry list. The status is 200 exactly when the URL is present and the fetch was ok |
| `EntriesPage.GenerateCodeString` | website/src/app/entriesparse/page.tsx:72-83 | no data gives `""`; any list, the empty one included, gives the template with its fixed prefix and suffix; the empty list gives exactly prefix and suffix |
| `EntriesPage.EntryLine` | website/src/app/entriesparse/page.tsx:75 | the line is the fixed opening `    { key: "`, then the id, then the fixed closing `", value: "" }`, so the id sits at a known place |
| `EntriesPage.Lines` | website/src/app/entriesparse/page.tsx:74-75 | one line per id; line `k` carries id `k` at the fixed offset |
| `EntriesPage.JoinLines` | website/src/app/entriesparse/page.tsx:76 | no lines give `""`; otherwise the text starts with the first line and its length is the lines' total plus one `,\n` between each two lines |
| `EntriesPage.ParseJoinedLines` | website/src/app/entriesparse/page.tsx:74-76 | the `,\n`-joined entry lines read back as the ids, one per line and in order |
| `EntriesPage.RecoverGeneratedIds` | website/src/app/entriesparse/page.tsx:72-83 | the snippet for a list gives back exactly that list's ids, in order |
| `EntriesPage.CodeIgnoresLabels` | website/src/app/entriesparse/page.tsx:74-75 | the snippet depends on the ids only, never on the labels |
| `EntriesPage.TailFrom` | website/src/app/entriesparse/page.tsx:41 | the scan succeeds exactly when `/viewform` follows with no whitespace before it |
| `EntriesPage.MatchFrom` | website/src/app/entriesparse/page.tsx:41 | the scan succeeds exactly when the pattern matches at some position at or after `p` |
| `EntriesPage.IsGoogleFormUrl` | website/src/app/entriesparse/page.tsx:40-43 | the URL is accepted exactly when it contains `https://docs.google.com/forms/d/e/`, then one or more non-whitespace characters, then `/viewform` |
| `EntriesPage.GoogleFormUrlExample` | website/src/app/entriesparse/page.tsx:41 | a form's public `…/d/e/<id>/viewform` address is accepted |

## Left out

- The network. The model does not perform `fetch`, `response.text()` or
  `response.json()`. What a fetch produced is a parameter (`FetchOutcome`):
  a rejection, or a response with its `ok` flag (and, for the scraper, its
  status text and body).
- Framework and runtime plumbing. The model leaves out how `NextResponse`
  builds a response, and stands for it by a status and a body. It also leaves
  out `console.error` logging and the `__awaiter` generator shim
  (packages/gform-quick-submit/src/index.js:2-10).
- `process.env.GFORM_QUICK_SUBMIT_FORM_URL`. It is an optional parameter.
- Request URL parsing. How `GET` reads its request URL (`new URL(url).searchParams.get("url")`)
  is not modelled: the parameter's value, or its absence, is the input.
- The error objects. An error thrown by the code is modelled by its message.
  The error a rejected fetch carries is one opaque value, `FetchError`.
- The string representation. JavaScript strings are UTF-16, while a Dafny
  `string` here holds Unicode scalar values.
  - URLSearchParams turns a lone surrogate into U+FFFD. The model does not do
    this: its strings have no surrogates.
  - The regular expressions run on UTF-16 code units. Their literal parts are
    ASCII, so they match the same text on scalar values.
- `EntriesPage.RecoverGeneratedIds` requires that no id contains a double quote.
  This is a condition on the inverse, not on the source. Ids from the scraper
  are digits.
- The zod `.url()` check (website/src/app/entriesparse/page.tsx:39). It defers
  to a URL parser inside a library that is not part of this model.
- All rendering and React state. This covers the entries table and code
  preview in page.tsx, `website/src/components/pages/sample/form.tsx`, and the
  other pages and components. The documentation site configuration is left out
  too.
- The `"default"` literal in the `formUrl` type
  (packages/gform-quick-submit/dist/index.d.ts:7). The code gives it no
  special meaning, so the model does not either.

An item whose value is `undefined` is sent as the text "undefined". That may
not be what the authors intended, but the model follows the code, and
`BodyDecodesToItems` states the behaviour outright.
