/** The entry-ID lookup page: the snippet it shows for the scraped entries
    (`generateCodeString`) and the Google Form URL check of its input schema. */
module EntriesPage {
  import opened Wrappers
  import opened Text
  import ParseForm

  type Entry = ParseForm.Entry

  // ---------------------------------------------------------------------
  // generateCodeString

  const CodePrefix := "await GFromQuickSubmitFormPOST({\n  data: [\n"
  const CodeSuffix := "\n  ],\n});"
  const LineStart := "    { key: \""
  const LineEnd := "\", value: \"\" }"
  const Separator := ",\n"

  function Ids(entries: seq<Entry>): (r: seq<string>)
    ensures |r| == |entries|
  {
    seq(|entries|, k requires 0 <= k < |entries| => entries[k].id)
  }

  /** The snippet line of one entry id. */
  function EntryLine(id: string): (r: string)
    ensures |r| == |LineStart| + |id| + |LineEnd|
    ensures StartsAt(r, 0, LineStart) && StartsAt(r, |LineStart|, id)
    ensures StartsAt(r, |LineStart| + |id|, LineEnd)
  {
    LineStart + id + LineEnd
  }

  /** The snippet lines of a list of ids. */
  function Lines(ids: seq<string>): (r: seq<string>)
    ensures |r| == |ids|
    ensures forall k :: 0 <= k < |r| ==> StartsAt(r[k], |LineStart|, ids[k])
  {
    seq(|ids|, k requires 0 <= k < |ids| => EntryLine(ids[k]))
  }

  /** The total length of a list of lines. */
  function TotalLength(lines: seq<string>): nat
  {
    if lines == [] then 0 else |lines[0]| + TotalLength(lines[1..])
  }

  /** `lines.join(",\n")`: the lines in order, one separator between each two. */
  function JoinLines(lines: seq<string>): (r: string)
    ensures lines == [] ==> r == ""
    ensures lines != [] ==> |r| == TotalLength(lines) + |Separator| * (|lines| - 1)
    ensures lines != [] ==> StartsAt(r, 0, lines[0])
  {
    if lines == [] then ""
    else if |lines| == 1 then lines[0]
    else lines[0] + Separator + JoinLines(lines[1..])
  }

  /** The snippet: empty while there is no data, otherwise the template with
      one line per entry id (an empty list still gives the template). */
  function GenerateCodeString(formData: Option<seq<Entry>>): (code: string)
    ensures formData.None? <==> code == ""
    ensures formData.Some? ==> StartsAt(code, 0, CodePrefix)
    ensures formData.Some? ==> StartsAt(code, |code| - |CodeSuffix|, CodeSuffix)
    ensures formData == Some([]) ==> code == CodePrefix + CodeSuffix
  {
    match formData
    case None => ""
    case Some(entries) =>
      var ids := Ids(entries);
      CodePrefix + JoinLines(Lines(ids)) + CodeSuffix
  }

  /** Reads the ids back from a block of snippet lines that is not empty. */
  function ParseLines(b: string): Option<seq<string>>
    decreases |b|
  {
    if !StartsAt(b, 0, LineStart) then None
    else
      match IndexOf(b, '"', |LineStart|)
      case None => None
      case Some(q) =>
        if !StartsAt(b, q, LineEnd) then None
        else
          var id, rest := b[|LineStart|..q], b[q + |LineEnd|..];
          if rest == [] then Some([id])
          else if |rest| > |Separator| && StartsAt(rest, 0, Separator) then
            match ParseLines(rest[|Separator|..])
            case None => None
            case Some(ids) => Some([id] + ids)
          else None
  }

  /** Reads the entry ids back from a generated snippet. */
  function RecoverIds(code: string): Option<seq<string>>
  {
    if |code| < |CodePrefix| + |CodeSuffix| || !StartsAt(code, 0, CodePrefix)
       || !StartsAt(code, |code| - |CodeSuffix|, CodeSuffix) then None
    else
      var block := code[|CodePrefix|..|code| - |CodeSuffix|];
      if block == [] then Some([]) else ParseLines(block)
  }

  /** The first line of a block is read back whole; `rest` is what follows it. */
  lemma ParseFirstLine(id: string, rest: string)
    requires '"' !in id
    ensures var b, q := EntryLine(id) + rest, |LineStart| + |id|;
      && StartsAt(b, 0, LineStart) && IndexOf(b, '"', |LineStart|) == Some(q)
      && StartsAt(b, q, LineEnd) && b[|LineStart|..q] == id && b[q + |LineEnd|..] == rest
  {
    var b, q := EntryLine(id) + rest, |LineStart| + |id|;
    assert b[q] == '"';
    assert forall k :: |LineStart| <= k < q ==> b[k] == id[k - |LineStart|];
    assert b[|LineStart|..q] == id;
    assert b[q..q + |LineEnd|] == LineEnd;
  }

  /** A line followed by `,\n` and a block that reads back as `more`. */
  lemma ParseLineThen(id: string, next: string, more: seq<string>)
    requires '"' !in id && next != [] && ParseLines(next) == Some(more)
    ensures ParseLines(EntryLine(id) + Separator + next) == Some([id] + more)
  {
    var rest := Separator + next;
    assert EntryLine(id) + Separator + next == EntryLine(id) + rest;
    ParseFirstLine(id, rest);
    assert |rest| > |Separator| && StartsAt(rest, 0, Separator);
    assert rest[|Separator|..] == next;
  }

  lemma {:induction false} ParseJoinedLines(ids: seq<string>)
    requires ids != []
    requires forall k :: 0 <= k < |ids| ==> '"' !in ids[k]
    ensures ParseLines(JoinLines(Lines(ids))) == Some(ids)
  {
    var lines := Lines(ids);
    if |ids| == 1 {
      ParseFirstLine(ids[0], "");
      assert JoinLines(lines) == EntryLine(ids[0]) + "";
      assert ids == [ids[0]];
    } else {
      var tail := ids[1..];
      assert lines[1..] == Lines(tail);
      ParseJoinedLines(tail);
      var next := JoinLines(Lines(tail));
      assert |next| > 0 by {
        assert next == EntryLine(tail[0]) || next == EntryLine(tail[0]) + Separator + JoinLines(Lines(tail)[1..]);
      }
      assert JoinLines(lines) == EntryLine(ids[0]) + Separator + next;
      ParseLineThen(ids[0], next, tail);
      assert [ids[0]] + tail == ids;
    }
  }

  /** Round trip: for ids without a double quote (scraped ids are digits), the
      snippet gives back exactly the ids of the list, one per line and in
      order; labels play no part. */
  lemma RecoverGeneratedIds(entries: seq<Entry>)
    requires forall k :: 0 <= k < |entries| ==> '"' !in entries[k].id
    ensures RecoverIds(GenerateCodeString(Some(entries))) == Some(Ids(entries))
  {
    var ids := Ids(entries);
    var block := JoinLines(Lines(ids));
    var code := GenerateCodeString(Some(entries));
    assert code == CodePrefix + block + CodeSuffix;
    assert code[|CodePrefix|..|code| - |CodeSuffix|] == block;
    if ids != [] {
      ParseJoinedLines(ids);
      assert block != [];
    }
  }

  /** The snippet depends on the ids alone: labels never reach it. */
  lemma CodeIgnoresLabels(a: seq<Entry>, b: seq<Entry>)
    requires Ids(a) == Ids(b)
    ensures GenerateCodeString(Some(a)) == GenerateCodeString(Some(b))
  {
  }

  // ---------------------------------------------------------------------
  // The URL check: /https:\/\/docs\.google\.com\/forms\/d\/e\/\S+\/viewform/

  const FormUrlHead := "https://docs.google.com/forms/d/e/"
  const FormUrlTail := "/viewform"

  /** ECMAScript's `\s`: the WhiteSpace and LineTerminator code points. */
  predicate IsJsWhitespace(c: char)
  {
    c == '\t' || c == '\n' || c == '\U{B}' || c == '\U{C}' || c == '\r' || c == ' '
    || c == '\U{A0}' || c == '\U{1680}' || ('\U{2000}' <= c <= '\U{200A}')
    || c == '\U{2028}' || c == '\U{2029}' || c == '\U{202F}' || c == '\U{205F}'
    || c == '\U{3000}' || c == '\U{FEFF}'
  }

  predicate NoSpaceIn(s: string, lo: int, hi: int)
    requires 0 <= lo <= hi <= |s|
  {
    forall k :: lo <= k < hi ==> !IsJsWhitespace(s[k])
  }

  /** The pattern matches at `i`, with `\S+` covering `s[i + |FormUrlHead|..j]`. */
  predicate UrlMatch(s: string, i: int, j: int)
  {
    && StartsAt(s, i, FormUrlHead) && i + |FormUrlHead| < j
    && StartsAt(s, j, FormUrlTail) && NoSpaceIn(s, i + |FormUrlHead|, j)
  }

  /** `/viewform` starts at some `j' >= j` with no whitespace in `s[lo..j']`. */
  predicate TailAfter(s: string, lo: int, j: int)
  {
    0 <= lo <= j && StartsAt(s, j, FormUrlTail) && NoSpaceIn(s, lo, j)
  }

  /** Scans for `/viewform` from `j` while no whitespace is met. */
  function TailFrom(s: string, j: nat): (r: bool)
    requires j <= |s|
    ensures r <==> exists j' :: j <= j' && TailAfter(s, j, j')
    decreases |s| - j
  {
    if StartsAt(s, j, FormUrlTail) then
      assert TailAfter(s, j, j);
      true
    else if j < |s| && !IsJsWhitespace(s[j]) then
      var r := TailFrom(s, j + 1);
      assert r ==> exists j' :: j <= j' && TailAfter(s, j, j') by {
        if r {
          var j' :| j + 1 <= j' && TailAfter(s, j + 1, j');
          assert TailAfter(s, j, j');
        }
      }
      assert (exists j' :: j <= j' && TailAfter(s, j, j')) ==> r by {
        if j' :| j <= j' && TailAfter(s, j, j') {
          assert TailAfter(s, j + 1, j');
        }
      }
      r
    else
      false
  }

  /** Tries every start position from `p` on. */
  function MatchFrom(s: string, p: nat): (r: bool)
    requires p <= |s|
    ensures r <==> exists i, j :: p <= i && UrlMatch(s, i, j)
    decreases |s| - p
  {
    if p == |s| then false
    else
      var h := p + |FormUrlHead|;
      var here := StartsAt(s, p, FormUrlHead) && h < |s| && !IsJsWhitespace(s[h]) && TailFrom(s, h + 1);
      assert here ==> exists j :: UrlMatch(s, p, j) by {
        if here {
          var j :| h + 1 <= j && TailAfter(s, h + 1, j);
          assert UrlMatch(s, p, j);
        }
      }
      assert (exists j :: UrlMatch(s, p, j)) ==> here by {
        if j :| UrlMatch(s, p, j) {
          assert TailAfter(s, h + 1, j);
        }
      }
      here || MatchFrom(s, p + 1)
  }

  /** The schema's regex test: the URL contains the form address prefix, one or
      more non-whitespace characters, then `/viewform`, anywhere. */
  function IsGoogleFormUrl(url: string): (r: bool)
    ensures r <==> exists i, j :: UrlMatch(url, i, j)
  {
    MatchFrom(url, 0)
  }

  /** A form's public address passes the check. */
  lemma GoogleFormUrlExample()
    ensures IsGoogleFormUrl("https://docs.google.com/forms/d/e/1FAIpQL/viewform")
  {
    var s := "https://docs.google.com/forms/d/e/1FAIpQL/viewform";
    assert s[..34] == FormUrlHead && s[41..] == FormUrlTail;
    assert UrlMatch(s, 0, 41);
  }
}
