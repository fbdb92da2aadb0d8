/** The AI tool-request layer: five functions that each send one prompt to the
    remote model and reshape its answer. The remote call is not modelled; each
    function receives the settled outcome of that call as an input value, and its
    own outcome is a `Result` whose `Failure` is the rejected promise. */
module GeminiService {
  import opened Wrappers
  import opened JsString

  /** What a rejected promise carries. */
  datatype Error =
    | RemoteError(message: string)  // thrown by the remote client (transport, model, quota)
    | TypeError(property: string)   // reading `property` of `undefined`

  /** `text || fallback` for `text: string | undefined`: both `undefined` and `''` are falsy. */
  function OrElse(text: Option<string>, fallback: string): (r: string)
    ensures r == fallback || (text.Some? && r == text.value && r != [])
    ensures text.Some? && text.value != [] ==> r == text.value
  {
    match text
    case Some(t) => if t != [] then t else fallback
    case None => fallback
  }

  // ---------------------------------------------------------------------------
  // Titles: `text.split('\n').filter(line => line.trim().length > 0)
  //          .map(t => t.replace(/^[-*•\d\.]+\s+/, ''))`

  /** The characters of the class `[-*•\d.]` (`\d` is ASCII 0-9 without the `u` flag). */
  predicate IsMarker(c: char) {
    c == '-' || c == '*' || c == '•' || ('0' <= c <= '9') || c == '.'
  }

  predicate AllMarkers(s: string) {
    forall j :: 0 <= j < |s| ==> IsMarker(s[j])
  }

  /** `p` is a whole match of `[-*•\d.]+\s+`: at least one marker, then at least one space. */
  ghost predicate MarkerThenSpace(p: string) {
    exists m :: 0 < m < |p| && AllMarkers(p[..m]) && AllWhitespace(p[m..])
  }

  /** `line.replace(/^[-*•\d.]+\s+/, '')`: the leading marker run and the white space after it
      are removed when there is at least one of each; otherwise the line is unchanged. */
  function StripMarker(line: string): (r: string)
    ensures |r| <= |line| && r == line[|line| - |r|..]
    ensures r != line ==> MarkerThenSpace(line[..|line| - |r|]) && (r == [] || !IsWhitespace(r[0]))
  {
    var m := LeadingCount(line, IsMarker);
    var w := LeadingCount(line[m..], IsWhitespace);
    if m > 0 && w > 0 then
      var p := line[..m + w];
      assert p[..m] == line[..m] && p[m..] == line[m..][..w];
      assert AllWhitespace(p[m..]);
      line[m + w..]
    else line
  }

  /** The regular expression matches at the start of `line` exactly when `StripMarker` changes it. */
  lemma StripMarkerChangesIff(line: string)
    ensures StripMarker(line) != line <==> exists k :: 0 < k <= |line| && MarkerThenSpace(line[..k])
  {
    var r := StripMarker(line);
    if r != line {
      var k := |line| - |r|;
      assert 0 < k <= |line| && MarkerThenSpace(line[..k]);
    }
    if k :| 0 < k <= |line| && MarkerThenSpace(line[..k]) {
      MatchStrips(line, k);
    }
  }

  /** A match of `[-*•\d.]+\s+` at the start of `line` makes `StripMarker` remove something. */
  lemma MatchStrips(line: string, k: nat)
    requires 0 < k <= |line| && MarkerThenSpace(line[..k])
    ensures StripMarker(line) != line
  {
    var p := line[..k];
    var m' :| 0 < m' < |p| && AllMarkers(p[..m']) && AllWhitespace(p[m'..]);
    assert IsWhitespace(line[m']) by { assert p[m'..][0] == line[m']; }
    assert forall j :: 0 <= j < m' ==> IsMarker(line[j]) by {
      forall j | 0 <= j < m' ensures IsMarker(line[j]) { assert p[..m'][j] == line[j]; }
    }
    assert !IsMarker(line[m']);
    var m := LeadingCount(line, IsMarker);
    assert m == m';
    assert line[m..][0] == line[m'];
  }

  /** `line.trim().length > 0` */
  predicate HasText(line: string) {
    |Trim(line)| > 0
  }

  /** `lines.filter(keep)`: the lines that `keep` accepts, in their order. */
  function Filter(lines: seq<string>, keep: string -> bool): (kept: seq<string>)
    ensures |kept| <= |lines|
    ensures forall j :: 0 <= j < |kept| ==> kept[j] in lines && keep(kept[j])
  {
    if lines == [] then []
    else (if keep(lines[0]) then [lines[0]] else []) + Filter(lines[1..], keep)
  }

  lemma {:induction false} FilterAppend(a: seq<string>, b: seq<string>, keep: string -> bool)
    ensures Filter(a + b, keep) == Filter(a, keep) + Filter(b, keep)
  {
    if a == [] {
      assert a + b == b;
    } else {
      var head := if keep(a[0]) then [a[0]] else [];
      calc {
        Filter(a + b, keep);
        { assert (a + b)[0] == a[0]; }
        head + Filter((a + b)[1..], keep);
        { assert (a + b)[1..] == a[1..] + b; }
        head + Filter(a[1..] + b, keep);
        { FilterAppend(a[1..], b, keep); }
        head + (Filter(a[1..], keep) + Filter(b, keep));
        (head + Filter(a[1..], keep)) + Filter(b, keep);
        Filter(a, keep) + Filter(b, keep);
      }
    }
  }

  /** `lines.map(f)`. */
  function Map(lines: seq<string>, f: string -> string): (mapped: seq<string>)
    ensures |mapped| == |lines|
    ensures forall j :: 0 <= j < |lines| ==> mapped[j] == f(lines[j])
  {
    seq(|lines|, j requires 0 <= j < |lines| => f(lines[j]))
  }

  lemma MapAppend(a: seq<string>, b: seq<string>, f: string -> string)
    ensures Map(a + b, f) == Map(a, f) + Map(b, f)
  {
  }

  /** The post-processing of `generateTitles`. */
  function ParseTitles(text: string): (titles: seq<string>)
    ensures |titles| <= Occurrences(text, '\n') + 1
    ensures forall j :: 0 <= j < |titles| ==> '\n' !in titles[j]
  {
    var lines := Split(text, '\n');
    var kept := Filter(lines, HasText);
    var titles := Map(kept, StripMarker);
    SplitPiecesFree(text, '\n');
    forall j | 0 <= j < |titles| ensures '\n' !in titles[j] {
      var line := kept[j];
      var k :| 0 <= k < |lines| && lines[k] == line;
      SuffixKeepsOut(line, titles[j], '\n');
    }
    titles
  }

  /** A text without a line break gives its stripped line, or nothing when the line is blank. */
  lemma ParseTitlesOneLine(line: string)
    requires '\n' !in line
    ensures ParseTitles(line) == if AllWhitespace(line) then [] else [StripMarker(line)]
  {
    NoSeparatorSplit(line, '\n');
    TrimEmptyIff(line);
    assert Filter([line], HasText)
      == (if HasText(line) then [line] else []) + Filter([line][1..], HasText);
  }

  /** Lines are processed independently and stay in their order. */
  lemma ParseTitlesAppend(a: string, b: string)
    ensures ParseTitles(a + "\n" + b) == ParseTitles(a) + ParseTitles(b)
  {
    var lines, more := Split(a, '\n'), Split(b, '\n');
    assert a + "\n" + b == a + ['\n'] + b;
    SplitAppend(a, b, '\n');
    FilterAppend(lines, more, HasText);
    MapAppend(Filter(lines, HasText), Filter(more, HasText), StripMarker);
  }

  /** A suffix of a string without `c` is without `c`. */
  lemma SuffixKeepsOut(line: string, r: string, c: char)
    requires c !in line && |r| <= |line| && r == line[|line| - |r|..]
    ensures c !in r
  {
    forall j | 0 <= j < |r| ensures r[j] != c { assert r[j] == line[|line| - |r| + j]; }
  }

  /** Numbering is stripped and blank lines are dropped: `"1. Foo\n2. Bar\n\n"` gives `["Foo", "Bar"]`. */
  lemma ParseTitlesExample()
    ensures ParseTitles("1. Foo\n2. Bar\n\n") == ["Foo", "Bar"]
  {
    TwoNumberedTitles("1. Foo\n2. Bar\n\n", "1", "Foo", "2", "Bar");
  }

  lemma TwoNumberedTitles(text: string, d1: string, t1: string, d2: string, t2: string)
    requires |d1| == 1 && '0' <= d1[0] <= '9' && |d2| == 1 && '0' <= d2[0] <= '9'
    requires t1 != [] && !IsWhitespace(t1[0]) && !IsMarker(t1[0]) && '\n' !in t1
    requires t2 != [] && !IsWhitespace(t2[0]) && !IsMarker(t2[0]) && '\n' !in t2
    requires text == d1 + ". " + t1 + "\n" + d2 + ". " + t2 + "\n\n"
    ensures ParseTitles(text) == [t1, t2]
  {
    var l1, l2 := d1 + ". " + t1, d2 + ". " + t2;
    var blank := "" + "\n" + "";
    var tail := l2 + "\n" + blank;
    calc {
      ParseTitles(text);
      { assert text == l1 + "\n" + tail; }
      ParseTitles(l1 + "\n" + tail);
      { ParseTitlesAppend(l1, tail); }
      ParseTitles(l1) + ParseTitles(tail);
      { ParseTitlesAppend(l2, blank); }
      ParseTitles(l1) + (ParseTitles(l2) + ParseTitles(blank));
      { ParseTitlesAppend("", ""); ParseTitlesOneLine(""); }
      ParseTitles(l1) + ParseTitles(l2);
      { NumberedTitle(l1, d1, t1); NumberedTitle(l2, d2, t2); }
      [t1, t2];
    }
  }

  /** A numbered line `d. rest` is the one title `rest`. */
  lemma NumberedTitle(line: string, digit: string, rest: string)
    requires |digit| == 1 && '0' <= digit[0] <= '9'
    requires rest != [] && !IsWhitespace(rest[0]) && !IsMarker(rest[0]) && '\n' !in rest
    requires line == digit + ". " + rest
    ensures ParseTitles(line) == [rest]
  {
    assert line[3] == rest[0];
    ParseTitlesOneLine(line);
    StripMarkerExample(line, digit, rest);
  }

  /** A digit, a dot, one space and the rest: the marker, dot and space are removed. */
  lemma StripMarkerExample(line: string, digit: string, rest: string)
    requires |digit| == 1 && '0' <= digit[0] <= '9'
    requires rest == [] || (!IsWhitespace(rest[0]) && !IsMarker(rest[0]))
    requires line == digit + ". " + rest
    ensures StripMarker(line) == rest
  {
    assert LeadingCount(line[2..], IsMarker) == 0;
    assert LeadingCount(line[1..], IsMarker) == 1;
    assert LeadingCount(line, IsMarker) == 2;
    var w := LeadingCount(line[2..], IsWhitespace);
    assert line[2..][1..] == rest;
    assert LeadingCount(rest, IsWhitespace) == 0;
    assert w == 1;
  }

  lemma StripMarkerEdgeCases()
    ensures StripMarker("1.Foo") == "1.Foo"
    ensures StripMarker("1. ") == ""
  {
    assert LeadingCount("1.Foo"[2..], IsMarker) == 0;
    assert LeadingCount("1.Foo"[1..], IsMarker) == 1;
    assert LeadingCount("1.Foo", IsMarker) == 2;
    assert LeadingCount("1.Foo"[2..], IsWhitespace) == 0;
    StripMarkerExample("1. ", "1", "");
  }

  function GenerateTitles(call: Result<Option<string>, Error>): (r: Result<seq<string>, Error>)
    ensures call.Failure? ==> r == Failure(call.error)
    ensures call.Success? ==> r.Success?
    ensures call.Success? ==> r == Success(ParseTitles(OrElse(call.value, "")))
    ensures call.Success? && OrElse(call.value, "") == [] ==> r == Success([])
  {
    match call
    case Failure(e) => Failure(e)
    case Success(text) =>
      assert ParseTitles("") == [] by { ParseTitlesOneLine(""); }
      Success(ParseTitles(OrElse(text, "")))
  }

  // ---------------------------------------------------------------------------
  // Script: `response.text || 'Erro ao gerar roteiro.'`

  const ScriptFallback: string := "Erro ao gerar roteiro."

  function GenerateScript(call: Result<Option<string>, Error>): (r: Result<string, Error>)
    ensures call.Failure? ==> r == Failure(call.error)
    ensures call.Success? ==> r.Success? && r.value != []
    ensures call.Success? && call.value.Some? && call.value.value != [] ==> r == Success(call.value.value)
    ensures call.Success? && (call.value.None? || call.value.value == []) ==> r == Success(ScriptFallback)
  {
    match call
    case Failure(e) => Failure(e)
    case Success(text) => Success(OrElse(text, ScriptFallback))
  }

  // ---------------------------------------------------------------------------
  // Tags: `text.split(',').map(t => t.trim())`

  /** The post-processing of `generateTags`: each comma-separated piece, trimmed, in order. */
  function ParseTags(text: string): (tags: seq<string>)
    ensures |tags| == Occurrences(text, ',') + 1
  {
    var pieces := Split(text, ',');
    seq(|pieces|, j requires 0 <= j < |pieces| => Trim(pieces[j]))
  }

  /** Each tag is its comma-free piece with the surrounding white space trimmed. */
  lemma ParseTagsSpec(text: string, j: nat)
    requires j < Occurrences(text, ',') + 1
    ensures TrimmedFrom(Split(text, ',')[j], ParseTags(text)[j])
    ensures ',' !in ParseTags(text)[j]
    ensures var tag := ParseTags(text)[j];
      tag == [] || (!IsWhitespace(tag[0]) && !IsWhitespace(tag[|tag| - 1]))
  {
    TrimSpec(Split(text, ',')[j]);
    SplitPiecesFree(text, ',');
    TrimInside(Split(text, ',')[j], ',');
  }

  /** Trimming keeps a character out when the string did not hold it. */
  lemma TrimInside(s: string, c: char)
    requires c !in s
    ensures c !in Trim(s)
  {
    var a := LeadingCount(s, IsWhitespace);
    var b := TrailingCount(s[a..], IsWhitespace);
    var r := Trim(s);
    assert r == s[a..|s| - b];
    forall j | 0 <= j < |r| ensures r[j] != c { assert r[j] == s[a + j]; }
  }

  /** Tags are split at every comma and stay in their order. */
  lemma ParseTagsAppend(a: string, b: string)
    ensures ParseTags(a + "," + b) == ParseTags(a) + ParseTags(b)
  {
    SplitAppend(a, b, ',');
  }

  /** One piece without a comma gives its trimmed self. */
  lemma ParseTagsOne(piece: string)
    requires ',' !in piece
    ensures ParseTags(piece) == [Trim(piece)]
  {
    NoSeparatorSplit(piece, ',');
  }

  /** `"tag1, tag2 ,tag3"` gives three trimmed tags; the empty answer gives one empty tag. */
  lemma ParseTagsExample()
    ensures ParseTags("tag1, tag2 ,tag3") == ["tag1", "tag2", "tag3"]
    ensures ParseTags("") == [""]
  {
    SampleTags();
    EmptyAnswerTags();
  }

  lemma SampleTags()
    ensures ParseTags("tag1, tag2 ,tag3") == ["tag1", "tag2", "tag3"]
  {
    ThreeTags("tag1, tag2 ,tag3", "tag1", "tag2", "tag3");
  }

  lemma EmptyAnswerTags()
    ensures ParseTags("") == [""]
  {
    ParseTagsOne("");
  }

  lemma ThreeTags(text: string, t1: string, t2: string, t3: string)
    requires BareTag(t1) && BareTag(t2) && BareTag(t3)
    requires text == t1 + ", " + t2 + " ," + t3
    ensures ParseTags(text) == [t1, t2, t3]
  {
    var padded := " " + t2 + " ";
    calc {
      ParseTags(text);
      { assert text == t1 + "," + (padded + "," + t3); }
      ParseTags(t1 + "," + (padded + "," + t3));
      { ParseTagsAppend(t1, padded + "," + t3); }
      ParseTags(t1) + ParseTags(padded + "," + t3);
      { ParseTagsAppend(padded, t3); }
      ParseTags(t1) + (ParseTags(padded) + ParseTags(t3));
      { PlainTag(t1); PaddedTag(t2); PlainTag(t3); }
      [t1, t2, t3];
    }
  }

  /** A non-empty tag without a comma and without white space at either end. */
  predicate BareTag(tag: string) {
    tag != [] && !IsWhitespace(tag[0]) && !IsWhitespace(tag[|tag| - 1]) && ',' !in tag
  }

  lemma PlainTag(tag: string)
    requires BareTag(tag)
    ensures ParseTags(tag) == [tag]
  {
    ParseTagsOne(tag);
    TrimNoSpace(tag);
  }

  lemma PaddedTag(tag: string)
    requires BareTag(tag)
    ensures ParseTags(" " + tag + " ") == [tag]
  {
    ParseTagsOne(" " + tag + " ");
    TrimPadded(tag);
  }

  lemma TrimNoSpace(s: string)
    requires s != [] && !IsWhitespace(s[0]) && !IsWhitespace(s[|s| - 1])
    ensures Trim(s) == s
  {
    assert s[0..|s|] == s;
  }

  lemma TrimPadded(s: string)
    requires s != [] && !IsWhitespace(s[0]) && !IsWhitespace(s[|s| - 1])
    ensures Trim(" " + s + " ") == s
  {
    var t := " " + s + " ";
    assert t[1..][0] == s[0];
    assert LeadingCount(t[1..], IsWhitespace) == 0;
    assert LeadingCount(t, IsWhitespace) == 1;
    assert t[1..][..|t[1..]| - 1] == s;
    assert TrailingCount(s, IsWhitespace) == 0;
    assert TrailingCount(t[1..], IsWhitespace) == 1;
    assert t[1..|t| - 1] == s;
  }

  function GenerateTags(call: Result<Option<string>, Error>): (r: Result<seq<string>, Error>)
    ensures call.Failure? ==> r == Failure(call.error)
    ensures call.Success? ==> r.Success? && |r.value| >= 1
    ensures call.Success? ==> r == Success(ParseTags(OrElse(call.value, "")))
    ensures call.Success? && OrElse(call.value, "") == [] ==> r == Success([""])
  {
    match call
    case Failure(e) => Failure(e)
    case Success(text) =>
      var tags := ParseTags(OrElse(text, ""));
      assert OrElse(text, "") == [] ==> tags == [""] by {
        if OrElse(text, "") == [] { ParseTagsExample(); }
      }
      Success(tags)
  }

  // ---------------------------------------------------------------------------
  // Trends: `JSON.parse(response.text || '[]')`, and `[]` on any error.

  datatype TrendData = TrendData(month: string, interest: real, competition: real)

  /** `parse` is `JSON.parse`, with `None` for a text it rejects. The result is never a failure. */
  function AnalyzeTrends(call: Result<Option<string>, Error>, parse: string -> Option<seq<TrendData>>)
    : (trends: seq<TrendData>)
    ensures call.Failure? ==> trends == []
    ensures call.Success? && parse(OrElse(call.value, "[]")).None? ==> trends == []
    ensures call.Success? && parse(OrElse(call.value, "[]")).Some? ==>
      trends == parse(OrElse(call.value, "[]")).value
  {
    match call
    case Failure(_) => []
    case Success(text) =>
      match parse(OrElse(text, "[]"))
      case None => []
      case Some(data) => data
  }

  /** An absent or empty answer is read as the JSON text `[]`. */
  lemma AnalyzeTrendsEmptyText(text: Option<string>, parse: string -> Option<seq<TrendData>>)
    requires text.None? || text.value == []
    requires parse("[]") == Some([])
    ensures AnalyzeTrends(Success(text), parse) == []
  {
  }

  // ---------------------------------------------------------------------------
  // Thumbnail: a text stage that writes an image prompt, then an image stage.

  datatype InlineData = InlineData(data: Option<string>)
  datatype Part = Part(inlineData: Option<InlineData>)
  datatype Content = Content(parts: Option<seq<Part>>)
  datatype Candidate = Candidate(content: Option<Content>)
  datatype ImageResponse = ImageResponse(candidates: Option<seq<Candidate>>)
  datatype Thumbnail = Thumbnail(prompt: string, imageBase64: Option<string>)

  /** The prompt used when the text stage answers nothing. */
  function FallbackPrompt(topic: string): string {
    "A viral youtube thumbnail about " + topic
  }

  /** The data of the first part that carries inline data; later parts are ignored. */
  function FirstInlineData(parts: seq<Part>): (data: Option<string>)
    ensures (forall j :: 0 <= j < |parts| ==> parts[j].inlineData.None?) ==> data == None
    ensures forall k :: (0 <= k < |parts| && parts[k].inlineData.Some?
      && (forall j :: 0 <= j < k ==> parts[j].inlineData.None?)) ==> data == parts[k].inlineData.value.data
  {
    if parts == [] then None
    else if parts[0].inlineData.Some? then parts[0].inlineData.value.data
    else
      var data := FirstInlineData(parts[1..]);
      assert forall k :: 1 <= k < |parts| ==> parts[k] == parts[1..][k - 1];
      data
  }

  /** `imageResponse.candidates && imageResponse.candidates[0].content.parts`: the parts to scan,
      or the `TypeError` of reading through an `undefined` first candidate or content. */
  function ImageParts(response: ImageResponse): (r: Result<Option<seq<Part>>, Error>)
    ensures response.candidates.None? ==> r == Success(None)
    ensures response.candidates == Some([]) ==> r == Failure(TypeError("content"))
    ensures response.candidates.Some? && |response.candidates.value| > 0 ==>
      r == (if response.candidates.value[0].content.None? then Failure(TypeError("parts"))
            else Success(response.candidates.value[0].content.value.parts))
    ensures r.Success? && r.value.Some? ==>
      response.candidates.Some? && |response.candidates.value| > 0
      && response.candidates.value[0].content == Some(Content(r.value))
  {
    match response.candidates
    case None => Success(None)
    case Some(candidates) =>
      if candidates == [] then Failure(TypeError("content"))
      else
        match candidates[0].content
        case None => Failure(TypeError("parts"))
        case Some(content) => Success(content.parts)
  }

  /** What `generateThumbnailConcept` settles to, given the outcome of the text stage and the
      image stage as a function of the prompt it is sent. */
  function ThumbnailConcept(topic: string, describe: Result<Option<string>, Error>,
                            render: string -> Result<ImageResponse, Error>): (r: Result<Thumbnail, Error>)
    ensures describe.Failure? ==> r == Failure(describe.error)
    ensures describe.Success? && render(OrElse(describe.value, FallbackPrompt(topic))).Failure? ==>
      r == Failure(render(OrElse(describe.value, FallbackPrompt(topic))).error)
    ensures r.Success? ==> describe.Success? && r.value.prompt == OrElse(describe.value, FallbackPrompt(topic))
    ensures describe.Success? && render(OrElse(describe.value, FallbackPrompt(topic))).Success? ==>
      var parts := ImageParts(render(OrElse(describe.value, FallbackPrompt(topic))).value);
      && (parts.Failure? ==> r == Failure(parts.error))
      && (parts.Success? ==>
            r.Success? && r.value.imageBase64 == (if parts.value.None? then None else FirstInlineData(parts.value.value)))
  {
    match describe
    case Failure(e) => Failure(e)
    case Success(text) =>
      var imagePrompt := OrElse(text, FallbackPrompt(topic));
      match render(imagePrompt)
      case Failure(e) => Failure(e)
      case Success(response) =>
        match ImageParts(response)
        case Failure(e) => Failure(e)
        case Success(None) => Success(Thumbnail(imagePrompt, None))
        case Success(Some(parts)) => Success(Thumbnail(imagePrompt, FirstInlineData(parts)))
  }

  /** The scan of lines 141-149: a `for` loop with a `break` at the first part with inline data. */
  method ExtractImage(response: ImageResponse) returns (r: Result<Option<string>, Error>)
    ensures ImageParts(response).Failure? ==> r == Failure(ImageParts(response).error)
    ensures ImageParts(response) == Success(None) ==> r == Success(None)
    ensures ImageParts(response).Success? && ImageParts(response).value.Some? ==>
      r == Success(FirstInlineData(ImageParts(response).value.value))
  {
    var base64Image: Option<string> := None;
    var guard := ImageParts(response);
    if guard.Failure? {
      return Failure(guard.error);
    }
    if guard.value.Some? {
      var parts := guard.value.value;
      var i := 0;
      while i < |parts|
        invariant 0 <= i <= |parts|
        invariant base64Image == None
        invariant forall j :: 0 <= j < i ==> parts[j].inlineData.None?
      {
        if parts[i].inlineData.Some? {
          base64Image := parts[i].inlineData.value.data;
          break;
        }
        i := i + 1;
      }
    }
    r := Success(base64Image);
  }

  method GenerateThumbnailConcept(topic: string, describe: Result<Option<string>, Error>,
                                  render: string -> Result<ImageResponse, Error>)
    returns (r: Result<Thumbnail, Error>)
    ensures r == ThumbnailConcept(topic, describe, render)
  {
    if describe.Failure? {
      return Failure(describe.error);
    }
    var imagePrompt := OrElse(describe.value, FallbackPrompt(topic));
    var imageResponse := render(imagePrompt);
    if imageResponse.Failure? {
      return Failure(imageResponse.error);
    }
    var image := ExtractImage(imageResponse.value);
    if image.Failure? {
      return Failure(image.error);
    }
    r := Success(Thumbnail(imagePrompt, image.value));
  }

  /** A text-stage answer and an image answer whose parts carry no inline data give the
      text-stage answer as prompt and no image. */
  lemma ThumbnailWithoutImage(topic: string, text: string, render: string -> Result<ImageResponse, Error>,
                              parts: seq<Part>)
    requires text != []
    requires render(text) == Success(ImageResponse(Some([Candidate(Some(Content(Some(parts))))])))
    requires forall j :: 0 <= j < |parts| ==> parts[j].inlineData.None?
    ensures ThumbnailConcept(topic, Success(Some(text)), render) == Success(Thumbnail(text, None))
  {
  }

  /** The image is the data of the first part, of the first candidate, that carries inline data. */
  lemma ThumbnailFirstImage(topic: string, text: string, render: string -> Result<ImageResponse, Error>,
                            parts: seq<Part>, others: seq<Candidate>, k: nat, data: string)
    requires text != []
    requires render(text) == Success(ImageResponse(Some([Candidate(Some(Content(Some(parts))))] + others)))
    requires k < |parts| && parts[k].inlineData == Some(InlineData(Some(data)))
    requires forall j :: 0 <= j < k ==> parts[j].inlineData.None?
    ensures ThumbnailConcept(topic, Success(Some(text)), render) == Success(Thumbnail(text, Some(data)))
  {
  }

  /** An image answer with an empty candidate list rejects with the `TypeError` of
      `candidates[0].content`, even though the text stage succeeded. */
  lemma ThumbnailNoCandidates(topic: string, text: Option<string>, render: string -> Result<ImageResponse, Error>)
    requires render(OrElse(text, FallbackPrompt(topic))) == Success(ImageResponse(Some([])))
    ensures ThumbnailConcept(topic, Success(text), render) == Failure(TypeError("content"))
  {
  }

  /** Four functions reject with the remote error they received; trend analysis resolves to `[]`. */
  lemma ErrorPolicy(e: Error, topic: string, parse: string -> Option<seq<TrendData>>,
                    render: string -> Result<ImageResponse, Error>)
    ensures GenerateTitles(Failure(e)) == Failure(e)
    ensures GenerateScript(Failure(e)) == Failure(e)
    ensures GenerateTags(Failure(e)) == Failure(e)
    ensures ThumbnailConcept(topic, Failure(e), render) == Failure(e)
    ensures AnalyzeTrends(Failure(e), parse) == []
  {
  }
}
