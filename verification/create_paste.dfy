/** The create-paste endpoint (endpoints/create-paste.endpoint.ts): the
    Content-Type header check, the validation fold over the multipart parts
    and the hand-over to `createPaste`. The multipart parser and
    `JSON.parse` with the schema check are supplied as functions; the
    request body is the byte sequence the parser reads. */
module CreatePasteEndpoint {
  import opened Wrappers
  import opened Bytes
  import opened Text
  import opened Http
  import opened Store

  // ------------------------------------------------------------ constants

  const MaxBodySizeBytes: nat := 1000 * 1000

  const DefaultAllowedContentTypes: seq<string> := [
    "application/x-yaml", "application/json", "application/xml", "text/x-java-properties",
    "text/plain", "text/x-log", "text/csv"]

  /** `ALLOWED_CONTENT_TYPES`: the environment setting split on ',' when it
      is set, the default list otherwise. */
  function AllowedContentTypes(setting: Option<string>): (r: seq<string>)
    ensures setting.None? ==> r == DefaultAllowedContentTypes
    ensures setting.Some? ==> |r| >= 1 && Join(r, ',') == setting.value
    ensures setting.Some? ==> forall i | 0 <= i < |r| :: ',' !in r[i]
  {
    match setting
    case None => DefaultAllowedContentTypes
    case Some(s) => Split(s, ',')
  }

  /** The `error` values of the handler's JSON responses. */
  datatype ErrorCode =
    | MissingContentHeader | InvalidContentType | MissingRequestBody
    | NoMultipartData | NoContentType | ContentTooLarge | MalformedJson
    | InvalidRequest | ServerError

  function CodeText(code: ErrorCode): string {
    match code
    case MissingContentHeader => "missing_content_header"
    case InvalidContentType => "invalid_content_type"
    case MissingRequestBody => "missing_request_body"
    case NoMultipartData => "no_multipart_data"
    case NoContentType => "no_content_type"
    case ContentTooLarge => "content_too_large"
    case MalformedJson => "malformed_json"
    case InvalidRequest => "invalid_request"
    case ServerError => "server_error"
  }

  /** An error response before it is rendered: its code and its status. */
  datatype Rejection = Rejection(code: ErrorCode, status: nat)

  /** `Response.json({error, ...}, {status})`; the `details` text is not
      modelled. */
  function Render(rejection: Rejection): Response {
    Json(ErrorBody(CodeText(rejection.code)), rejection.status)
  }

  /** The errors the handler returns without an explicit status. */
  predicate DefaultStatusError(code: ErrorCode) {
    code.NoMultipartData? || code.NoContentType? || code.ContentTooLarge? || code.MalformedJson?
  }

  // ------------------------------------------------------------ the boundary

  const MultipartRelated: string := "multipart/related;"
  const BoundaryKey: string := "boundary="

  /** A character the capture group `[^="]` accepts. */
  predicate IsBoundaryChar(c: char) {
    c != '=' && c != '"'
  }

  /** What the greedy `[^="]+` consumes at the start of `s`: the longest
      prefix of boundary characters. */
  function BoundaryRun(s: string): (r: string)
    ensures |r| <= |s| && r == s[..|r|]
    ensures forall i | 0 <= i < |r| :: IsBoundaryChar(r[i])
    ensures |r| < |s| ==> !IsBoundaryChar(s[|r|])
  {
    if |s| > 0 && IsBoundaryChar(s[0]) then
      var rest := BoundaryRun(s[1..]);
      assert s[..1 + |rest|] == [s[0]] + rest;
      [s[0]] + rest
    else ""
  }

  /** The longest run of boundary characters in front of a character that
      is not one is exactly that run. */
  lemma {:induction false} BoundaryRunOf(run: string, tail: string)
    requires forall i | 0 <= i < |run| :: IsBoundaryChar(run[i])
    requires |tail| == 0 || !IsBoundaryChar(tail[0])
    ensures BoundaryRun(run + tail) == run
  {
    if |run| > 0 {
      assert (run + tail)[1..] == run[1..] + tail;
      BoundaryRunOf(run[1..], tail);
    } else {
      assert run + tail == tail;
    }
  }

  /** How the regular expression matched: the whitespace after the `;`,
      whether the optional quote was taken, and the captured boundary. */
  datatype BoundaryMatch = BoundaryMatch(space: string, quoted: bool, boundary: string)

  function Quote(quoted: bool): string {
    if quoted then "\"" else ""
  }

  /** `"?([^="]+)` matches at the start of `value` with the given choice of
      quote and capture: the capture is a non-empty run of boundary
      characters that the greedy group could not extend. */
  predicate IsValueMatch(value: string, quoted: bool, boundary: string) {
    var n := |Quote(quoted)| + |boundary|;
    && |boundary| >= 1
    && (forall i | 0 <= i < |boundary| :: IsBoundaryChar(boundary[i]))
    && n <= |value| && value[..n] == Quote(quoted) + boundary
    && (n == |value| || !IsBoundaryChar(value[n]))
  }

  /** The backtracking matcher on `"?([^="]+)`: the quote is taken when it
      is there and a boundary character follows it; otherwise the group has
      to start at the first character. */
  function MatchValue(value: string): (r: Option<(bool, string)>)
    ensures r.Some? ==> IsValueMatch(value, r.value.0, r.value.1)
  {
    if |value| > 0 && value[0] == '"' && |BoundaryRun(value[1..])| > 0 then
      var b := BoundaryRun(value[1..]);
      assert value[..1 + |b|] == [value[0]] + value[1..][..|b|];
      Some((true, b))
    else
      var b := BoundaryRun(value);
      if |b| > 0 then Some((false, b)) else None
  }

  /** The match of `"?([^="]+)` is unique: whatever match exists is the
      one `MatchValue` finds. */
  lemma ValueMatchUnique(value: string, quoted: bool, boundary: string)
    requires IsValueMatch(value, quoted, boundary)
    ensures MatchValue(value) == Some((quoted, boundary))
  {
    if quoted {
      QuotedUnique(value, boundary);
    } else {
      UnquotedUnique(value, boundary);
    }
  }

  lemma QuotedUnique(value: string, boundary: string)
    requires IsValueMatch(value, true, boundary)
    ensures MatchValue(value) == Some((true, boundary))
  {
    var tail := value[1 + |boundary|..];
    assert value[1..] == boundary + tail;
    BoundaryRunOf(boundary, tail);
  }

  lemma UnquotedUnique(value: string, boundary: string)
    requires IsValueMatch(value, false, boundary)
    ensures MatchValue(value) == Some((false, boundary))
  {
    var tail := value[|boundary|..];
    assert value == boundary + tail;
    BoundaryRunOf(boundary, tail);
  }

  /** The text in front of the quote: the literal start, the whitespace
      `\s*` takes, and `boundary=`. */
  function Lead(space: string): string {
    MultipartRelated + space + BoundaryKey
  }

  /** `m` is a match of `^multipart\/related;\s*boundary="?([^="]+)"?` on
      `header` (the closing quote is optional and not part of the capture). */
  predicate IsBoundaryMatch(header: string, m: BoundaryMatch) {
    && AllWhitespace(m.space)
    && StartsWith(header, Lead(m.space))
    && IsValueMatch(header[|Lead(m.space)|..], m.quoted, m.boundary)
  }

  /** Peeling a prefix, then a middle part, then a key off `s`. */
  lemma PeelThree(s: string, p: string, space: string, k: string, rest: string)
    requires StartsWith(s, p) && s[|p|..] == space + rest && StartsWith(rest, k)
    ensures StartsWith(s, p + space + k) && s[|p + space + k|..] == rest[|k|..]
  {
    assert s == p + space + rest;
    assert rest == k + rest[|k|..];
    assert s == (p + space + k) + rest[|k|..];
  }

  /** `contentTypeHeader.match(MULTIPART_RELATED_CONTENT_TYPE)`. The `\s*`
      takes all the whitespace, since a 'b' has to follow it. */
  function MatchBoundary(header: string): (r: Option<BoundaryMatch>)
    ensures r.Some? ==> IsBoundaryMatch(header, r.value)
  {
    if !StartsWith(header, MultipartRelated) then None
    else
      var after := header[|MultipartRelated|..];
      var rest := TrimStart(after);
      var space := after[..|after| - |rest|];
      if !StartsWith(rest, BoundaryKey) then None
      else
        match MatchValue(rest[|BoundaryKey|..])
        case None => None
        case Some((quoted, boundary)) =>
          TrimStartSplit(after);
          PeelThree(header, MultipartRelated, space, BoundaryKey, rest);
          Some(BoundaryMatch(space, quoted, boundary))
  }

  /** Every match of the regular expression is the one `MatchBoundary`
      finds: the match is unique, and found whenever it exists. */
  lemma BoundaryMatchComplete(header: string, m: BoundaryMatch)
    requires IsBoundaryMatch(header, m)
    ensures MatchBoundary(header) == Some(m)
  {
    var value := header[|Lead(m.space)|..];
    var rest := BoundaryKey + value;
    UnpeelThree(header, MultipartRelated, m.space, BoundaryKey);
    var after := header[|MultipartRelated|..];
    assert rest[0] == 'b';
    TrimStartPadded(m.space, rest);
    assert after[..|after| - |rest|] == m.space;
    assert StartsWith(rest, BoundaryKey) && rest[|BoundaryKey|..] == value;
    ValueMatchUnique(value, m.quoted, m.boundary);
  }

  /** The converse of `PeelThree`. */
  lemma UnpeelThree(s: string, p: string, space: string, k: string)
    requires StartsWith(s, p + space + k)
    ensures StartsWith(s, p)
    ensures s[|p|..] == space + (k + s[|p + space + k|..])
  {
    var tail := s[|p + space + k|..];
    assert s == p + space + k + tail;
    assert s == p + (space + (k + tail));
  }

  /** The boundary the handler passes to the parser: capture group 1. */
  function ParseBoundary(header: string): (r: Option<string>)
    ensures r.Some? <==> MatchBoundary(header).Some?
    ensures r.Some? ==> r.value == MatchBoundary(header).value.boundary
  {
    match MatchBoundary(header)
    case None => None
    case Some(m) => Some(m.boundary)
  }

  /** The quoted form: `multipart/related; boundary="<b>"` yields `<b>`. */
  lemma QuotedBoundary(space: string, b: string, tail: string)
    requires AllWhitespace(space)
    requires |b| >= 1 && forall i | 0 <= i < |b| :: IsBoundaryChar(b[i])
    ensures ParseBoundary(MultipartRelated + space + BoundaryKey + "\"" + b + "\"" + tail) == Some(b)
  {
    var m := BoundaryMatch(space, true, b);
    var value := "\"" + b + "\"" + tail;
    var header := Lead(space) + value;
    assert header == MultipartRelated + space + BoundaryKey + "\"" + b + "\"" + tail;
    assert header[|Lead(space)|..] == value;
    assert value[..1 + |b|] == "\"" + b;
    assert value[1 + |b|] == '"';
    BoundaryMatchComplete(header, m);
  }

  // ------------------------------------------------------------ parts

  /** A part as the multipart parser yields it: its Content-Type and
      Content-Disposition headers and its body, each possibly absent. */
  datatype Part = Part(contentType: Option<string>, disposition: Option<string>, body: Option<seq<byte>>)

  /** What the parser yields for a body: the parts, and whether reading on
      after the last of them throws. */
  datatype Multipart = Multipart(parts: seq<Part>, thenThrows: bool)

  /** `JSON.parse` followed by `CreatePasteSchema.safeParse`. */
  datatype JsonOutcome = Malformed | Invalid | Valid(application: Application, environment: Environment)

  /** The part's content type: its Content-Type header up to the first ';'. */
  function PartContentType(header: Option<string>): (r: Option<string>)
    ensures header.None? <==> r.None?
    ensures header.Some? ==> StartsWith(header.value, r.value) && ';' !in r.value
    ensures header.Some? && ';' !in header.value ==> r == header
  {
    match header
    case None => None
    case Some(h) =>
      var parts := Split(h, ';');
      assert h == Join(parts, ';');
      JoinPrefix(parts, ';');
      Some(parts[0])
  }

  /** A join begins with its first part. */
  lemma JoinPrefix(parts: seq<string>, sep: char)
    requires |parts| >= 1
    ensures StartsWith(Join(parts, sep), parts[0])
  {
    if |parts| > 1 {
      assert Join(parts, sep) == parts[0] + ([sep] + Join(parts[1..], sep));
    }
  }

  /** The position of the first entry with the given prefix (`find`). */
  function FindFirst(entries: seq<string>, prefix: string): (r: Option<nat>)
    ensures r.Some? ==> r.value < |entries| && StartsWith(entries[r.value], prefix)
    ensures r.Some? ==> forall j | 0 <= j < r.value :: !StartsWith(entries[j], prefix)
    ensures r.None? ==> forall j | 0 <= j < |entries| :: !StartsWith(entries[j], prefix)
  {
    if |entries| == 0 then None
    else if StartsWith(entries[0], prefix) then Some(0)
    else
      match FindFirst(entries[1..], prefix)
      case None => None
      case Some(i) => Some(i + 1)
  }

  /** Each part trimmed (`map(s => s.trim())`). */
  function TrimAll(parts: seq<string>): (r: seq<string>)
    ensures |r| == |parts| && forall i | 0 <= i < |r| :: r[i] == Trim(parts[i])
  {
    seq(|parts|, i requires 0 <= i < |parts| => Trim(parts[i]))
  }

  /** The Content-Disposition header split on ';', each entry trimmed. */
  function DispositionEntries(header: string): seq<string> {
    TrimAll(Split(header, ';'))
  }

  const FilenamePrefix: string := "filename"
  const NamePrefix: string := "name"

  /** The name read from the entries before its last character is dropped:
      what follows `filename="` in the first entry starting with
      "filename", or else what follows `name="` in the first entry starting
      with "name". */
  function EntryName(entries: seq<string>): (r: Option<string>)
    ensures r.None? <==> FindFirst(entries, FilenamePrefix).None? && FindFirst(entries, NamePrefix).None?
  {
    match FindFirst(entries, FilenamePrefix)
    case Some(i) => Some(SubstringFrom(entries[i], |FilenamePrefix| + 2))
    case None =>
      match FindFirst(entries, NamePrefix)
      case Some(i) => Some(SubstringFrom(entries[i], |NamePrefix| + 2))
      case None => None
  }

  /** `if (!filename)` rejects a missing or empty name; otherwise the last
      character (the closing quote) is dropped. */
  function DropClosingQuote(name: Option<string>): (r: Option<string>)
    ensures r.Some? <==> name.Some? && name.value != ""
    ensures r.Some? ==> r.value + [name.value[|name.value| - 1]] == name.value
  {
    match name
    case None => None
    case Some(n) => if n == "" then None else Some(n[..|n| - 1])
  }

  /** The attachment's file name from its Content-Disposition header. */
  function AttachmentName(header: string): Option<string> {
    DropClosingQuote(EntryName(DispositionEntries(header)))
  }

  /** `find` returns the first matching position. */
  lemma FindFirstIs(entries: seq<string>, prefix: string, i: nat)
    requires i < |entries| && StartsWith(entries[i], prefix)
    requires forall j | 0 <= j < i :: !StartsWith(entries[j], prefix)
    ensures FindFirst(entries, prefix) == Some(i)
  {
  }

  /** A header `<e0>;<pad1><e1>` splits into `<e0>` and `<pad1><e1>`. */
  lemma SplitTwo(e0: string, pad1: string, e1: string)
    requires ';' !in e0 && ';' !in pad1 + e1
    ensures Split(e0 + ";" + pad1 + e1, ';') == [e0, pad1 + e1]
  {
    var parts := [e0, pad1 + e1];
    assert Join(parts[1..], ';') == pad1 + e1;
    assert Join(parts, ';') == e0 + ";" + pad1 + e1;
    SplitJoin(parts, ';');
  }

  /** A header `<e0>;<pad1><e1>;<pad2><e2>` splits into three parts. */
  lemma SplitThree(e0: string, pad1: string, e1: string, pad2: string, e2: string)
    requires ';' !in e0 && ';' !in pad1 + e1 && ';' !in pad2 + e2
    ensures Split(e0 + ";" + pad1 + e1 + ";" + pad2 + e2, ';') == [e0, pad1 + e1, pad2 + e2]
  {
    var parts := [e0, pad1 + e1, pad2 + e2];
    assert Join(parts[2..], ';') == pad2 + e2;
    assert Join(parts[1..], ';') == pad1 + e1 + ";" + pad2 + e2;
    assert Join(parts, ';') == e0 + ";" + pad1 + e1 + ";" + pad2 + e2;
    SplitJoin(parts, ';');
  }

  /** One entry of a header as written: no separator inside and no
      whitespace at either end. */
  predicate IsEntry(e: string) {
    |e| > 0 && ';' !in e && !IsWhitespace(e[0]) && !IsWhitespace(e[|e| - 1])
  }

  /** `<key><v>"` is an entry when the key is one and `v` holds no
      separator. */
  lemma QuotedEntry(key: string, v: string)
    requires IsEntry(key) && ';' !in v
    ensures IsEntry(key + v + "\"")
  {
    var e := key + v + "\"";
    assert e[0] == key[0] && e[|e| - 1] == '"';
  }

  /** Trimming leaves an entry alone and removes a padding of spaces. */
  lemma TrimEntries(e: string, pad: string, t: string)
    requires AllWhitespace(pad)
    requires IsEntry(e) && IsEntry(t)
    ensures Trim(e) == e && Trim(pad + t) == t
  {
    TrimPadded(pad, t);
    TrimUnpadded(e);
  }

  lemma TrimAllTwo(a: string, b: string)
    ensures TrimAll([a, b]) == [Trim(a), Trim(b)]
  {
  }

  lemma TrimAllThree(a: string, b: string, c: string)
    ensures TrimAll([a, b, c]) == [Trim(a), Trim(b), Trim(c)]
  {
  }

  /** The entries of `<e0>;<pad1><e1>`. */
  lemma EntriesOfTwo(e0: string, pad1: string, e1: string)
    requires IsEntry(e0) && IsEntry(e1)
    requires ';' !in pad1 && AllWhitespace(pad1)
    ensures DispositionEntries(e0 + ";" + pad1 + e1) == [e0, e1]
  {
    assert ';' !in pad1 + e1;
    SplitTwo(e0, pad1, e1);
    TrimEntries(e0, pad1, e1);
    TrimAllTwo(e0, pad1 + e1);
  }

  /** The entries of `<e0>;<pad1><e1>;<pad2><e2>`. */
  lemma EntriesOfThree(e0: string, pad1: string, e1: string, pad2: string, e2: string)
    requires IsEntry(e0) && IsEntry(e1) && IsEntry(e2)
    requires ';' !in pad1 && ';' !in pad2 && AllWhitespace(pad1) && AllWhitespace(pad2)
    ensures DispositionEntries(e0 + ";" + pad1 + e1 + ";" + pad2 + e2) == [e0, e1, e2]
  {
    assert ';' !in pad1 + e1 && ';' !in pad2 + e2;
    SplitThree(e0, pad1, e1, pad2, e2);
    TrimEntries(e0, pad1, e1);
    TrimEntries(e0, pad2, e2);
    TrimAllThree(e0, pad1 + e1, pad2 + e2);
  }

  lemma NameEntries(n: string)
    requires ';' !in n
    ensures DispositionEntries("form-data; name=\"" + n + "\"") == ["form-data", "name=\"" + n + "\""]
  {
    var e0 := "form-data";
    var e1 := "name=\"" + n + "\"";
    assert "form-data; name=\"" + n + "\"" == e0 + ";" + " " + e1;
    QuotedEntry("name=\"", n);
    EntriesOfTwo(e0, " ", e1);
  }

  lemma FilenameEntries(n: string, f: string)
    requires ';' !in n && ';' !in f
    ensures DispositionEntries("form-data; name=\"" + n + "\"; filename=\"" + f + "\"") ==
            ["form-data", "name=\"" + n + "\"", "filename=\"" + f + "\""]
  {
    var e0 := "form-data";
    var e1 := "name=\"" + n + "\"";
    var e2 := "filename=\"" + f + "\"";
    assert "form-data; name=\"" + n + "\"; filename=\"" + f + "\"" == e0 + ";" + " " + e1 + ";" + " " + e2;
    QuotedEntry("name=\"", n);
    QuotedEntry("filename=\"", f);
    EntriesOfThree(e0, " ", e1, " ", e2);
  }

  lemma NameEntryName(e0: string, e1: string, n: string)
    requires e0 == "form-data" && e1 == "name=\"" + n + "\""
    ensures EntryName([e0, e1]) == Some(n + "\"")
  {
    assert !StartsWith(e0, FilenamePrefix) by { assert e0[1] != FilenamePrefix[1]; }
    assert !StartsWith(e1, FilenamePrefix) by { assert e1[0] != FilenamePrefix[0]; }
    assert FindFirst([e0, e1], FilenamePrefix) == None;
    assert !StartsWith(e0, NamePrefix) by { assert e0[0] != NamePrefix[0]; }
    assert e1[..|NamePrefix|] == NamePrefix;
    FindFirstIs([e0, e1], NamePrefix, 1);
    assert SubstringFrom(e1, |NamePrefix| + 2) == n + "\"";
  }

  lemma FilenameEntryName(e0: string, e1: string, e2: string, n: string, f: string)
    requires e0 == "form-data" && e1 == "name=\"" + n + "\"" && e2 == "filename=\"" + f + "\""
    ensures EntryName([e0, e1, e2]) == Some(f + "\"")
  {
    assert !StartsWith(e0, FilenamePrefix) by { assert e0[1] != FilenamePrefix[1]; }
    assert !StartsWith(e1, FilenamePrefix) by { assert e1[0] != FilenamePrefix[0]; }
    assert e2[..|FilenamePrefix|] == FilenamePrefix;
    FindFirstIs([e0, e1, e2], FilenamePrefix, 2);
    assert SubstringFrom(e2, |FilenamePrefix| + 2) == f + "\"";
  }

  /** Without a filename entry, `form-data; name="<n>"` gives `<n>`. */
  lemma FormDataName(n: string)
    requires ';' !in n
    ensures AttachmentName("form-data; name=\"" + n + "\"") == Some(n)
  {
    NameEntries(n);
    NameEntryName("form-data", "name=\"" + n + "\"", n);
  }

  /** The usual header `form-data; name="<n>"; filename="<f>"` gives `<f>`:
      the filename entry wins over the name entry in front of it. */
  lemma FormDataFilename(n: string, f: string)
    requires ';' !in n && ';' !in f
    ensures AttachmentName("form-data; name=\"" + n + "\"; filename=\"" + f + "\"") == Some(f)
  {
    FilenameEntries(n, f);
    FilenameEntryName("form-data", "name=\"" + n + "\"", "filename=\"" + f + "\"", n, f);
  }

  /** The evidently intended order of the two steps: drop the closing
      quote first, then reject an empty name, so that `name=""` is refused
      like a missing name instead of naming a file "". */
  function DropClosingQuoteIntended(name: Option<string>): (r: Option<string>)
    ensures r.Some? <==> name.Some? && |name.value| > 1
    ensures r.Some? ==> r.value != "" && r.value + [name.value[|name.value| - 1]] == name.value
  {
    match name
    case None => None
    case Some(n) => if |n| <= 1 then None else Some(n[..|n| - 1])
  }

  function AttachmentNameIntended(header: string): (r: Option<string>)
    ensures r.Some? ==> r.value != ""
  {
    DropClosingQuoteIntended(EntryName(DispositionEntries(header)))
  }

  /** With the corrected order, `form-data; name="<n>"` names the attachment
      n when n is non-empty and is refused when it is empty. */
  lemma FormDataNameIntended(n: string)
    requires ';' !in n
    ensures AttachmentNameIntended("form-data; name=\"" + n + "\"") == if n == "" then None else Some(n)
  {
    NameEntries(n);
    NameEntryName("form-data", "name=\"" + n + "\"", n);
    assert (n + "\"")[..|n|] == n;
  }

  // ------------------------------------------------------------ the part loop

  /** The loop variables: `position`, `readBytes` and `data`. */
  datatype State = State(position: nat, readBytes: nat, data: Option<CreatePasteData>)

  const Start: State := State(0, 0, None)

  /** An error the loop returns: the default status exactly for the errors
      sent without one, and status 400 with invalid_request otherwise. */
  predicate LoopError(rejection: Rejection) {
    && (rejection.status == DefaultStatus <==> DefaultStatusError(rejection.code))
    && (rejection.status == DefaultStatus || (rejection.status == 400 && rejection.code.InvalidRequest?))
  }

  /** What the loop reads from a part: its content type (the Content-Type
      header up to the first ';'), its attachment name (none without a
      Content-Disposition header: the handler answers a missing header and
      a missing name alike), and its body. The headers are parsed once
      here; parsing them is pure, so reading them up front changes
      nothing. */
  datatype PartView = PartView(contentType: Option<string>, name: Option<string>, body: Option<seq<byte>>)

  function View(part: Part): PartView {
    PartView(
      PartContentType(part.contentType),
      match part.disposition
      case None => None
      case Some(header) => AttachmentName(header),
      part.body)
  }

  function Views(parts: seq<Part>): (r: seq<PartView>)
    ensures |r| == |parts| && forall i | 0 <= i < |parts| :: r[i] == View(parts[i])
  {
    seq(|parts|, i requires 0 <= i < |parts| => View(parts[i]))
  }

  /** The checks every part passes first: a body, a non-empty content type,
      and the running byte count above zero and within the limit. Yields the
      content type, the body and the new count. */
  function Measure(readBytes: nat, part: PartView): (r: Result<(string, seq<byte>, nat), Rejection>)
  {
    if part.body.None? then Failure(Rejection(NoMultipartData, DefaultStatus))
    else if part.contentType.None? || part.contentType.value == "" then Failure(Rejection(NoContentType, DefaultStatus))
    else
      var count := readBytes + |part.body.value|;
      if count == 0 || count > MaxBodySizeBytes then Failure(Rejection(ContentTooLarge, DefaultStatus))
      else Success((part.contentType.value, part.body.value, count))
  }

  /** The first part: JSON paste information, which starts the paste data. */
  function AcceptJson(contentType: string, body: seq<byte>, count: nat, parseJson: seq<byte> -> JsonOutcome)
    : (r: Result<State, Rejection>)
  {
    if contentType == "application/json" then
      match parseJson(body)
      case Malformed => Failure(Rejection(MalformedJson, DefaultStatus))
      case Invalid => Failure(Rejection(InvalidRequest, 400))
      case Valid(application, environment) =>
        Success(State(1, count, Some(CreatePasteData(application, environment, []))))
    else Failure(Rejection(InvalidRequest, 400))
  }

  /** A later part: an attachment with an allowed content type and a name
      not used before. */
  function AcceptFile(st: State, contentType: string, body: seq<byte>, count: nat,
                      name: Option<string>, allowed: seq<string>): (r: Result<State, Rejection>)
  {
    if contentType !in allowed then Failure(Rejection(InvalidRequest, 400))
    else if name.None? then Failure(Rejection(InvalidRequest, 400))
    else if st.data.Some? && name.value in Filenames(st.data.value.files) then Failure(Rejection(InvalidRequest, 400))
    else
      var data := match st.data
        case None => None
        case Some(d) => Some(d.(files := d.files + [Attachment(name.value, body)]));
      Success(State(st.position + 1, count, data))
  }

  /** One iteration of the `for await` loop, with the checks in the order
      the handler makes them. A failure is the response the handler
      returns. */
  function Step(st: State, part: PartView, allowed: seq<string>, parseJson: seq<byte> -> JsonOutcome)
    : (r: Result<State, Rejection>)
  {
    var (contentType, body, count) :- Measure(st.readBytes, part);
    if st.position == 0 then AcceptJson(contentType, body, count, parseJson)
    else AcceptFile(st, contentType, body, count, part.name, allowed)
  }

  /** The loop over the parts the parser yields, up to the first part that
      makes the handler return. */
  function Validate(parts: seq<PartView>, allowed: seq<string>, parseJson: seq<byte> -> JsonOutcome)
    : Result<State, Rejection>
  {
    if |parts| == 0 then Success(Start)
    else
      var st :- Validate(parts[..|parts| - 1], allowed, parseJson);
      Step(st, parts[|parts| - 1], allowed, parseJson)
  }

  /** The bytes of the parts' bodies, summed (`readBytes`). */
  function TotalBytes(parts: seq<PartView>): nat {
    if |parts| == 0 then 0
    else TotalBytes(parts[..|parts| - 1]) + (match parts[|parts| - 1].body case Some(b) => |b| case None => 0)
  }

  /** The first part: the JSON paste information. */
  predicate JsonPartAccepted(part: PartView, parseJson: seq<byte> -> JsonOutcome) {
    && part.body.Some?
    && part.contentType == Some("application/json")
    && parseJson(part.body.value).Valid?
  }

  /** An attachment part: a body, an allowed non-empty content type, and a
      name. */
  predicate FilePartAccepted(part: PartView, allowed: seq<string>) {
    && part.body.Some?
    && part.contentType.Some?
    && part.contentType.value != ""
    && part.contentType.value in allowed
    && part.name.Some?
  }

  /** The attachment an accepted file part contributes. */
  function AttachmentOf(part: PartView): Attachment
    requires part.name.Some? && part.body.Some?
  {
    Attachment(part.name.value, part.body.value)
  }

  /** The attachments of accepted file parts, in order. */
  function Attachments(parts: seq<PartView>): (r: seq<Attachment>)
    requires forall i | 0 <= i < |parts| :: parts[i].name.Some? && parts[i].body.Some?
    ensures |r| == |parts| && forall i | 0 <= i < |parts| :: r[i] == AttachmentOf(parts[i])
  {
    seq(|parts|, i requires 0 <= i < |parts| => AttachmentOf(parts[i]))
  }

  /** Adding a name not yet present keeps the names distinct. */
  lemma DistinctFilenamesAppend(files: seq<Attachment>, f: Attachment)
    requires DistinctFilenames(files) && f.filename !in Filenames(files)
    ensures DistinctFilenames(files + [f])
  {
    DistinctFilenamesAt(files);
    DistinctFilenamesAt(files + [f]);
    var all := files + [f];
    forall i, j | 0 <= i < j < |all| ensures all[i].filename != all[j].filename {
      if j < |files| {
        assert all[i] == files[i] && all[j] == files[j];
      } else {
        assert all[i] == files[i];
      }
    }
  }

  /** The first part is accepted exactly when it is the JSON paste
      information with a non-empty body within the limit; it starts the
      paste data with no files. */
  lemma StepFirst(part: PartView, allowed: seq<string>, parseJson: seq<byte> -> JsonOutcome)
    ensures Step(Start, part, allowed, parseJson).Success? <==>
              JsonPartAccepted(part, parseJson) && 0 < |part.body.value| <= MaxBodySizeBytes
    ensures Step(Start, part, allowed, parseJson).Success? ==>
              var json := parseJson(part.body.value);
              Step(Start, part, allowed, parseJson).value ==
                State(1, |part.body.value|, Some(CreatePasteData(json.application, json.environment, [])))
  {
  }

  /** A later part is accepted exactly when it is an attachment part within
      the limit whose name is new; it appends its attachment. */
  lemma StepFile(st: State, part: PartView, allowed: seq<string>, parseJson: seq<byte> -> JsonOutcome)
    requires st.position > 0 && st.data.Some?
    ensures Step(st, part, allowed, parseJson).Success? <==>
              && FilePartAccepted(part, allowed)
              && 0 < st.readBytes + |part.body.value| <= MaxBodySizeBytes
              && AttachmentOf(part).filename !in Filenames(st.data.value.files)
    ensures Step(st, part, allowed, parseJson).Success? ==>
              var d := st.data.value;
              Step(st, part, allowed, parseJson).value ==
                State(st.position + 1, st.readBytes + |part.body.value|,
                      Some(d.(files := d.files + [AttachmentOf(part)])))
  {
  }

  /** Every rejection the loop body returns is one of the errors sent with
      the default status or invalid_request with status 400. */
  lemma StepRejects(st: State, part: PartView, allowed: seq<string>, parseJson: seq<byte> -> JsonOutcome)
    ensures Step(st, part, allowed, parseJson).Failure? ==> LoopError(Step(st, part, allowed, parseJson).error)
  {
  }

  lemma {:induction false} ValidateRejects(parts: seq<PartView>, allowed: seq<string>, parseJson: seq<byte> -> JsonOutcome)
    ensures Validate(parts, allowed, parseJson).Failure? ==> LoopError(Validate(parts, allowed, parseJson).error)
  {
    if |parts| > 0 {
      var init := parts[..|parts| - 1];
      ValidateRejects(init, allowed, parseJson);
      if Validate(init, allowed, parseJson).Success? {
        StepRejects(Validate(init, allowed, parseJson).value, parts[|parts| - 1], allowed, parseJson);
      }
    }
  }

  /** The counters after a successful loop: one position per part, the
      bytes of all bodies, and paste data once a part was read. */
  lemma {:induction false} ValidateCounts(parts: seq<PartView>, allowed: seq<string>, parseJson: seq<byte> -> JsonOutcome)
    requires Validate(parts, allowed, parseJson).Success?
    ensures var st := Validate(parts, allowed, parseJson).value;
            && st.position == |parts|
            && st.readBytes == TotalBytes(parts)
            && (st.data.Some? <==> |parts| > 0)
            && (|parts| > 0 ==> 0 < TotalBytes(parts) <= MaxBodySizeBytes)
  {
    if |parts| > 0 {
      var init := parts[..|parts| - 1];
      ValidateCounts(init, allowed, parseJson);
      var st := Validate(init, allowed, parseJson).value;
      if |init| == 0 {
        StepFirst(parts[|parts| - 1], allowed, parseJson);
      } else {
        StepFile(st, parts[|parts| - 1], allowed, parseJson);
      }
    }
  }

  /** After a successful loop the first part was the JSON paste information
      with a non-empty body, and the paste data holds what it parsed to. */
  lemma {:induction false} ValidateFirst(parts: seq<PartView>, allowed: seq<string>, parseJson: seq<byte> -> JsonOutcome)
    requires Validate(parts, allowed, parseJson).Success? && |parts| > 0
    ensures JsonPartAccepted(parts[0], parseJson) && |parts[0].body.value| > 0
    ensures var data := Validate(parts, allowed, parseJson).value.data;
            var json := parseJson(parts[0].body.value);
            data.Some? && data.value.application == json.application && data.value.environment == json.environment
  {
    var init := parts[..|parts| - 1];
    var last := parts[|parts| - 1];
    ValidateCounts(init, allowed, parseJson);
    var st := Validate(init, allowed, parseJson).value;
    if |init| == 0 {
      StepFirst(last, allowed, parseJson);
    } else {
      ValidateFirst(init, allowed, parseJson);
      StepFile(st, last, allowed, parseJson);
      assert init[0] == parts[0];
    }
  }

  lemma AttachmentsAppend(parts: seq<PartView>, last: PartView)
    requires forall i | 0 <= i < |parts| :: parts[i].name.Some? && parts[i].body.Some?
    requires last.name.Some? && last.body.Some?
    ensures Attachments(parts + [last]) == Attachments(parts) + [AttachmentOf(last)]
  {
    var all := parts + [last];
    assert forall i | 0 <= i < |parts| :: all[i] == parts[i];
  }

  /** The attachments of the later parts grow by the last part's. */
  lemma AttachmentsOfLater(parts: seq<PartView>, init: seq<PartView>)
    requires |parts| > 1 && init == parts[..|parts| - 1]
    requires forall i | 1 <= i < |parts| :: parts[i].name.Some? && parts[i].body.Some?
    ensures forall i | 0 <= i < |parts| - 1 :: parts[1..][i].name.Some? && parts[1..][i].body.Some?
    ensures forall i | 0 <= i < |init| - 1 :: init[1..][i].name.Some? && init[1..][i].body.Some?
    ensures Attachments(parts[1..]) == Attachments(init[1..]) + [AttachmentOf(parts[|parts| - 1])]
  {
    assert parts[1..] == init[1..] + [parts[|parts| - 1]];
    AttachmentsAppend(init[1..], parts[|parts| - 1]);
  }

  /** Later parts stay accepted when one more accepted part follows. */
  lemma LaterPartsAccepted(parts: seq<PartView>, init: seq<PartView>, allowed: seq<string>)
    requires |parts| > 1 && init == parts[..|parts| - 1]
    requires forall i | 1 <= i < |init| :: FilePartAccepted(init[i], allowed)
    requires FilePartAccepted(parts[|parts| - 1], allowed)
    ensures forall i | 1 <= i < |parts| :: FilePartAccepted(parts[i], allowed)
  {
    assert forall i | 1 <= i < |init| :: parts[i] == init[i];
  }

  /** After a successful loop every later part was an attachment part. */
  lemma {:induction false} ValidateFileParts(parts: seq<PartView>, allowed: seq<string>, parseJson: seq<byte> -> JsonOutcome)
    requires Validate(parts, allowed, parseJson).Success?
    ensures forall i | 1 <= i < |parts| :: FilePartAccepted(parts[i], allowed)
  {
    if |parts| > 1 {
      var init := parts[..|parts| - 1];
      ValidateCounts(init, allowed, parseJson);
      ValidateFileParts(init, allowed, parseJson);
      StepFile(Validate(init, allowed, parseJson).value, parts[|parts| - 1], allowed, parseJson);
      LaterPartsAccepted(parts, init, allowed);
    }
  }

  /** After a successful loop the paste data holds the later parts'
      attachments, in order. */
  lemma {:induction false} ValidateFiles(parts: seq<PartView>, allowed: seq<string>, parseJson: seq<byte> -> JsonOutcome)
    requires Validate(parts, allowed, parseJson).Success? && |parts| > 0
    ensures forall i | 0 <= i < |parts| - 1 :: parts[1..][i].name.Some? && parts[1..][i].body.Some?
    ensures var data := Validate(parts, allowed, parseJson).value.data;
            data.Some? && data.value.files == Attachments(parts[1..])
  {
    ValidateFileParts(parts, allowed, parseJson);
    var init := parts[..|parts| - 1];
    var last := parts[|parts| - 1];
    ValidateCounts(init, allowed, parseJson);
    var st := Validate(init, allowed, parseJson).value;
    if |init| == 0 {
      StepFirst(last, allowed, parseJson);
      assert parts[1..] == [];
    } else {
      ValidateFiles(init, allowed, parseJson);
      StepFile(st, last, allowed, parseJson);
      AttachmentsOfLater(parts, init);
    }
  }

  /** After a successful loop no file name occurs twice. */
  lemma {:induction false} ValidateDistinct(parts: seq<PartView>, allowed: seq<string>, parseJson: seq<byte> -> JsonOutcome)
    requires Validate(parts, allowed, parseJson).Success? && |parts| > 0
    ensures var data := Validate(parts, allowed, parseJson).value.data;
            data.Some? && DistinctFilenames(data.value.files)
  {
    var init := parts[..|parts| - 1];
    var last := parts[|parts| - 1];
    ValidateCounts(init, allowed, parseJson);
    var st := Validate(init, allowed, parseJson).value;
    if |init| == 0 {
      StepFirst(last, allowed, parseJson);
    } else {
      ValidateDistinct(init, allowed, parseJson);
      StepFile(st, last, allowed, parseJson);
      DistinctFilenamesAppend(st.data.value.files, AttachmentOf(last));
    }
  }

  /** Parts the loop accepts, stated without the loop: the JSON part first
      with a non-empty body, then attachment parts under pairwise distinct
      names, all within the size limit. */
  predicate Acceptable(parts: seq<PartView>, allowed: seq<string>, parseJson: seq<byte> -> JsonOutcome) {
    |parts| > 0 ==>
      && JsonPartAccepted(parts[0], parseJson)
      && |parts[0].body.value| > 0
      && TotalBytes(parts) <= MaxBodySizeBytes
      && (forall i | 1 <= i < |parts| :: FilePartAccepted(parts[i], allowed))
      && (forall i, j | 1 <= i < j < |parts| :: parts[i].name != parts[j].name)
  }

  /** The loop accepts exactly the acceptable parts. */
  lemma ValidateAcceptsIff(parts: seq<PartView>, allowed: seq<string>, parseJson: seq<byte> -> JsonOutcome)
    ensures Validate(parts, allowed, parseJson).Success? <==> Acceptable(parts, allowed, parseJson)
  {
    if Validate(parts, allowed, parseJson).Success? {
      ValidateSucceedsAcceptable(parts, allowed, parseJson);
    }
    if Acceptable(parts, allowed, parseJson) {
      AcceptableSucceeds(parts, allowed, parseJson);
    }
  }

  lemma ValidateSucceedsAcceptable(parts: seq<PartView>, allowed: seq<string>, parseJson: seq<byte> -> JsonOutcome)
    requires Validate(parts, allowed, parseJson).Success?
    ensures Acceptable(parts, allowed, parseJson)
  {
    if |parts| > 0 {
      ValidateCounts(parts, allowed, parseJson);
      ValidateFirst(parts, allowed, parseJson);
      ValidateFileParts(parts, allowed, parseJson);
      ValidateFiles(parts, allowed, parseJson);
      ValidateDistinct(parts, allowed, parseJson);
      DistinctNames(parts, Validate(parts, allowed, parseJson).value.data.value.files);
    }
  }

  /** Parts whose attachments carry distinct file names carry distinct
      names. */
  lemma DistinctNames(parts: seq<PartView>, files: seq<Attachment>)
    requires |parts| > 0
    requires forall i | 0 <= i < |parts| - 1 :: parts[1..][i].name.Some? && parts[1..][i].body.Some?
    requires files == Attachments(parts[1..]) && DistinctFilenames(files)
    ensures forall i, j | 1 <= i < j < |parts| :: parts[i].name != parts[j].name
  {
    DistinctFilenamesAt(files);
    forall i, j | 1 <= i < j < |parts| ensures parts[i].name != parts[j].name {
      assert parts[1..][i - 1] == parts[i] && parts[1..][j - 1] == parts[j];
    }
  }

  /** Dropping the last part keeps the parts acceptable, and the last
      part's name differs from those of the earlier attachment parts. */
  lemma AcceptablePrefix(parts: seq<PartView>, init: seq<PartView>, allowed: seq<string>,
                         parseJson: seq<byte> -> JsonOutcome)
    requires |parts| > 0 && init == parts[..|parts| - 1]
    requires Acceptable(parts, allowed, parseJson)
    ensures Acceptable(init, allowed, parseJson)
    ensures |init| > 0 ==> forall i | 0 <= i < |init[1..]| :: init[1..][i].name != parts[|parts| - 1].name
  {
    assert forall i | 0 <= i < |init| :: init[i] == parts[i];
  }

  /** Acceptable parts pass the loop, by induction on the number of parts. */
  lemma {:induction false} AcceptableSucceeds(parts: seq<PartView>, allowed: seq<string>, parseJson: seq<byte> -> JsonOutcome)
    requires Acceptable(parts, allowed, parseJson)
    ensures Validate(parts, allowed, parseJson).Success?
  {
    if |parts| > 0 {
      var init := parts[..|parts| - 1];
      var last := parts[|parts| - 1];
      AcceptablePrefix(parts, init, allowed, parseJson);
      AcceptableSucceeds(init, allowed, parseJson);
      ValidateCounts(init, allowed, parseJson);
      var st := Validate(init, allowed, parseJson).value;
      if |init| == 0 {
        StepFirst(last, allowed, parseJson);
      } else {
        ValidateFiles(init, allowed, parseJson);
        StepFile(st, last, allowed, parseJson);
        LastNameIsNew(init[1..], last);
      }
    }
  }

  /** A name that differs from every earlier part's is not among their
      attachments' names. */
  lemma LastNameIsNew(earlier: seq<PartView>, last: PartView)
    requires forall i | 0 <= i < |earlier| :: earlier[i].name.Some? && earlier[i].body.Some?
    requires last.name.Some? && last.body.Some?
    requires forall i | 0 <= i < |earlier| :: earlier[i].name != last.name
    ensures AttachmentOf(last).filename !in Filenames(Attachments(earlier))
  {
  }

  // ------------------------------------------------------------ the endpoint

  /** What the handler reads from the request: the Content-Type header and
      the body stream, each possibly absent. */
  datatype Request = Request(contentType: Option<string>, body: Option<seq<byte>>)

  /** The setting and the library functions the handler relies on:
      `ALLOWED_CONTENT_TYPES`, the multipart parser for a body and a
      boundary, `JSON.parse` with the schema check, and the file system's
      answers to the folder creation and the file writes after the commit
      (see `Store.FilesWritten`). */
  datatype Context = Context(
    allowed: seq<string>,
    parseMultipart: (seq<byte>, string) -> Multipart,
    parseJson: seq<byte> -> JsonOutcome,
    makeFolder: string -> bool,
    writeFile: (string, string) -> bool)

  /** The header checks in front of the loop: the boundary and the body,
      or the rejection the handler returns. */
  function ReadRequest(request: Request): (r: Result<(string, seq<byte>), Rejection>)
    ensures r.Failure? ==> r.error.status == 400
    ensures request.contentType.None? || request.contentType == Some("") ==>
              r == Failure(Rejection(MissingContentHeader, 400))
    ensures r.Success? <==> && request.contentType.Some?
                            && MatchBoundary(request.contentType.value).Some?
                            && request.body.Some?
    ensures r.Success? ==> r.value == (MatchBoundary(request.contentType.value).value.boundary, request.body.value)
  {
    if request.contentType.None? || request.contentType.value == "" then
      Failure(Rejection(MissingContentHeader, 400))
    else
      match ParseBoundary(request.contentType.value)
      case None => Failure(Rejection(InvalidContentType, 400))
      case Some(boundary) =>
        if request.body.None? then Failure(Rejection(MissingRequestBody, 400))
        else Success((boundary, request.body.value))
  }

  /** The loop, the `catch` around it, and `data!`: the paste data to
      store, or the rejection. A parser that throws after the parts it
      yielded is answered with invalid_request, and a body without parts
      leaves no data, so `createPaste` fails with server_error. */
  function Collect(multipart: Multipart, ctx: Context): (r: Result<CreatePasteData, Rejection>)
  {
    var st :- Validate(Views(multipart.parts), ctx.allowed, ctx.parseJson);
    if multipart.thenThrows then Failure(Rejection(InvalidRequest, 400))
    else if st.data.None? then Failure(Rejection(ServerError, 500))
    else Success(st.data.value)
  }

  /** The paste data acceptable parts describe: the application and the
      environment of the JSON part and one attachment per later part. */
  function PasteDataOf(parts: seq<PartView>, allowed: seq<string>, parseJson: seq<byte> -> JsonOutcome)
    : CreatePasteData
    requires |parts| > 0 && Acceptable(parts, allowed, parseJson)
  {
    assert forall i | 0 <= i < |parts| - 1 :: parts[1..][i] == parts[i + 1];
    var json := parseJson(parts[0].body.value);
    CreatePasteData(json.application, json.environment, Attachments(parts[1..]))
  }

  /** The handler gets paste data exactly when the parser yields a
      non-empty acceptable list of parts and does not throw, and the data
      is what the parts describe. */
  lemma CollectSucceedsIff(multipart: Multipart, ctx: Context)
    ensures var parts := Views(multipart.parts);
            Collect(multipart, ctx).Success? <==>
              !multipart.thenThrows && |parts| > 0 && Acceptable(parts, ctx.allowed, ctx.parseJson)
    ensures var parts := Views(multipart.parts);
            Collect(multipart, ctx).Success? ==>
              Collect(multipart, ctx).value == PasteDataOf(parts, ctx.allowed, ctx.parseJson)
  {
    var parts := Views(multipart.parts);
    ValidateAcceptsIff(parts, ctx.allowed, ctx.parseJson);
    if Validate(parts, ctx.allowed, ctx.parseJson).Success? {
      ValidateCounts(parts, ctx.allowed, ctx.parseJson);
      if |parts| > 0 {
        ValidateFirst(parts, ctx.allowed, ctx.parseJson);
        ValidateFiles(parts, ctx.allowed, ctx.parseJson);
      }
    }
  }

  /** The rejections on the way to the paste data: the loop's own, then
      invalid_request for a parser that throws, then server_error for a body
      without parts. */
  lemma CollectRejects(multipart: Multipart, ctx: Context)
    ensures var v := Validate(Views(multipart.parts), ctx.allowed, ctx.parseJson);
            && (v.Failure? ==> Collect(multipart, ctx) == Failure(v.error) && LoopError(v.error))
            && (v.Success? && multipart.thenThrows ==> Collect(multipart, ctx) == Failure(Rejection(InvalidRequest, 400)))
            && (!multipart.thenThrows && multipart.parts == [] ==> Collect(multipart, ctx) == Failure(Rejection(ServerError, 500)))
  {
    ValidateRejects(Views(multipart.parts), ctx.allowed, ctx.parseJson);
  }

  /** `createPaste(data!)`: the id when the transaction commits and the
      files are written. A failed transaction is answered with server_error
      and leaves the database as it was; a failed write after the commit is
      answered with server_error too, but the paste stays stored. */
  function Commit(db: Db, data: CreatePasteData, draw: (nat, nat) -> DigitIndex, fuel: nat, now: string, ctx: Context)
    : (r: (Db, Response))
    ensures var (db', result) := CreatePaste(db, data, draw, fuel, now);
            && (r.1.body.IdBody? <==>
                  result.Success? && FilesWritten(result.value, data.files, ctx.makeFolder, ctx.writeFile))
            && r.0 == db'
    ensures r.1.body.IdBody? ==> r.1 == Json(IdBody(r.1.body.id), DefaultStatus)
                                 && IsPasteId(r.1.body.id) && r.1.body.id !in db.pastes
                                 && Transaction(db, r.1.body.id, data, now) == Success(r.0)
    ensures !r.1.body.IdBody? ==> r.1 == Render(Rejection(ServerError, 500))
  {
    var (db', result) := CreatePaste(db, data, draw, fuel, now);
    match result
    case Success(id) =>
      if FilesWritten(id, data.files, ctx.makeFolder, ctx.writeFile) then (db', Json(IdBody(id), DefaultStatus))
      else (db', Render(Rejection(ServerError, 500)))
    case Failure(_) => (db, Render(Rejection(ServerError, 500)))
  }

  /** The paste data a request carries: the header checks, then the parser
      and the loop over its parts, or the rejection that ends them. */
  function RequestData(request: Request, ctx: Context): (r: Result<CreatePasteData, Rejection>)
    ensures r.Success? <==>
              && ReadRequest(request).Success?
              && var multipart := ctx.parseMultipart(ReadRequest(request).value.1, ReadRequest(request).value.0);
                 var parts := Views(multipart.parts);
                 !multipart.thenThrows && |parts| > 0 && Acceptable(parts, ctx.allowed, ctx.parseJson)
  {
    var (boundary, body) :- ReadRequest(request);
    CollectSucceedsIff(ctx.parseMultipart(body, boundary), ctx);
    Collect(ctx.parseMultipart(body, boundary), ctx)
  }

  /** `CreatePasteEndpoint`: the header checks, the loop over the parts and
      `createPaste`. The database changes only when the transaction
      commits, which the client learns from the id or, when a file write
      then fails, not at all. */
  function HandleCreatePaste(request: Request, ctx: Context, db: Db, draw: (nat, nat) -> DigitIndex,
                             fuel: nat, now: string): (r: (Db, Response))
    ensures || r.1.body.IdBody?
            || r.0 == db
            || (&& r.1 == Render(Rejection(ServerError, 500))
                && RequestData(request, ctx).Success?
                && var (db', result) := CreatePaste(db, RequestData(request, ctx).value, draw, fuel, now);
                   result.Success? && r.0 == db')
    ensures r.1.body.IdBody? ==> r.1.status == DefaultStatus && IsPasteId(r.1.body.id) && r.1.body.id !in db.pastes
    ensures !r.1.body.IdBody? ==> r.1.body.ErrorBody? && r.1.headers == map[]
  {
    match RequestData(request, ctx)
    case Failure(rejection) => (db, Render(rejection))
    case Success(data) => Commit(db, data, draw, fuel, now, ctx)
  }

  /** The header errors, in the order the handler checks them, each
      answered with status 400 and the database unchanged. */
  lemma HandleHeaderErrors(request: Request, ctx: Context, db: Db, draw: (nat, nat) -> DigitIndex,
                           fuel: nat, now: string)
    ensures var r := HandleCreatePaste(request, ctx, db, draw, fuel, now);
            && (request.contentType.None? || request.contentType == Some("") ==>
                  r == (db, Render(Rejection(MissingContentHeader, 400))))
            && (request.contentType.Some? && request.contentType.value != "" &&
                MatchBoundary(request.contentType.value).None? ==>
                  r == (db, Render(Rejection(InvalidContentType, 400))))
            && (request.contentType.Some? && MatchBoundary(request.contentType.value).Some? &&
                request.body.None? ==>
                  r == (db, Render(Rejection(MissingRequestBody, 400))))
  {
  }

  /** The response carries an id exactly when the headers pass, the parts
      are accepted, `createPaste` commits on the paste data they describe,
      and the files are written. The database is the one the transaction
      leaves whenever it commits, the id or not. */
  lemma HandleStoresIff(request: Request, ctx: Context, db: Db, draw: (nat, nat) -> DigitIndex,
                        fuel: nat, now: string)
    ensures var r := HandleCreatePaste(request, ctx, db, draw, fuel, now);
            var data := RequestData(request, ctx);
            && (r.1.body.IdBody? <==>
                  && data.Success?
                  && CreatePaste(db, data.value, draw, fuel, now).1.Success?
                  && FilesWritten(CreatePaste(db, data.value, draw, fuel, now).1.value, data.value.files,
                                  ctx.makeFolder, ctx.writeFile))
            && (data.Success? ==> r.0 == CreatePaste(db, data.value, draw, fuel, now).0)
            && (data.Failure? ==> r.0 == db)
    ensures var r := HandleCreatePaste(request, ctx, db, draw, fuel, now);
            r.1.body.IdBody? ==>
              var multipart := ctx.parseMultipart(ReadRequest(request).value.1, ReadRequest(request).value.0);
              var parts := Views(multipart.parts);
              && !multipart.thenThrows && |parts| > 0 && Acceptable(parts, ctx.allowed, ctx.parseJson)
              && Transaction(db, r.1.body.id, PasteDataOf(parts, ctx.allowed, ctx.parseJson), now) == Success(r.0)
  {
    var r := HandleCreatePaste(request, ctx, db, draw, fuel, now);
    if ReadRequest(request).Success? {
      var (boundary, body) := ReadRequest(request).value;
      CollectSucceedsIff(ctx.parseMultipart(body, boundary), ctx);
    }
  }

  /** As written, an attachment sent as `form-data; name=""` is accepted
      under the empty file name (`FormDataName`). The paste commits; then
      the write to `path.join(folder, "")`, which is the paste folder
      itself, fails, and the client gets server_error for a paste that is
      stored. */
  lemma EmptyNameStoredButRejected(request: Request, ctx: Context, db: Db, draw: (nat, nat) -> DigitIndex,
                                   fuel: nat, now: string, i: nat)
    requires RequestData(request, ctx).Success?
    requires i < |RequestData(request, ctx).value.files| && RequestData(request, ctx).value.files[i].filename == ""
    requires CreatePaste(db, RequestData(request, ctx).value, draw, fuel, now).1.Success?
    requires forall id :: !ctx.writeFile(id, "")
    ensures var r := HandleCreatePaste(request, ctx, db, draw, fuel, now);
            var id := CreatePaste(db, RequestData(request, ctx).value, draw, fuel, now).1.value;
            && r.1 == Render(Rejection(ServerError, 500))
            && id !in db.pastes && id in r.0.pastes
  {
    var data := RequestData(request, ctx).value;
    var (db', result) := CreatePaste(db, data, draw, fuel, now);
    assert !FilesWritten(result.value, data.files, ctx.makeFolder, ctx.writeFile) by {
      assert !ctx.writeFile(result.value, data.files[i].filename);
    }
    TransactionEffect(db, result.value, data, now);
  }
}
