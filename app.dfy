/**
 * The logic of the abstract base class `App` (src/server/App.php) that its
 * subclasses use: the hand-written multipart/form-data parser behind
 * `ParsePHPInput`, which fills `$_PUT`, `$_PATCH` or `$_DELETE` and
 * `$_FILES`, and `GetPathParameter`.
 *
 * The parser takes its delimiter from the body's first line rather than
 * from the `boundary=` parameter of the Content-Type header; a body without
 * such a line goes to `parse_str` whole.
 */
module App {
  import opened Wrappers
  import opened PhpStrings
  import opened Http

  // ---------------------------------------------------------------------
  // The Content-Disposition regular expression
  //   /^(.+); *name="([^"]+)"(; *filename="([^"]+)")?/
  // ---------------------------------------------------------------------

  /** What the regular expression captures: `<kind>; name="<name>"[; filename="<file>"]`. */
  datatype Disposition = Disposition(kind: string, name: string, filename: Option<string>)

  /** The end of the run of spaces from `i` (the ` *` of the pattern). */
  function SkipSpaces(s: string, i: nat): (r: nat)
    requires i <= |s|
    ensures i <= r <= |s|
    ensures forall k :: i <= k < r ==> s[k] == ' '
    ensures r < |s| ==> s[r] != ' '
    decreases |s| - i
  {
    if i < |s| && s[i] == ' ' then SkipSpaces(s, i + 1) else i
  }

  /** The end of the run of characters other than `"` from `i` (the `[^"]+`). */
  function QuoteFree(s: string, i: nat): (r: nat)
    requires i <= |s|
    ensures i <= r <= |s|
    ensures forall k :: i <= k < r ==> s[k] != '"'
    ensures r < |s| ==> s[r] == '"'
    decreases |s| - i
  {
    if i < |s| && s[i] != '"' then QuoteFree(s, i + 1) else i
  }

  /** `[^"]+"` from `i`: a non-empty quote-free text closed by a quote, and
      the index just after that quote. */
  function Quoted(s: string, i: nat): (r: Option<(string, nat)>)
    requires i <= |s|
    ensures r.Some? ==> i < r.value.1 <= |s|
  {
    var e := QuoteFree(s, i);
    if i < e < |s| then Some((s[i..e], e + 1)) else None
  }

  /** `; *<key>="<value>"` starting at `i`. */
  function ParamAt(s: string, i: nat, key: string): (r: Option<(string, nat)>)
    requires i <= |s|
    ensures r.Some? ==> i < r.value.1 <= |s|
  {
    if i < |s| && s[i] == ';' then
      var j := SkipSpaces(s, i + 1);
      if MatchAt(s, key + "=\"", j) then Quoted(s, j + |key| + 2) else None
    else None
  }

  /** The index of the first line feed, or the length: `.` does not match `\n`. */
  function LineEnd(s: string): (r: nat)
    ensures r <= |s|
    ensures forall k :: 0 <= k < r ==> s[k] != '\n'
    ensures r < |s| ==> s[r] == '\n'
  {
    match Find(s, "\n")
    case Some(k) => NoFeedBefore(s, k); k
    case None => NoFeedBefore(s, |s|); |s|
  }

  /** Where `"\n"` does not occur, no character is a line feed. */
  lemma NoFeedBefore(s: string, n: nat)
    requires n <= |s| && forall j :: 0 <= j < n ==> !MatchAt(s, "\n", j)
    ensures forall k :: 0 <= k < n ==> s[k] != '\n'
  {
    forall k | 0 <= k < n
      ensures s[k] != '\n'
    {
      assert !MatchAt(s, "\n", k);
      assert s[k..k + 1] == [s[k]];
    }
  }

  /** The optional `(; *filename="([^"]+)")?` right after the name. */
  function SearchFile(s: string, e: nat): Option<string>
    requires e <= |s|
  {
    match ParamAt(s, e, "filename")
    case Some((f, _)) => Some(f)
    case None => None
  }

  /** The greedy `^(.+)` tries the longest group first: `i` is the candidate
      end of the first group, tried from the longest down to one character. */
  function SearchDisposition(s: string, i: nat): Option<Disposition>
    requires i <= |s|
    decreases i
  {
    if i == 0 then None
    else
      match ParamAt(s, i, "name")
      case Some((n, e)) => Some(Disposition(s[..i], n, SearchFile(s, e)))
      case None => SearchDisposition(s, i - 1)
  }

  /** `preg_match` of the Content-Disposition pattern; `None` when it does not match. */
  function ParseDisposition(s: string): Option<Disposition>
  {
    SearchDisposition(s, LineEnd(s))
  }

  /** The header value a client library writes for a disposition. */
  function RenderDisposition(d: Disposition): string
  {
    d.kind + "; name=\"" + d.name + "\""
      + match d.filename
        case Some(f) => "; filename=\"" + f + "\""
        case None => ""
  }

  // ---------------------------------------------------------------------
  // Part headers
  // ---------------------------------------------------------------------

  /** `list($name, $value) = explode(':', $header)`: the name, and the text
      between the first and the second `:`, or `None` (PHP's null) when the
      line has no `:` at all. */
  function SplitHeader(line: string): (string, Option<string>)
  {
    var pieces := Explode(":", line);
    (pieces[0], if |pieces| >= 2 then Some(pieces[1]) else None)
  }

  function HeaderName(line: string): string
  {
    SplitHeader(line).0
  }

  function HeaderRawValue(line: string): Option<string>
  {
    SplitHeader(line).1
  }

  /** `strtolower($name)`. */
  function HeaderKey(line: string): string
  {
    ToLower(HeaderName(line))
  }

  /** `ltrim($value, ' ')`, where a missing value reads as "". */
  function HeaderValue(line: string): string
  {
    LTrim(HeaderRawValue(line).GetOr(""), {' '})
  }

  /** The header table built from the first `n` lines; a later line
      overwrites an earlier one. */
  function HeadersUpTo(lines: seq<string>, n: nat): map<string, string>
    requires n <= |lines|
  {
    if n == 0 then map[]
    else HeadersUpTo(lines, n - 1)[HeaderKey(lines[n - 1]) := HeaderValue(lines[n - 1])]
  }

  function Headers(lines: seq<string>): map<string, string>
  {
    HeadersUpTo(lines, |lines|)
  }

  // ---------------------------------------------------------------------
  // Parts and the whole body
  // ---------------------------------------------------------------------

  /** What the loop over the parts has built so far: `$data`, `$_FILES`, and
      the error that stopped it, if any. */
  datatype PartState = PartState(data: FormData, files: map<string, FileInfo>, error: Option<string>)

  /** The PHP `Error` raised by `$data[$name][] = ...` when `$data[$name]` is a string. */
  const ListOnStringError := "[] operator not supported for strings"

  /** The delimiter that ends the body. */
  const Closing := "--\r\n"

  /** `explode("\r\n\r\n", $part, 2)`: header block and body; the body is
      empty (PHP's null) when there is no blank line. */
  function SplitHead(part: string): (string, string)
  {
    match Find(part, "\r\n\r\n")
    case Some(k) => (part[..k], part[k + 4..])
    case None => (part, "")
  }

  /** `substr($body, 0, strlen($body) - 2)`: the body without its last two bytes. */
  function FieldValue(body: string): string
  {
    if |body| >= 2 then body[..|body| - 2] else ""
  }

  /** A file part: recorded unless a file of that field name is already known. */
  function AddFile(st: PartState, key: string, filename: string, body: string,
                   mimeType: Option<string>, tempnam: string -> string): PartState
  {
    if key in st.files then st
    else st.(files := st.files[key := FileInfo(0, filename, tempnam(filename), |body|, mimeType)])
  }

  /** A field part: `name[]` appends to a list, any other name overwrites. */
  function AddField(st: PartState, name: string, value: string): PartState
  {
    if EndsWith(name, "[]") then
      var key := name[..|name| - 2];
      if key !in st.data then st.(data := st.data[key := List([value])])
      else
        match st.data[key]
        case List(items) => st.(data := st.data[key := List(items + [value])])
        case Text(_) => st.(error := Some(ListOnStringError))
    else st.(data := st.data[name := Text(value)])
  }

  /** A file part of a name already in `$_FILES` changes nothing; otherwise
      it adds exactly that entry: error 0, the client's file name, the
      temporary name, the size of the whole body and the given type. */
  lemma FileFirstWins(st: PartState, key: string, filename: string, body: string,
                      mimeType: Option<string>, tempnam: string -> string)
    ensures var r := AddFile(st, key, filename, body, mimeType, tempnam);
      && (key in st.files ==> r == st)
      && (key !in st.files ==>
            && r.data == st.data && r.error == st.error
            && r.files.Keys == st.files.Keys + {key}
            && r.files[key] == FileInfo(0, filename, tempnam(filename), |body|, mimeType)
            && forall k :: k in st.files ==> r.files[k] == st.files[k])
  {
  }

  /** `name[]` appends the value to the list under the stripped name, a
      plain name replaces its value; no other key and no file changes. */
  lemma FieldStored(st: PartState, name: string, value: string)
    requires st.error.None?
    ensures var r := AddField(st, name, value);
      var key := if EndsWith(name, "[]") then name[..|name| - 2] else name;
      && r.files == st.files
      && (forall k :: k != key ==> (k in r.data <==> k in st.data) && (k in st.data ==> r.data[k] == st.data[k]))
      && (r.error.Some? <==> EndsWith(name, "[]") && key in st.data && st.data[key].Text?)
      && (r.error.None? && EndsWith(name, "[]") ==>
            r.data[key] == List((if key in st.data then st.data[key].items else []) + [value]))
      && (!EndsWith(name, "[]") ==> r.data[key] == Text(value))
  {
  }

  /** One part, from the text after a delimiter up to the next one. */
  function ParsePart(part: string, st: PartState, tempnam: string -> string): PartState
  {
    var halves := SplitHead(LTrim(part, {'\r', '\n'}));
    var head, body := halves.0, halves.1;
    var lines := Explode("\r\n", head);
    var headers := Headers(lines);
    if "content-disposition" !in headers then st
    else
      var d := ParseDisposition(headers["content-disposition"]);
      if d.Some? && d.value.filename.Some? then
        AddFile(st, d.value.name, d.value.filename.value, body, HeaderRawValue(Last(lines)), tempnam)
      else
        AddField(st, if d.Some? then d.value.name else "", FieldValue(body))
  }

  /** The parts in order, stopping at the closing delimiter or at an error. */
  function ParseParts(parts: seq<string>, st: PartState, tempnam: string -> string): PartState
    decreases |parts|
  {
    if parts == [] || parts[0] == Closing then st
    else
      var next := ParsePart(parts[0], st, tempnam);
      if next.error.Some? then next else ParseParts(parts[1..], next, tempnam)
  }

  /** One step of the loop over the parts. */
  lemma PartsStep(parts: seq<string>, st: PartState, tempnam: string -> string)
    requires parts != [] && parts[0] != Closing
    requires ParsePart(parts[0], st, tempnam).error.None?
    ensures ParseParts(parts, st, tempnam) == ParseParts(parts[1..], ParsePart(parts[0], st, tempnam), tempnam)
  {
  }

  /** The bytes before the first CRLF; "" when there is none (`substr` of `false`). */
  function Delimiter(raw: string): string
  {
    match Find(raw, "\r\n")
    case Some(k) => raw[..k]
    case None => ""
  }

  /** PHP's `empty()` on a string. */
  predicate PhpEmpty(s: string)
  {
    s == "" || s == "0"
  }

  /** What `ParsePHPInput` computes from the raw body and the current `$_FILES`:
      the new method bucket, the new `$_FILES`, and the error that aborted it. */
  function ParseBody(raw: string, files: map<string, FileInfo>,
                     parseStr: string -> FormData, tempnam: string -> string): PartState
  {
    var delimiter := Delimiter(raw);
    if PhpEmpty(delimiter) then PartState(parseStr(raw), files, None)
    else ParseParts(Explode(delimiter, raw)[1..], PartState(map[], files, None), tempnam)
  }

  /** The methods whose body `ParsePHPInput` parses. */
  const BodyMethods: set<string> := {"PUT", "PATCH", "DELETE"}

  /** The header loop of `ParsePHPInput`: the header table of one part and
      the raw value of its last line (which PHP's `$value` still holds after
      the loop, and which becomes a file's `type`). */
  method ParseHeaders(head: string) returns (headers: map<string, string>, lastValue: Option<string>)
    ensures headers == Headers(Explode("\r\n", head))
    ensures lastValue == HeaderRawValue(Last(Explode("\r\n", head)))
  {
    var lines := Explode("\r\n", head);
    headers := map[];
    lastValue := None;
    var i := 0;
    while i < |lines|
      invariant 0 <= i <= |lines|
      invariant headers == HeadersUpTo(lines, i)
      invariant i > 0 ==> lastValue == HeaderRawValue(lines[i - 1])
    {
      var split := SplitHeader(lines[i]);
      var name, value := split.0, split.1;
      lastValue := value;
      headers := headers[ToLower(name) := LTrim(value.GetOr(""), {' '})];
      i := i + 1;
    }
  }

  /** The body of the loop over the parts in `ParsePHPInput`, for a part
      other than the closing one: updates `$data` and `$_FILES`, or stops
      with the error PHP raises. */
  method ParseOnePart(part: string, data: FormData, rt: Runtime) returns (data': FormData, error: Option<string>)
    modifies rt`files
    ensures PartState(data', rt.files, error) == ParsePart(part, PartState(data, old(rt.files), None), rt.tempnam)
  {
    ghost var st := PartState(data, rt.files, None);
    data' := data;
    error := None;
    var trimmed := LTrim(part, {'\r', '\n'});
    var halves := SplitHead(trimmed);
    var head, body := halves.0, halves.1;
    var headers, lastValue := ParseHeaders(head);
    if "content-disposition" in headers {
      var d := ParseDisposition(headers["content-disposition"]);
      if d.Some? && d.value.filename.Some? {
        var key := d.value.name;
        // a file field seen before is skipped: the first one wins
        if key !in rt.files {
          var filename := d.value.filename.value;
          rt.files := rt.files[key := FileInfo(0, filename, rt.tempnam(filename), |body|, lastValue)];
        }
        assert PartState(data', rt.files, error) == AddFile(st, key, d.value.filename.value, body, lastValue, rt.tempnam);
      } else {
        var name := if d.Some? then d.value.name else "";
        var value := FieldValue(body);
        if EndsWith(name, "[]") {
          var key := name[..|name| - 2];
          // `$data[$key][] = $value` creates the list when the key is new
          if key !in data {
            data' := data[key := List([value])];
          } else {
            match data[key] {
              case List(items) =>
                data' := data[key := List(items + [value])];
              case Text(_) =>
                error := Some(ListOnStringError);
            }
          }
        } else {
          data' := data[name := Text(value)];
        }
        assert PartState(data', rt.files, error) == AddField(st, name, value);
      }
    }
  }

  /** `ParsePHPInput`: for PUT, PATCH and DELETE, parse `php://input` into
      the method's bucket and `$_FILES`; an error leaves the bucket alone
      but keeps the files recorded before it. */
  method ParsePHPInput(request: Request, rt: Runtime) returns (error: Option<string>)
    modifies rt`buckets, rt`files
    ensures request.httpMethod !in BodyMethods ==>
      error == None && rt.buckets == old(rt.buckets) && rt.files == old(rt.files)
    ensures request.httpMethod in BodyMethods ==>
      var r := ParseBody(rt.input, old(rt.files), rt.parseStr, rt.tempnam);
      && error == r.error
      && rt.files == r.files
      && rt.buckets == if r.error.None? then old(rt.buckets)[request.httpMethod := r.data] else old(rt.buckets)
  {
    if request.httpMethod !in BodyMethods {
      return None;
    }
    var raw := rt.input;
    var delimiter := Delimiter(raw);
    if delimiter == "" || delimiter == "0" {
      rt.buckets := rt.buckets[request.httpMethod := rt.parseStr(raw)];
      return None;
    }
    var parts := Explode(delimiter, raw)[1..];
    ghost var start := PartState(map[], old(rt.files), None);
    var data: FormData := map[];
    var i := 0;
    while i < |parts|
      invariant 0 <= i <= |parts|
      invariant rt.buckets == old(rt.buckets)
      invariant ParseParts(parts, start, rt.tempnam) == ParseParts(parts[i..], PartState(data, rt.files, None), rt.tempnam)
    {
      if parts[i] == Closing {
        break;
      }
      assert parts[i..][1..] == parts[i + 1..];
      var failure;
      data, failure := ParseOnePart(parts[i], data, rt);
      if failure.Some? {
        return failure;
      }
      i := i + 1;
    }
    rt.buckets := rt.buckets[request.httpMethod := data];
    return None;
  }

  // ---------------------------------------------------------------------
  // GetPathParameter
  // ---------------------------------------------------------------------

  /** `'/' . $Resource . '\/(.*)/'` interpolates the attribute as a string:
      null gives "", an array gives "Array". */
  function ResourceName(request: Request): string
  {
    if "resource_name" !in request.attributes then ""
    else
      match request.attributes["resource_name"]
      case Str(s) => s
      case Strs(_) => "Array"
  }

  /** `GetPathParameter`: `None` stands for `false`. The text after the first
      `<resource>/` in the path, up to a line feed (`.*` stops there). */
  function GetPathParameter(held: Option<Request>): (r: Option<string>)
    ensures held.None? ==> r.None?
    // `.*` never takes a line feed, and the parameter is strictly shorter
    // than the path it was cut from
    ensures r.Some? ==> held.Some? && '\n' !in r.value && |r.value| < |held.value.path|
  {
    match held
    case None => None
    case Some(request) =>
      var marker := ResourceName(request) + "/";
      match Find(request.path, marker)
      case None => None
      case Some(k) =>
        var rest := request.path[k + |marker|..];
        Some(rest[..LineEnd(rest)])
  }

  /** The parameter is everything after the first `<resource>/` of the path,
      when no line feed follows it. */
  lemma PathParameterFollowsResource(request: Request, before: string, rest: string)
    requires request.path == before + (ResourceName(request) + "/") + rest
    requires forall j :: 0 <= j < |before| ==> !MatchAt(request.path, ResourceName(request) + "/", j)
    requires '\n' !in rest
    ensures GetPathParameter(Some(request)) == Some(rest)
  {
    var marker := ResourceName(request) + "/";
    var path := request.path;
    assert path[|before|..|before| + |marker|] == marker;
    FindFirst(path, marker, |before|);
    assert path[|before| + |marker|..] == rest;
    forall j | 0 <= j < |rest|
      ensures !MatchAt(rest, "\n", j)
    {
      assert rest[j] != '\n';
    }
    assert Find(rest, "\n").None?;
    assert LineEnd(rest) == |rest|;
    assert rest[..|rest|] == rest;
  }

  /** A path without `<resource>/` has no parameter, and neither has an
      application that holds no request yet. */
  lemma NoPathParameter(held: Option<Request>)
    requires held.Some? ==>
      forall j :: 0 <= j <= |held.value.path| ==> !MatchAt(held.value.path, ResourceName(held.value) + "/", j)
    ensures GetPathParameter(held) == None
  {
  }

  /** The part that reaches the header table under a key is the last line
      with that key; a key no line has is absent. */
  lemma {:induction false} HeadersLastWins(lines: seq<string>, n: nat, j: nat)
    requires j < n <= |lines|
    requires forall k :: j < k < n ==> HeaderKey(lines[k]) != HeaderKey(lines[j])
    ensures HeaderKey(lines[j]) in HeadersUpTo(lines, n)
    ensures HeadersUpTo(lines, n)[HeaderKey(lines[j])] == HeaderValue(lines[j])
    decreases n
  {
    if j < n - 1 {
      HeadersLastWins(lines, n - 1, j);
    }
  }

  lemma {:induction false} HeadersKeys(lines: seq<string>, n: nat, key: string)
    requires n <= |lines|
    ensures key in HeadersUpTo(lines, n) <==> exists j :: 0 <= j < n && HeaderKey(lines[j]) == key
    decreases n
  {
    if n > 0 {
      HeadersKeys(lines, n - 1, key);
      if HeaderKey(lines[n - 1]) == key {
        assert key in HeadersUpTo(lines, n);
      }
    }
  }

  /** A file recorded before a part is never replaced or dropped by it. */
  lemma PartKeepsFiles(part: string, st: PartState, tempnam: string -> string)
    ensures var next := ParsePart(part, st, tempnam);
      forall k :: k in st.files ==> k in next.files && next.files[k] == st.files[k]
  {
  }

  /** `$_FILES` only grows: an entry known before the body is parsed, or
      recorded by an earlier part, keeps its value (the first file of a
      name wins). */
  lemma {:induction false} PartsKeepFiles(parts: seq<string>, st: PartState, tempnam: string -> string)
    ensures var r := ParseParts(parts, st, tempnam);
      forall k :: k in st.files ==> k in r.files && r.files[k] == st.files[k]
    decreases |parts|
  {
    if parts != [] && parts[0] != Closing {
      var next := ParsePart(parts[0], st, tempnam);
      PartKeepsFiles(parts[0], st, tempnam);
      if next.error.None? {
        PartsKeepFiles(parts[1..], next, tempnam);
      }
    }
  }

  lemma BodyKeepsFiles(raw: string, files: map<string, FileInfo>,
                       parseStr: string -> FormData, tempnam: string -> string)
    ensures var r := ParseBody(raw, files, parseStr, tempnam);
      forall k :: k in files ==> k in r.files && r.files[k] == files[k]
  {
    var delimiter := Delimiter(raw);
    if !PhpEmpty(delimiter) {
      PartsKeepFiles(Explode(delimiter, raw)[1..], PartState(map[], files, None), tempnam);
    }
  }

  /** A body without a CRLF is not multipart: it goes to `parse_str` whole
      and no file is recorded. */
  lemma UrlEncodedBody(raw: string, files: map<string, FileInfo>,
                       parseStr: string -> FormData, tempnam: string -> string)
    requires forall j :: 0 <= j < |raw| ==> !MatchAt(raw, "\r\n", j)
    ensures ParseBody(raw, files, parseStr, tempnam) == PartState(parseStr(raw), files, None)
  {
    assert Find(raw, "\r\n").None?;
  }

  /** The one failure: a `name[]` field after a plain field of the same name. */
  lemma {:induction false} PartsFailOnlyOnListOverText(parts: seq<string>, st: PartState, tempnam: string -> string)
    requires st.error.None?
    ensures var r := ParseParts(parts, st, tempnam);
      r.error.Some? ==> r.error == Some(ListOnStringError)
    decreases |parts|
  {
    if parts != [] && parts[0] != Closing {
      var next := ParsePart(parts[0], st, tempnam);
      if next.error.None? {
        PartsFailOnlyOnListOverText(parts[1..], next, tempnam);
      }
    }
  }

  // ---------------------------------------------------------------------
  // Reading back a Content-Disposition value
  // ---------------------------------------------------------------------

  /** No character of `t` is in `banned`. */
  predicate Avoids(t: string, banned: set<char>)
  {
    forall k :: 0 <= k < |t| ==> t[k] !in banned
  }

  /** A disposition a client can write so that the pattern reads it back:
      a non-empty kind without `;`, a non-empty name and file name without
      quotes or `;`, and no line feed anywhere. */
  predicate Readable(d: Disposition)
  {
    && |d.kind| > 0 && Avoids(d.kind, {';', '\n'})
    && |d.name| > 0 && Avoids(d.name, {'"', ';', '\n'})
    && (d.filename.Some? ==> |d.filename.value| > 0 && Avoids(d.filename.value, {'"', ';', '\n'}))
  }

  /** Candidate ends of the first group at which `; *name="..."` does not
      match are passed over by the greedy search. */
  lemma {:induction false} SearchPassesOver(s: string, lo: nat, hi: nat)
    requires lo <= hi <= |s|
    requires forall i :: lo < i <= hi ==> ParamAt(s, i, "name").None?
    ensures SearchDisposition(s, hi) == SearchDisposition(s, lo)
    decreases hi
  {
    if hi > lo {
      SearchStep(s, hi);
      SearchPassesOver(s, lo, hi - 1);
    }
  }

  lemma SearchStep(s: string, i: nat)
    requires 0 < i <= |s| && ParamAt(s, i, "name").None?
    ensures SearchDisposition(s, i) == SearchDisposition(s, i - 1)
  {
  }

  /** The greedy search stops at the first candidate, from the right, where the name matches. */
  lemma SearchStopsAt(s: string, i: nat)
    requires 0 < i <= |s| && ParamAt(s, i, "name").Some?
    ensures var m := ParamAt(s, i, "name").value;
      SearchDisposition(s, i) == Some(Disposition(s[..i], m.0, SearchFile(s, m.1)))
  {
  }

  /** `<text>"` from `i` is read as the quoted text `t`. */
  lemma QuotedReads(s: string, i: nat, t: string)
    requires i + |t| < |s| && |t| > 0
    requires s[i..i + |t|] == t && s[i + |t|] == '"' && Avoids(t, {'"'})
    ensures Quoted(s, i) == Some((t, i + |t| + 1))
  {
    assert forall k :: i <= k < i + |t| ==> s[k] == t[k - i];
  }

  lemma AvoidsConcat(a: string, b: string, banned: set<char>)
    requires Avoids(a, banned) && Avoids(b, banned)
    ensures Avoids(a + b, banned)
  {
    forall k | 0 <= k < |a + b|
      ensures (a + b)[k] !in banned
    {
      if k >= |a| {
        assert (a + b)[k] == b[k - |a|];
      }
    }
  }

  /** `" name=\"<name>\""` and `" filename=\"<file>\""`: the text after each `;`. */
  function ParamText(key: string, value: string): string
  {
    " " + key + "=\"" + value + "\""
  }

  lemma ParamTextAvoids(key: string, value: string, c: char)
    requires Avoids(key, {c}) && Avoids(value, {c}) && c != ' ' && c != '=' && c != '"'
    ensures Avoids(ParamText(key, value), {c})
  {
    AvoidsConcat(" ", key, {c});
    AvoidsConcat(" " + key, "=\"", {c});
    AvoidsConcat(" " + key + "=\"", value, {c});
    AvoidsConcat(" " + key + "=\"" + value, "\"", {c});
  }

  /** Without a line feed, `.` runs to the end of the text. */
  lemma LineEndWithoutFeed(s: string)
    requires Avoids(s, {'\n'})
    ensures LineEnd(s) == |s|
  {
    forall k | 0 <= k < |s|
      ensures !MatchAt(s, "\n", k)
    {
      if k + 1 <= |s| {
        assert s[k..k + 1][0] == s[k];
      }
    }
  }

  /** Where the kind, the name and the file name sit in a rendered disposition. */
  lemma RenderedSlices(d: Disposition)
    ensures var s := RenderDisposition(d);
      var off := |d.kind|;
      var e := off + 9 + |d.name|;
      && e <= |s|
      && s[..off] == d.kind
      && s[off..off + 8] == "; name=\""
      && s[off + 8..e - 1] == d.name
      && s[e - 1] == '"'
      && (d.filename.None? ==> |s| == e)
      && (d.filename.Some? ==> s[e..] == "; filename=\"" + d.filename.value + "\"")
  {
    var s := RenderDisposition(d);
    var tail := if d.filename.Some? then "; filename=\"" + d.filename.value + "\"" else "";
    assert s == d.kind + "; name=\"" + d.name + "\"" + tail;
  }

  /** A rendered disposition is the kind and its parameters, each after a `;`. */
  lemma RenderedParams(d: Disposition)
    ensures RenderDisposition(d) ==
      d.kind + ";" + ParamText("name", d.name)
        + (if d.filename.Some? then ";" + ParamText("filename", d.filename.value) else "")
  {
    NameParamText(d.name);
    if d.filename.Some? {
      FileParamText(d.filename.value);
    }
  }

  lemma NameParamText(name: string)
    ensures "; name=\"" + name + "\"" == ";" + ParamText("name", name)
  {
  }

  lemma FileParamText(file: string)
    ensures "; filename=\"" + file + "\"" == ";" + ParamText("filename", file)
  {
  }

  /** A rendered disposition has no line feed. */
  lemma RenderedNoFeed(d: Disposition)
    requires Readable(d)
    ensures Avoids(RenderDisposition(d), {'\n'})
  {
    var nameText := ParamText("name", d.name);
    var tail := if d.filename.Some? then ";" + ParamText("filename", d.filename.value) else "";
    RenderedParams(d);
    ParamTextAvoids("name", d.name, '\n');
    AvoidsConcat(d.kind, ";", {'\n'});
    AvoidsConcat(d.kind + ";", nameText, {'\n'});
    if d.filename.Some? {
      ParamTextAvoids("filename", d.filename.value, '\n');
      AvoidsConcat(";", ParamText("filename", d.filename.value), {'\n'});
    }
    AvoidsConcat(d.kind + ";" + nameText, tail, {'\n'});
  }

  /** Past the `;` that follows the kind, a rendered disposition has no
      further `;` up to the end of the name, nor past the one before the
      file name. */
  lemma RenderedSemicolons(d: Disposition)
    requires Readable(d)
    ensures var s := RenderDisposition(d);
      var off := |d.kind|;
      var e := off + 9 + |d.name|;
      && e <= |s|
      && Avoids(s[off + 1..e], {';'})
      && (d.filename.Some? ==> Avoids(s[e + 1..], {';'}))
  {
    var s := RenderDisposition(d);
    var nameText := ParamText("name", d.name);
    var tail := if d.filename.Some? then ";" + ParamText("filename", d.filename.value) else "";
    RenderedParams(d);
    assert s == d.kind + ";" + nameText + tail;
    assert s[|d.kind| + 1..|d.kind| + 9 + |d.name|] == nameText;
    ParamTextAvoids("name", d.name, ';');
    if d.filename.Some? {
      assert s[|d.kind| + 10 + |d.name|..] == ParamText("filename", d.filename.value);
      ParamTextAvoids("filename", d.filename.value, ';');
    }
  }

  /** `; name="<name>"` at `off` is read as the name. */
  lemma NameParamReads(s: string, off: nat, name: string)
    requires off + 9 + |name| <= |s| && |name| > 0 && Avoids(name, {'"'})
    requires s[off..off + 8] == "; name=\"" && s[off + 8..off + 8 + |name|] == name
    requires s[off + 8 + |name|] == '"'
    ensures ParamAt(s, off, "name") == Some((name, off + 9 + |name|))
  {
    assert s[off] == ';' && s[off + 1] == ' ' && s[off + 2] == 'n';
    assert SkipSpaces(s, off + 1) == off + 2;
    assert s[off + 2..off + 8] == "name=\"";
    QuotedReads(s, off + 8, name);
  }

  /** `; filename="<file>"` at `e` is read as the file name. */
  lemma FileParamReads(s: string, e: nat, f: string)
    requires e <= |s| && s[e..] == "; filename=\"" + f + "\"" && |f| > 0 && Avoids(f, {'"'})
    ensures SearchFile(s, e) == Some(f)
  {
    assert s[e] == ';' && s[e + 1] == ' ' && s[e + 2] == 'f';
    assert SkipSpaces(s, e + 1) == e + 2;
    assert s[e + 2..e + 12] == s[e..][2..12] == "filename=\"";
    assert s[e..][12..12 + |f|] == f;
    assert s[e + 12..e + 12 + |f|] == s[e..][12..12 + |f|];
    QuotedReads(s, e + 12, f);
  }

  /** Past the name, the only `;` is the one before `filename`, where
      `name=` cannot follow. */
  lemma NoNameParamAfter(s: string, off: nat, e: nat)
    requires off < e <= |s| && Avoids(s[off + 1..e], {';'})
    requires e < |s| ==> e + 3 <= |s| && s[e..e + 3] == "; f" && Avoids(s[e + 1..], {';'})
    ensures SearchDisposition(s, |s|) == SearchDisposition(s, off)
  {
    forall i | off < i <= |s|
      ensures ParamAt(s, i, "name").None?
    {
      if i < |s| && i != e {
        if i < e {
          assert s[i] == s[off + 1..e][i - off - 1];
        } else {
          assert s[i] == s[e + 1..][i - e - 1];
        }
      } else if i == e < |s| {
        assert s[e + 1] == ' ' && s[e + 2] == 'f';
        assert SkipSpaces(s, i + 1) == i + 2;
      }
    }
    SearchPassesOver(s, off, |s|);
  }

  /** In a rendered disposition the greedy search ends at the kind. */
  lemma RenderedSearch(d: Disposition)
    requires Readable(d)
    ensures ParseDisposition(RenderDisposition(d)) == SearchDisposition(RenderDisposition(d), |d.kind|)
  {
    var s := RenderDisposition(d);
    var off := |d.kind|;
    var e := off + 9 + |d.name|;
    RenderedSlices(d);
    RenderedNoFeed(d);
    RenderedSemicolons(d);
    LineEndWithoutFeed(s);
    if d.filename.Some? {
      assert s[e..][..3] == "; f";
      assert s[e..e + 3] == "; f";
    }
    NoNameParamAfter(s, off, e);
  }

  /** `<kind>; name="<name>"` followed by `; filename="<file>"` or by
      nothing is read back as those three. */
  lemma FieldsRead(s: string, d: Disposition)
    requires Readable(d)
    requires var off := |d.kind|;
      var e := off + 9 + |d.name|;
      && e <= |s|
      && s[..off] == d.kind
      && s[off..off + 8] == "; name=\""
      && s[off + 8..e - 1] == d.name
      && s[e - 1] == '"'
      && (d.filename.None? ==> |s| == e)
      && (d.filename.Some? ==> s[e..] == "; filename=\"" + d.filename.value + "\"")
    ensures SearchDisposition(s, |d.kind|) == Some(d)
  {
    var off := |d.kind|;
    var e := off + 9 + |d.name|;
    NameParamReads(s, off, d.name);
    SearchStopsAt(s, off);
    var file := SearchFile(s, e);
    if d.filename.Some? {
      FileParamReads(s, e, d.filename.value);
    } else {
      assert ParamAt(s, e, "filename") == None;
    }
    assert file == d.filename;
    assert SearchDisposition(s, off) == Some(Disposition(d.kind, d.name, file));
  }

  /** The pattern reads back every readable disposition. */
  lemma DispositionRoundTrip(d: Disposition)
    requires Readable(d)
    ensures ParseDisposition(RenderDisposition(d)) == Some(d)
  {
    RenderedSearch(d);
    RenderedSlices(d);
    FieldsRead(RenderDisposition(d), d);
  }
}
