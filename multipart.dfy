/**
 * What a client sends as `multipart/form-data` (RFC 7578, with the
 * delimiter syntax of section 5.1.1 of RFC 2046) for a list of plain text
 * fields, and the proof that the body parser of `ParsePHPInput` reads it
 * back: every field under its name, a later field of the same name
 * replacing an earlier one.
 */
module Multipart {
  import opened Wrappers
  import opened PhpStrings
  import opened Http
  import opened App

  /** A plain text field as a client sends it. */
  datatype Field = Field(name: string, value: string)

  /** The header a client writes for a field part. */
  const HeaderName := "Content-Disposition"

  /** The value of that header for a plain field. */
  function DispositionValue(name: string): string
  {
    RenderDisposition(Disposition("form-data", name, None))
  }

  /** One part as it follows a delimiter: CRLF, the header, a blank line,
      the value and the CRLF that belongs to the next delimiter. */
  function FieldPart(f: Field): string
  {
    "\r\n" + (HeaderName + ": " + DispositionValue(f.name)) + "\r\n\r\n" + f.value + "\r\n"
  }

  /** The parts after the opening delimiter, each followed by a delimiter,
      and the closing `--` CRLF. */
  function EncodeParts(fields: seq<Field>, delimiter: string): string
  {
    if fields == [] then Closing
    else FieldPart(fields[0]) + delimiter + EncodeParts(fields[1..], delimiter)
  }

  /** The whole body for the given boundary. */
  function EncodeForm(fields: seq<Field>, boundary: string): string
  {
    "--" + boundary + EncodeParts(fields, "--" + boundary)
  }

  /** The form the fields describe: a later field replaces an earlier one of the same name. */
  function FormOf(data: FormData, fields: seq<Field>): FormData
    decreases |fields|
  {
    if fields == [] then data
    else FormOf(data[fields[0].name := Text(fields[0].value)], fields[1..])
  }

  /** The parts as the parser sees them once the body is split. */
  function Parts(fields: seq<Field>): (r: seq<string>)
    ensures |r| == |fields|
    ensures forall i :: 0 <= i < |fields| ==> r[i] == FieldPart(fields[i])
  {
    if fields == [] then [] else [FieldPart(fields[0])] + Parts(fields[1..])
  }

  /** A field name the server reads back as written: non-empty, without a
      quote, `;`, `:`, CR or LF, and not ending in `[]`. */
  predicate PlainName(name: string)
  {
    && |name| > 0
    && Avoids(name, {'"', ';', ':', '\r', '\n'})
    && !EndsWith(name, "[]")
  }

  /** A boundary as RFC 2046 allows it, as far as the parser cares: non-empty, without CR or LF. */
  predicate PlainBoundary(boundary: string)
  {
    |boundary| > 0 && Avoids(boundary, {'\r', '\n'})
  }

  /** Section 5.1.1 of RFC 2046: the delimiter does not occur in any part. */
  ghost predicate Encapsulated(fields: seq<Field>, delimiter: string)
  {
    forall i, j :: 0 <= i < |fields| ==> !MatchAt(FieldPart(fields[i]), delimiter, j)
  }

  ghost predicate Sendable(fields: seq<Field>, boundary: string)
  {
    && |fields| > 0
    && PlainBoundary(boundary)
    && (forall i :: 0 <= i < |fields| ==> PlainName(fields[i].name))
    && Encapsulated(fields, "--" + boundary)
  }

  // ---------------------------------------------------------------------
  // Splitting the body at the delimiter
  // ---------------------------------------------------------------------

  /** A delimiter without LF cannot start inside a text that ends in LF
      and run past it. */
  lemma NoStraddle(x: string, sep: string, y: string)
    requires |x| > 0 && x[|x| - 1] == '\n' && Avoids(sep, {'\n'})
    requires forall j :: !MatchAt(x, sep, j)
    ensures forall j :: 0 <= j < |x| ==> !MatchAt(x + sep + y, sep, j)
  {
    var s := x + sep + y;
    forall j | 0 <= j < |x|
      ensures !MatchAt(s, sep, j)
    {
      if j + |sep| > |s| {
      } else if j + |sep| <= |x| {
        assert s[j..j + |sep|] == x[j..j + |sep|];
        assert !MatchAt(x, sep, j);
      } else {
        assert s[j..j + |sep|][|x| - 1 - j] == x[|x| - 1];
        assert sep[|x| - 1 - j] !in {'\n'};
      }
    }
  }

  /** The closing `--` CRLF holds no delimiter. */
  lemma ClosingFree(boundary: string)
    requires PlainBoundary(boundary)
    ensures forall j :: !MatchAt(Closing, "--" + boundary, j)
  {
    var sep := "--" + boundary;
    forall j
      ensures !MatchAt(Closing, sep, j)
    {
      if 0 <= j && j + |sep| <= |Closing| {
        assert Closing[j..j + |sep|][2] == Closing[j + 2] != boundary[0] == sep[2];
      }
    }
  }

  lemma {:induction false} ExplodeParts(fields: seq<Field>, boundary: string)
    requires PlainBoundary(boundary)
    requires Encapsulated(fields, "--" + boundary)
    ensures Explode("--" + boundary, EncodeParts(fields, "--" + boundary))
      == Parts(fields) + [Closing]
    decreases |fields|
  {
    var sep := "--" + boundary;
    AvoidsConcat("--", boundary, {'\n'});
    if fields == [] {
      ClosingFree(boundary);
      ExplodeWhole(sep, Closing);
    } else {
      var x := FieldPart(fields[0]);
      var y := EncodeParts(fields[1..], sep);
      assert Encapsulated(fields[1..], sep) by {
        forall i, j | 0 <= i < |fields[1..]|
          ensures !MatchAt(FieldPart(fields[1..][i]), sep, j)
        {
          assert fields[1..][i] == fields[i + 1];
        }
      }
      ExplodeParts(fields[1..], boundary);
      assert forall j :: !MatchAt(x, sep, j) by {
        assert forall j :: !MatchAt(FieldPart(fields[0]), sep, j);
      }
      NoStraddle(x, sep, y);
      ExplodeCons(sep, x, y);
    }
  }

  // ---------------------------------------------------------------------
  // Reading one field part
  // ---------------------------------------------------------------------

  lemma HeaderNameLower()
    ensures ToLower(HeaderName) == "content-disposition"
  {
    var lower := ToLower(HeaderName);
    assert |lower| == 19;
    forall k | 0 <= k < 19
      ensures lower[k] == "content-disposition"[k]
    {
      assert lower[k] == LowerChar(HeaderName[k]);
    }
  }

  /** `ltrim($part, "\r\n")` drops the CRLF that ends the delimiter line. */
  lemma TrimDelimiterEnd(t: string)
    requires |t| > 0 && t[0] != '\r' && t[0] != '\n'
    ensures LTrim("\r\n" + t, {'\r', '\n'}) == t
  {
    var cut := {'\r', '\n'};
    assert ("\r\n" + t)[1..] == "\n" + t;
    assert ("\n" + t)[1..] == t;
    assert LTrim(t, cut) == t;
    assert LTrim("\n" + t, cut) == t;
  }

  /** The header block ends at the first blank line, right after a header
      line without CR. */
  lemma SplitAtBlankLine(line: string, rest: string)
    requires Avoids(line, {'\r'})
    ensures SplitHead(line + "\r\n\r\n" + rest) == (line, rest)
  {
    var s := line + "\r\n\r\n" + rest;
    assert s[|line|..|line| + 4] == "\r\n\r\n";
    forall j | 0 <= j < |line|
      ensures s[j] != "\r\n\r\n"[0]
    {
      assert s[j] == line[j];
    }
    NoMatchWhereFirstDiffers(s, "\r\n\r\n", 0, |line|);
    FindFirst(s, "\r\n\r\n", |line|);
    assert s[..|line|] == line;
    assert s[|line| + 4..] == rest;
  }

  /** A text without `c` has no occurrence of a pattern that starts with `c`. */
  lemma NoMatchWithout(s: string, pat: string, c: char)
    requires |pat| > 0 && pat[0] == c && Avoids(s, {c})
    ensures forall j :: !MatchAt(s, pat, j)
  {
    NoMatchWhereFirstDiffers(s, pat, 0, |s|);
    forall j
      ensures !MatchAt(s, pat, j)
    {
      if j >= |s| || j < 0 {
      }
    }
  }

  /** The header line `Content-Disposition: <value>` gives a one-entry table. */
  lemma HeaderLineReads(value: string)
    requires |value| > 0 && value[0] != ' ' && Avoids(value, {':', '\r'})
    ensures var line := HeaderName + ": " + value;
      && Explode("\r\n", line) == [line]
      && Headers([line]) == map["content-disposition" := value]
  {
    var line := HeaderName + ": " + value;
    AvoidsConcat(HeaderName + ": ", value, {'\r'});
    NoMatchWithout(line, "\r\n", '\r');
    ExplodeWhole("\r\n", line);
    // `explode(':', $line)`: the name, then the rest after the colon
    assert line == HeaderName + ":" + (" " + value);
    forall j | 0 <= j < |HeaderName|
      ensures line[j] != ":"[0]
    {
      assert line[j] == HeaderName[j];
    }
    NoMatchWhereFirstDiffers(line, ":", 0, |HeaderName|);
    ExplodeCons(":", HeaderName, " " + value);
    AvoidsConcat(" ", value, {':'});
    NoMatchWithout(" " + value, ":", ':');
    ExplodeWhole(":", " " + value);
    assert SplitHeader(line) == (HeaderName, Some(" " + value));
    HeaderNameLower();
    assert (" " + value)[1..] == value;
    assert LTrim(value, {' '}) == value;
    assert LTrim(" " + value, {' '}) == value;
    assert HeaderValue(line) == value;
    assert HeadersUpTo([line], 1) == map[][HeaderKey(line) := HeaderValue(line)];
  }

  /** A part with the header `Content-Disposition: <value>` naming a plain
      field sets that field to the text before the part's final CRLF. */
  lemma PartReads(value: string, v: string, name: string, st: PartState, tempnam: string -> string)
    requires |value| > 0 && value[0] != ' ' && Avoids(value, {':', '\r'})
    requires ParseDisposition(value) == Some(Disposition("form-data", name, None))
    requires !EndsWith(name, "[]")
    ensures ParsePart("\r\n" + (HeaderName + ": " + value) + "\r\n\r\n" + v + "\r\n", st, tempnam)
      == st.(data := st.data[name := Text(v)])
  {
    var line := HeaderName + ": " + value;
    var t := line + "\r\n\r\n" + (v + "\r\n");
    assert "\r\n" + line + "\r\n\r\n" + v + "\r\n" == "\r\n" + t;
    assert t[0] == 'C';
    TrimDelimiterEnd(t);
    AvoidsConcat(HeaderName + ": ", value, {'\r'});
    SplitAtBlankLine(line, v + "\r\n");
    HeaderLineReads(value);
    assert (v + "\r\n")[..|v|] == v;
  }

  /** The disposition value a client writes for a plain field. */
  lemma FieldDispositionFacts(name: string)
    requires PlainName(name)
    ensures var value := DispositionValue(name);
      && |value| > 0 && value[0] == 'f' && Avoids(value, {':', '\r'})
      && ParseDisposition(value) == Some(Disposition("form-data", name, None))
  {
    var d := Disposition("form-data", name, None);
    var value := RenderDisposition(d);
    assert value == "form-data" + ";" + ParamText("name", name);
    forall c | c in {':', '\r'}
      ensures Avoids(value, {c})
    {
      ParamTextAvoids("name", name, c);
      AvoidsConcat("form-data", ";", {c});
      AvoidsConcat("form-data" + ";", ParamText("name", name), {c});
    }
    DispositionRoundTrip(d);
  }

  /** Each field part sets its field. */
  lemma FieldPartReads(f: Field, st: PartState, tempnam: string -> string)
    requires PlainName(f.name)
    ensures ParsePart(FieldPart(f), st, tempnam) == st.(data := st.data[f.name := Text(f.value)])
  {
    var value := DispositionValue(f.name);
    FieldDispositionFacts(f.name);
    PartReads(value, f.value, f.name, st, tempnam);
  }

  // ---------------------------------------------------------------------
  // The whole body
  // ---------------------------------------------------------------------

  lemma {:induction false} PartsRead(fields: seq<Field>, st: PartState, tempnam: string -> string)
    requires forall i :: 0 <= i < |fields| ==> PlainName(fields[i].name)
    requires st.error.None?
    ensures ParseParts(Parts(fields) + [Closing], st, tempnam) == st.(data := FormOf(st.data, fields))
    decreases |fields|
  {
    var parts := Parts(fields) + [Closing];
    if fields != [] {
      var f := fields[0];
      assert parts[0] == FieldPart(f);
      assert |FieldPart(f)| > |Closing|;
      FieldPartReads(f, st, tempnam);
      var next := st.(data := st.data[f.name := Text(f.value)]);
      assert parts[1..] == Parts(fields[1..]) + [Closing];
      PartsStep(parts, st, tempnam);
      PartsRead(fields[1..], next, tempnam);
      assert FormOf(st.data, fields) == FormOf(next.data, fields[1..]);
    }
  }

  /** The delimiter is the first line of the body. */
  lemma DelimiterIsFirstLine(boundary: string, rest: string)
    requires PlainBoundary(boundary) && StartsWith(rest, "\r\n")
    ensures Delimiter("--" + boundary + rest) == "--" + boundary
  {
    var sep := "--" + boundary;
    var raw := sep + rest;
    AvoidsConcat("--", boundary, {'\r'});
    forall j | 0 <= j < |sep|
      ensures raw[j] != "\r\n"[0]
    {
      assert raw[j] == sep[j];
    }
    NoMatchWhereFirstDiffers(raw, "\r\n", 0, |sep|);
    assert raw[|sep|..|sep| + 2] == rest[..2] == "\r\n";
    FindFirst(raw, "\r\n", |sep|);
    assert raw[..|sep|] == sep;
  }

  /** `ParsePHPInput` reads back the form a client encoded: each field under
      its name, with the last of several fields of one name winning, no
      error, and `$_FILES` untouched. */
  lemma FormRoundTrip(fields: seq<Field>, boundary: string, files: map<string, FileInfo>,
                      parseStr: string -> FormData, tempnam: string -> string)
    requires Sendable(fields, boundary)
    ensures ParseBody(EncodeForm(fields, boundary), files, parseStr, tempnam)
      == PartState(FormOf(map[], fields), files, None)
  {
    var sep := "--" + boundary;
    var body := EncodeParts(fields, sep);
    var raw := EncodeForm(fields, boundary);
    assert raw == "" + sep + body;
    assert body[..2] == "\r\n";
    DelimiterIsFirstLine(boundary, body);
    assert !PhpEmpty(sep);
    ExplodeCons(sep, "", body);
    ExplodeParts(fields, boundary);
    assert Explode(sep, raw)[1..] == Parts(fields) + [Closing];
    PartsRead(fields, PartState(map[], files, None), tempnam);
  }
}
