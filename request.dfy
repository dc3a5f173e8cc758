/**
 * The HTTP/1.x request decoder of `src/http/request.rs`: the text of one read
 * is split into a head block and body pieces at "\r\n\r\n", the request line
 * gives the method, the path and the query map, the other head lines give a
 * lower-cased header map, `host` and `content-type` are looked up, and for
 * multipart form data the `name="…"` fields of the body are extracted.
 *
 * Every `unwrap()` or `panic!` that can fire is an `Err` naming its site; the
 * `unwrap()`s that cannot fail (the first piece of a split, the compiled
 * fixed regexes) are not errors.
 */
module HttpRequest {
  import opened Wrappers
  import opened RustStr
  import opened MapFill
  import opened FormScan
  import opened HttpEnums

  const CRLF: string := "\r\n"
  const DOUBLE_CRLF: string := "\r\n\r\n"
  const QUERY_PARAM_START: string := "?"
  const QUERY_PARAM_SEPARATOR: string := "&"
  const QUERY_PARAM_ASSIGN: string := "="
  const HEADER_SEPARATOR: string := ":"
  const REQUEST_LINE_SEPARATOR: string := " "
  const DASHES: string := "--"
  const CONTENT_DISPOSITION: string := "Content-Disposition: form-data;"
  const HOST: string := "host"
  const CONTENT_TYPE: string := "content-type"

  newtype byte = b: int | 0 <= b < 0x100

  /** The panic sites of decoding, in the order the decoder reaches them. */
  datatype DecodeError =
    | EmptyStream          // `stream_data.first().unwrap()` on no parts; no read gives none
    | UnsupportedMethod    // `HttpMethodEnum::from` panics
    | MissingTarget        // `request_string_split.get(1).unwrap()`
    | MalformedQueryParam  // `path_param.get(1).unwrap()` on a piece without '='
    | MissingHost          // `headers.get("host").unwrap()`
    | MissingContentType   // `headers.get("content-type").unwrap()`

  datatype Request = Request(
    httpMethod: HttpMethod,
    host: string,
    path: string,
    pathParams: map<string, string>,
    headers: map<string, string>,
    contentType: ContentType,
    data: map<string, string>)

  // ---------------------------------------------------------------------------
  // get_stream_data: bytes to chars, then split at "\r\n\r\n"
  // ---------------------------------------------------------------------------

  /** `byte as char` for each byte: every byte becomes the char with the same code. */
  function BytesToText(buffer: seq<byte>): (text: string)
    ensures |text| == |buffer|
    ensures forall i :: 0 <= i < |buffer| ==> text[i] as int == buffer[i] as int
  {
    seq(|buffer|, i requires 0 <= i < |buffer| => buffer[i] as int as char)
  }

  /** The inverse of `BytesToText` on text whose chars all fit in a byte. */
  function TextToBytes(text: string): (buffer: seq<byte>)
    requires forall i :: 0 <= i < |text| ==> text[i] as int < 0x100
    ensures |buffer| == |text|
    ensures BytesToText(buffer) == text
  {
    seq(|text|, i requires 0 <= i < |text| => text[i] as int as byte)
  }

  /**
   * The pure part of `get_stream_data`: the read buffer as text, split at every
   * "\r\n\r\n". Joining the parts back with "\r\n\r\n" gives the text.
   */
  function StreamData(buffer: seq<byte>): (parts: seq<string>)
    ensures |parts| >= 1
    ensures Join(parts, DOUBLE_CRLF) == BytesToText(buffer)
    ensures forall i :: 0 <= i < |parts| ==> !Contains(parts[i], DOUBLE_CRLF)
    ensures LeftmostCuts(BytesToText(buffer), DOUBLE_CRLF, parts)
  {
    Split(BytesToText(buffer), DOUBLE_CRLF)
  }

  // ---------------------------------------------------------------------------
  // build_path_and_params
  // ---------------------------------------------------------------------------

  /** A query piece is usable when its split on '=' has a piece 1. */
  predicate HasValue(piece: string) {
    |Split(piece, QUERY_PARAM_ASSIGN)| >= 2
  }

  /** Piece 0 of the split on every '=' is the key, piece 1 the value. */
  function QueryPair(piece: string): (r: (string, string))
    requires HasValue(piece)
    ensures !Contains(r.0, QUERY_PARAM_ASSIGN) && !Contains(r.1, QUERY_PARAM_ASSIGN)
  {
    var kv := Split(piece, QUERY_PARAM_ASSIGN);
    (kv[0], kv[1])
  }

  function QueryPairs(pieces: seq<string>): seq<(string, string)>
    requires forall i :: 0 <= i < |pieces| ==> HasValue(pieces[i])
  {
    seq(|pieces|, i requires 0 <= i < |pieces| && HasValue(pieces[i]) => QueryPair(pieces[i]))
  }

  lemma QueryPairsSnoc(pieces: seq<string>, i: nat)
    requires i < |pieces| && forall k :: 0 <= k <= i ==> HasValue(pieces[k])
    ensures QueryPairs(pieces[..i + 1]) == QueryPairs(pieces[..i]) + [QueryPair(pieces[i])]
  {
    var a, b := QueryPairs(pieces[..i + 1]), QueryPairs(pieces[..i]) + [QueryPair(pieces[i])];
    forall k | 0 <= k < |a|
      ensures a[k] == b[k]
    {
      assert pieces[..i + 1][k] == pieces[k];
    }
  }

  /** The query map of a query string, or the abort of a piece without '='. */
  function QueryParams(query: string): (r: Result<map<string, string>, DecodeError>)
    ensures r.Err? ==> r.error == MalformedQueryParam
    ensures r.Ok? ==> |r.value| <= |Split(query, QUERY_PARAM_SEPARATOR)|
  {
    var pieces := Split(query, QUERY_PARAM_SEPARATOR);
    if forall i :: 0 <= i < |pieces| ==> HasValue(pieces[i]) then
      Ok(Insertions(QueryPairs(pieces)))
    else
      Err(MalformedQueryParam)
  }

  /** `build_path_and_params` on the request target split at every '?'. */
  function PathAndParams(rawPathData: seq<string>): (r: Result<(string, map<string, string>), DecodeError>)
    requires |rawPathData| >= 1
    ensures r.Ok? ==> r.value.0 == rawPathData[0]
    ensures |rawPathData| == 1 ==> r == Ok((rawPathData[0], map[]))
    ensures r.Err? ==> r.error == MalformedQueryParam && |rawPathData| >= 2
  {
    if |rawPathData| > 1 then
      match QueryParams(rawPathData[1])
      case Err(e) => Err(e)
      case Ok(params) => Ok((rawPathData[0], params))
    else
      Ok((rawPathData[0], map[]))
  }

  method BuildPathAndParams(rawPathData: seq<string>) returns (r: Result<(string, map<string, string>), DecodeError>)
    requires |rawPathData| >= 1
    ensures r == PathAndParams(rawPathData)
  {
    var path := rawPathData[0];
    var pathParams: map<string, string> := map[];
    if |rawPathData| > 1 {
      var pieces := Split(rawPathData[1], QUERY_PARAM_SEPARATOR);
      var i := 0;
      while i < |pieces|
        invariant 0 <= i <= |pieces|
        invariant forall k :: 0 <= k < i ==> HasValue(pieces[k])
        invariant pathParams == Insertions(QueryPairs(pieces[..i]))
      {
        var pathParam := Split(pieces[i], QUERY_PARAM_ASSIGN);
        if |pathParam| < 2 {
          assert !HasValue(pieces[i]);
          return Err(MalformedQueryParam);
        }
        assert QueryPair(pieces[i]) == (pathParam[0], pathParam[1]);
        QueryPairsSnoc(pieces, i);
        InsertionsSnoc(QueryPairs(pieces[..i]), pathParam[0], pathParam[1]);
        pathParams := pathParams[pathParam[0] := pathParam[1]];
        i := i + 1;
      }
      assert pieces[..i] == pieces;
      assert QueryParams(rawPathData[1]) == Ok(pathParams);
    }
    return Ok((path, pathParams));
  }

  // ---------------------------------------------------------------------------
  // build_headers
  // ---------------------------------------------------------------------------

  /**
   * One head line as `build_headers` reads it: the whole line lower-cased, split
   * at every ':', piece 0 trimmed as the key, the other pieces re-joined with ':'
   * and trimmed as the value.
   */
  function HeaderEntry(line: string): (r: (string, string))
    ensures r.0 != [] ==> !IsWhitespace(r.0[0]) && !IsWhitespace(r.0[|r.0| - 1])
    ensures r.1 != [] ==> !IsWhitespace(r.1[0]) && !IsWhitespace(r.1[|r.1| - 1])
  {
    var parsed := Split(ToAsciiLower(line), HEADER_SEPARATOR);
    (Trim(parsed[0]), Trim(Join(parsed[1..], HEADER_SEPARATOR)))
  }

  /** The header map of the head lines: each line's entry inserted in order. */
  function HeaderMap(lines: seq<string>): (r: map<string, string>)
    ensures |r| <= |lines|
    ensures forall key :: key in r ==> exists i :: 0 <= i < |lines| && HeaderEntry(lines[i]) == (key, r[key])
  {
    var entries := MapSeq(HeaderEntry, lines);
    InsertionsEntries(entries);
    Insertions(entries)
  }

  method BuildHeaders(rawHeaders: seq<string>) returns (headers: map<string, string>)
    ensures headers == HeaderMap(rawHeaders)
  {
    headers := map[];
    var i := 0;
    while i < |rawHeaders|
      invariant 0 <= i <= |rawHeaders|
      invariant headers == Insertions(MapSeq(HeaderEntry, rawHeaders[..i]))
    {
      var formattedHeader := ToAsciiLower(rawHeaders[i]);
      var parsedHeader := Split(formattedHeader, HEADER_SEPARATOR);
      var headerKey := Trim(parsedHeader[0]);
      parsedHeader := parsedHeader[1..];
      var headerValue := Trim(Join(parsedHeader, HEADER_SEPARATOR));
      MapSeqSnoc(HeaderEntry, rawHeaders, i);
      InsertionsSnoc(MapSeq(HeaderEntry, rawHeaders[..i]), headerKey, headerValue);
      headers := headers[headerKey := headerValue];
      i := i + 1;
    }
    assert rawHeaders[..i] == rawHeaders;
  }

  // ---------------------------------------------------------------------------
  // build_data
  // ---------------------------------------------------------------------------

  /** A body line with every "--" and every `Content-Disposition: form-data;` deleted, then trimmed. */
  function CleanFormLine(line: string): (r: string)
    ensures |r| <= |line|
    ensures r != [] ==> !IsWhitespace(r[0]) && !IsWhitespace(r[|r| - 1])
  {
    Trim(DeleteAll(DeleteAll(line, DASHES), CONTENT_DISPOSITION))
  }

  /**
   * The (key, value) `build_data` makes of one body line: the key is the
   * cleaned line with its first `name="` removed and then everything from its
   * first '"' to the end of that line; the value is the cleaned line with its
   * `name="…"` match removed.
   */
  function FormEntry(line: string): (r: (string, string))
    ensures |r.0| <= |line| && |r.1| <= |line|
    ensures Lacks(CleanFormLine(line), '"') ==> r == (CleanFormLine(line), CleanFormLine(line))
  {
    var t := CleanFormLine(line);
    FieldOfQuoteFreeLine(t);
    (FieldKey(t), FieldValue(t))
  }

  /** The body text cut at the first `boundaryEnd`, every `boundaryStart` deleted, split into CRLF lines. */
  function FormLines(rawData: string, boundaryStart: string, boundaryEnd: string): (r: seq<string>)
    ensures |r| >= 1
    ensures Join(r, CRLF) == DeleteAll(Before(rawData, boundaryEnd), boundaryStart)
    ensures forall i :: 0 <= i < |r| ==> !Contains(r[i], CRLF)
  {
    Split(DeleteAll(Before(rawData, boundaryEnd), boundaryStart), CRLF)
  }

  /** `.filter(|value| !value.0.is_empty())`: the entries with a non-empty key, in order. */
  function KeepNamed(entries: seq<(string, string)>): (r: seq<(string, string)>)
    ensures |r| <= |entries|
    ensures forall i :: 0 <= i < |r| ==> r[i].0 != []
    ensures forall e :: e in r <==> e in entries && e.0 != []
  {
    if entries == [] then []
    else (if entries[0].0 != [] then [entries[0]] else []) + KeepNamed(entries[1..])
  }

  /** Filtering a concatenation filters each part and keeps their order. */
  lemma {:induction false} KeepNamedAppend(a: seq<(string, string)>, b: seq<(string, string)>)
    ensures KeepNamed(a + b) == KeepNamed(a) + KeepNamed(b)
    decreases |a|
  {
    if a == [] {
      assert a + b == b;
    } else {
      assert (a + b)[0] == a[0];
      assert (a + b)[1..] == a[1..] + b;
      KeepNamedAppend(a[1..], b);
    }
  }

  /** The entries of the body lines in order, those with an empty key dropped. */
  function FormPairs(lines: seq<string>): (r: seq<(string, string)>)
    ensures |r| <= |lines|
    ensures forall e :: e in r <==> e.0 != [] && exists i :: 0 <= i < |lines| && FormEntry(lines[i]) == e
  {
    KeepNamed(MapSeq(FormEntry, lines))
  }

  /** The data map of `build_data`: the form fields for multipart content, empty otherwise. */
  function FormFields(contentType: ContentType, rawData: string): (r: map<string, string>)
    ensures contentType.Other? ==> r == map[]
    ensures contentType.FormData? ==> |r| <= |FormLines(rawData, contentType.boundaryStart, contentType.boundaryEnd)|
  {
    match contentType
    case FormData(boundaryStart, boundaryEnd) => Insertions(FormPairs(FormLines(rawData, boundaryStart, boundaryEnd)))
    case Other => map[]
  }

  method BuildData(contentType: ContentType, rawData: string) returns (result: map<string, string>)
    ensures result == FormFields(contentType, rawData)
    ensures contentType.Other? ==> result == map[]
    ensures forall key :: key in result ==> key != []
  {
    FormFieldsNamed(contentType, rawData);
    result := map[];
    match contentType {
      case FormData(boundaryStart, boundaryEnd) =>
        var dataAsString := Before(rawData, boundaryEnd);
        var lines := Split(DeleteAll(dataAsString, boundaryStart), CRLF);
        var data := FormPairs(lines);
        var i := 0;
        while i < |data|
          invariant 0 <= i <= |data|
          invariant result == Insertions(data[..i])
        {
          InsertionsStep(data, i);
          result := result[data[i].0 := data[i].1];
          i := i + 1;
        }
        assert data[..i] == data;
      case Other =>
    }
  }

  // ---------------------------------------------------------------------------
  // Request::new
  // ---------------------------------------------------------------------------

  /** `Request::new` on the parts of a read, with `classify` standing for `HttpContentTypeEnum::from`. */
  function Decode(streamData: seq<string>, classify: string -> ContentType): (r: Result<Request, DecodeError>)
    ensures r == Err(EmptyStream) <==> streamData == []
    ensures r.Ok? ==> r.value.httpMethod == Get
    ensures r.Ok? ==> HOST in r.value.headers && r.value.host == r.value.headers[HOST]
    ensures r.Ok? ==> CONTENT_TYPE in r.value.headers && r.value.contentType == classify(r.value.headers[CONTENT_TYPE])
  {
    if streamData == [] then Err(EmptyStream)
    else
      var headLines := Split(streamData[0], CRLF);
      var tokens := Split(Trim(headLines[0]), REQUEST_LINE_SEPARATOR);
      match MethodFrom(tokens[0])
      case None => Err(UnsupportedMethod)
      case Some(httpMethod) =>
        if |tokens| < 2 then Err(MissingTarget)
        else
          match PathAndParams(Split(tokens[1], QUERY_PARAM_START))
          case Err(e) => Err(e)
          case Ok((path, pathParams)) =>
            var headers := HeaderMap(headLines[1..]);
            if HOST !in headers then Err(MissingHost)
            else if CONTENT_TYPE !in headers then Err(MissingContentType)
            else
              var contentType := classify(headers[CONTENT_TYPE]);
              var data := FormFields(contentType, Concat(streamData[1..]));
              Ok(Request(httpMethod, headers[HOST], path, pathParams, headers, contentType, data))
  }

  method New(streamData: seq<string>, classify: string -> ContentType) returns (r: Result<Request, DecodeError>)
    ensures r == Decode(streamData, classify)
  {
    if |streamData| == 0 {
      return Err(EmptyStream);
    }
    var streamDataFirstPart := Split(streamData[0], CRLF);
    var httpFirstPart := Trim(streamDataFirstPart[0]);
    streamDataFirstPart := streamDataFirstPart[1..];

    var requestStringSplit := Split(httpFirstPart, REQUEST_LINE_SEPARATOR);
    var httpMethod := MethodFrom(requestStringSplit[0]);
    if httpMethod.None? {
      return Err(UnsupportedMethod);
    }
    if |requestStringSplit| < 2 {
      return Err(MissingTarget);
    }
    var pathData := Split(requestStringSplit[1], QUERY_PARAM_START);
    var pathAndParams := BuildPathAndParams(pathData);
    if pathAndParams.Err? {
      return Err(pathAndParams.error);
    }
    var (path, pathParams) := pathAndParams.value;

    var headers := BuildHeaders(streamDataFirstPart);
    if HOST !in headers {
      return Err(MissingHost);
    }
    var host := headers[HOST];
    if CONTENT_TYPE !in headers {
      return Err(MissingContentType);
    }
    var contentType := classify(headers[CONTENT_TYPE]);

    var streamClone := streamData;
    streamClone := streamClone[1..];
    var streamSecondPartAsString := Concat(streamClone);
    var data := BuildData(contentType, streamSecondPartAsString);

    return Ok(Request(httpMethod.value, host, path, pathParams, headers, contentType, data));
  }

  // ---------------------------------------------------------------------------
  // Properties of the decoder
  // ---------------------------------------------------------------------------

  /**
   * `EmptyStream` is unreachable from a read: `get_stream_data` always yields
   * at least one part, even for an empty read, whose text is then decoded as
   * an (empty or NUL-filled) request line.
   */
  lemma ReadNeverEmptyStream(buffer: seq<byte>, classify: string -> ContentType)
    ensures Decode(StreamData(buffer), classify) != Err(EmptyStream)
  {
  }

  /**
   * The framing of one read: part 0 is the text before the first "\r\n\r\n",
   * and the body handed to `build_data` is the text after it with every later
   * "\r\n\r\n" removed, because the parts are re-joined with nothing between.
   */
  lemma ReadFraming(buffer: seq<byte>)
    ensures StreamData(buffer)[0] == Before(BytesToText(buffer), DOUBLE_CRLF)
    ensures Concat(StreamData(buffer)[1..]) == DeleteAll(After(BytesToText(buffer), DOUBLE_CRLF), DOUBLE_CRLF)
  {
    var text := BytesToText(buffer);
    SplitFirstPieces(text, DOUBLE_CRLF);
    DeleteAllIsConcatOfSplit(After(text, DOUBLE_CRLF), DOUBLE_CRLF);
  }

  /**
   * The path is the request target before its first '?'. Without a '?' the
   * query map is empty; otherwise only the text between the first and the
   * second '?' is parsed as the query.
   */
  lemma PathAndQuery(target: string)
    ensures PathAndParams(Split(target, QUERY_PARAM_START)).Ok? ==>
              PathAndParams(Split(target, QUERY_PARAM_START)).value.0 == Before(target, QUERY_PARAM_START)
    ensures !Contains(target, QUERY_PARAM_START) ==>
              PathAndParams(Split(target, QUERY_PARAM_START)) == Ok((target, map[]))
    ensures Contains(target, QUERY_PARAM_START) ==>
              var query := Before(After(target, QUERY_PARAM_START), QUERY_PARAM_START);
              && (PathAndParams(Split(target, QUERY_PARAM_START)).Ok? <==> QueryParams(query).Ok?)
              && (QueryParams(query).Err? ==> PathAndParams(Split(target, QUERY_PARAM_START)) == Err(QueryParams(query).error))
              && (QueryParams(query).Ok? ==> PathAndParams(Split(target, QUERY_PARAM_START)).value.1 == QueryParams(query).value)
  {
    SplitFirstPieces(target, QUERY_PARAM_START);
    if Contains(target, QUERY_PARAM_START) {
      SplitFirstPieces(After(target, QUERY_PARAM_START), QUERY_PARAM_START);
    }
  }

  /**
   * A query piece has a value exactly when it holds an '='. Its key is the
   * text before the first '=' and its value the text between the first and
   * the second '=', so "a=b=c" gives ("a", "b").
   */
  lemma QueryPieceParts(piece: string)
    ensures HasValue(piece) <==> Contains(piece, QUERY_PARAM_ASSIGN)
    ensures HasValue(piece) ==>
              QueryPair(piece) == (Before(piece, QUERY_PARAM_ASSIGN), Before(After(piece, QUERY_PARAM_ASSIGN), QUERY_PARAM_ASSIGN))
  {
    SplitFirstPieces(piece, QUERY_PARAM_ASSIGN);
    if Contains(piece, QUERY_PARAM_ASSIGN) {
      SplitFirstPieces(After(piece, QUERY_PARAM_ASSIGN), QUERY_PARAM_ASSIGN);
    }
  }

  /**
   * The query map is built exactly when every '&' piece holds an '='; an
   * empty query string (nothing between the first and the second '?') is one piece without '=', so
   * it aborts.
   */
  lemma QueryParamsOutcome(query: string)
    ensures QueryParams(query).Ok? <==>
              forall i :: 0 <= i < |Split(query, QUERY_PARAM_SEPARATOR)| ==> Contains(Split(query, QUERY_PARAM_SEPARATOR)[i], QUERY_PARAM_ASSIGN)
    ensures QueryParams([]) == Err(MalformedQueryParam)
  {
    var pieces := Split(query, QUERY_PARAM_SEPARATOR);
    forall i | 0 <= i < |pieces|
      ensures HasValue(pieces[i]) <==> Contains(pieces[i], QUERY_PARAM_ASSIGN)
    {
      QueryPieceParts(pieces[i]);
    }
    if QueryParams(query).Ok? {
      assert forall i :: 0 <= i < |pieces| ==> HasValue(pieces[i]);
    } else {
      var i :| 0 <= i < |pieces| && !HasValue(pieces[i]);
      assert !Contains(pieces[i], QUERY_PARAM_ASSIGN);
    }
    QueryPieceParts([]);
    assert !Contains([], QUERY_PARAM_ASSIGN);
  }

  /**
   * A head line is lower-cased as a whole; its key is the trimmed text before
   * its first ':' and its value the trimmed text after it, later colons
   * included. A line without ':' is all key, with the empty value.
   */
  lemma HeaderEntryParts(line: string)
    ensures Contains(line, HEADER_SEPARATOR) ==>
              HeaderEntry(line) == (Trim(ToAsciiLower(Before(line, HEADER_SEPARATOR))), Trim(ToAsciiLower(After(line, HEADER_SEPARATOR))))
    ensures !Contains(line, HEADER_SEPARATOR) ==>
              HeaderEntry(line) == (Trim(ToAsciiLower(line)), [])
  {
    var lower := ToAsciiLower(line);
    LowerKeepsOccurrences(line, HEADER_SEPARATOR);
    SplitFirstPieces(lower, HEADER_SEPARATOR);
    if Contains(line, HEADER_SEPARATOR) {
      LowerBeforeAfter(line, HEADER_SEPARATOR);
    } else {
      assert Split(lower, HEADER_SEPARATOR) == [lower];
      assert Trim([]) == [];
    }
  }

  /** No two dashes are adjacent in the `Content-Disposition` literal. */
  lemma DispositionSingleDashes()
    ensures forall i :: 0 <= i < |CONTENT_DISPOSITION| - 1 ==> CONTENT_DISPOSITION[i] != '-' || CONTENT_DISPOSITION[i + 1] != '-'
    ensures CONTENT_DISPOSITION[7] == '-'
    ensures CONTENT_DISPOSITION[|CONTENT_DISPOSITION| - 1] == ';'
  {
  }

  /** A field line without dashes survives the two deletions of `build_data` and the trim. */
  lemma CleanFieldText(f: string)
    requires forall i :: 0 <= i < |f| ==> f[i] != '-'
    requires f != [] ==> !IsWhitespace(f[0]) && !IsWhitespace(f[|f| - 1])
    ensures CleanFormLine(f) == f
    ensures CleanFormLine(DASHES + CONTENT_DISPOSITION + " " + f) == f
  {
    MissingCharNoOccurrence(f, DASHES, 0);
    DispositionSingleDashes();
    MissingCharNoOccurrence(f, CONTENT_DISPOSITION, 7);
    TrimOfTrimmed(f);
    var rest := " " + f;
    MissingCharNoOccurrence(rest, CONTENT_DISPOSITION, 7);
    var body := CONTENT_DISPOSITION + rest;
    assert DASHES + CONTENT_DISPOSITION + " " + f == DASHES + body;
    DeleteAllAtStart(DASHES, body);
    NoPairOccurrence(body, '-');
    assert DeleteAll(DASHES + body, DASHES) == body;
    DeleteAllAtStart(CONTENT_DISPOSITION, rest);
    TrimStartSpace(f);
  }

  /**
   * A field line `name="k"v`, bare or behind the `--Content-Disposition:
   * form-data; ` prefix, gives back the entry (k, v), as long as neither part
   * holds a quote, a line feed or a dash and `v` does not end in white space.
   */
  lemma FormEntryOfField(k: string, v: string)
    requires forall i :: 0 <= i < |k| ==> k[i] != '"' && k[i] != '\n' && k[i] != '-'
    requires forall i :: 0 <= i < |v| ==> v[i] != '"' && v[i] != '\n' && v[i] != '-'
    requires v != [] ==> !IsWhitespace(v[|v| - 1])
    ensures FormEntry(NAME_OPEN + k + QUOTE + v) == (k, v)
    ensures FormEntry(DASHES + CONTENT_DISPOSITION + " " + (NAME_OPEN + k + QUOTE + v)) == (k, v)
  {
    var f := NAME_OPEN + k + QUOTE + v;
    FieldTextShape(k, v);
    FieldRoundTrip(k, v);
    CleanFieldText(f);
    assert FormEntry(f) == (FieldKey(f), FieldValue(f));
    assert FormEntry(DASHES + CONTENT_DISPOSITION + " " + f) == (FieldKey(f), FieldValue(f));
  }

  lemma FieldTextShape(k: string, v: string)
    requires forall i :: 0 <= i < |k| ==> k[i] != '-'
    requires forall i :: 0 <= i < |v| ==> v[i] != '-'
    requires v != [] ==> !IsWhitespace(v[|v| - 1])
    ensures var f := NAME_OPEN + k + QUOTE + v;
      && (forall i :: 0 <= i < |f| ==> f[i] != '-')
      && !IsWhitespace(f[0]) && !IsWhitespace(f[|f| - 1])
  {
    var f := NAME_OPEN + k + QUOTE + v;
    assert f[0] == 'n';
    assert f[|f| - 1] == if v == [] then '"' else v[|v| - 1];
    forall i | 0 <= i < |f|
      ensures f[i] != '-'
    {
      if i < |NAME_OPEN| {
      } else if i < |NAME_OPEN| + |k| {
        assert f[i] == k[i - |NAME_OPEN|];
      } else if i == |NAME_OPEN| + |k| {
      } else {
        assert f[i] == v[i - |NAME_OPEN| - |k| - 1];
      }
    }
  }

  /** Every key of the data map is non-empty. */
  lemma FormFieldsNamed(contentType: ContentType, rawData: string)
    ensures forall key :: key in FormFields(contentType, rawData) ==> key != []
  {
    if contentType.FormData? {
      var data := FormPairs(FormLines(rawData, contentType.boundaryStart, contentType.boundaryEnd));
      forall key | key in Insertions(data)
        ensures key != []
      {
        var j :| 0 <= j < |data| && data[j].0 == key;
      }
    }
  }

  /**
   * The data map holds a named line's value under its key when no later line
   * has the same key: of repeated field names, the last one wins.
   */
  lemma FormPairsLastWins(lines: seq<string>, i: nat)
    requires i < |lines| && FormEntry(lines[i]).0 != []
    requires forall j :: i < j < |lines| ==> FormEntry(lines[j]).0 != FormEntry(lines[i]).0
    ensures FormEntry(lines[i]).0 in Insertions(FormPairs(lines))
    ensures Insertions(FormPairs(lines))[FormEntry(lines[i]).0] == FormEntry(lines[i]).1
  {
    var es := MapSeq(FormEntry, lines);
    forall j | i < j < |es|
      ensures es[j].0 != es[i].0
    {
      assert es[j] == FormEntry(lines[j]);
    }
    KeepNamedLastWins(es, i);
  }

  /** Of repeated header names the last line wins: a line whose key no later line repeats supplies its value. */
  lemma HeaderMapLastWins(lines: seq<string>, i: nat)
    requires i < |lines|
    requires forall j :: i < j < |lines| ==> HeaderEntry(lines[j]).0 != HeaderEntry(lines[i]).0
    ensures HeaderEntry(lines[i]).0 in HeaderMap(lines)
    ensures HeaderMap(lines)[HeaderEntry(lines[i]).0] == HeaderEntry(lines[i]).1
  {
    var es := MapSeq(HeaderEntry, lines);
    forall j | i < j < |es|
      ensures es[j].0 != es[i].0
    {
      assert es[j] == HeaderEntry(lines[j]);
    }
    InsertionsLastWins(es, i);
  }

  /** Of repeated query keys the last piece wins: a piece whose key no later piece repeats supplies its value. */
  lemma QueryParamsLastWins(query: string, i: nat)
    requires QueryParams(query).Ok?
    requires i < |Split(query, QUERY_PARAM_SEPARATOR)|
    requires var pieces := Split(query, QUERY_PARAM_SEPARATOR);
      forall j :: i < j < |pieces| ==> Before(pieces[j], QUERY_PARAM_ASSIGN) != Before(pieces[i], QUERY_PARAM_ASSIGN)
    ensures var piece := Split(query, QUERY_PARAM_SEPARATOR)[i];
      && HasValue(piece)
      && QueryPair(piece).0 in QueryParams(query).value
      && QueryParams(query).value[QueryPair(piece).0] == QueryPair(piece).1
  {
    var pieces := Split(query, QUERY_PARAM_SEPARATOR);
    var es := QueryPairs(pieces);
    forall j | i < j < |es|
      ensures es[j].0 != es[i].0
    {
      QueryPieceParts(pieces[j]);
      QueryPieceParts(pieces[i]);
    }
    InsertionsLastWins(es, i);
  }

  /** Filtering, then inserting: a named entry not followed by its key again keeps its value. */
  lemma KeepNamedLastWins(es: seq<(string, string)>, i: nat)
    requires i < |es| && es[i].0 != []
    requires forall j :: i < j < |es| ==> es[j].0 != es[i].0
    ensures es[i].0 in Insertions(KeepNamed(es))
    ensures Insertions(KeepNamed(es))[es[i].0] == es[i].1
  {
    var e := es[i];
    var front, back := es[..i], es[i + 1..];
    assert es == front + [e] + back;
    KeepNamedAround(front, e, back);
    var later := KeepNamed(back);
    forall k | 0 <= k < |later|
      ensures later[k].0 != e.0
    {
      assert later[k] in back;
    }
    InsertionsLastWinsAt(KeepNamed(front), e, later);
  }

  /** A named entry between two runs of entries survives the filter in its place. */
  lemma KeepNamedAround(front: seq<(string, string)>, e: (string, string), back: seq<(string, string)>)
    requires e.0 != []
    ensures KeepNamed(front + [e] + back) == KeepNamed(front) + [e] + KeepNamed(back)
  {
    KeepNamedAppend(front + [e], back);
    KeepNamedAppend(front, [e]);
    KeepNamedOne(e);
  }

  lemma KeepNamedOne(e: (string, string))
    requires e.0 != []
    ensures KeepNamed([e]) == [e]
  {
    assert [e][1..] == [];
  }

  /** Everything in the body from the first `boundaryEnd` on is ignored. */
  lemma FormFieldsIgnoreAfterEnd(boundaryStart: string, boundaryEnd: string, rawData: string, tail: string)
    requires Contains(rawData, boundaryEnd)
    ensures FormFields(FormData(boundaryStart, boundaryEnd), rawData + tail) == FormFields(FormData(boundaryStart, boundaryEnd), rawData)
  {
    BeforeExtend(rawData, tail, boundaryEnd);
  }

  /**
   * The outcome of `Request::new` in terms of the text: the request line is
   * part 0 before its first CRLF, trimmed; the method is its text before the
   * first space and the target the text between its first and second space;
   * the header lines are those after the first CRLF of part 0; the body is
   * parts 1.. concatenated. The failures come in source order.
   */
  lemma DecodeOutcome(streamData: seq<string>, classify: string -> ContentType)
    requires streamData != []
    ensures
      var head := streamData[0];
      var line := Trim(Before(head, CRLF));
      var target := Before(After(line, REQUEST_LINE_SEPARATOR), REQUEST_LINE_SEPARATOR);
      var pathAndParams := PathAndParams(Split(target, QUERY_PARAM_START));
      var headers := HeaderMap(if Contains(head, CRLF) then Split(After(head, CRLF), CRLF) else []);
      var r := Decode(streamData, classify);
      && (Before(line, REQUEST_LINE_SEPARATOR) != HTTP_METHOD_GET ==> r == Err(UnsupportedMethod))
      && (line == HTTP_METHOD_GET ==> r == Err(MissingTarget))
      && (Before(line, REQUEST_LINE_SEPARATOR) == HTTP_METHOD_GET && line != HTTP_METHOD_GET ==>
            && (pathAndParams.Err? ==> r == Err(MalformedQueryParam))
            && (pathAndParams.Ok? && HOST !in headers ==> r == Err(MissingHost))
            && (pathAndParams.Ok? && HOST in headers && CONTENT_TYPE !in headers ==> r == Err(MissingContentType))
            && (pathAndParams.Ok? && HOST in headers && CONTENT_TYPE in headers ==>
                  && r.Ok?
                  && r.value.httpMethod == Get
                  && r.value.path == pathAndParams.value.0
                  && r.value.pathParams == pathAndParams.value.1
                  && r.value.headers == headers
                  && r.value.host == headers[HOST]
                  && r.value.contentType == classify(headers[CONTENT_TYPE])
                  && r.value.data == FormFields(r.value.contentType, Concat(streamData[1..]))))
  {
    var head := streamData[0];
    HeadParts(head);
    RequestLineTokens(Trim(Before(head, CRLF)));
  }

  /** Part 0 split into CRLF lines: the first line, then the lines after the first CRLF. */
  lemma HeadParts(head: string)
    ensures Split(head, CRLF)[0] == Before(head, CRLF)
    ensures Split(head, CRLF)[1..] == if Contains(head, CRLF) then Split(After(head, CRLF), CRLF) else []
  {
    SplitFirstPieces(head, CRLF);
  }

  /** The request line split at every space: the method token, then the target when there is a space. */
  lemma RequestLineTokens(line: string)
    ensures Split(line, REQUEST_LINE_SEPARATOR)[0] == Before(line, REQUEST_LINE_SEPARATOR)
    ensures line == HTTP_METHOD_GET ==> |Split(line, REQUEST_LINE_SEPARATOR)| == 1
    ensures Before(line, REQUEST_LINE_SEPARATOR) == HTTP_METHOD_GET && line != HTTP_METHOD_GET ==>
              && |Split(line, REQUEST_LINE_SEPARATOR)| >= 2
              && Split(line, REQUEST_LINE_SEPARATOR)[1] == Before(After(line, REQUEST_LINE_SEPARATOR), REQUEST_LINE_SEPARATOR)
  {
    SplitFirstPieces(line, REQUEST_LINE_SEPARATOR);
    if Contains(line, REQUEST_LINE_SEPARATOR) {
      SplitFirstPieces(After(line, REQUEST_LINE_SEPARATOR), REQUEST_LINE_SEPARATOR);
    }
    if line == HTTP_METHOD_GET {
      FindChar(line, ' ');
    }
  }

  /**
   * The whole head line is lower-cased, so neither a key nor a value of the
   * header map holds an ASCII capital; a `Host:` or `HOST:` line is found by
   * the `host` lookup.
   */
  lemma HeaderMapLowerCase(lines: seq<string>)
    ensures forall key :: key in HeaderMap(lines) ==> NoAsciiUpper(key) && NoAsciiUpper(HeaderMap(lines)[key])
  {
    var pairs := MapSeq(HeaderEntry, lines);
    forall key | key in HeaderMap(lines)
      ensures NoAsciiUpper(key) && NoAsciiUpper(HeaderMap(lines)[key])
    {
      InsertionsFromPairs(pairs, key);
      var i :| 0 <= i < |pairs| && pairs[i] == (key, HeaderMap(lines)[key]);
      HeaderEntryLower(lines[i]);
    }
  }

  lemma HeaderEntryLower(line: string)
    ensures NoAsciiUpper(HeaderEntry(line).0) && NoAsciiUpper(HeaderEntry(line).1)
  {
    HeaderEntryParts(line);
    if Contains(line, HEADER_SEPARATOR) {
      TrimLowerNoUpper(Before(line, HEADER_SEPARATOR));
      TrimLowerNoUpper(After(line, HEADER_SEPARATOR));
    } else {
      TrimLowerNoUpper(line);
    }
  }
}
