# HTTP/1.x request decoder of simple-rust-chat-server, in Dafny

This project models the request decoder of the chat server: the code that
turns the bytes of one socket read into a `Request`.

- `get_stream_data` maps each byte of the read to one char and splits the
  text at every `"\r\n\r\n"`.
- `Request::new` takes part 0 as the head block. Its first CRLF line, trimmed,
  is the request line. The method token goes through `HttpMethodEnum::from`.
  The target is split at `?` into the path and the query map.
- The remaining head lines become a header map. Each line is lower-cased as a
  whole, then split at its first `:`.
- `host` and `content-type` are looked up in that map.
- The body is parts 1.. joined with nothing between them. For multipart form
  data, `build_data` extracts the `name="…"` fields from it.

The model follows the code as written, not an idealised HTTP parser. Every
`unwrap()` or `panic!` that can fire is an explicit `Err` of `DecodeError`,
in the order the decoder reaches it: `EmptyStream`, `UnsupportedMethod`,
`MissingTarget`, `MalformedQueryParam`, `MissingHost`, `MissingContentType`.
`EmptyStream` is reached only by `Request::new` on an empty list of parts;
`get_stream_data` never returns one, so no read reaches it.
The `unwrap()`s that cannot fail are not errors: the first piece of a split
and, as long as the `regex` crate accepts the three fixed patterns, their
compilation (see "## Left out").

Files:

- `wrappers.dfy`: `Option` and `Result`.
- `rust_str.dfy` (module `RustStr`): the Rust `str` operations the decoder
  chains. These are `find`, `split` with a non-empty pattern, `split(p).nth(0)`,
  `join`, `replace(p, "")`, `trim` (Unicode White_Space, as
  `char::is_whitespace`) and `to_ascii_lowercase`.
- `map_fill.dfy` (module `MapFill`): the map left by a loop of
  `HashMap::insert` calls. The header, query and form-data maps are all built
  this way.
- `form_scan.dfy` (module `FormScan`): the three fixed regexes of
  `build_data`, as explicit scans. `Regex::replace` replaces only the leftmost
  match. `.` matches every char but `'\n'`. `(.*)(")` is greedy, so it runs to
  the last quote on the line.
- `enums.dfy` (module `HttpEnums`): `HttpMethodEnum::from`, and the content-type
  classification as a datatype.
- `request.dfy` (module `HttpRequest`): `get_stream_data`'s conversion,
  `build_path_and_params`, `build_headers`, `build_data`, `Request::new` and
  their properties. The three builders are methods with loops and
  `Request::new` is a method with its `remove(0)` steps. Each is proved equal
  to a specification function, and the properties are stated about those
  functions.
- `decoder_cases.dfy` (module `DecoderCases`): concrete inputs proved for their
  exact text.

## Model

| member | source | states |
|---|---|---|
| HttpEnums.MethodFrom | src/http/enums.rs:8-13 | a method is produced exactly for the token "GET", and it is never `Post` |
| HttpEnums.MethodFromRejects | src/http/enums.rs:9-11 | "POST", "get", " GET", "GET " and "" all abort: matching is exact, case-sensitive and untrimmed |
| HttpRequest.BytesToText | src/http/request.rs:214-215 | every byte becomes one char with the same code, so the text has the buffer's length |
| HttpRequest.TextToBytes | src/http/request.rs:214-215 | every text of chars below 256 is the conversion of some buffer of the same length |
| HttpRequest.StreamData | src/http/request.rs:214-218 | a read gives at least one part; re-joining the parts with "\r\n\r\n" gives back the decoded text; no part contains "\r\n\r\n" |
| HttpRequest.ReadFraming | src/http/request.rs:214-218 | part 0 is the text before the first "\r\n\r\n"; the body handed to `build_data` is the text after it with every later "\r\n\r\n" deleted |
| HttpRequest.QueryPair | src/http/request.rs:110-117 | neither the key nor the value of a query piece holds an '=' |
| HttpRequest.QueryParams | src/http/request.rs:104-118 | the only failure is the malformed-parameter abort, and the map has no more keys than there are '&' pieces |
| HttpRequest.PathAndParams | src/http/request.rs:97-122 | the path is piece 0 of the target; a target without '?' has the empty query map; the only failure is the malformed-parameter abort, and it needs a query |
| HttpRequest.QueryParamsLastWins | src/http/request.rs:109-117 | in a query that decodes, a piece whose key (the text before its first '=') no later piece repeats supplies that key's value: of repeated query keys the last wins |
| HttpRequest.BuildPathAndParams | src/http/request.rs:97-122 | the loop over the `&` pieces returns the path and the query map of `PathAndParams`, or the abort on the first piece without '=' |
| HttpRequest.PathAndQuery | src/http/request.rs:52-57 | the path is the target before its first '?'; without '?' the query map is empty; otherwise only the text between the first and second '?' is parsed as the query, and its abort is the decoder's |
| HttpRequest.QueryPieceParts | src/http/request.rs:110-117 | a query piece has a value exactly when it contains '='; the key is the text before the first '=' and the value the text between the first and second '=' |
| HttpRequest.QueryParamsOutcome | src/http/request.rs:104-118 | the query map is built exactly when every `&` piece contains '='; an empty query (nothing between the first and the second '?') aborts |
| HttpRequest.HeaderEntry | src/http/request.rs:127-143 | the key and the value of a head line each neither start nor end with white space |
| HttpRequest.HeaderMap | src/http/request.rs:124-152 | the header map has no more keys than head lines, and each of its entries is the entry of some head line |
| HttpRequest.HeaderMapLastWins | src/http/request.rs:145-148 | a head line whose key no later line repeats supplies that key's value: of repeated header names the last wins |
| HttpRequest.BuildHeaders | src/http/request.rs:124-152 | the loop over the head lines returns `HeaderMap` of those lines: each line's entry inserted in order |
| HttpRequest.HeaderEntryParts | src/http/request.rs:127-143 | the key is the trimmed lower-cased text before the first ':' and the value the trimmed lower-cased text after it, later colons kept; a line without ':' is all key with the empty value |
| HttpRequest.HeaderMapLowerCase | src/http/request.rs:127 | no key and no value of the header map holds an ASCII capital letter |
| HttpRequest.HeadParts | src/http/request.rs:22-36 | the request line is part 0 before its first CRLF; the header lines are the CRLF lines after it, and there are none when part 0 has no CRLF |
| HttpRequest.RequestLineTokens | src/http/request.rs:42-57 | the method token is the request line before its first space; the line "GET" alone has no target; any other line whose first token is "GET" has the target between its first and second space |
| HttpRequest.CleanFormLine | src/http/request.rs:173-183 | a cleaned body line is no longer than the line and neither starts nor ends with white space |
| HttpRequest.FormEntry | src/http/request.rs:183-194 | for a line whose cleaned text holds no '"', its key and its value are both the cleaned text (so it is kept unless that text is empty); key and value are never longer than the line |
| HttpRequest.FormLines | src/http/request.rs:167-174 | the lines re-joined with CRLF are the body before the first `boundaryEnd` with every `boundaryStart` deleted, and no line holds a CRLF |
| HttpRequest.KeepNamed | src/http/request.rs:196 | an entry is kept exactly when it is one of the given entries and its key is non-empty |
| HttpRequest.KeepNamedAppend | src/http/request.rs:196 | filtering a concatenation is filtering each part, in order |
| HttpRequest.FormPairs | src/http/request.rs:175-197 | an entry is kept exactly when its key is non-empty and it is the entry of some body line; there are no more entries than lines |
| HttpRequest.FormFields | src/http/request.rs:162-207 | the data map is empty for content other than form data, and otherwise has no more keys than body lines |
| HttpRequest.BuildData | src/http/request.rs:162-207 | the loop returns `FormFields`: the empty map for non-form-data content, and only non-empty keys |
| HttpRequest.FormFieldsNamed | src/http/request.rs:196-201 | no key of the data map is empty |
| HttpRequest.FormPairsLastWins | src/http/request.rs:196-201 | a named body line whose key no later line repeats has its value in the data map: of repeated field names the last wins |
| HttpRequest.FormFieldsIgnoreAfterEnd | src/http/request.rs:167-170 | text appended after an occurrence of `boundaryEnd` does not change the form fields |
| HttpRequest.CleanFieldText | src/http/request.rs:173-183 | a dash-free field text, bare or behind the `--Content-Disposition: form-data; ` prefix, is what the deletions and the trim leave |
| HttpRequest.FormEntryOfField | src/http/request.rs:173-194 | the line `name="k"v`, bare or behind the disposition prefix, yields the entry (k, v) when k and v hold no quote, line feed or dash and v does not end in white space |
| HttpRequest.Decode | src/http/request.rs:21-87 | only an empty list of parts fails with `EmptyStream`; a decoded request has method `Get`, a `host` header equal to its host and a `content-type` header whose classification is its content type |
| HttpRequest.ReadNeverEmptyStream | src/http/request.rs:21-24 | `StreamData` always yields a part, so no read, not even an empty one, reaches the `EmptyStream` failure of `Request::new` |
| HttpRequest.DecodeOutcome | src/http/request.rs:21-87 | the outcome of `Request::new` in terms of the text: which failure fires for which request line, target and header map, in source order; on success the method is `Get`, the host is exactly the `host` entry, the content type is the classification of the `content-type` entry, and the data are the form fields of parts 1.. concatenated |
| HttpRequest.New | src/http/request.rs:21-87 | the imperative decoder, with its `remove(0)` calls, returns exactly the outcome `DecodeOutcome` describes |
| MapFill.Insertions | src/http/request.rs:145-148 | the map's keys are exactly the inserted keys, and it has no more keys than insertions |
| MapFill.InsertionsLastWins | src/http/request.rs:199-201 | a duplicate key keeps the value of its last insertion |
| MapFill.InsertionsFromPairs | src/http/request.rs:114-117 | every entry of the map is one of the inserted pairs |
| MapFill.MapSeq | src/http/request.rs:175-182 | `map(f).collect()` has one element per input, each `f` of the input at the same index |
| RustStr.Find | src/http/request.rs:168 | the result is the leftmost occurrence of the pattern, and there is none exactly when the pattern does not occur |
| RustStr.Join | src/http/request.rs:141 | the joined text starts with the first piece, followed by the separator when there is a second piece |
| RustStr.Concat | src/http/request.rs:71 | the pieces joined with nothing between start with the first piece |
| RustStr.Split | src/http/request.rs:25 | at least one piece; joining the pieces with the pattern gives the text back; no piece contains the pattern; the pieces are cut at the leftmost occurrences (`LeftmostCuts`) |
| RustStr.LeftmostCutsUnique | src/http/request.rs:25 | leftmost cutting determines the pieces, so the contract of `Split` has exactly one solution |
| RustStr.Before | src/http/request.rs:167-170 | `split(p).nth(0)` is a prefix without `p` that ends where the first `p` starts when `p` occurs, and the whole text otherwise |
| RustStr.After | src/http/request.rs:138-141 | the text is the part before `p`, then `p`, then this part |
| RustStr.DeleteAll | src/http/request.rs:173 | `replace(p, "")` never lengthens the text, and changes it exactly when `p` is non-empty and occurs |
| RustStr.DeleteAllIsConcatOfSplit | src/http/request.rs:173 | `replace(p, "")` equals the split at `p` joined with nothing |
| RustStr.Trim | src/http/request.rs:34 | the result is the slice of the text that starts at its first char that is not white space; only white space lies outside it, and it neither starts nor ends with white space |
| RustStr.ToAsciiLower | src/http/request.rs:127 | same length, no ASCII capital left, every char kept or moved from 'A'..'Z' to its small letter |
| RustStr.LowerBeforeAfter | src/http/request.rs:127-131 | lower-casing commutes with cutting at a pattern that has no letters |
| FormScan.RemoveNameOpen | src/http/request.rs:185-188 | only the leftmost `name="` is removed, and a line without one is unchanged |
| FormScan.CutQuoteToLineEnd | src/http/request.rs:186-189 | what precedes the first quote is kept, the removed span ends at the first line feed after it (or the end), and everything from that line feed on is kept |
| FormScan.ValueMatch | src/http/request.rs:191-192 | the match starts at the leftmost `name="` that has a closing quote on its line, and ends at the last quote on that line |
| FormScan.FieldKey | src/http/request.rs:185-189 | the key is never longer than the cleaned line, and is shorter by at least `name="` when the line holds one |
| FormScan.FieldValue | src/http/request.rs:191-192 | without a match the value is the whole cleaned line; with one it is shorter than the line by more than `name="` |
| FormScan.FieldOfQuoteFreeLine | src/http/request.rs:185-192 | a cleaned line without '"' is its own key and its own value |
| FormScan.FieldKeyOfSingleLine | src/http/request.rs:185-189 | on one line, the key is the text before `name="` followed by the text up to the next quote |
| FormScan.FieldValueOfSingleLine | src/http/request.rs:191-192 | on one line, the value is the text before `name="` followed by the text after the last quote |
| FormScan.FieldRoundTrip | src/http/request.rs:183-194 | key and value of `name="k"v` are k and v whenever neither holds a quote or a line feed |
| DecoderCases.QueryRepeatedAssign | src/http/request.rs:110-117 | the query "a=b=c" maps "a" to "b" |
| DecoderCases.HostLineKeepsColons | src/http/request.rs:127-143 | `Host: Localhost:8080` gives the entry ("host", "localhost:8080") |
| DecoderCases.HeaderLineWithoutColon | src/http/request.rs:133-143 | `Connection` gives the entry ("connection", "") instead of failing |
| DecoderCases.FieldLineF1 | src/http/request.rs:173-194 | `name="f1"hello`, bare or behind the disposition prefix, gives the field ("f1", "hello") |
| DecoderCases.BoundedBodyLines | src/http/request.rs:67-72 | a body read in two parts, with the field line cut after its name, becomes the lines `--` + the whole field line and `--`, because the parts are joined with nothing between |
| DecoderCases.MultipartFieldAcrossParts | src/http/request.rs:67-76 | the two-part body of field f1 with boundary "b" yields exactly the data map {f1: hello} |

## Left out

- The socket: the TCP listener loop of `src/main.rs`, `handle_request`, the
  `stream.read` into the 1024-byte buffer, `dbg!` output and the fixed
  `200 OK` response. `StreamData` takes the buffer contents as input, so its
  length is not fixed at 1024. Unused bytes are NUL chars, which `trim` does
  not remove. When the text holds a `"\r\n\r\n"`, they end the last part and
  so the body. Otherwise they end part 0: the last head line (its value when
  it holds ':', otherwise its key; a NUL run after a final CRLF is a head line
  of its own and all key), or the request line when part 0 has no CRLF.
- `HttpContentTypeEnum::from` and the construction of its boundary strings.
  Their source is not part of this model. `Decode` and `New` take the
  classification as a function parameter, assumed total and non-panicking.
  `FormData` carries the two boundary strings as given.
- The `regex` crate itself. The three fixed patterns are explicit scans in
  `FormScan`.
- The compilation of the three fixed patterns (request.rs:185, 188, 191) is
  assumed to succeed, so their `unwrap()`s are not errors of the model. This
  holds for `regex` 1.8 and later; earlier releases may reject the `\"`
  escape in the pattern of line 185, and then `build_data` panics on every
  form-data request. The crate version is not part of this model.
- `Rc` sharing of the maps. Maps are plain immutable `map<string, string>`
  values.
- `src/http/consts.rs`: its literals are Dafny constants in `HttpEnums` and
  `HttpRequest`.
- Where the code departs from the HTTP semantics of RFC 9110 and RFC 9112,
  from the usual `application/x-www-form-urlencoded` form of a query, or from
  the multipart form data of RFC 7578, the model follows the code:
  - header values are lower-cased along with the keys;
  - a header line without ':' yields an empty value instead of failing;
  - a missing `content-type` aborts;
  - only `GET` is accepted;
  - a query piece is split at every '=', so "a=b=c" gives "b";
  - a query piece without '=' aborts, and so does an empty query: a target
    with nothing between its first and second '?' (so "/p?" aborts, while
    "/p?a=1?" decodes, with the text after the second '?' ignored);
  - the field value is what the value regex leaves, not the rest after the
    closing quote of the name.
- `HttpRequest.FormEntryOfField`: states the entry only for dash-free, quote-free
  single-line fields whose value does not end in white space. Cleaned lines
  without a line feed and with a '"' after their first `name="` are covered by
  `FieldValueOfSingleLine`, and by `FieldKeyOfSingleLine` too when no '"'
  comes before that `name="`. Cleaned lines without any '"' are covered by
  `FormEntry` and `FieldOfQuoteFreeLine` (key and value are both the cleaned
  line, so `hello` gives the entry ("hello", "hello")). The other lines have
  only the general bounds of `FieldKey`, `FieldValue` and `CutQuoteToLineEnd`:
  lines with a '"' but no `name="`, lines spanning a line feed, lines with an
  unterminated `name="` (such as `name="abc`, whose key is `abc` and whose
  value is the whole line), and the key of lines with a '"' before their
  first `name="` (such as `x"name="k"v`).
