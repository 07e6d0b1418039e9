# statoo: header flags and evaluation rules

statoo is a command-line HTTP status checker. It takes a URL and a few flags,
sends one GET request and prints either the status code or a JSON record.
This project models the parts of statoo that are decision rules rather than
I/O:

- the two repeatable header flags (`-request-header`, `-response-header`):
  how `Set` trims, accepts or rejects a `Name: Value` argument, and what it
  stores;
- the command's `Run` dispatch and `Validate` checks;
- the pure parts of `GetResult`:
  - building the request header map with `Header.Set` (the last write wins);
  - the basic-auth credentials;
  - the `response_headers` match map;
  - the `find`/`found`/`length` fields;
  - the plain-text status line.

Modules:

- `Wrappers`: `Option` and `Result`.
- `Strings`: the Go `strings` and `unicode` routines the code relies on, on
  `seq<char>`:
  - `TrimSpace` with `unicode.IsSpace`;
  - `Count`, `Split` and `FieldsFunc` on one separator character;
  - `Index` and `Contains`.

  Each comes with its partner: `Join` undoes `Split`, `FieldsFunc` is `Split`
  without the empty pieces, trimming removes only white space and only at
  the two ends, and `Contains` holds iff an occurrence exists.
- `Decimal`: the `%d` verb and the decimal reading that undoes it.
- `Updates`: a map built by an ordered sequence of keyed writes, with its
  "last write wins" characterisation.
- `Flags`: `RequestHeadersFlag.Set` and `ResponseHeadersFlag.Set`.
- `App`: `Run`, `Validate`, `GetResult` and their helpers.

Everything `app.go` takes from Go's library or the network is a field of
`App.Env`:

- the result of `url.ParseRequestURI`;
- whether `http.NewRequestWithContext` fails;
- the key canonicalisation `Header.Set` applies;
- the HTTP exchange (a `Request` to a `Response` or an error cause);
- the version, commit-hash and bash-completion texts.

A `Response` holds the status, the header map, and the outcome of reading
the body, both raw and through a gzip reader. Response bodies and the
`-find` text are bytes, as Go's `len` and `strings.Contains` see them.

Three points where `app/app.go` behaves otherwise than its tests, HTTP
conventions or its `omitempty` tags would suggest; the model follows
`app/app.go`:

- The response-header lookup is an exact map-key match (`resp.Header[name]`),
  not the case-insensitive lookup HTTP header names usually get.
- An empty URL prints the usage and returns no error. `app/app_test.go`
  expects otherwise, but it no longer matches `app/app.go`.
- `skipcc` is always present in the JSON record, because the field is a
  `*bool` that is always set.

## Model

| member | source | states |
|---|---|---|
| Flags.Set | app/flags/flags.go:24-37 | The value is accepted iff its trimmed form is non-empty, has exactly one ':' and has no ':' at either end; on success the list gains exactly the trimmed value at its end; on failure the list is unchanged; the "empty" error comes exactly for all-white-space input, otherwise the "invalid" error carries the trimmed value |
| Flags.FieldsOfSingleColon | app/flags/flags.go:29-34 | With exactly one ':', FieldsFunc gives two fields iff neither end of the value is ':' |
| Flags.StoredValueSplits | app/flags/flags.go:25-35 | Every accepted value, as stored, splits on ':' into exactly two parts that are non-empty after trimming, and is already trimmed |
| Flags.SetKeepsWellFormed | app/flags/flags.go:35 | `Set` preserves the invariant that every stored value splits into two non-empty trimmed parts |
| Flags.SetAcceptsPair | app/flags/flags.go:29-35 | A colon-free name and value, joined by one ':' and with non-space ends, are stored exactly as given |
| Flags.SetRefusesTwoColons | app/flags/flags.go:29-31 | A value with two colons is refused with the "invalid" error, and the list is unchanged |
| Flags.SetRefusesBlank | app/flags/flags_test.go:17-19 | The empty and the all-white-space values get the "empty" error |
| Flags.SetRefusesNoColon | app/flags/flags_test.go:20-31 | `foobar` and `foo;bar` get the "invalid" error |
| Flags.SetExampleTwoColons | app/flags/flags_test.go:32-34 | `foo:bar:baz` is refused |
| Flags.SetExamplePair | app/flags/flags_test.go:35-37 | `foo:bar` is stored |
| Flags.SameAcceptance | app/flags/flags.go:47-60 | The response-header flag accepts and stores exactly what the request-header flag does |
| Flags.Message | app/flags/flags.go:9-14 | The "empty" errors start with `empty `; the "invalid" errors start with `invalid ` and end with `: ` and the refused value, as `%w: %s` wraps them (flags.go:30) |
| Flags.MessageInjective | app/flags/flags.go:9-14 | The four sentinel texts are distinct, telling the request flag from the response flag and "empty" from "invalid", and an invalid-value text carries its value: equal texts mean equal errors |
| Strings.TrimSpace | app/flags/flags.go:25 | The trimmed text is empty iff the input is all white space, and otherwise starts and ends with a non-space character |
| Strings.TrimSpaceStrips | app/flags/flags.go:25 | The trimmed text is a contiguous slice of the input, and only white space lies before and after it |
| Strings.TrimSpaceIdempotent | app/flags/flags.go:25 | Trimming twice is trimming once |
| Strings.Count | app/flags/flags.go:29 | The count of a separator is zero iff the separator does not occur |
| Strings.CountIsOccurrences | app/flags/flags.go:29 | The count is the number of occurrences of the separator in the text |
| Strings.Split | app/app.go:212 | Split yields one more piece than there are separators, and no piece contains the separator |
| Strings.JoinSplit | app/app.go:212 | Joining the pieces of a split with the separator gives back the input |
| Strings.SplitJoin | app/app.go:252 | Splitting a join of separator-free pieces gives back the pieces |
| Strings.SplitSingle | app/app.go:212-214 | With exactly one separator, the two pieces are the text before it and the text after it |
| Strings.Fields | app/flags/flags.go:32 | Every field is non-empty and free of the separator |
| Strings.FieldsAreNonEmptyPieces | app/flags/flags.go:32 | FieldsFunc on one separator equals Split with the empty pieces dropped |
| Strings.Index | app/app.go:289 | Gives -1 iff there is no occurrence, and otherwise the first occurrence |
| Strings.Contains | app/app.go:289 | Containment holds iff the text occurs at some position |
| Decimal.Format | app/app.go:313 | The rendering starts with '-' iff the number is negative, and the digits after any sign have no leading zero (a single "0" for zero) |
| Decimal.FormatRoundTrip | app/app.go:313 | Reading back a rendered number gives the number |
| Decimal.ParseOnlyFormat | app/app.go:313 | The only text that reads back as a number is the text `%d` writes for it: reading rejects leading zeros and "-0" |
| Decimal.FormatInjective | app/app.go:183 | Different numbers render differently |
| Updates.LastWrite | app/app.go:211-215 | There is no last write to a key iff no update writes it; otherwise it is the value of the last update that does |
| Updates.LastWriteWins | app/app.go:211-215 | After the writes, each key holds its last written value, and keys nobody writes keep their starting entry |
| App.TrimAll | app/app.go:74-78 | Every element is replaced by its trimmed form, with order and length kept; an element becomes empty iff it was all white space |
| App.TrimAllIdempotent | app/app.go:74-78 | Trimming the elements a second time changes nothing |
| App.SplitHeader | app/app.go:212-214 | A stored flag value yields a non-empty name and a non-empty value, so both indexes are safe |
| App.SplitHeaderSides | app/app.go:212-214 | The name is the trimmed text before the value's one ':', and the value is the trimmed text after it |
| App.SplitHeaderRoundTrip | app/app.go:252-254 | Re-joining a trimmed, colon-free name and value with ':' and splitting again gives the same pair |
| App.RequestHeader | app/app.go:208-216 | The request header always holds the gzip default's key, and every name holds exactly one value |
| App.RequestHeaderLastWins | app/app.go:208-216 | A name is present iff it is the gzip default's or some flag sets it; its value is the last one supplied for it, including over the gzip default; a default that nobody overrides is "gzip" |
| App.Credentials | app/app.go:218-222 | No auth means no credentials; a non-empty value without ':' panics at `words[1]`; otherwise the user is the trimmed text before the first ':' and the password is the trimmed text up to the next ':' |
| App.Message | app/app.go:179-276 | Every error text is its own fixed wording followed by the wrapped cause: `url parse error: `, `request error: `, `response error: ` or `body read (gzip) error: ` and the cause, `invalid timeout value: ` and the `%d` text of the timeout; the panic of `words[1]` starts with the runtime's `runtime error: ` |
| App.MessageInjective | app/app.go:179-276 | Different errors print differently: the wording names the error, and the cause (or the `%d` text of the timeout) follows it |
| App.ResponseHeaderMatches | app/app.go:249-267 | A key is in the map iff some expectation with that key produces an entry; each entry comes from an expectation with that key, and the last write to a key is the entry it keeps |
| App.ResponseHeaderLastWins | app/app.go:251-265 | The entry for a key is the one produced by the last expectation with that key that produces an entry |
| App.MatchKeyInjective | app/app.go:254 | When the names contain no '=', equal map keys mean equal name and value |
| App.ResponseHeaderEntries | app/app.go:256-264 | When no name contains '=': an absent name gives false, a present name whose first value matches gives true, and a present name with another first value gives no entry |
| App.MatchKeysCanCollide | app/app.go:254 | Without that condition, `a=b: c` and `a: b=c` share the key `a=b=c` |
| App.DecodedBody | app/app.go:272-285 | A response whose Content-Encoding is not gzip is read as is; one whose Content-Encoding is gzip is read through the gzip reader, which is the only thing that can fail |
| App.FindInBody | app/app.go:269-294 | Without find text, nothing is set. With it: a gzip reader failure is an error; `length` is the byte count read even after a read error; `find` and `found` are set iff the read completed; `found` holds iff the text occurs in the body |
| App.JsonResult | app/app.go:238-294 | The record carries the URL, status and skip flag; it has a header map iff expectations were given, and that map is their match map; its find fields are those of the body search; it fails iff the body search fails, and then with the body search's gzip error |
| App.TextLine | app/app.go:310-313 | The line ends in a newline and starts with `<url> -> ` when verbose; the rest reads back as the status, and reading accepts only the text `%d` writes |
| App.TimeoutMessageNamesValue | app/app.go:182-184 | The timeout error starts with `invalid timeout value: `, and the rest reads back as the rejected value, in the form `%d` writes |
| App.GetResult | app/app.go:189-315 | A request is sent iff request construction and the credentials succeed, with the flag-derived header map and credentials. A failed construction returns the request error, a colon-less auth value the index panic, and a failed exchange the response error. A successful exchange succeeds in text mode, and in JSON mode exactly when the record is built (otherwise it returns the record's error). Any error writes nothing, and a success writes the JSON record or the text line |
| App.Validate | app/app.go:171-186 | An empty URL shows usage with no error; then a URL parse error comes before the timeout check; an out-of-range timeout is the only cause of the timeout error; a request is sent only when every check passes, and when every check passes the outcome is that of `GetResult` |
| App.Run | app/app.go:152-168 | The version wins over the commit hash, which wins over `bash-completion`, which wins over validation; each early branch prints one line and returns no error; when none applies the outcome is that of `Validate`; usage is shown iff none of them applies and the URL is empty |

## Left out

- HTTP transport, TLS configuration, client timeouts and `client.Do` are not modelled: the exchange is the `Env.client` parameter. `Request` records only what is handed to it.
- `url.ParseRequestURI` and `http.NewRequestWithContext` are foreign calls. They are `Env` parameters that return the failure cause, and the causes' texts are not modelled.
- The key canonicalisation of `Header.Set` (`textproto.CanonicalMIMEHeaderKey`) is the `Env.canonicalKey` parameter.
- `SetBasicAuth` is not modelled beyond its arguments. The Base64 `Authorization` header it writes is left out, and `Request.credentials` holds the pair.
- App.RequestHeaderLastWins: it describes the header map before `SetBasicAuth`. With `-auth`, `SetBasicAuth` then writes `Authorization` with `Header.Set`, which replaces any `-request-header "Authorization: ..."` value. The model keeps the credentials beside the map.
- App.Header: it assumes every response header that is present has at least one value. net/http guarantees this, and it is what makes `hvals[0]` (app.go:258) safe.
- Gzip decompression and `io.ReadAll` are foreign codecs. Each response carries the bytes read, raw and through the gzip reader, and whether the read completed.
- Elapsed time and `checked_at` come from the wall clock and use floating point.
- `json.Marshal`, the `omitempty` tags and the write to the output are not modelled. `Json` holds the record itself, and marshal and write errors are not modelled.
- Draining the body in text mode and closing the body and the gzip reader are not modelled.
- The `flag` package's parsing, the global option variables, the usage text, the bash-completion text and `main.go` are not modelled. `Options` is the parsed command line, and the texts are `Env` parameters.
- App.Credentials: the panic of `words[1]` is modelled as the `IndexOutOfRange` error value rather than as a process crash.
- Text inputs (flag values, the URL, header names and values) are `seq<char>`, so they are taken to be valid UTF-8. A Go string can hold invalid UTF-8, which `strings.TrimSpace` and `strings.FieldsFunc` read as U+FFFD; that case is not modelled. Only the body and the `-find` text are bytes.
- App.Message: for the `words[1]` panic only the `runtime error: ` prefix is stated; the rest of the runtime's text (`index out of range [1] with length 1`) is in the body but not in the contract.
- App.ResponseHeaderEntries: it is stated only for names without '='. `App.MatchKeysCanCollide` shows why: with such names two expectations can share a map key, and the later one decides the entry.
