/** The decision rules of the command (app/app.go): the `Run` dispatch, the
    `Validate` checks, and the parts of `GetResult` that do not touch the
    network: building the request headers, matching the expected response
    headers, the body search and the plain-text status line.

    What app.go obtains from Go's library or the network is a parameter
    (`Env`): the URL parser, request construction, the header-key
    canonicalisation of `Header.Set`, the HTTP exchange itself, and the
    version, commit hash and completion texts. */
module App {
  import opened Wrappers
  import opened Strings
  import opened Updates
  import Decimal
  import Flags

  /** The accepted timeout range, in seconds. */
  const MinTimeout := 1
  const MaxTimeout := 100

  newtype byte = x: int | 0 <= x < 256

  /** The parsed command line: the option variables and the positional URL. */
  datatype Options = Options(
    showVersion: bool,
    showCommitHash: bool,
    url: string,
    timeout: int,
    verbose: bool,
    json: bool,
    requestHeaders: seq<string>,
    responseHeaders: seq<string>,
    find: seq<byte>,
    basicAuth: string,
    skipVerify: bool)

  /** Response headers as net/http delivers them: every name present has at
      least one value. */
  type Header = h: map<string, seq<string>> | forall k :: k in h ==> h[k] != []
    witness map[]

  /** What `io.ReadAll` returned: the bytes read and whether it ended
      without error. */
  datatype BodyRead = BodyRead(data: seq<byte>, complete: bool)

  /** A response: its status, headers, and the outcome of reading the body
      as is and through a gzip reader (whose construction may fail with the
      given cause). */
  datatype Response = Response(
    status: int,
    header: Header,
    raw: BodyRead,
    gunzipped: Result<BodyRead, string>)

  /** The GET request handed to the HTTP client. */
  datatype Request = Request(
    url: string,
    timeout: int,
    header: map<string, seq<string>>,
    credentials: Option<(string, string)>,
    skipVerify: bool)

  /** Everything app.go takes from outside its own code. The three
      `...Error` functions return the failure's cause, `None` on success;
      `canonicalKey` is the key normalisation `Header.Set` applies. */
  datatype Env = Env(
    version: string,
    commitHash: string,
    bashCompletion: string,
    requestURIError: string -> Option<string>,
    newRequestError: string -> Option<string>,
    canonicalKey: string -> string,
    client: Request -> Result<Response, string>)

  datatype AppError =
    | UrlParseError(cause: string)
    | InvalidTimeout(timeout: int)
    | RequestError(cause: string)
    | ResponseError(cause: string)
    | GzipReaderError(cause: string)
      /** not an error return: the runtime panic of indexing the second
          word of a basic-auth value that has no colon */
    | IndexOutOfRange

  /** The error texts: `%w` wraps each cause after the fixed wording of
      app.go. */
  function Message(e: AppError): (m: string)
    ensures e.UrlParseError? ==> |m| >= 17 && m[..17] == "url parse error: " && m[17..] == e.cause
    ensures e.InvalidTimeout? ==>
              |m| >= 23 && m[..23] == "invalid timeout value: " && m[23..] == Decimal.Format(e.timeout)
    ensures e.RequestError? ==> |m| >= 15 && m[..15] == "request error: " && m[15..] == e.cause
    ensures e.ResponseError? ==> |m| >= 16 && m[..16] == "response error: " && m[16..] == e.cause
    ensures e.GzipReaderError? ==> |m| >= 24 && m[..24] == "body read (gzip) error: " && m[24..] == e.cause
    ensures e.IndexOutOfRange? ==> |m| >= 15 && m[..15] == "runtime error: "
  {
    match e
    case UrlParseError(cause) => "url parse error: " + cause
    case InvalidTimeout(t) => "invalid timeout value: " + Decimal.Format(t)
    case RequestError(cause) => "request error: " + cause
    case ResponseError(cause) => "response error: " + cause
    case GzipReaderError(cause) => "body read (gzip) error: " + cause
      // the runtime's prefix and its bounds message, kept apart so that the
      // prefix can be read off without expanding the whole literal
    case IndexOutOfRange => "runtime error: " + "index out of range [1] with length 1"
  }

  /** The first three letters of each error's wording, which already tell
      the six wordings apart. */
  ghost function Head(e: AppError): string {
    match e
    case UrlParseError(_) => "url"
    case InvalidTimeout(_) => "inv"
    case RequestError(_) => "req"
    case ResponseError(_) => "res"
    case GzipReaderError(_) => "bod"
    case IndexOutOfRange => "run"
  }

  lemma MessageHead(e: AppError)
    ensures |Message(e)| >= 3 && Message(e)[..3] == Head(e)
  {
    var m := Message(e);
    match e
    case UrlParseError(_) => assert m[..3] == m[..17][..3] == "url";
    case InvalidTimeout(_) => assert m[..3] == m[..23][..3] == "inv";
    case RequestError(_) => assert m[..3] == m[..15][..3] == "req";
    case ResponseError(_) => assert m[..3] == m[..16][..3] == "res";
    case GzipReaderError(_) => assert m[..3] == m[..24][..3] == "bod";
    case IndexOutOfRange => assert m[..3] == m[..15][..3] == "run";
  }

  /** Each error text starts with its own fixed wording, so the text names
      the error, and the cause (or the timeout value) can be read back from
      it: different errors print differently. */
  lemma MessageInjective(e1: AppError, e2: AppError)
    requires Message(e1) == Message(e2)
    ensures e1 == e2
  {
    MessageHead(e1);
    MessageHead(e2);
    assert Head(e1) == Head(e2);
    if e1.InvalidTimeout? {
      Decimal.FormatInjective(e1.timeout, e2.timeout);
    }
  }

  /** The JSON record, without the clock-derived `checked_at` and `elapsed`. */
  datatype CheckResult = CheckResult(
    url: string,
    status: int,
    length: nat,
    find: Option<seq<byte>>,
    found: Option<bool>,
    skipCertificateCheck: bool,
    responseHeaders: Option<map<string, bool>>)

  /** What was written to the output: nothing, text, or the JSON record. */
  datatype Written = Nothing | Text(text: string) | Json(result: CheckResult)

  /** The observable effect of one run: the output written, whether the
      usage text was printed, the request sent (if one was), and the error
      returned (if any). */
  datatype RunOutcome = RunOutcome(
    written: Written,
    usageShown: bool,
    sent: Option<Request>,
    err: Option<AppError>)

  function Failed(e: AppError): RunOutcome {
    RunOutcome(Nothing, false, None, Some(e))
  }

  function Printed(line: string): RunOutcome {
    RunOutcome(Text(line + "\n"), false, None, None)
  }

  /** The stored header flag values, as `Set` leaves them. */
  predicate FlagsWellFormed(opts: Options) {
    Flags.AllWellFormed(opts.requestHeaders) && Flags.AllWellFormed(opts.responseHeaders)
  }

  /** All of `Validate`'s checks pass. */
  predicate Proceeds(opts: Options, env: Env) {
    && opts.url != []
    && env.requestURIError(opts.url).None?
    && MinTimeout <= opts.timeout <= MaxTimeout
  }

  // ---------------------------------------------------------------------
  // Splitting stored "Name: Value" flag values

  /** `trimSpaces`: every element trimmed, in place. */
  function TrimAll(parts: seq<string>): (r: seq<string>)
    ensures |r| == |parts|
    ensures forall i :: 0 <= i < |r| ==> r[i] == TrimSpace(parts[i])
    ensures forall i :: 0 <= i < |r| ==> (r[i] == [] <==> AllSpace(parts[i]))
  {
    seq(|parts|, i requires 0 <= i < |parts| => TrimSpace(parts[i]))
  }

  /** Trimming a second time changes nothing. */
  lemma TrimAllIdempotent(parts: seq<string>)
    ensures TrimAll(TrimAll(parts)) == TrimAll(parts)
  {
    forall i | 0 <= i < |parts|
      ensures TrimSpace(TrimSpace(parts[i])) == TrimSpace(parts[i])
    {
      TrimSpaceIdempotent(parts[i]);
    }
  }

  /** A stored flag value split on ':' and trimmed: `vals[0]`, `vals[1]`. */
  datatype HeaderPair = HeaderPair(name: string, value: string)

  /** `strings.Split(v, ":")` followed by `trimSpaces`; the stored value's
      well-formedness is what makes both indexes safe. */
  function SplitHeader(v: string): (p: HeaderPair)
    requires Flags.WellFormed(v)
    ensures p.name != [] && p.value != []
  {
    var vals := TrimAll(Split(v, ':'));
    HeaderPair(vals[0], vals[1])
  }

  /** The name is the trimmed text before the stored value's one colon and
      the value the trimmed text after it. */
  lemma SplitHeaderSides(v: string)
    requires Flags.WellFormed(v)
    ensures FirstIndex(v, ':') < |v|
    ensures SplitHeader(v).name == TrimSpace(v[..FirstIndex(v, ':')])
    ensures SplitHeader(v).value == TrimSpace(v[FirstIndex(v, ':') + 1..])
  {
    SplitSingle(v, ':');
  }

  /** Joining a pair back with ':' and splitting it again gives the pair
      back, so no information is lost in the split. */
  lemma SplitHeaderRoundTrip(p: HeaderPair)
    requires p.name != [] && p.value != []
    requires ':' !in p.name && ':' !in p.value
    requires TrimSpace(p.name) == p.name && TrimSpace(p.value) == p.value
    ensures Flags.WellFormed(p.name + ":" + p.value)
    ensures SplitHeader(p.name + ":" + p.value) == p
  {
    var parts := [p.name, p.value];
    SplitJoin(parts, ':');
    assert Join(parts, ':') == p.name + ":" + p.value;
  }

  function SplitHeaders(vs: seq<string>): (ps: seq<HeaderPair>)
    requires Flags.AllWellFormed(vs)
    ensures |ps| == |vs|
    ensures forall i :: 0 <= i < |vs| ==> ps[i] == SplitHeader(vs[i])
  {
    seq(|vs|, i requires 0 <= i < |vs| => SplitHeader(vs[i]))
  }

  // ---------------------------------------------------------------------
  // Request headers

  const AcceptEncoding := "Accept-Encoding"

  /** The request header starts with `Accept-Encoding: gzip`. */
  function BaseHeader(canon: string -> string): map<string, seq<string>> {
    map[canon(AcceptEncoding) := ["gzip"]]
  }

  /** One `req.Header.Set(name, value)` per pair, in order. */
  function HeaderWrites(canon: string -> string, ps: seq<HeaderPair>): (ups: seq<Update<string, seq<string>>>)
    ensures |ups| == |ps|
    ensures forall i :: 0 <= i < |ps| ==> ups[i] == Write(canon(ps[i].name), [ps[i].value])
  {
    seq(|ps|, i requires 0 <= i < |ps| => Write(canon(ps[i].name), [ps[i].value]))
  }

  /** The request's header map after the gzip default and every
      `-request-header` pair have been applied with `Header.Set`: the
      default is always there and every name holds exactly one value. */
  function RequestHeader(canon: string -> string, ps: seq<HeaderPair>): (h: map<string, seq<string>>)
    ensures canon(AcceptEncoding) in h
    ensures forall k :: k in h ==> |h[k]| == 1
  {
    var ups := HeaderWrites(canon, ps);
    var h := Fold(BaseHeader(canon), ups);
    forall k | k in h
      ensures |h[k]| == 1
    {
      LastWriteWins(BaseHeader(canon), ups, k);
    }
    LastWriteWins(BaseHeader(canon), ups, canon(AcceptEncoding));
    h
  }

  /** Position `i` holds the last pair whose name canonicalises to `k`. */
  predicate IsLastFor(canon: string -> string, ps: seq<HeaderPair>, k: string, i: int) {
    && 0 <= i < |ps|
    && canon(ps[i].name) == k
    && forall j :: i < j < |ps| ==> canon(ps[j].name) != k
  }

  /** For each header name the last supplied value wins, including over the
      gzip default; names nobody set are absent. */
  lemma RequestHeaderLastWins(canon: string -> string, ps: seq<HeaderPair>, k: string)
    ensures k in RequestHeader(canon, ps) <==>
              k == canon(AcceptEncoding) || exists i :: 0 <= i < |ps| && canon(ps[i].name) == k
    ensures forall i :: IsLastFor(canon, ps, k, i) ==> RequestHeader(canon, ps)[k] == [ps[i].value]
    ensures k == canon(AcceptEncoding) && (forall i :: 0 <= i < |ps| ==> canon(ps[i].name) != k) ==>
              RequestHeader(canon, ps)[k] == ["gzip"]
  {
    var ups := HeaderWrites(canon, ps);
    LastWriteWins(BaseHeader(canon), ups, k);
    assert forall i :: 0 <= i < |ps| ==> (ups[i].WritesTo(k) <==> canon(ps[i].name) == k);
    forall i | IsLastFor(canon, ps, k, i)
      ensures RequestHeader(canon, ps)[k] == [ps[i].value]
    {
      assert IsLastWrite(ups, k, i);
    }
  }

  // ---------------------------------------------------------------------
  // Basic auth

  /** The credentials `SetBasicAuth` receives: the trimmed text before the
      first colon and the trimmed text between it and the next colon (or
      the end). A non-empty value without a colon makes `words[1]` panic. */
  function Credentials(auth: string): (r: Result<Option<(string, string)>, AppError>)
    ensures auth == [] ==> r == Success(None)
    ensures r.Failure? <==> auth != [] && ':' !in auth
    ensures r.Failure? ==> r.error == IndexOutOfRange
    ensures r.Success? && auth != [] ==>
              var i := FirstIndex(auth, ':');
              var rest := auth[i + 1..];
              r.value == Some((TrimSpace(auth[..i]), TrimSpace(rest[..FirstIndex(rest, ':')])))
  {
    if auth == [] then Success(None)
    else
      var words := TrimAll(Split(auth, ':'));
      if |words| < 2 then Failure(IndexOutOfRange)
      else
        var i := FirstIndex(auth, ':');
        assert Split(auth, ':')[1..] == Split(auth[i + 1..], ':');
        Success(Some((words[0], words[1])))
  }

  // ---------------------------------------------------------------------
  // Response-header expectations

  /** The JSON map key of an expectation: `name=value`. */
  function MatchKey(p: HeaderPair): string {
    p.name + "=" + p.value
  }

  /** The entry an expectation produces: `false` when the name is absent,
      `true` when its first value equals the expected one, and no entry at
      all when it is present with a different first value. The lookup is
      an exact key match. */
  function MatchEntry(header: Header, p: HeaderPair): Option<bool> {
    if p.name in header then
      if header[p.name][0] == p.value then Some(true) else None
    else Some(false)
  }

  /** One conditional map write per expectation, in order. */
  function MatchWrites(header: Header, ps: seq<HeaderPair>): (ups: seq<Update<string, bool>>)
    ensures |ups| == |ps|
    ensures forall i :: 0 <= i < |ps| ==>
              ups[i] == if MatchEntry(header, ps[i]).Some? then Write(MatchKey(ps[i]), MatchEntry(header, ps[i]).value) else Keep
  {
    seq(|ps|, i requires 0 <= i < |ps| =>
      var e := MatchEntry(header, ps[i]);
      if e.Some? then Write(MatchKey(ps[i]), e.value) else Keep)
  }

  /** The `response_headers` map: built from an empty map, one expectation
      at a time. Its keys are exactly the keys of the expectations that
      produce an entry, and each entry is one such expectation's. */
  function ResponseHeaderMatches(header: Header, ps: seq<HeaderPair>): (m: map<string, bool>)
    ensures forall k :: k in m <==> exists i :: 0 <= i < |ps| && MatchKey(ps[i]) == k && MatchEntry(header, ps[i]).Some?
    ensures forall k :: k in m ==> exists i :: 0 <= i < |ps| && MatchKey(ps[i]) == k && MatchEntry(header, ps[i]) == Some(m[k])
    ensures forall k :: LastWrite(MatchWrites(header, ps), k).Some? ==>
              k in m && m[k] == LastWrite(MatchWrites(header, ps), k).value
  {
    var ups := MatchWrites(header, ps);
    var m := Fold(map[], ups);
    forall k
      ensures k in m <==> exists i :: 0 <= i < |ps| && MatchKey(ps[i]) == k && MatchEntry(header, ps[i]).Some?
      ensures k in m ==> exists i :: 0 <= i < |ps| && MatchKey(ps[i]) == k && MatchEntry(header, ps[i]) == Some(m[k])
      ensures LastWrite(ups, k).Some? ==> k in m && m[k] == LastWrite(ups, k).value
    {
      LastWriteWins(map[], ups, k);
      assert forall i :: 0 <= i < |ps| ==>
        (ups[i].WritesTo(k) <==> MatchKey(ps[i]) == k && MatchEntry(header, ps[i]).Some?);
    }
    m
  }

  /** Position `i` holds the last expectation with key `k` that produces
      an entry. */
  predicate IsLastEntryFor(header: Header, ps: seq<HeaderPair>, k: string, i: int) {
    && 0 <= i < |ps|
    && MatchKey(ps[i]) == k && MatchEntry(header, ps[i]).Some?
    && forall j :: i < j < |ps| ==> !(MatchKey(ps[j]) == k && MatchEntry(header, ps[j]).Some?)
  }

  /** The later map assignment wins: a key's entry is the one produced by
      the last expectation with that key that produces an entry. */
  lemma ResponseHeaderLastWins(header: Header, ps: seq<HeaderPair>, k: string, i: int)
    requires IsLastEntryFor(header, ps, k, i)
    ensures var m := ResponseHeaderMatches(header, ps);
            k in m && m[k] == MatchEntry(header, ps[i]).value
  {
    var ups := MatchWrites(header, ps);
    assert IsLastWrite(ups, k, i);
  }

  /** Two expectations whose names contain no '=' have the same key only if
      they have the same name and value. */
  lemma MatchKeyInjective(p1: HeaderPair, p2: HeaderPair)
    requires '=' !in p1.name && '=' !in p2.name
    requires MatchKey(p1) == MatchKey(p2)
    ensures p1 == p2
  {
    var key := MatchKey(p1);
    var n1, n2 := p1.name, p2.name;
    assert key[..|n1|] == n1 && key[|n1|] == '=';
    assert key[..|n2|] == n2 && key[|n2|] == '=';
    assert FirstIndex(key, '=') == |n1| == |n2|;
    assert n1 == key[..|n1|] == n2;
    assert p1.value == key[|n1| + 1..] == p2.value;
  }

  /** When no expected header name contains '=', each expectation's entry is
      the one app.go intends: `true` for a present name whose first
      value matches, `false` for an absent name, and no entry for a present
      name with another first value. */
  lemma ResponseHeaderEntries(header: Header, ps: seq<HeaderPair>, i: int)
    requires forall j :: 0 <= j < |ps| ==> '=' !in ps[j].name
    requires 0 <= i < |ps|
    ensures var m := ResponseHeaderMatches(header, ps);
            var p, key := ps[i], MatchKey(ps[i]);
            && (p.name !in header ==> key in m && !m[key])
            && (p.name in header && header[p.name][0] == p.value ==> key in m && m[key])
            && (p.name in header && header[p.name][0] != p.value ==> key !in m)
  {
    var m := ResponseHeaderMatches(header, ps);
    var key := MatchKey(ps[i]);
    forall j | 0 <= j < |ps| && MatchKey(ps[j]) == key
      ensures ps[j] == ps[i]
    {
      MatchKeyInjective(ps[i], ps[j]);
    }
  }

  /** Without that condition two different expectations share a key:
      `a=b: c` and `a: b=c` both report under `a=b=c`, and whichever
      produces an entry last decides it. */
  lemma MatchKeysCanCollide()
    ensures MatchKey(HeaderPair("a=b", "c")) == MatchKey(HeaderPair("a", "b=c"))
  {
  }

  // ---------------------------------------------------------------------
  // Body search and the JSON record

  /** `resp.Header.Get("Content-Encoding")`: the first value, or "". */
  function ContentEncoding(header: Header): string {
    if "Content-Encoding" in header then header["Content-Encoding"][0] else ""
  }

  /** The reader the body is read through: a gzip reader when the response
      says so, the body itself otherwise. */
  function DecodedBody(resp: Response): (r: Result<BodyRead, string>)
    ensures r.Failure? ==> ContentEncoding(resp.header) == "gzip"
    ensures ContentEncoding(resp.header) != "gzip" ==> r == Success(resp.raw)
    ensures ContentEncoding(resp.header) == "gzip" ==> r == resp.gunzipped
  {
    if ContentEncoding(resp.header) == "gzip" then resp.gunzipped else Success(resp.raw)
  }

  datatype FindReport = FindReport(length: nat, find: Option<seq<byte>>, found: Option<bool>)

  /** The `length`, `find` and `found` fields. Without search text none of
      them is set. With it, `length` is the number of bytes read even when
      the read failed part-way, and `find`/`found` are set only when the
      read completed, `found` being case-sensitive byte containment. */
  function FindInBody(find: seq<byte>, resp: Response): (r: Result<FindReport, AppError>)
    ensures find == [] ==> r == Success(FindReport(0, None, None))
    ensures find != [] ==> (r.Failure? <==> DecodedBody(resp).Failure?)
    ensures r.Failure? ==> r.error == GzipReaderError(DecodedBody(resp).error)
    ensures find != [] && r.Success? ==>
              var body := DecodedBody(resp).value;
              && r.value.length == |body.data|
              && (r.value.find.Some? <==> body.complete)
              && (r.value.found.Some? <==> body.complete)
              && (r.value.find.Some? ==> r.value.find.value == find)
              && (r.value.found.Some? ==> (r.value.found.value <==> exists i :: OccursAt(body.data, find, i)))
  {
    if find == [] then Success(FindReport(0, None, None))
    else
      match DecodedBody(resp)
      case Failure(cause) => Failure(GzipReaderError(cause))
      case Success(body) =>
        if body.complete then
          Success(FindReport(|body.data|, Some(find), Some(Contains(body.data, find))))
        else
          Success(FindReport(|body.data|, None, None))
  }

  /** The JSON record of a response. */
  function JsonResult(opts: Options, resp: Response): (r: Result<CheckResult, AppError>)
    requires Flags.AllWellFormed(opts.responseHeaders)
    ensures r.Failure? <==> FindInBody(opts.find, resp).Failure?
    ensures r.Failure? ==> r.error == FindInBody(opts.find, resp).error
    ensures r.Success? ==>
              && r.value.url == opts.url
              && r.value.status == resp.status
              && r.value.skipCertificateCheck == opts.skipVerify
              && (r.value.responseHeaders.Some? <==> opts.responseHeaders != [])
              && (r.value.responseHeaders.Some? ==>
                    r.value.responseHeaders.value == ResponseHeaderMatches(resp.header, SplitHeaders(opts.responseHeaders)))
              && FindInBody(opts.find, resp) == Success(FindReport(r.value.length, r.value.find, r.value.found))
  {
    var headers :=
      if opts.responseHeaders == [] then None
      else Some(ResponseHeaderMatches(resp.header, SplitHeaders(opts.responseHeaders)));
    match FindInBody(opts.find, resp)
    case Failure(e) => Failure(e)
    case Success(report) =>
      Success(CheckResult(opts.url, resp.status, report.length, report.find, report.found,
                          opts.skipVerify, headers))
  }

  // ---------------------------------------------------------------------
  // Plain-text output

  /** `"<url> -> "` when verbose, then `"<status>\n"`. */
  function TextLine(url: string, status: int, verbose: bool): (line: string)
    ensures |line| > 0 && line[|line| - 1] == '\n'
    ensures verbose ==> |line| > |url| + 4 && line[..|url| + 4] == url + " -> "
    ensures verbose ==> Decimal.Parse(line[|url| + 4..|line| - 1]) == Some(status)
    ensures !verbose ==> Decimal.Parse(line[..|line| - 1]) == Some(status)
  {
    var prefix := if verbose then url + " -> " else "";
    var digits := Decimal.Format(status);
    var line := prefix + digits + "\n";
    assert line[|prefix|..|line| - 1] == digits;
    assert line[..|prefix|] == prefix;
    Decimal.FormatRoundTrip(status);
    line
  }

  /** The timeout error names the rejected value, which can be read back
      from the message. */
  lemma TimeoutMessageNamesValue(t: int)
    ensures var m := Message(InvalidTimeout(t));
            |m| > 23 && m[..23] == "invalid timeout value: " && Decimal.Parse(m[23..]) == Some(t)
  {
    var m := Message(InvalidTimeout(t));
    assert m[23..] == Decimal.Format(t);
    Decimal.FormatRoundTrip(t);
  }

  // ---------------------------------------------------------------------
  // Run, Validate, GetResult

  /** `GetResult` once validation has passed: build the request, send it,
      and report the response as JSON or as a status line. */
  function GetResult(opts: Options, env: Env): (o: RunOutcome)
    requires FlagsWellFormed(opts)
    ensures !o.usageShown
    ensures o.err.Some? ==> o.written == Nothing
    ensures o.sent.Some? ==>
              && o.sent.value.url == opts.url
              && o.sent.value.timeout == opts.timeout
              && o.sent.value.skipVerify == opts.skipVerify
              && o.sent.value.header == RequestHeader(env.canonicalKey, SplitHeaders(opts.requestHeaders))
              && Credentials(opts.basicAuth) == Success(o.sent.value.credentials)
    ensures o.sent.None? <==> env.newRequestError(opts.url).Some? || Credentials(opts.basicAuth).Failure?
    ensures env.newRequestError(opts.url).Some? ==> o.err == Some(RequestError(env.newRequestError(opts.url).value))
    ensures env.newRequestError(opts.url).None? && Credentials(opts.basicAuth).Failure? ==>
              o.err == Some(IndexOutOfRange)
    ensures o.sent.Some? && env.client(o.sent.value).Failure? ==>
              o.err == Some(ResponseError(env.client(o.sent.value).error))
    ensures o.sent.Some? && env.client(o.sent.value).Success? && !opts.json ==> o.err.None?
    ensures o.sent.Some? && env.client(o.sent.value).Success? && opts.json ==>
              (o.err.None? <==> JsonResult(opts, env.client(o.sent.value).value).Success?)
    ensures o.sent.Some? && env.client(o.sent.value).Success? && opts.json && o.err.Some? ==>
              o.err == Some(JsonResult(opts, env.client(o.sent.value).value).error)
    ensures o.err.None? ==> o.sent.Some? && env.client(o.sent.value).Success?
    ensures o.err.None? && opts.json ==>
              var resp := env.client(o.sent.value).value;
              o.written.Json? && JsonResult(opts, resp) == Success(o.written.result)
    ensures o.err.None? && !opts.json ==>
              var resp := env.client(o.sent.value).value;
              o.written == Text(TextLine(opts.url, resp.status, opts.verbose))
  {
    match env.newRequestError(opts.url)
    case Some(cause) => Failed(RequestError(cause))
    case None =>
      var header := RequestHeader(env.canonicalKey, SplitHeaders(opts.requestHeaders));
      match Credentials(opts.basicAuth)
      case Failure(e) => Failed(e)
      case Success(credentials) =>
        var req := Request(opts.url, opts.timeout, header, credentials, opts.skipVerify);
        match env.client(req)
        case Failure(cause) => RunOutcome(Nothing, false, Some(req), Some(ResponseError(cause)))
        case Success(resp) =>
          if opts.json then
            match JsonResult(opts, resp)
            case Failure(e) => RunOutcome(Nothing, false, Some(req), Some(e))
            case Success(result) => RunOutcome(Json(result), false, Some(req), None)
          else
            RunOutcome(Text(TextLine(opts.url, resp.status, opts.verbose)), false, Some(req), None)
  }

  /** `Validate`: an empty URL prints the usage and succeeds; then the URL
      must parse, then the timeout must lie in [1, 100]; only then is a
      request attempted. */
  function Validate(opts: Options, env: Env): (o: RunOutcome)
    requires FlagsWellFormed(opts)
    ensures opts.url == [] ==> o == RunOutcome(Nothing, true, None, None)
    ensures o.usageShown <==> opts.url == []
    ensures opts.url != [] && env.requestURIError(opts.url).Some? ==>
              o == Failed(UrlParseError(env.requestURIError(opts.url).value))
    ensures opts.url != [] && env.requestURIError(opts.url).None? ==>
              (o.err == Some(InvalidTimeout(opts.timeout)) <==> !(MinTimeout <= opts.timeout <= MaxTimeout))
    ensures o.err.Some? && o.err.value.InvalidTimeout? ==> o.sent.None? && o.written == Nothing
    ensures o.sent.Some? ==> Proceeds(opts, env)
    ensures Proceeds(opts, env) ==> o == GetResult(opts, env)
  {
    if opts.url == [] then RunOutcome(Nothing, true, None, None)
    else match env.requestURIError(opts.url)
      case Some(cause) => Failed(UrlParseError(cause))
      case None =>
        if opts.timeout > MaxTimeout || opts.timeout < MinTimeout then Failed(InvalidTimeout(opts.timeout))
        else GetResult(opts, env)
  }

  /** `Run`: the version wins over the commit hash, which wins over the
      `bash-completion` argument, which wins over validation; each early
      branch prints one line and returns no error. */
  function Run(opts: Options, env: Env): (o: RunOutcome)
    requires FlagsWellFormed(opts)
    ensures opts.showVersion ==> o == Printed(env.version)
    ensures !opts.showVersion && opts.showCommitHash ==> o == Printed(env.commitHash)
    ensures !opts.showVersion && !opts.showCommitHash && opts.url == "bash-completion" ==>
              o == Printed(env.bashCompletion)
    ensures o.sent.Some? ==>
              && !opts.showVersion && !opts.showCommitHash && opts.url != "bash-completion"
              && Proceeds(opts, env)
    ensures o.usageShown <==>
              !opts.showVersion && !opts.showCommitHash && opts.url == []
    ensures !opts.showVersion && !opts.showCommitHash && opts.url != "bash-completion" ==>
              o == Validate(opts, env)
  {
    if opts.showVersion then Printed(env.version)
    else if opts.showCommitHash then Printed(env.commitHash)
    else if opts.url == "bash-completion" then Printed(env.bashCompletion)
    else Validate(opts, env)
  }
}
