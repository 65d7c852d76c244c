/**
 * The small readers the admin server applies to a request before any logic runs:
 * the Cookie header, the client address, the JSON body size and the query
 * parameters of the audit-log listing.
 */
module RequestParsing {
  import opened Wrappers
  import opened Text

  const SessionCookie: string := "oscars_admin_session"
  const MaxJsonBodyBytes: int := 1024 * 1024

  /** The request headers the admin handlers read; a missing header is the default
      the source passes to `headers.get`. */
  datatype Request = Request(
    cookie: string,               // `Cookie`, default ''
    forwardedFor: string,         // `X-Forwarded-For`, default ''
    clientAddress: Option<string>, // `client_address[0]`, None for an empty address tuple
    csrfHeader: string,           // `X-CSRF-Token`, a missing header read as ''
    userAgent: string,            // `User-Agent`, default ''
    path: string)

  // ---------------------------------------------------------------- cookies

  /** A cookie part is a pair only when it holds `=`; the name is what precedes the
      first `=`, the value what follows it, both stripped. */
  predicate IsPair(part: string) { '=' in part }

  function CookieName(part: string): string { PyStrip(part[..IndexOf(part, '=')]) }

  function CookieValue(part: string): string
    requires IsPair(part)
  {
    PyStrip(part[IndexOf(part, '=') + 1..])
  }

  /** The dictionary the loop of `_parse_cookies` has built after the given parts. */
  function CookiesOf(parts: seq<string>): map<string, string>
    decreases |parts|
  {
    if |parts| == 0 then map[]
    else
      var m := CookiesOf(parts[..|parts| - 1]);
      var last := parts[|parts| - 1];
      if IsPair(last) then m[CookieName(last) := CookieValue(last)] else m
  }

  /** A name is present exactly when some pair part carries it. */
  lemma {:induction false} CookieNames(parts: seq<string>, name: string)
    ensures name in CookiesOf(parts) <==> exists i :: 0 <= i < |parts| && IsPair(parts[i]) && CookieName(parts[i]) == name
    decreases |parts|
  {
    if |parts| > 0 {
      var init := parts[..|parts| - 1];
      CookieNames(init, name);
      if exists i :: 0 <= i < |init| && IsPair(init[i]) && CookieName(init[i]) == name {
        var i :| 0 <= i < |init| && IsPair(init[i]) && CookieName(init[i]) == name;
        assert parts[i] == init[i];
      }
      if exists i :: 0 <= i < |parts| && IsPair(parts[i]) && CookieName(parts[i]) == name {
        var i :| 0 <= i < |parts| && IsPair(parts[i]) && CookieName(parts[i]) == name;
        if i < |init| { assert init[i] == parts[i]; }
      }
    }
  }

  /** A repeated name takes its value from the last pair part that carries it. */
  lemma {:induction false} LastCookieWins(parts: seq<string>, i: nat)
    requires i < |parts| && IsPair(parts[i])
    requires forall j :: i < j < |parts| && IsPair(parts[j]) ==> CookieName(parts[j]) != CookieName(parts[i])
    ensures CookieName(parts[i]) in CookiesOf(parts)
    ensures CookiesOf(parts)[CookieName(parts[i])] == CookieValue(parts[i])
    decreases |parts|
  {
    if i < |parts| - 1 {
      var init := parts[..|parts| - 1];
      assert init[i] == parts[i];
      forall j | i < j < |init| && IsPair(init[j]) ensures CookieName(init[j]) != CookieName(init[i]) {
        assert init[j] == parts[j];
      }
      LastCookieWins(init, i);
    }
  }

  /** `_parse_cookies`: split the header on `;`, keep the parts holding `=`, later
      parts overriding earlier ones. */
  method ParseCookies(raw: string) returns (cookies: map<string, string>)
    ensures cookies == CookiesOf(Split(raw, ';'))
    ensures raw == "" ==> cookies == map[]
  {
    cookies := map[];
    var parts := Split(raw, ';');
    if raw == "" {
      assert parts == [""];
      assert parts[..0] == [];
      return;
    }
    for i := 0 to |parts|
      invariant cookies == CookiesOf(parts[..i])
    {
      var part := parts[i];
      assert parts[..i + 1][..i] == parts[..i];
      if '=' in part {
        var eq := IndexOf(part, '=');
        cookies := cookies[PyStrip(part[..eq]) := PyStrip(part[eq + 1..])];
      }
    }
    assert parts[..|parts|] == parts;
  }

  /** `self._parse_cookies().get(ADMIN_SESSION_COOKIE)`, with an empty value read
      as no token, as `if not token` does. */
  function SessionToken(cookies: map<string, string>): (token: Option<string>)
    ensures token.Some? ==> token.value != "" && SessionCookie in cookies && cookies[SessionCookie] == token.value
    ensures token.None? ==> SessionCookie !in cookies || cookies[SessionCookie] == ""
  {
    if SessionCookie in cookies && cookies[SessionCookie] != "" then Some(cookies[SessionCookie]) else None
  }

  // ---------------------------------------------------------------- client address

  /** `_client_ip`: the first hop of `X-Forwarded-For`, stripped; else the socket
      address; else `unknown`. */
  function ClientIp(req: Request): (ip: string)
    ensures req.forwardedFor != "" ==> ip == PyStrip(req.forwardedFor[..IndexOf(req.forwardedFor, ',')]) && ',' !in ip
    ensures req.forwardedFor == "" ==> ip == req.clientAddress.GetOr("unknown")
  {
    if req.forwardedFor != "" then
      SplitFirst(req.forwardedFor, ',');
      var ip := PyStrip(Split(req.forwardedFor, ',')[0]);
      StripIsSlice(Split(req.forwardedFor, ',')[0]);
      ip
    else req.clientAddress.GetOr("unknown")
  }

  lemma StripIsSlice(s: string)
    ensures ',' !in s ==> ',' !in PyStrip(s)
  {
    var r := PyStrip(s);
    var i := |s| - |TrimStart(s, Python)|;
    StripFacts(s, Python);
    if ',' !in s {
      forall k | 0 <= k < |r| ensures r[k] != ',' { assert r[k] == s[i + k]; }
    }
  }

  /** A proxy chain `client, proxy1, proxy2` identifies the request by its first hop. */
  lemma FirstForwardedHop(req: Request, hop: string, rest: string)
    requires ',' !in hop
    requires req.forwardedFor == hop + "," + rest
    ensures ClientIp(req) == PyStrip(hop)
  {
    SplitAfter(hop, rest, ',');
    SplitFirst(req.forwardedFor, ',');
    assert req.forwardedFor != "" by { assert |req.forwardedFor| > |hop|; }
    assert Split(req.forwardedFor, ',')[0] == hop by {
      assert req.forwardedFor == hop + [','] + rest;
    }
  }

  // ---------------------------------------------------------------- body size

  datatype BodyCheck =
    | InvalidLengthHeader   // 400 'Invalid Content-Length header.'
    | InvalidSize           // 400 'Invalid request size.'
    | TooLarge              // 413 'Request body too large.'
    | EmptyBody             // the body is `{}` without reading
    | ReadBody(length: nat) // read and decode exactly this many bytes

  /** The size checks of `_read_json_body` on `Content-Length` (default `0`). */
  function CheckBodyLength(contentLength: Option<string>): (c: BodyCheck)
    ensures c.ReadBody? ==> 0 < c.length <= MaxJsonBodyBytes
    ensures c == InvalidLengthHeader <==> ParsePyInt(contentLength.GetOr("0")).None?
  {
    match ParsePyInt(contentLength.GetOr("0"))
    case None => InvalidLengthHeader
    case Some(n) =>
      if n < 0 then InvalidSize
      else if n > MaxJsonBodyBytes then TooLarge
      else if n == 0 then EmptyBody
      else ReadBody(n)
  }

  /** A decimal `Content-Length` is read when it is positive and at most 1 MiB;
      a missing header is an empty body. */
  lemma BodyLengthOfDecimal(n: nat)
    ensures CheckBodyLength(Some(NatToDecimal(n)))
            == if n == 0 then EmptyBody else if n <= MaxJsonBodyBytes then ReadBody(n) else TooLarge
    ensures CheckBodyLength(None) == EmptyBody
  {
    ParseDecimal(n);
    ParseDecimal(0);
  }

  lemma NegativeBodyLength(n: nat)
    requires n > 0
    ensures CheckBodyLength(Some("-" + NatToDecimal(n))) == InvalidSize
  {
    var d := NatToDecimal(n);
    var r := "-" + d;
    assert r[1..] == d;
    ParseMinusDigits(r);
    DigitsOfDecimal(n);
  }

  // ---------------------------------------------------------------- audit listing parameters

  const DefaultAuditLimit: int := 100
  const MaxAuditLimit: int := 500

  /** A query parameter as `query.get(name, [default])[0] or default`. */
  function QueryParam(raw: Option<string>, default: string): string {
    if raw.None? || raw.value == "" then default else raw.value
  }

  /** The `limit` parameter: `max(1, min(int(text), 500))`, 100 when `int` raises. */
  function AuditLimit(raw: Option<string>): (limit: int)
    ensures 1 <= limit <= MaxAuditLimit
    ensures ParsePyInt(PyStrip(QueryParam(raw, "100"))).None? ==> limit == DefaultAuditLimit
    ensures ParsePyInt(PyStrip(QueryParam(raw, "100"))).Some? ==>
              var n := ParsePyInt(PyStrip(QueryParam(raw, "100"))).value;
              (1 <= n <= MaxAuditLimit ==> limit == n)
              && (n < 1 ==> limit == 1) && (n > MaxAuditLimit ==> limit == MaxAuditLimit)
  {
    match ParsePyInt(PyStrip(QueryParam(raw, "100")))
    case None => DefaultAuditLimit
    case Some(n) => if n < 1 then 1 else if n > MaxAuditLimit then MaxAuditLimit else n
  }

  /** A missing or empty `limit` lists 100 entries; a decimal one is clamped to [1, 500]. */
  lemma AuditLimitOfDecimal(n: nat)
    ensures AuditLimit(None) == DefaultAuditLimit && AuditLimit(Some("")) == DefaultAuditLimit
    ensures AuditLimit(Some(NatToDecimal(n))) == if n == 0 then 1 else if n > MaxAuditLimit then MaxAuditLimit else n
  {
    assert AuditLimit(None) == DefaultAuditLimit by { DefaultLimitText(); }
    assert AuditLimit(Some("")) == DefaultAuditLimit by { DefaultLimitText(); }
    var d := NatToDecimal(n);
    assert PyStrip(QueryParam(Some(d), "100")) == d by { StripUnchanged(d, Python); }
    ParseDecimal(n);
  }

  /** The `success` parameter filters only when it reads `0` or `1` after strip and
      lower-casing; anything else (default `all`) lists both outcomes. */
  function SuccessFilter(raw: Option<string>): (filter: Option<bool>)
    ensures filter.Some? <==> Lower(PyStrip(QueryParam(raw, "all"))) in {"0", "1"}
    ensures filter == Some(true) <==> Lower(PyStrip(QueryParam(raw, "all"))) == "1"
  {
    var text := Lower(PyStrip(QueryParam(raw, "all")));
    if text == "1" then Some(true) else if text == "0" then Some(false) else None
  }

  lemma DefaultLimitText()
    ensures ParsePyInt(PyStrip("100")) == Some(100)
  {
    assert NatToDecimal(100) == "100";
    StripUnchanged("100", Python);
    ParseDecimal(100);
  }

  /** Padding does not matter; the default lists everything. */
  lemma SuccessFilterDefault()
    ensures SuccessFilter(None) == None && SuccessFilter(Some("")) == None
  {
    assert PyStrip("all") == "all" by { StripUnchanged("all", Python); }
    assert Lower("all") == "all";
  }

  lemma SuccessFilterPadded()
    ensures SuccessFilter(Some(" 1 ")) == Some(true)
  {
    assert PyStrip(" 1 ") == "1" by {
      assert " 1 "[1..] == "1 ";
      assert TrimStart(" 1 ", Python) == "1 ";
      assert "1 "[..1] == "1";
      assert TrimEnd("1 ", Python) == "1";
    }
    assert Lower("1") == "1";
  }

  /** The `action` parameter, stripped; empty means no filter. */
  function ActionFilter(raw: Option<string>): (filter: Option<string>)
    ensures filter.Some? ==> filter.value != "" && filter.value == PyStrip(QueryParam(raw, ""))
    ensures filter.None? ==> PyStrip(QueryParam(raw, "")) == ""
  {
    var text := PyStrip(QueryParam(raw, ""));
    if text == "" then None else Some(text)
  }
}
