/** Model profiles: the save request, the stored profile, and the redacted view that is shown. */
module ModelProfile {
  import opened Prelude
  import opened Text

  datatype Provider = OpenAiCompatible | Anthropic | Bigmodel | Minimax | Maas | Codeagent | Echo

  function DefaultBaseUrl(p: Provider): Option<string> {
    match p
    case Anthropic => Some("https://api.anthropic.com")
    case Codeagent => Some("https://codeagentcli.rnd.huawei.com/codeAgentPro")
    case Maas => Some("http://snapengine.cida.cce.prod-szv-g.dragon.tools.huawei.com/api/v2/")
    case Echo => Some("http://127.0.0.1/echo")
    case _ => None
  }

  predicate AllowsMissingAuth(p: Provider) {
    p.Echo? || p.Maas? || p.Codeagent?
  }

  datatype Header = Header(name: string, value: Option<string>, secret: bool, configured: bool)

  datatype Sampling = Sampling(temperature: real, topP: real, connectTimeout: real)

  /** The modality matrix, which is copied around but never looked into. */
  datatype Capabilities = Capabilities(flags: set<string>)

  datatype SaveRequest = SaveRequest(
    provider: Provider, model: string, baseUrl: Option<string>, apiKey: Option<string>, clearApiKey: bool,
    headers: seq<Header>, sslVerify: Option<bool>, sampling: Sampling, capabilities: Option<Capabilities>, isDefault: bool)

  datatype Profile = Profile(
    provider: Provider, model: string, baseUrl: string, apiKey: Option<string>, headers: seq<Header>,
    sslVerify: Option<bool>, sampling: Sampling, capabilities: Capabilities, isDefault: bool, source: string)

  datatype View = View(
    provider: Provider, model: string, baseUrl: string, apiKeyConfigured: bool, headers: seq<Header>,
    sslVerify: Option<bool>, sampling: Sampling, capabilities: Capabilities, isDefault: bool, source: string)

  datatype Error =
    | EmptyField | InvalidSampling | MissingBaseUrl | UnsupportedScheme | DuplicateHeader | InvalidHeaderName
    | MissingHeaderValue | InvalidHeaderValue | MissingAuth | InvalidProfileName | NoProfile | UnknownProfile

  /** The HTTP library's syntax checks on header names and values. */
  datatype HeaderSyntax = HeaderSyntax(name: string -> bool, value: string -> bool)

  function NonBlank(s: string): Option<string> {
    if Trim(s) == "" then None else Some(Trim(s))
  }

  // ----- Headers

  function Normalized(h: Header): Result<Header, Error> {
    var name := NonBlank(h.name);
    var value := if h.value.Some? then NonBlank(h.value.value) else None;
    if name.None? then Err(EmptyField)
    else Ok(Header(name.value, value, h.secret, h.configured || value.Some?))
  }

  function ExistingValue(existing: seq<Header>, name: string): Option<string> {
    if existing == [] then None
    else if Lower(existing[0].name) == Lower(name) then existing[0].value
    else ExistingValue(existing[1..], name)
  }

  /** A header marked as configured but sent without a value takes the stored one. */
  function Filled(h: Header, existing: seq<Header>): Header {
    if h.value.None? && h.configured then h.(value := ExistingValue(existing, h.name)) else h
  }

  /** One header of a request, after the folded names of those before it. */
  function ValidatedHeader(syntax: HeaderSyntax, h: Header, names: set<string>, existing: seq<Header>): Result<Header, Error> {
    var normalized := Normalized(h);
    if normalized.Err? then normalized
    else
      var filled := Filled(normalized.value, existing);
      if Lower(filled.name) in names then Err(DuplicateHeader)
      else if !syntax.name(filled.name) then Err(InvalidHeaderName)
      else if filled.configured && filled.value.None? then Err(MissingHeaderValue)
      else if filled.value.Some? && !syntax.value(filled.value.value) then Err(InvalidHeaderValue)
      else Ok(filled)
  }

  function ValidatedHeaders(syntax: HeaderSyntax, headers: seq<Header>, names: set<string>, existing: seq<Header>)
    : Result<seq<Header>, Error>
  {
    if headers == [] then Ok([])
    else
      var first := ValidatedHeader(syntax, headers[0], names, existing);
      if first.Err? then Err(first.error)
      else
        var rest := ValidatedHeaders(syntax, headers[1..], names + {Lower(first.value.name)}, existing);
        if rest.Err? then rest else Ok([first.value] + rest.value)
  }

  /** The closure run on each header of the request. */
  method ValidateHeader(syntax: HeaderSyntax, h: Header, names: set<string>, existing: seq<Header>)
    returns (result: Result<Header, Error>)
    ensures result == ValidatedHeader(syntax, h, names, existing)
  {
    result := Normalized(h);
    if result.Err? { return; }
    var header := result.value;
    if Lower(header.name) in names { return Err(DuplicateHeader); }
    if !syntax.name(header.name) { return Err(InvalidHeaderName); }
    if header.value.None? && header.configured {
      var value := ExistingValue(existing, header.name);
      if value.None? { return Err(MissingHeaderValue); }
      header := header.(value := value);
    }
    if header.value.Some? && !syntax.value(header.value.value) { return Err(InvalidHeaderValue); }
    result := Ok(header);
  }

  method ValidateHeaders(syntax: HeaderSyntax, headers: seq<Header>, existing: seq<Header>)
    returns (result: Result<seq<Header>, Error>)
    ensures result == ValidatedHeaders(syntax, headers, {}, existing)
  {
    hide ValidatedHeader;
    var names := {};
    var done: seq<Header> := [];
    var k := 0;
    assert headers[0..] == headers;
    assert forall r: seq<Header> :: done + r == r;
    while k < |headers|
      invariant 0 <= k <= |headers|
      invariant ValidatedHeaders(syntax, headers, {}, existing)
             == After(done, ValidatedHeaders(syntax, headers[k..], names, existing))
    {
      assert headers[k..][1..] == headers[k + 1..];
      var header := ValidateHeader(syntax, headers[k], names, existing);
      if header.Err? { return Err(header.error); }
      var folded := Lower(header.value.name);
      AfterOne(done, header.value, ValidatedHeaders(syntax, headers[k + 1..], names + {folded}, existing));
      names := names + {folded};
      done := done + [header.value];
      k := k + 1;
    }
    assert done + [] == done;
    result := Ok(done);
  }

  ghost function After(done: seq<Header>, rest: Result<seq<Header>, Error>): Result<seq<Header>, Error> {
    if rest.Err? then rest else Ok(done + rest.value)
  }

  lemma AfterOne(done: seq<Header>, header: Header, rest: Result<seq<Header>, Error>)
    ensures After(done, if rest.Err? then rest else Ok([header] + rest.value)) == After(done + [header], rest)
  {
    if rest.Ok? { assert done + ([header] + rest.value) == (done + [header]) + rest.value; }
  }

  function Folds(headers: seq<Header>): set<string> {
    set h | h in headers :: Lower(h.name)
  }

  ghost predicate HeaderOk(syntax: HeaderSyntax, h: Header) {
    && Trimmed(h.name)
    && syntax.name(h.name)
    && (h.configured <==> h.value.Some?)
    && (h.value.Some? ==> Trimmed(h.value.value) && syntax.value(h.value.value))
  }

  /** What every stored header list satisfies: names unique up to case, and a value exactly where one is configured. */
  ghost predicate HeadersOk(syntax: HeaderSyntax, headers: seq<Header>) {
    && (forall h | h in headers :: HeaderOk(syntax, h))
    && forall a, b | 0 <= a < b < |headers| :: Lower(headers[a].name) != Lower(headers[b].name)
  }

  lemma {:induction false} ExistingValueIsStored(existing: seq<Header>, name: string)
    ensures ExistingValue(existing, name).Some? ==> exists h | h in existing :: h.value == ExistingValue(existing, name)
  {
    if existing != [] && Lower(existing[0].name) != Lower(name) {
      ExistingValueIsStored(existing[1..], name);
    } else if existing != [] {
      assert existing[0] in existing;
    }
  }

  lemma ValidatedHeaderIsOk(syntax: HeaderSyntax, h: Header, names: set<string>, existing: seq<Header>)
    requires HeadersOk(syntax, existing) && ValidatedHeader(syntax, h, names, existing).Ok?
    ensures HeaderOk(syntax, ValidatedHeader(syntax, h, names, existing).value)
    ensures Lower(ValidatedHeader(syntax, h, names, existing).value.name) !in names
  {
    TrimYieldsTrimmed(h.name);
    if h.value.Some? { TrimYieldsTrimmed(h.value.value); }
    ExistingValueIsStored(existing, NonBlank(h.name).value);
  }

  lemma {:induction false} ValidatedHeadersAreOk(syntax: HeaderSyntax, headers: seq<Header>, names: set<string>, existing: seq<Header>)
    requires HeadersOk(syntax, existing) && ValidatedHeaders(syntax, headers, names, existing).Ok?
    ensures HeadersOk(syntax, ValidatedHeaders(syntax, headers, names, existing).value)
    ensures Folds(ValidatedHeaders(syntax, headers, names, existing).value) !! names
  {
    hide ValidatedHeader, HeaderOk, HeadersOk;
    if headers != [] {
      var first := ValidatedHeader(syntax, headers[0], names, existing).value;
      var more := names + {Lower(first.name)};
      var rest := ValidatedHeaders(syntax, headers[1..], more, existing).value;
      ValidatedHeaderIsOk(syntax, headers[0], names, existing);
      ValidatedHeadersAreOk(syntax, headers[1..], more, existing);
      HeadersOkCons(syntax, first, rest);
    } else {
      HeadersOkNil(syntax);
    }
  }

  lemma HeadersOkNil(syntax: HeaderSyntax)
    ensures HeadersOk(syntax, []) && Folds([]) == {}
  {
  }

  lemma HeadersOkCons(syntax: HeaderSyntax, first: Header, rest: seq<Header>)
    requires HeaderOk(syntax, first) && HeadersOk(syntax, rest) && Lower(first.name) !in Folds(rest)
    ensures HeadersOk(syntax, [first] + rest)
    ensures Folds([first] + rest) == {Lower(first.name)} + Folds(rest)
  {
    hide HeaderOk;
    assert forall k | 0 <= k < |rest| :: rest[k] in rest && Lower(rest[k].name) in Folds(rest);
  }

  // ----- Base URLs

  /** The position of the first path, query or fragment mark. */
  function AuthorityEnd(s: string): (n: nat)
    ensures n <= |s|
  {
    if s == "" || s[0] in "/?#" then 0 else 1 + AuthorityEnd(s[1..])
  }

  /** What follows the last `@`, if there is one. */
  function AfterLastAt(s: string): Option<string> {
    if s == "" then None
    else
      var later := AfterLastAt(s[1..]);
      if later.Some? then later else if s[0] == '@' then Some(s[1..]) else None
  }

  /** The URL without user information. */
  function RedactedUrl(url: string): string {
    var scheme := Find(url, "://", 0);
    if scheme < 0 then url
    else
      var rest := url[scheme + 3..];
      var end := AuthorityEnd(rest);
      var host := AfterLastAt(rest[..end]);
      if host.None? then url else url[..scheme] + "://" + host.value + rest[end..]
  }

  function TrimSlashes(s: string): (r: string)
    ensures r <= s
    ensures r != "" ==> r[|r| - 1] != '/'
  {
    if s != "" && s[|s| - 1] == '/' then TrimSlashes(s[..|s| - 1]) else s
  }

  predicate HasScheme(url: string) {
    "http://" <= url || "https://" <= url
  }

  function NormalizedBaseUrl(provider: Provider, value: Option<string>): Result<string, Error> {
    var given := if value.Some? then NonBlank(value.value) else None;
    var candidate := if given.Some? then given else DefaultBaseUrl(provider);
    if candidate.None? then Err(MissingBaseUrl)
    else if !HasScheme(candidate.value) then Err(UnsupportedScheme)
    else Ok(TrimSlashes(candidate.value))
  }

  /** What every stored base URL looks like. Trimming slashes can eat a bare scheme. */
  ghost predicate BaseUrlOk(url: string) {
    url == "http:" || url == "https:" || HasScheme(url)
  }

  lemma {:induction false} TrimSlashesKeeps(s: string, n: nat)
    requires n <= |s| && (n == 0 || s[n - 1] != '/')
    ensures s[..n] <= TrimSlashes(s)
  {
    if n < |s| && s[|s| - 1] == '/' {
      assert s[..|s| - 1][..n] == s[..n];
      TrimSlashesKeeps(s[..|s| - 1], n);
    }
  }

  lemma TrimmedSchemeIsOk(url: string)
    requires HasScheme(url)
    ensures BaseUrlOk(TrimSlashes(url))
  {
    var r := TrimSlashes(url);
    var n := if "http://" <= url then 5 else 6;
    TrimSlashesKeeps(url, n);
    assert r[..n] == url[..n];
    if |r| > n {
      assert r[n] == url[n] == '/';
      assert |r| > n + 1;
      assert r[n + 1] == url[n + 1] == '/';
      assert if n == 5 then "http://" <= r else "https://" <= r;
    } else {
      assert r == url[..n];
    }
  }

  lemma NormalizedBaseUrlIsOk(provider: Provider, value: Option<string>)
    ensures NormalizedBaseUrl(provider, value).Ok? ==> BaseUrlOk(NormalizedBaseUrl(provider, value).value)
  {
    var given := if value.Some? then NonBlank(value.value) else None;
    var candidate := if given.Some? then given else DefaultBaseUrl(provider);
    if candidate.Some? && HasScheme(candidate.value) { TrimmedSchemeIsOk(candidate.value); }
  }

  lemma RedactionKeepsScheme(url: string)
    requires HasScheme(url)
    ensures HasScheme(RedactedUrl(url))
  {
    var n := if "http://" <= url then 4 else 5;
    assert url[n..n + 3] == "://";
    assert url[0] == 'h' && url[1] == 't' && url[2] == 't' && url[3] == 'p' && (n == 5 ==> url[4] == 's');
    assert OccursAt(url, "://", n);
    FirstMarkIs(url, n);
  }

  /** A stored URL, redacted and submitted again, is refused exactly when its slashes were eaten. */
  lemma RedactedUrlResubmits(provider: Provider, url: string)
    requires BaseUrlOk(url)
    ensures NormalizedBaseUrl(provider, Some(RedactedUrl(url))).Ok? <==> HasScheme(url)
  {
    var shown := RedactedUrl(url);
    if HasScheme(url) {
      RedactionKeepsScheme(url);
      var n := if "http://" <= shown then 7 else 8;
      assert shown[n - 1] == '/' && TrimStart(shown) == shown;
      TrimEndKeeps(shown, n);
      assert Trim(shown)[..n] == shown[..n];
      assert HasScheme(Trim(shown));
    } else {
      assert Find(url, "://", 0) == -1 by { assert url == "http:" || url == "https:"; NoScheme(url); }
      assert shown == url && Trimmed(url);
      TrimmedStays(url);
    }
  }

  /** The separator is found at the first colon. */
  lemma FirstMarkIs(url: string, n: nat)
    requires OccursAt(url, "://", n) && forall k | 0 <= k < n :: url[k] != ':'
    ensures Find(url, "://", 0) == n
  {
    var index := Find(url, "://", 0);
    if index < n {
      OccursPointwise(url, "://", index, 0);
      assert false;
    }
  }

  lemma NoScheme(url: string)
    requires forall k | 0 <= k < |url| :: url[k] != '/'
    ensures Find(url, "://", 0) == -1
  {
    var index := Find(url, "://", 0);
    if index >= 0 {
      OccursPointwise(url, "://", index, 1);
      assert false;
    }
  }

  // ----- Saving and showing

  predicate SamplingOk(s: Sampling) {
    0.0 <= s.temperature <= 2.0 && 0.0 <= s.topP <= 1.0 && 0.0 < s.connectTimeout <= 300.0
  }

  function RequestedHeaders(syntax: HeaderSyntax, request: SaveRequest, existing: Option<Profile>): Result<seq<Header>, Error> {
    var stored := if existing.Some? then existing.value.headers else [];
    if request.headers == [] then Ok(stored) else ValidatedHeaders(syntax, request.headers, {}, stored)
  }

  function FromSaveRequest(syntax: HeaderSyntax, request: SaveRequest, existing: Option<Profile>): Result<Profile, Error> {
    if !SamplingOk(request.sampling) then Err(InvalidSampling)
    else if NonBlank(request.model).None? then Err(EmptyField)
    else
      var baseUrl := NormalizedBaseUrl(request.provider, request.baseUrl);
      if baseUrl.Err? then Err(baseUrl.error)
      else
        var apiKey :=
          if request.clearApiKey then None
          else if request.apiKey.Some? then NonBlank(request.apiKey.value)
          else if existing.Some? then existing.value.apiKey else None;
        var headers := RequestedHeaders(syntax, request, existing);
        if headers.Err? then Err(headers.error)
        else if !AllowsMissingAuth(request.provider) && apiKey.None? && !(exists h | h in headers.value :: h.configured)
        then Err(MissingAuth)
        else Ok(Profile(
          request.provider, NonBlank(request.model).value, baseUrl.value, apiKey, headers.value,
          if request.sslVerify.Some? then request.sslVerify else if existing.Some? then existing.value.sslVerify else None,
          request.sampling,
          if request.capabilities.Some? then request.capabilities.value
          else if existing.Some? then existing.value.capabilities else Capabilities({}),
          request.isDefault, "config"))
  }

  function Redacted(h: Header): Header {
    Header(h.name, if h.secret then None else h.value, h.secret, h.configured || h.value.Some?)
  }

  function RedactedHeaders(headers: seq<Header>): (r: seq<Header>)
    ensures |r| == |headers|
    ensures forall k {:trigger r[k]} | 0 <= k < |headers| :: r[k] == Redacted(headers[k])
  {
    seq(|headers|, k requires 0 <= k < |headers| => Redacted(headers[k]))
  }

  function ToView(p: Profile, isDefault: bool): View {
    View(p.provider, p.model, RedactedUrl(p.baseUrl), p.apiKey.Some?, RedactedHeaders(p.headers), p.sslVerify, p.sampling,
         p.capabilities, isDefault, p.source)
  }

  /** What every stored profile satisfies. */
  ghost predicate ProfileOk(syntax: HeaderSyntax, p: Profile) {
    && Trimmed(p.model)
    && BaseUrlOk(p.baseUrl)
    && HeadersOk(syntax, p.headers)
    && SamplingOk(p.sampling)
    && (AllowsMissingAuth(p.provider) || p.apiKey.Some? || exists h | h in p.headers :: h.configured)
  }

  lemma SavedProfileIsOk(syntax: HeaderSyntax, request: SaveRequest, existing: Option<Profile>)
    requires existing.Some? ==> HeadersOk(syntax, existing.value.headers)
    requires FromSaveRequest(syntax, request, existing).Ok?
    ensures ProfileOk(syntax, FromSaveRequest(syntax, request, existing).value)
  {
    TrimYieldsTrimmed(request.model);
    NormalizedBaseUrlIsOk(request.provider, request.baseUrl);
    var stored := if existing.Some? then existing.value.headers else [];
    assert HeadersOk(syntax, stored);
    if request.headers != [] { ValidatedHeadersAreOk(syntax, request.headers, {}, stored); }
  }

  // ----- Redact, then save again

  /** A form filled from a view: no key typed, nothing cleared. */
  function Resubmission(v: View): SaveRequest {
    SaveRequest(v.provider, v.model, Some(v.baseUrl), None, false, v.headers, v.sslVerify, v.sampling,
                Some(v.capabilities), v.isDefault)
  }

  lemma {:induction false} FindsOwnValue(headers: seq<Header>, k: nat)
    requires k < |headers|
    requires forall a, b | 0 <= a < b < |headers| :: Lower(headers[a].name) != Lower(headers[b].name)
    ensures ExistingValue(headers, headers[k].name) == headers[k].value
  {
    if k > 0 {
      assert headers[1..][k - 1] == headers[k];
      FindsOwnValue(headers[1..], k - 1);
    }
  }

  lemma RedactedHeaderIsRestored(syntax: HeaderSyntax, headers: seq<Header>, k: nat)
    requires HeadersOk(syntax, headers) && k < |headers|
    ensures ValidatedHeader(syntax, Redacted(headers[k]), Folds(headers[..k]), headers) == Ok(headers[k])
  {
    var h := headers[k];
    assert h in headers && HeaderOk(syntax, h);
    TrimmedStays(h.name);
    if h.value.Some? { TrimmedStays(h.value.value); }
    FindsOwnValue(headers, k);
    assert Lower(h.name) !in Folds(headers[..k]);
  }

  lemma ValidatedOneMore(syntax: HeaderSyntax, headers: seq<Header>, names: set<string>, existing: seq<Header>, h: Header, rest: seq<Header>)
    requires headers != [] && ValidatedHeader(syntax, headers[0], names, existing) == Ok(h)
    requires ValidatedHeaders(syntax, headers[1..], names + {Lower(h.name)}, existing) == Ok(rest)
    ensures ValidatedHeaders(syntax, headers, names, existing) == Ok([h] + rest)
  {
  }

  lemma {:induction false} RedactedHeadersAreRestored(syntax: HeaderSyntax, headers: seq<Header>, k: nat)
    requires HeadersOk(syntax, headers) && k <= |headers|
    ensures ValidatedHeaders(syntax, RedactedHeaders(headers)[k..], Folds(headers[..k]), headers) == Ok(headers[k..])
    decreases |headers| - k
  {
    var shown := RedactedHeaders(headers)[k..];
    if k == |headers| {
      assert shown == [] && headers[k..] == [];
    } else {
      hide HeadersOk, ValidatedHeader, ValidatedHeaders, Folds, RedactedHeaders, Redacted;
      RedactedHeaderIsRestored(syntax, headers, k);
      RedactedHeadersAreRestored(syntax, headers, k + 1);
      FoldsGrow(headers, k);
      assert shown[0] == Redacted(headers[k]) && shown[1..] == RedactedHeaders(headers)[k + 1..];
      ValidatedOneMore(syntax, shown, Folds(headers[..k]), headers, headers[k], headers[k + 1..]);
      assert [headers[k]] + headers[k + 1..] == headers[k..];
    }
  }

  lemma FoldsGrow(headers: seq<Header>, k: nat)
    requires k < |headers|
    ensures Folds(headers[..k + 1]) == Folds(headers[..k]) + {Lower(headers[k].name)}
  {
    assert headers[..k + 1] == headers[..k] + [headers[k]];
  }

  /**
   Saving a stored profile's own redacted view loses nothing that the view hides: the key and the whole header
   list come back. It is refused only when the base URL had lost its slashes, and only the base URL and the
   recorded source can change.
   */
  lemma ResubmissionIsLossless(syntax: HeaderSyntax, p: Profile, isDefault: bool)
    requires ProfileOk(syntax, p)
    ensures var again := FromSaveRequest(syntax, Resubmission(ToView(p, isDefault)), Some(p));
      && (again.Ok? <==> HasScheme(p.baseUrl))
      && (again.Ok? ==>
            && again.value.apiKey == p.apiKey
            && again.value.headers == p.headers
            && again.value == p.(baseUrl := again.value.baseUrl, isDefault := isDefault, source := "config"))
  {
    var request := Resubmission(ToView(p, isDefault));
    TrimmedStays(p.model);
    RedactedUrlResubmits(p.provider, p.baseUrl);
    RedactedHeadersAreRestored(syntax, p.headers, 0);
    assert p.headers[0..] == p.headers && RedactedHeaders(p.headers)[0..] == RedactedHeaders(p.headers);
    assert Folds(p.headers[..0]) == {};
    assert RequestedHeaders(syntax, request, Some(p)) == Ok(p.headers);
  }

  /** A refusal that a stored profile can meet: its URL was nothing but a scheme and slashes. */
  lemma SchemeOnlyUrlCannotBeResubmitted(provider: Provider)
    ensures NormalizedBaseUrl(provider, Some("http://")) == Ok("http:")
    ensures NormalizedBaseUrl(provider, Some(RedactedUrl("http:"))) == Err(UnsupportedScheme)
  {
    TrimmedStays("http://");
    TrimmedStays("http:");
    NoScheme("http:");
    assert TrimSlashes("http:/") == TrimSlashes("http:") by { assert "http:/"[..5] == "http:"; }
    assert "http://"[..6] == "http:/";
  }
}
