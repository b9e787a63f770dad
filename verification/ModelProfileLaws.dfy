/** What saving, redacting and validating a model profile mean, field by field. */
module ModelProfileLaws {
  import opened Prelude
  import opened Text
  import opened ModelProfile

  // ----- Base URLs

  lemma DefaultUrls()
    ensures DefaultBaseUrl(Anthropic) == Some("https://api.anthropic.com")
    ensures DefaultBaseUrl(Codeagent) == Some("https://codeagentcli.rnd.huawei.com/codeAgentPro")
    ensures DefaultBaseUrl(Maas) == Some("http://snapengine.cida.cce.prod-szv-g.dragon.tools.huawei.com/api/v2/")
    ensures DefaultBaseUrl(Echo) == Some("http://127.0.0.1/echo")
    ensures DefaultBaseUrl(OpenAiCompatible) == DefaultBaseUrl(Bigmodel) == DefaultBaseUrl(Minimax) == None
    ensures forall p :: AllowsMissingAuth(p) <==> p in {Echo, Maas, Codeagent}
  {
  }

  predicate AllSlashes(s: string) {
    forall k | 0 <= k < |s| :: s[k] == '/'
  }

  lemma {:induction false} TrimSlashesDrops(s: string)
    ensures TrimSlashes(s) <= s && AllSlashes(s[|TrimSlashes(s)|..])
  {
    if s != "" && s[|s| - 1] == '/' {
      var shorter := s[..|s| - 1];
      TrimSlashesDrops(shorter);
      var n := |TrimSlashes(shorter)|;
      assert forall k | 0 <= k < |s| - 1 - n :: shorter[n..][k] == s[n..][k];
    }
  }

  /** The given URL, or the provider's own when none or a blank one is given. */
  function Candidate(provider: Provider, value: Option<string>): Option<string> {
    if value.Some? && Trim(value.value) != "" then Some(Trim(value.value)) else DefaultBaseUrl(provider)
  }

  /** `url` without the slashes at its end. */
  predicate WithoutSlashes(result: string, url: string) {
    result <= url && AllSlashes(url[|result|..]) && (result != "" ==> result[|result| - 1] != '/')
  }

  predicate IsHttp(url: string) {
    "http://" <= url || "https://" <= url
  }

  /** There must be a URL and it must have an HTTP scheme; only slashes at its end go. */
  lemma BaseUrlIs(provider: Provider, value: Option<string>)
    ensures var candidate, result := Candidate(provider, value), NormalizedBaseUrl(provider, value);
      && (candidate.None? ==> result == Err(MissingBaseUrl))
      && (candidate.Some? && !IsHttp(candidate.value) ==> result == Err(UnsupportedScheme))
      && (candidate.Some? && IsHttp(candidate.value) ==> result.Ok? && WithoutSlashes(result.value, candidate.value))
  {
    hide Trim, DefaultBaseUrl, WithoutSlashes, TrimSlashes;
    var candidate := Candidate(provider, value);
    SchemeIsHttp(if candidate.Some? then candidate.value else "");
    hide HasScheme, IsHttp;
    if candidate.Some? { SlashesGo(candidate.value); }
  }

  lemma SchemeIsHttp(url: string)
    ensures HasScheme(url) <==> IsHttp(url)
  {
  }

  lemma SlashesGo(url: string)
    ensures WithoutSlashes(TrimSlashes(url), url)
  {
    TrimSlashesDrops(url);
  }

  // ----- Redaction

  predicate Plain(s: string, forbidden: string) {
    forall k | 0 <= k < |s| :: s[k] !in forbidden
  }

  lemma {:induction false} AuthorityEndIs(authority: string, tail: string)
    requires Plain(authority, "/?#") && (tail == "" || tail[0] in "/?#")
    ensures AuthorityEnd(authority + tail) == |authority|
  {
    if authority == "" {
      assert authority + tail == tail;
    } else {
      assert authority[0] !in "/?#";
      assert (authority + tail)[1..] == authority[1..] + tail;
      forall k | 0 <= k < |authority[1..]| ensures authority[1..][k] !in "/?#" { assert authority[1..][k] == authority[k + 1]; }
      AuthorityEndIs(authority[1..], tail);
    }
  }

  lemma {:induction false} NoAt(host: string)
    requires Plain(host, "@")
    ensures AfterLastAt(host) == None
  {
    if host != "" {
      assert host[0] !in "@";
      forall k | 0 <= k < |host[1..]| ensures host[1..][k] !in "@" { assert host[1..][k] == host[k + 1]; }
      NoAt(host[1..]);
    }
  }

  lemma {:induction false} LastAt(user: string, host: string)
    requires Plain(host, "@")
    ensures AfterLastAt(user + "@" + host) == Some(host)
  {
    var s := user + "@" + host;
    if user == "" {
      assert s[0] == '@' && s[1..] == host;
      NoAt(host);
    } else {
      assert s[0] == user[0] && s[1..] == user[1..] + "@" + host;
      LastAt(user[1..], host);
    }
  }

  /** Scheme, `://`, authority and tail, the separator being the first one. */
  predicate Splits(url: string, scheme: string, authority: string, tail: string) {
    && url == scheme + "://" + authority + tail
    && (forall k | 0 <= k < |scheme| :: !OccursAt(url, "://", k))
    && Plain(authority, "/?#") && (tail == "" || tail[0] in "/?#")
  }

  lemma SplitUrl(url: string, scheme: string, authority: string, tail: string)
    requires Splits(url, scheme, authority, tail)
    ensures Find(url, "://", 0) == |scheme|
    ensures var rest := url[|scheme| + 3..];
      rest == authority + tail && AuthorityEnd(rest) == |authority| && rest[..|authority|] == authority && rest[|authority|..] == tail
    ensures url[..|scheme|] == scheme
  {
    var n := |scheme|;
    assert url[n..n + 3] == "://";
    assert OccursAt(url, "://", n);
    assert url[n + 3..] == authority + tail;
    AuthorityEndIs(authority, tail);
  }

  /** User information is cut out of the authority, up to its last `@`. */
  lemma UserInformationIsCut(url: string, scheme: string, user: string, host: string, tail: string)
    requires Splits(url, scheme, user + "@" + host, tail) && Plain(host, "@")
    ensures RedactedUrl(url) == scheme + "://" + host + tail
  {
    SplitUrl(url, scheme, user + "@" + host, tail);
    LastAt(user, host);
  }

  /** A URL without any, or without an authority, stays as it is. */
  lemma OtherUrlsStay(url: string, scheme: string, host: string, tail: string)
    ensures Splits(url, scheme, host, tail) && Plain(host, "@") ==> RedactedUrl(url) == url
    ensures (forall k | 0 <= k < |url| :: !OccursAt(url, "://", k)) ==> RedactedUrl(url) == url
  {
    if Splits(url, scheme, host, tail) && Plain(host, "@") {
      SplitUrl(url, scheme, host, tail);
      NoAt(host);
    }
  }

  /** A view has the profile's public fields, no key, and no value of a secret header. */
  lemma ViewHidesSecrets(p: Profile, flag: bool)
    ensures var v := ToView(p, flag);
      && v.provider == p.provider && v.model == p.model && v.sslVerify == p.sslVerify && v.sampling == p.sampling
      && v.capabilities == p.capabilities && v.source == p.source && v.isDefault == flag
      && v.baseUrl == RedactedUrl(p.baseUrl)
      && (v.apiKeyConfigured <==> p.apiKey.Some?)
      && |v.headers| == |p.headers|
      && forall k | 0 <= k < |p.headers| ::
           var shown, h := v.headers[k], p.headers[k];
           && shown.name == h.name && shown.secret == h.secret
           && (h.secret ==> shown.value == None)
           && (!h.secret ==> shown.value == h.value)
           && (shown.configured <==> h.configured || h.value.Some?)
  {
  }

  // ----- Headers

  /** The value a request gives, without white space around it; none if it is blank. */
  function Given(h: Header): Option<string> {
    if h.value.Some? && Trim(h.value.value) != "" then Some(Trim(h.value.value)) else None
  }

  /** Header `i` is the first stored one with this name, up to case. */
  predicate FirstNamed(existing: seq<Header>, name: string, i: nat) {
    && i < |existing| && Lower(existing[i].name) == Lower(name)
    && forall k | 0 <= k < i :: Lower(existing[k].name) != Lower(name)
  }

  lemma {:induction false} ExistingIs(existing: seq<Header>, name: string)
    ensures forall i: nat | FirstNamed(existing, name, i) :: ExistingValue(existing, name) == existing[i].value
    ensures (forall i | 0 <= i < |existing| :: Lower(existing[i].name) != Lower(name)) ==> ExistingValue(existing, name) == None
  {
    hide Lower;
    if existing != [] && Lower(existing[0].name) != Lower(name) {
      var rest := existing[1..];
      ExistingIs(rest, name);
      assert forall k | 0 < k < |existing| :: existing[k] == rest[k - 1];
      forall i: nat | FirstNamed(existing, name, i) ensures ExistingValue(existing, name) == existing[i].value {
        assert i > 0 && FirstNamed(rest, name, i - 1);
      }
    }
  }

  /** What is stored for a header of a request. */
  function Taken(h: Header, existing: seq<Header>): Header {
    var given := Given(h);
    Header(Trim(h.name), if given.None? && h.configured then ExistingValue(existing, Trim(h.name)) else given,
           h.secret, h.configured || given.Some?)
  }

  predicate Allowed(syntax: HeaderSyntax, h: Header, existing: seq<Header>) {
    var taken := Taken(h, existing);
    && taken.name != "" && syntax.name(taken.name)
    && (h.configured ==> taken.value.Some?)
    && (taken.value.Some? ==> syntax.value(taken.value.value))
  }

  lemma HeaderIs(syntax: HeaderSyntax, h: Header, names: set<string>, existing: seq<Header>)
    ensures ValidatedHeader(syntax, h, names, existing).Ok? <==>
      Allowed(syntax, h, existing) && Lower(Taken(h, existing).name) !in names
    ensures ValidatedHeader(syntax, h, names, existing).Ok? ==>
      ValidatedHeader(syntax, h, names, existing).value == Taken(h, existing)
  {
    hide Trim, Lower;
  }

  /** Headers are accepted when each is allowed and no two have one name up to case, and each is stored as taken. */
  lemma {:induction false} HeadersAre(syntax: HeaderSyntax, headers: seq<Header>, names: set<string>, existing: seq<Header>)
    ensures ValidatedHeaders(syntax, headers, names, existing).Ok? <==>
      && (forall k | 0 <= k < |headers| :: Allowed(syntax, headers[k], existing))
      && (forall k | 0 <= k < |headers| :: Lower(Trim(headers[k].name)) !in names)
      && (forall i, k | 0 <= i < k < |headers| :: Lower(Trim(headers[i].name)) != Lower(Trim(headers[k].name)))
    ensures ValidatedHeaders(syntax, headers, names, existing).Ok? ==>
      var result := ValidatedHeaders(syntax, headers, names, existing).value;
      |result| == |headers| && forall k | 0 <= k < |headers| :: result[k] == Taken(headers[k], existing)
  {
    hide Trim, Lower, Allowed, ValidatedHeader, ExistingValue;
    if headers != [] {
      HeaderIs(syntax, headers[0], names, existing);
      var rest := headers[1..];
      assert forall k | 0 < k < |headers| :: headers[k] == rest[k - 1];
      var more := names + {Lower(Trim(headers[0].name))};
      HeadersAre(syntax, rest, more, existing);
    }
  }

  // ----- Saving

  /** Every field of a saved profile. */
  lemma SavedFields(syntax: HeaderSyntax, request: SaveRequest, existing: Option<Profile>)
    requires FromSaveRequest(syntax, request, existing).Ok?
    ensures var p := FromSaveRequest(syntax, request, existing).value;
      && p.provider == request.provider && p.model == Trim(request.model)
      && NormalizedBaseUrl(request.provider, request.baseUrl) == Ok(p.baseUrl)
      && (request.clearApiKey ==> p.apiKey == None)
      && (!request.clearApiKey && request.apiKey.Some? ==>
            p.apiKey == if Trim(request.apiKey.value) == "" then None else Some(Trim(request.apiKey.value)))
      && (!request.clearApiKey && request.apiKey.None? ==> p.apiKey == if existing.Some? then existing.value.apiKey else None)
      && (request.headers == [] ==> p.headers == if existing.Some? then existing.value.headers else [])
      && (request.headers != [] ==>
            && |p.headers| == |request.headers|
            && forall k | 0 <= k < |p.headers| ::
                 p.headers[k] == Taken(request.headers[k], if existing.Some? then existing.value.headers else []))
      && (request.sslVerify.Some? ==> p.sslVerify == request.sslVerify)
      && (request.sslVerify.None? ==> p.sslVerify == if existing.Some? then existing.value.sslVerify else None)
      && p.sampling == request.sampling
      && (request.capabilities.Some? ==> p.capabilities == request.capabilities.value)
      && (request.capabilities.None? && existing.Some? ==> p.capabilities == existing.value.capabilities)
      && (request.capabilities.None? && existing.None? ==> p.capabilities == Capabilities({}))
      && p.isDefault == request.isDefault && p.source == "config"
  {
    hide Trim, NormalizedBaseUrl, SamplingOk, AllowsMissingAuth, ValidatedHeaders, Taken;
    var stored := if existing.Some? then existing.value.headers else [];
    HeadersAre(syntax, request.headers, {}, stored);
  }

  function StoredHeaders(existing: Option<Profile>): seq<Header> {
    if existing.Some? then existing.value.headers else []
  }

  /** The key after the save: cleared, typed, or the stored one. */
  function KeyAfter(request: SaveRequest, existing: Option<Profile>): Option<string> {
    if request.clearApiKey then None
    else if request.apiKey.Some? then (if Trim(request.apiKey.value) == "" then None else Some(Trim(request.apiKey.value)))
    else if existing.Some? then existing.value.apiKey else None
  }

  predicate HeadersAllowed(syntax: HeaderSyntax, headers: seq<Header>, stored: seq<Header>) {
    && (forall k | 0 <= k < |headers| :: Allowed(syntax, headers[k], stored))
    && (forall i, k | 0 <= i < k < |headers| :: Lower(Trim(headers[i].name)) != Lower(Trim(headers[k].name)))
  }

  /** A key, a configured header, or a provider that needs neither. */
  predicate Authenticates(request: SaveRequest, existing: Option<Profile>) {
    || request.provider in {Echo, Maas, Codeagent}
    || KeyAfter(request, existing).Some?
    || (if request.headers == [] then exists h | h in StoredHeaders(existing) :: h.configured
        else exists k | 0 <= k < |request.headers| :: Taken(request.headers[k], StoredHeaders(existing)).configured)
  }

  /** When a request is accepted. */
  lemma SaveIsAccepted(syntax: HeaderSyntax, request: SaveRequest, existing: Option<Profile>)
    ensures var s := request.sampling;
      FromSaveRequest(syntax, request, existing).Ok? <==>
        && 0.0 <= s.temperature <= 2.0 && 0.0 <= s.topP <= 1.0 && 0.0 < s.connectTimeout <= 300.0
        && Trim(request.model) != ""
        && NormalizedBaseUrl(request.provider, request.baseUrl).Ok?
        && HeadersAllowed(syntax, request.headers, StoredHeaders(existing))
        && Authenticates(request, existing)
  {
    RequestedAre(syntax, request, existing);
    var headers := RequestedHeaders(syntax, request, existing);
    if headers.Ok? { AuthenticatesMeans(request, existing, headers.value); }
    hide Trim, NormalizedBaseUrl, RequestedHeaders, HeadersAllowed, Authenticates, AllowsMissingAuth;
  }

  /** And why it is refused otherwise: the first of these, in this order. */
  lemma SaveIsRefused(syntax: HeaderSyntax, request: SaveRequest, existing: Option<Profile>)
    requires FromSaveRequest(syntax, request, existing).Err?
    ensures var s, error := request.sampling, FromSaveRequest(syntax, request, existing).error;
      if !(0.0 <= s.temperature <= 2.0 && 0.0 <= s.topP <= 1.0 && 0.0 < s.connectTimeout <= 300.0) then error == InvalidSampling
      else if Trim(request.model) == "" then error == EmptyField
      else if NormalizedBaseUrl(request.provider, request.baseUrl).Err?
      then error == NormalizedBaseUrl(request.provider, request.baseUrl).error
      else if !HeadersAllowed(syntax, request.headers, StoredHeaders(existing))
      then error in {EmptyField, DuplicateHeader, InvalidHeaderName, MissingHeaderValue, InvalidHeaderValue}
      else error == MissingAuth
  {
    RequestedAre(syntax, request, existing);
    HeaderErrors(syntax, request.headers, {}, StoredHeaders(existing));
    hide Trim, NormalizedBaseUrl, HeadersAllowed, AllowsMissingAuth, ValidatedHeaders;
  }

  lemma {:induction false} HeaderErrors(syntax: HeaderSyntax, headers: seq<Header>, names: set<string>, existing: seq<Header>)
    ensures var result := ValidatedHeaders(syntax, headers, names, existing);
      result.Err? ==> result.error in {EmptyField, DuplicateHeader, InvalidHeaderName, MissingHeaderValue, InvalidHeaderValue}
  {
    hide Trim, Lower, ExistingValue;
    if headers != [] {
      var first := ValidatedHeader(syntax, headers[0], names, existing);
      if first.Ok? {
        HeaderErrors(syntax, headers[1..], names + {Lower(first.value.name)}, existing);
      }
    }
  }

  /** The first thing wrong with a header. */
  lemma HeaderIsRefused(syntax: HeaderSyntax, h: Header, names: set<string>, existing: seq<Header>)
    requires ValidatedHeader(syntax, h, names, existing).Err?
    ensures var taken := Taken(h, existing);
      ValidatedHeader(syntax, h, names, existing).error ==
        if taken.name == "" then EmptyField
        else if Lower(taken.name) in names then DuplicateHeader
        else if !syntax.name(taken.name) then InvalidHeaderName
        else if h.configured && taken.value.None? then MissingHeaderValue
        else InvalidHeaderValue
  {
    hide Trim, Lower;
  }

  lemma RequestedAre(syntax: HeaderSyntax, request: SaveRequest, existing: Option<Profile>)
    ensures var headers := RequestedHeaders(syntax, request, existing);
      && (headers.Ok? <==> HeadersAllowed(syntax, request.headers, StoredHeaders(existing)))
      && (headers.Ok? ==> TakenAll(request.headers, StoredHeaders(existing), headers.value))
  {
    HeadersAre(syntax, request.headers, {}, StoredHeaders(existing));
    hide Allowed, Taken, Trim, Lower, ValidatedHeaders;
  }

  predicate TakenAll(headers: seq<Header>, stored: seq<Header>, result: seq<Header>) {
    if headers == [] then result == stored
    else |result| == |headers| && forall k | 0 <= k < |headers| :: result[k] == Taken(headers[k], stored)
  }

  lemma AuthenticatesMeans(request: SaveRequest, existing: Option<Profile>, headers: seq<Header>)
    requires TakenAll(request.headers, StoredHeaders(existing), headers)
    ensures Authenticates(request, existing) <==>
      AllowsMissingAuth(request.provider) || KeyAfter(request, existing).Some? || exists h | h in headers :: h.configured
  {
    hide KeyAfter, Taken;
    if request.headers != [] { ConfiguredMeans(request.headers, StoredHeaders(existing), headers); }
  }

  lemma ConfiguredMeans(headers: seq<Header>, stored: seq<Header>, result: seq<Header>)
    requires |result| == |headers| && forall k | 0 <= k < |headers| :: result[k] == Taken(headers[k], stored)
    ensures (exists h | h in result :: h.configured) <==> exists k | 0 <= k < |headers| :: Taken(headers[k], stored).configured
  {
    hide Taken;
    if h :| h in result && h.configured {
      var k :| 0 <= k < |result| && result[k] == h;
      assert Taken(headers[k], stored).configured;
    }
    if k :| 0 <= k < |headers| && Taken(headers[k], stored).configured { assert result[k] in result; }
  }
}
