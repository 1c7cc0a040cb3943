/** `CardmarketClient`: signs each request with OAuth 1.0a (HMAC-SHA1) and
    builds the GET and PUT requests sent to the Cardmarket API; a response
    counts only when its status is 2xx. */
module CardmarketClient {
  import opened JavaText
  import opened UrlEncoder
  import opened SortedMaps
  import opened OAuthSignature

  /** `Base64(HMAC-SHA1(key, message))`, both strings taken as UTF-8 bytes.
      The digest itself is computed by the JDK and is left abstract. */
  type Mac = (JString, JString) -> JString

  /** The pair `generateHeader` returns: the URL to request and the value of
      the Authorization header, without its `OAuth ` scheme. */
  datatype UrlAndHeader = UrlAndHeader(url: JString, authorization: JString)

  /** The signature `generateHeader` computes: the MAC, under the signing
      key, of the base string of the signed map (the query and the six OAuth
      parameters, in `TreeMap` order) for `host + endpoint`. */
  ghost function Signature(settings: ClientSettings, query: QueryMap, endpoint: JString, verb: JString,
                           nonce: JString, timestampMillis: nat, mac: Mac): JString
  {
    mac(SigningKey(settings.credentials),
        SignatureBaseString(verb, settings.host + endpoint, SignedParams(settings, query, nonce, timestampMillis)))
  }

  /** The map the header is rendered from: the signed map with `realm` and
      `oauth_signature` added. */
  ghost function HeaderMap(settings: ClientSettings, query: QueryMap, endpoint: JString, verb: JString,
                           nonce: JString, timestampMillis: nat, mac: Mac): map<JString, JString>
  {
    HeaderParams(SignedParams(settings, query, nonce, timestampMillis), settings.host + endpoint,
                 Signature(settings, query, endpoint, verb, nonce, timestampMillis, mac))
  }

  /** What `generateHeader` returns: the URL with the query string and the
      header rendered from the header map in `TreeMap` order. */
  ghost function Signed(settings: ClientSettings, query: QueryMap, endpoint: JString, verb: JString,
                        nonce: JString, timestampMillis: nat, mac: Mac): UrlAndHeader
  {
    UrlAndHeader(RequestUrl(settings.host + endpoint, query),
                 AuthorizationValue(HeaderMap(settings, query, endpoint, verb, nonce, timestampMillis, mac)))
  }

  /** `generateHeader(queryMap, endpoint, method)`: fills a `TreeMap` with the
      query and the OAuth parameters, appends the base string to a buffer,
      signs it, adds `realm` and `oauth_signature`, and renders the header and
      the URL. The random nonce and the clock reading are inputs here. */
  method GenerateHeader(settings: ClientSettings, query: QueryMap, endpoint: JString, verb: JString,
                        nonce: JString, timestampMillis: nat, mac: Mac)
    returns (url: JString, authorization: JString)
    ensures UrlAndHeader(url, authorization) == Signed(settings, query, endpoint, verb, nonce, timestampMillis, mac)
  {
    var headers := new TreeMap(query);
    url := settings.host + endpoint;
    headers.Put(OAUTH_CONSUMER_KEY, settings.credentials.appToken);
    headers.Put(OAUTH_TOKEN, settings.credentials.accessToken);
    headers.Put(OAUTH_NONCE, nonce);
    headers.Put(OAUTH_TIMESTAMP, Decimal(timestampMillis));
    headers.Put(OAUTH_SIGNATURE_METHOD, settings.oauth.signatureMethod);
    headers.Put(OAUTH_VERSION, settings.oauth.version);
    ghost var signed := headers.values;
    assert signed == SignedParams(settings, query, nonce, timestampMillis);

    var sb := verb;
    sb := sb + [AMPERSAND];
    sb := sb + Encode(url);
    sb := sb + [AMPERSAND];
    var headersStr := ParamString(headers.keys, headers.values);
    sb := sb + Encode(headersStr);
    assert sb == SignatureBaseString(verb, url, signed);

    headers.Put(REALM, url);
    var signingKey := SigningKey(settings.credentials);
    var signature := mac(signingKey, sb);
    headers.Put(OAUTH_SIGNATURE, signature);
    assert headers.values == HeaderMap(settings, query, endpoint, verb, nonce, timestampMillis, mac);

    authorization := HeaderValue(headers.keys, headers.values);
    var queryString := QueryString(query);
    url := if queryString == [] then url else url + [QUESTION_MARK] + queryString;
  }

  // ---------------------------------------------------------------------
  // What the generated pair promises

  /** The header value is the `", "`-joined list of `key="value"` pairs of
      the header map, one per entry and nothing else, in ascending key order. */
  lemma SignedHeaderRendersMap(settings: ClientSettings, query: QueryMap, endpoint: JString, verb: JString,
                               nonce: JString, timestampMillis: nat, mac: Mac)
    ensures var h := HeaderMap(settings, query, endpoint, verb, nonce, timestampMillis, mac);
      var ks := SortedKeys(h);
      var ps := HeaderPairs(ks, h);
      && Signed(settings, query, endpoint, verb, nonce, timestampMillis, mac).authorization == Join(COMMA_SPACE, ps)
      && (forall i, j | 0 <= i < j < |ks| :: Less(ks[i], ks[j]))
      && (forall i | 0 <= i < |ps| :: ks[i] in h && ps[i] == Quoted(ks[i], h[ks[i]]))
      && (forall k | k in h :: Quoted(k, h[k]) in ps)
  {
    HeaderListsEveryEntry(HeaderMap(settings, query, endpoint, verb, nonce, timestampMillis, mac));
  }

  /** End to end, what the header map holds: the six OAuth parameters with
      the client's values, `realm` with `host + endpoint`, `oauth_signature`
      with the MAC of the base string, and every query entry whose key is none
      of these eight. */
  lemma SignedHeaderContents(settings: ClientSettings, query: QueryMap, endpoint: JString, verb: JString,
                             nonce: JString, timestampMillis: nat, mac: Mac)
    ensures var h := HeaderMap(settings, query, endpoint, verb, nonce, timestampMillis, mac);
      && h.Keys == MapOf(query).Keys + OAUTH_NAMES + {REALM, OAUTH_SIGNATURE}
      && h[OAUTH_CONSUMER_KEY] == settings.credentials.appToken
      && h[OAUTH_TOKEN] == settings.credentials.accessToken
      && h[OAUTH_NONCE] == nonce
      && h[OAUTH_TIMESTAMP] == Decimal(timestampMillis)
      && h[OAUTH_SIGNATURE_METHOD] == settings.oauth.signatureMethod
      && h[OAUTH_VERSION] == settings.oauth.version
      && h[REALM] == settings.host + endpoint
      && h[OAUTH_SIGNATURE] == Signature(settings, query, endpoint, verb, nonce, timestampMillis, mac)
      && forall i | 0 <= i < |query| && query[i].0 !in OAUTH_NAMES && query[i].0 != REALM && query[i].0 != OAUTH_SIGNATURE
           :: h[query[i].0] == query[i].1
  {
    var url := settings.host + endpoint;
    var signature := Signature(settings, query, endpoint, verb, nonce, timestampMillis, mac);
    HeaderParamsContents(settings, query, nonce, timestampMillis, url, signature);
    RealmAndSignatureComeLate(settings, query, nonce, timestampMillis, url, signature);
  }

  /** The header, and the base string it signs, depend on the query's entries
      only, not on the order its map iterates them; the URL keeps that order. */
  lemma SameEntriesSameHeader(settings: ClientSettings, q1: QueryMap, q2: QueryMap, endpoint: JString, verb: JString,
                              nonce: JString, timestampMillis: nat, mac: Mac)
    requires forall e :: e in q1 <==> e in q2
    ensures SignedParams(settings, q1, nonce, timestampMillis) == SignedParams(settings, q2, nonce, timestampMillis)
    ensures Signed(settings, q1, endpoint, verb, nonce, timestampMillis, mac).authorization
         == Signed(settings, q2, endpoint, verb, nonce, timestampMillis, mac).authorization
  {
    MapOfSameEntries(q1, q2);
  }

  /** Without query parameters the URL is `host + endpoint` and the header
      lists exactly the six OAuth parameters, `realm` and `oauth_signature`. */
  lemma EmptyQuerySignsBareUrl(settings: ClientSettings, endpoint: JString, verb: JString,
                               nonce: JString, timestampMillis: nat, mac: Mac)
    ensures Signed(settings, [], endpoint, verb, nonce, timestampMillis, mac).url == settings.host + endpoint
    ensures HeaderMap(settings, [], endpoint, verb, nonce, timestampMillis, mac).Keys
         == OAUTH_NAMES + {REALM, OAUTH_SIGNATURE}
  {
    RequestUrlShape(settings.host + endpoint, []);
    SignedHeaderContents(settings, [], endpoint, verb, nonce, timestampMillis, mac);
  }

  /** One signature cannot be replayed for a different request: with verbs
      free of `&` and well-formed text, two signings whose MAC inputs agree
      share the key material, the verb, the URL and every signed parameter. */
  lemma SignatureInputDeterminesRequest(s1: ClientSettings, q1: QueryMap, e1: JString, verb1: JString, n1: JString, t1: nat,
                                        s2: ClientSettings, q2: QueryMap, e2: JString, verb2: JString, n2: JString, t2: nat)
    requires Avoids(verb1, AMPERSAND) && Avoids(verb2, AMPERSAND)
    requires WellFormed(s1.host + e1) && WellFormed(s2.host + e2)
    requires WellFormed(s1.credentials.appSecret) && WellFormed(s1.credentials.accessTokenSecret)
    requires WellFormed(s2.credentials.appSecret) && WellFormed(s2.credentials.accessTokenSecret)
    requires WellFormedMap(SignedParams(s1, q1, n1, t1)) && WellFormedMap(SignedParams(s2, q2, n2, t2))
    requires SigningKey(s1.credentials) == SigningKey(s2.credentials)
    requires SignatureBaseString(verb1, s1.host + e1, SignedParams(s1, q1, n1, t1))
          == SignatureBaseString(verb2, s2.host + e2, SignedParams(s2, q2, n2, t2))
    ensures s1.credentials.appSecret == s2.credentials.appSecret
    ensures s1.credentials.accessTokenSecret == s2.credentials.accessTokenSecret
    ensures verb1 == verb2 && s1.host + e1 == s2.host + e2
    ensures SignedParams(s1, q1, n1, t1) == SignedParams(s2, q2, n2, t2)
    ensures n1 == n2 && t1 == t2
  {
    SigningKeyInjective(s1.credentials, s2.credentials);
    BaseStringInjective(verb1, s1.host + e1, SignedParams(s1, q1, n1, t1),
                        verb2, s2.host + e2, SignedParams(s2, q2, n2, t2));
    SignedParamsContents(s1, q1, n1, t1);
    SignedParamsContents(s2, q2, n2, t2);
    DecimalValue(t1);
    DecimalValue(t2);
  }

  // ---------------------------------------------------------------------
  // Requests

  const GET: JString := Lit("GET")
  const PUT: JString := Lit("PUT")
  const AUTHORIZATION: JString := Lit("Authorization")
  const OAUTH_SCHEME: JString := Lit("OAuth ")
  /** `Duration.ofMinutes(1)`. */
  const TIMEOUT_SECONDS: nat := 60

  datatype Body = NoBody | StringBody(content: JString)

  /** The parts of a `java.net.http.HttpRequest` the client sets. */
  datatype HttpRequest = HttpRequest(verb: JString, uri: JString, timeoutSeconds: nat,
                                     headers: seq<(JString, JString)>, body: Body)

  /** A unit `HttpRequest.Builder.headers` accepts in a header value: none
      above U+00FF, and no control character except tab. */
  predicate AllowedInHeader(c: JChar) {
    c <= 0xFF && (c == 0x09 || (0x20 <= c && c != 0x7F))
  }

  /** A header value the builder accepts; any other makes it throw
      `IllegalArgumentException`. */
  predicate ValidHeaderValue(v: JString) {
    forall i | 0 <= i < |v| :: AllowedInHeader(v[i])
  }

  /** `generateGetRequest`: a signed GET of the generated URL, with a one-minute
      timeout and the header `Authorization: OAuth <header value>`; `None`
      when the builder refuses that header value and throws. */
  method GenerateGetRequest(settings: ClientSettings, query: QueryMap, endpoint: JString,
                            nonce: JString, timestampMillis: nat, mac: Mac)
    returns (request: Option<HttpRequest>)
    ensures var s := Signed(settings, query, endpoint, GET, nonce, timestampMillis, mac);
      && (request.None? <==> !ValidHeaderValue(OAUTH_SCHEME + s.authorization))
      && (request.Some? ==>
            && request.value.verb == GET && request.value.body == NoBody
            && request.value.uri == s.url
            && request.value.timeoutSeconds == TIMEOUT_SECONDS
            && request.value.headers == [(AUTHORIZATION, OAUTH_SCHEME + s.authorization)])
  {
    var url, authorization := GenerateHeader(settings, query, endpoint, GET, nonce, timestampMillis, mac);
    var header := OAUTH_SCHEME + authorization;
    if !ValidHeaderValue(header) {
      return None;
    }
    request := Some(HttpRequest(GET, url, TIMEOUT_SECONDS, [(AUTHORIZATION, header)], NoBody));
  }

  /** `generatePutRequest`: the same for a PUT whose body is the payload
      serialized to XML. `None` when the serializer throws (the method
      rethrows) or when the builder refuses the header value. */
  method GeneratePutRequest(settings: ClientSettings, query: QueryMap, endpoint: JString, payloadXml: Option<JString>,
                            nonce: JString, timestampMillis: nat, mac: Mac)
    returns (request: Option<HttpRequest>)
    ensures var s := Signed(settings, query, endpoint, PUT, nonce, timestampMillis, mac);
      && (request.None? <==> payloadXml.None? || !ValidHeaderValue(OAUTH_SCHEME + s.authorization))
      && (request.Some? ==>
            && request.value.verb == PUT && request.value.body == StringBody(payloadXml.value)
            && request.value.uri == s.url
            && request.value.timeoutSeconds == TIMEOUT_SECONDS
            && request.value.headers == [(AUTHORIZATION, OAUTH_SCHEME + s.authorization)])
  {
    var url, authorization := GenerateHeader(settings, query, endpoint, PUT, nonce, timestampMillis, mac);
    match payloadXml {
      case None =>
        request := None;
      case Some(xml) =>
        var header := OAUTH_SCHEME + authorization;
        if !ValidHeaderValue(header) {
          return None;
        }
        request := Some(HttpRequest(PUT, url, TIMEOUT_SECONDS, [(AUTHORIZATION, header)], StringBody(xml)));
    }
  }

  /** The query is rendered into the header unencoded, so one query value
      holding a unit the builder refuses (a `€`, a line feed) makes both
      request builders throw, whatever else the request holds. */
  lemma QueryValueOutsideHeaderRangeIsRefused(settings: ClientSettings, query: QueryMap, endpoint: JString, verb: JString,
                                              nonce: JString, timestampMillis: nat, mac: Mac, i: nat, j: nat)
    requires i < |query| && query[i].0 !in OAUTH_NAMES && query[i].0 != REALM && query[i].0 != OAUTH_SIGNATURE
    requires j < |query[i].1| && !AllowedInHeader(query[i].1[j])
    ensures !ValidHeaderValue(OAUTH_SCHEME + Signed(settings, query, endpoint, verb, nonce, timestampMillis, mac).authorization)
  {
    SignedHeaderContents(settings, query, endpoint, verb, nonce, timestampMillis, mac);
    var h := HeaderMap(settings, query, endpoint, verb, nonce, timestampMillis, mac);
    var v := query[i].1;
    assert query[i].0 in h && h[query[i].0] == v;
    HeaderShowsEveryValue(h, query[i].0, j);
    var a := Signed(settings, query, endpoint, verb, nonce, timestampMillis, mac).authorization;
    var m :| 0 <= m < |a| && a[m] == v[j];
    assert (OAUTH_SCHEME + a)[|OAUTH_SCHEME| + m] == v[j];
  }

  /** The verb is signed: a GET and a PUT of the same URL with the same
      parameters have different base strings. */
  lemma RequestsSignTheirVerb(settings: ClientSettings, query: QueryMap, endpoint: JString,
                              nonce: JString, timestampMillis: nat)
    ensures var url := settings.host + endpoint;
      var signed := SignedParams(settings, query, nonce, timestampMillis);
      SignatureBaseString(GET, url, signed) != SignatureBaseString(PUT, url, signed)
  {
    var url := settings.host + endpoint;
    var signed := SignedParams(settings, query, nonce, timestampMillis);
    assert SignatureBaseString(GET, url, signed)[0] != SignatureBaseString(PUT, url, signed)[0];
  }

  // ---------------------------------------------------------------------
  // Responses

  /** A status the client accepts: `200 <= status < 300`. */
  predicate IsSuccess(status: int) {
    200 <= status && status < 300
  }

  /** What the body handler's supplier yields when asked: the decoded value
      (`None` when the body decodes to `null`), or an exception when the body
      cannot be decoded. */
  datatype Decoded<T> = Value(value: Option<T>) | Undecodable

  /** How the returned future completes: with a value (`None` for `null`) or
      exceptionally. */
  datatype Completion<T> = Completed(result: Option<T>) | Failed

  /** `sendRequest`'s continuation: on a 2xx status the supplier is asked for
      the body; on any other status it is not asked and the result is `null`. */
  function HandleResponse<T>(status: int, body: Decoded<T>): (r: Completion<T>)
    ensures !IsSuccess(status) ==> r == Completed(None)
    ensures r == Failed <==> IsSuccess(status) && body == Undecodable
    ensures IsSuccess(status) && body.Value? ==> r == Completed(body.value)
    ensures r.Completed? && r.result.Some? ==> IsSuccess(status) && body == Value(r.result)
  {
    if IsSuccess(status) then
      match body
      case Value(v) => Completed(v)
      case Undecodable => Failed
    else Completed(None)
  }
}
