/** The pieces of the OAuth 1.0a signature the Cardmarket client computes in
    `generateHeader`: the parameters it signs, the signature base string
    (section 3.4.1 of RFC 5849, with `URLEncoder` as the encoding), the signing
    key (section 3.4.2), the Authorization header value and the request URL. */
module OAuthSignature {
  import opened JavaText
  import opened UrlEncoder
  import opened SortedMaps

  const OAUTH_CONSUMER_KEY: JString := Lit("oauth_consumer_key")
  const OAUTH_TOKEN: JString := Lit("oauth_token")
  const OAUTH_NONCE: JString := Lit("oauth_nonce")
  const OAUTH_TIMESTAMP: JString := Lit("oauth_timestamp")
  const OAUTH_SIGNATURE_METHOD: JString := Lit("oauth_signature_method")
  const OAUTH_VERSION: JString := Lit("oauth_version")
  /** Put after the base string is built: the request URL, unencoded. */
  const REALM: JString := Lit("realm")
  /** Put after the signature is computed. */
  const OAUTH_SIGNATURE: JString := Lit("oauth_signature")

  const AMPERSAND: JChar := 0x26
  const EQUALS: JChar := 0x3D
  const QUOTE: JChar := 0x22
  const QUESTION_MARK: JChar := 0x3F
  const COMMA_SPACE: JString := Lit(", ")

  /** The six parameters the client puts over the query entries. */
  ghost const OAUTH_NAMES: set<JString> :=
    {OAUTH_CONSUMER_KEY, OAUTH_TOKEN, OAUTH_NONCE, OAUTH_TIMESTAMP, OAUTH_SIGNATURE_METHOD, OAUTH_VERSION}

  /** `CredentialProperties`: the application and access tokens and their secrets. */
  datatype Credentials = Credentials(appToken: JString, appSecret: JString, accessToken: JString, accessTokenSecret: JString)

  /** `OauthProperties`: the configured signature method name and OAuth version. */
  datatype OAuthSettings = OAuthSettings(signatureMethod: JString, version: JString)

  /** The client's read-only configuration: `ClientProperties.host` and the two above. */
  datatype ClientSettings = ClientSettings(host: JString, credentials: Credentials, oauth: OAuthSettings)

  /** The request parameters of a Java `Map<String, String>`, in its iteration order. */
  type QueryMap = es: seq<Entry> | DistinctKeys(es)

  /** Every key and value of `m` is a well-formed string. */
  ghost predicate WellFormedMap(m: map<JString, JString>) {
    forall k | k in m :: WellFormed(k) && WellFormed(m[k])
  }

  lemma OAuthNamesDistinct()
    ensures |{OAUTH_CONSUMER_KEY, OAUTH_TOKEN, OAUTH_NONCE, OAUTH_TIMESTAMP, OAUTH_SIGNATURE_METHOD,
              OAUTH_VERSION, REALM, OAUTH_SIGNATURE}| == 8
    ensures OAUTH_CONSUMER_KEY != OAUTH_TOKEN && OAUTH_CONSUMER_KEY != OAUTH_NONCE
    ensures OAUTH_CONSUMER_KEY != OAUTH_TIMESTAMP && OAUTH_CONSUMER_KEY != OAUTH_SIGNATURE_METHOD
    ensures OAUTH_CONSUMER_KEY != OAUTH_VERSION && OAUTH_TOKEN != OAUTH_NONCE
    ensures OAUTH_TOKEN != OAUTH_TIMESTAMP && OAUTH_TOKEN != OAUTH_SIGNATURE_METHOD
    ensures OAUTH_TOKEN != OAUTH_VERSION && OAUTH_NONCE != OAUTH_TIMESTAMP
    ensures OAUTH_NONCE != OAUTH_SIGNATURE_METHOD && OAUTH_NONCE != OAUTH_VERSION
    ensures OAUTH_TIMESTAMP != OAUTH_SIGNATURE_METHOD && OAUTH_TIMESTAMP != OAUTH_VERSION
    ensures OAUTH_SIGNATURE_METHOD != OAUTH_VERSION
    ensures REALM !in OAUTH_NAMES && OAUTH_SIGNATURE !in OAUTH_NAMES && REALM != OAUTH_SIGNATURE
  {
    assert OAUTH_TOKEN[6] != OAUTH_NONCE[6];
    assert OAUTH_TIMESTAMP[6] != OAUTH_SIGNATURE[6];
  }

  // ---------------------------------------------------------------------
  // The signed parameters

  /** The `TreeMap` after the six `put`s: the query entries with the client's
      OAuth parameters written over them. The timestamp is the current time in
      milliseconds, rendered by `Long.toString`. */
  function SignedParams(settings: ClientSettings, query: seq<Entry>, nonce: JString, timestampMillis: nat)
    : map<JString, JString>
  {
    MapOf(query)
      [OAUTH_CONSUMER_KEY := settings.credentials.appToken]
      [OAUTH_TOKEN := settings.credentials.accessToken]
      [OAUTH_NONCE := nonce]
      [OAUTH_TIMESTAMP := Decimal(timestampMillis)]
      [OAUTH_SIGNATURE_METHOD := settings.oauth.signatureMethod]
      [OAUTH_VERSION := settings.oauth.version]
  }

  /** The signed map always holds the six OAuth parameters with the client's
      values, whatever the query says; every other query entry is kept as it
      is, and nothing else is added. */
  lemma SignedParamsContents(settings: ClientSettings, query: QueryMap, nonce: JString, timestampMillis: nat)
    ensures var m := SignedParams(settings, query, nonce, timestampMillis);
      && m.Keys == MapOf(query).Keys + OAUTH_NAMES
      && m[OAUTH_CONSUMER_KEY] == settings.credentials.appToken
      && m[OAUTH_TOKEN] == settings.credentials.accessToken
      && m[OAUTH_NONCE] == nonce
      && m[OAUTH_TIMESTAMP] == Decimal(timestampMillis)
      && m[OAUTH_SIGNATURE_METHOD] == settings.oauth.signatureMethod
      && m[OAUTH_VERSION] == settings.oauth.version
      && forall i | 0 <= i < |query| && query[i].0 !in OAUTH_NAMES :: m[query[i].0] == query[i].1
  {
    OAuthNamesDistinct();
    MapOfDistinct(query);
  }

  // ---------------------------------------------------------------------
  // The signature base string and the signing key

  /** `enc(key) + "=" + enc(value)` for each key of `ks`, in order. */
  function EncodedPairs(ks: seq<JString>, m: map<JString, JString>): (ps: seq<JString>)
    requires forall k | k in ks :: k in m
    ensures |ps| == |ks|
  {
    seq(|ks|, i requires 0 <= i < |ks| => Encode(ks[i]) + [EQUALS] + Encode(m[ks[i]]))
  }

  /** The normalized parameter string: the encoded pairs joined by `&`. */
  function ParamString(ks: seq<JString>, m: map<JString, JString>): JString
    requires forall k | k in ks :: k in m
  {
    Join([AMPERSAND], EncodedPairs(ks, m))
  }

  /** `method & enc(url) & enc(parameter string)`: the string that is signed. */
  function BaseString(verb: JString, url: JString, ks: seq<JString>, m: map<JString, JString>): JString
    requires forall k | k in ks :: k in m
  {
    verb + [AMPERSAND] + Encode(url) + [AMPERSAND] + Encode(ParamString(ks, m))
  }

  /** The base string of `params` taken in `TreeMap` order. */
  ghost function SignatureBaseString(verb: JString, url: JString, params: map<JString, JString>): JString {
    BaseString(verb, url, SortedKeys(params), params)
  }

  /** `enc(appSecret) & enc(accessTokenSecret)`: the HMAC key. */
  function SigningKey(credentials: Credentials): JString {
    Encode(credentials.appSecret) + [AMPERSAND] + Encode(credentials.accessTokenSecret)
  }

  lemma EncodeAvoidsSeparators(s: JString)
    ensures Avoids(Encode(s), AMPERSAND) && Avoids(Encode(s), EQUALS)
    ensures forall i | 0 <= i < |Encode(s)| :: Encode(s)[i] < 0x80 && !IsSurrogate(Encode(s)[i])
  {
  }

  /** The signing key determines both secrets: a key never stands for two
      different pairs of (well-formed) secrets. */
  lemma SigningKeyInjective(c1: Credentials, c2: Credentials)
    requires WellFormed(c1.appSecret) && WellFormed(c1.accessTokenSecret)
    requires WellFormed(c2.appSecret) && WellFormed(c2.accessTokenSecret)
    requires SigningKey(c1) == SigningKey(c2)
    ensures c1.appSecret == c2.appSecret && c1.accessTokenSecret == c2.accessTokenSecret
  {
    EncodeAvoidsSeparators(c1.appSecret);
    EncodeAvoidsSeparators(c2.appSecret);
    CutAtSeparator(Encode(c1.appSecret), Encode(c2.appSecret), AMPERSAND,
                   Encode(c1.accessTokenSecret), Encode(c2.accessTokenSecret));
    EncodeInjective(c1.appSecret, c2.appSecret);
    EncodeInjective(c1.accessTokenSecret, c2.accessTokenSecret);
  }

  /** Every pair contains `=` and no `&`. */
  lemma EncodedPairsShape(ks: seq<JString>, m: map<JString, JString>)
    requires forall k | k in ks :: k in m
    ensures forall i | 0 <= i < |ks| :: Avoids(EncodedPairs(ks, m)[i], AMPERSAND)
    ensures forall i | 0 <= i < |ks| :: EncodedPairs(ks, m)[i] != []
  {
    forall i | 0 <= i < |ks|
      ensures Avoids(EncodedPairs(ks, m)[i], AMPERSAND)
    {
      EncodeAvoidsSeparators(ks[i]);
      EncodeAvoidsSeparators(m[ks[i]]);
    }
  }

  /** Two equal pairs come from equal keys and values. */
  lemma EncodedPairInjective(k1: JString, v1: JString, k2: JString, v2: JString)
    requires WellFormed(k1) && WellFormed(v1) && WellFormed(k2) && WellFormed(v2)
    requires Encode(k1) + [EQUALS] + Encode(v1) == Encode(k2) + [EQUALS] + Encode(v2)
    ensures k1 == k2 && v1 == v2
  {
    EncodeAvoidsSeparators(k1);
    EncodeAvoidsSeparators(k2);
    CutAtSeparator(Encode(k1), Encode(k2), EQUALS, Encode(v1), Encode(v2));
    EncodeInjective(k1, k2);
    EncodeInjective(v1, v2);
  }

  /** The parameter string of a map in `TreeMap` order determines the map. */
  lemma ParamStringInjective(p1: map<JString, JString>, p2: map<JString, JString>)
    requires WellFormedMap(p1) && WellFormedMap(p2)
    requires ParamString(SortedKeys(p1), p1) == ParamString(SortedKeys(p2), p2)
    ensures p1 == p2
  {
    var ks1, ks2 := SortedKeys(p1), SortedKeys(p2);
    var e1, e2 := EncodedPairs(ks1, p1), EncodedPairs(ks2, p2);
    EncodedPairsShape(ks1, p1);
    EncodedPairsShape(ks2, p2);
    JoinLength(AMPERSAND, e1);
    JoinLength(AMPERSAND, e2);
    if e1 == [] || e2 == [] {
      assert ks1 == [] && ks2 == [];
      assert p1.Keys == {} && p2.Keys == {};
    } else {
      JoinInjective(AMPERSAND, e1, e2);
      forall i | 0 <= i < |ks1|
        ensures ks1[i] == ks2[i] && p1[ks1[i]] == p2[ks2[i]]
      {
        assert e1[i] == e2[i];
        EncodedPairInjective(ks1[i], p1[ks1[i]], ks2[i], p2[ks2[i]]);
      }
      assert ks1 == ks2;
    }
  }

  lemma JoinLength(c: JChar, xs: seq<JString>)
    ensures xs != [] ==> |Join([c], xs)| >= |xs[0]|
  {
  }

  /** The base string is an unambiguous rendering of what is signed: the
      HTTP verb (which holds no `&`), the URL and every parameter can be read
      back from it. No key or value can forge a separator. */
  lemma BaseStringInjective(verb1: JString, url1: JString, p1: map<JString, JString>,
                            verb2: JString, url2: JString, p2: map<JString, JString>)
    requires Avoids(verb1, AMPERSAND) && Avoids(verb2, AMPERSAND)
    requires WellFormed(url1) && WellFormed(url2) && WellFormedMap(p1) && WellFormedMap(p2)
    requires SignatureBaseString(verb1, url1, p1) == SignatureBaseString(verb2, url2, p2)
    ensures verb1 == verb2 && url1 == url2 && p1 == p2
  {
    var ps1, ps2 := ParamString(SortedKeys(p1), p1), ParamString(SortedKeys(p2), p2);
    EncodeAvoidsSeparators(url1);
    EncodeAvoidsSeparators(url2);
    ThreeFieldsInjective(AMPERSAND, verb1, Encode(url1), Encode(ps1), verb2, Encode(url2), Encode(ps2));
    EncodeInjective(url1, url2);
    ParamStringIsWellFormed(SortedKeys(p1), p1);
    ParamStringIsWellFormed(SortedKeys(p2), p2);
    EncodeInjective(ps1, ps2);
    ParamStringInjective(p1, p2);
  }

  /** `a & b & c` with `a` and `b` free of `&` splits in one way only. */
  lemma ThreeFieldsInjective(c: JChar, a1: JString, b1: JString, r1: JString, a2: JString, b2: JString, r2: JString)
    requires Avoids(a1, c) && Avoids(b1, c) && Avoids(a2, c) && Avoids(b2, c)
    requires a1 + [c] + b1 + [c] + r1 == a2 + [c] + b2 + [c] + r2
    ensures a1 == a2 && b1 == b2 && r1 == r2
  {
    assert a1 + [c] + b1 + [c] + r1 == a1 + [c] + (b1 + [c] + r1);
    assert a2 + [c] + b2 + [c] + r2 == a2 + [c] + (b2 + [c] + r2);
    CutAtSeparator(a1, a2, c, b1 + [c] + r1, b2 + [c] + r2);
    CutAtSeparator(b1, b2, c, r1, r2);
  }

  /** The parameter string is plain ASCII, so in particular well formed. */
  lemma ParamStringIsWellFormed(ks: seq<JString>, m: map<JString, JString>)
    requires forall k | k in ks :: k in m
    ensures WellFormed(ParamString(ks, m))
  {
    var e := EncodedPairs(ks, m);
    forall i | 0 <= i < |ks|
      ensures forall j | 0 <= j < |e[i]| :: !IsSurrogate(e[i][j])
    {
      EncodeAvoidsSeparators(ks[i]);
      EncodeAvoidsSeparators(m[ks[i]]);
    }
    JoinKeepsNoSurrogates(AMPERSAND, e);
    NoSurrogatesWellFormed(ParamString(ks, m));
  }

  lemma {:induction false} JoinKeepsNoSurrogates(c: JChar, xs: seq<JString>)
    requires !IsSurrogate(c)
    requires forall i | 0 <= i < |xs| :: forall j | 0 <= j < |xs[i]| :: !IsSurrogate(xs[i][j])
    ensures forall j | 0 <= j < |Join([c], xs)| :: !IsSurrogate(Join([c], xs)[j])
    decreases |xs|
  {
    if |xs| > 1 {
      JoinKeepsNoSurrogates(c, xs[1..]);
    }
  }

  // ---------------------------------------------------------------------
  // realm and oauth_signature

  /** The map the header is rendered from: the signed map with `realm` (the
      unencoded URL) and then `oauth_signature` put over it. */
  function HeaderParams(signed: map<JString, JString>, url: JString, signature: JString): map<JString, JString> {
    signed[REALM := url][OAUTH_SIGNATURE := signature]
  }

  /** `realm` and `oauth_signature` are put only after the base string is
      finished: they are among the signed parameters only when the caller's
      query already holds such a key, yet both always reach the header, with
      the URL and the signature as values. */
  lemma RealmAndSignatureComeLate(settings: ClientSettings, query: QueryMap, nonce: JString, timestampMillis: nat,
                                  url: JString, signature: JString)
    ensures var signed := SignedParams(settings, query, nonce, timestampMillis);
      && (REALM in signed <==> exists i | 0 <= i < |query| :: query[i].0 == REALM)
      && (OAUTH_SIGNATURE in signed <==> exists i | 0 <= i < |query| :: query[i].0 == OAUTH_SIGNATURE)
      && HeaderParams(signed, url, signature)[REALM] == url
      && HeaderParams(signed, url, signature)[OAUTH_SIGNATURE] == signature
  {
    OAuthNamesDistinct();
    SignedParamsContents(settings, query, nonce, timestampMillis);
  }

  /** What the header map holds: the query entries, except those overwritten
      by one of the eight client parameters, the six OAuth parameters,
      `realm` and `oauth_signature`. Nothing else. */
  lemma HeaderParamsContents(settings: ClientSettings, query: QueryMap, nonce: JString, timestampMillis: nat,
                             url: JString, signature: JString)
    ensures var h := HeaderParams(SignedParams(settings, query, nonce, timestampMillis), url, signature);
      && h.Keys == MapOf(query).Keys + OAUTH_NAMES + {REALM, OAUTH_SIGNATURE}
      && h[OAUTH_CONSUMER_KEY] == settings.credentials.appToken
      && h[OAUTH_TOKEN] == settings.credentials.accessToken
      && h[OAUTH_NONCE] == nonce
      && h[OAUTH_TIMESTAMP] == Decimal(timestampMillis)
      && h[OAUTH_SIGNATURE_METHOD] == settings.oauth.signatureMethod
      && h[OAUTH_VERSION] == settings.oauth.version
      && h[REALM] == url
      && h[OAUTH_SIGNATURE] == signature
      && forall i | 0 <= i < |query| && query[i].0 !in OAUTH_NAMES && query[i].0 != REALM && query[i].0 != OAUTH_SIGNATURE
           :: h[query[i].0] == query[i].1
  {
    OAuthNamesDistinct();
    SignedParamsContents(settings, query, nonce, timestampMillis);
  }

  /** The nonce and the timestamp change values only: the header lists the
      same keys whatever they are. */
  lemma HeaderKeysIgnoreNonceAndTime(settings: ClientSettings, query: seq<Entry>, url: JString,
                                     nonce1: JString, timestamp1: nat, signature1: JString,
                                     nonce2: JString, timestamp2: nat, signature2: JString)
    ensures HeaderParams(SignedParams(settings, query, nonce1, timestamp1), url, signature1).Keys
         == HeaderParams(SignedParams(settings, query, nonce2, timestamp2), url, signature2).Keys
  {
  }

  // ---------------------------------------------------------------------
  // The Authorization header value

  /** `key="value"`, neither part encoded. */
  function Quoted(key: JString, value: JString): JString {
    key + [EQUALS, QUOTE] + value + [QUOTE]
  }

  /** The quoted pairs for the keys of `ks`, in order. */
  function HeaderPairs(ks: seq<JString>, m: map<JString, JString>): (ps: seq<JString>)
    requires forall k | k in ks :: k in m
    ensures |ps| == |ks|
  {
    seq(|ks|, i requires 0 <= i < |ks| => Quoted(ks[i], m[ks[i]]))
  }

  /** The pairs joined by `", "`. */
  function HeaderValue(ks: seq<JString>, m: map<JString, JString>): JString
    requires forall k | k in ks :: k in m
  {
    Join(COMMA_SPACE, HeaderPairs(ks, m))
  }

  /** The header value of `params` in `TreeMap` order. */
  ghost function AuthorizationValue(params: map<JString, JString>): JString {
    HeaderValue(SortedKeys(params), params)
  }

  /** The header renders every entry of its map and nothing else, one pair per
      key, in ascending key order. */
  lemma HeaderListsEveryEntry(params: map<JString, JString>)
    ensures var ks := SortedKeys(params);
      var ps := HeaderPairs(ks, params);
      && (forall k | k in params :: Quoted(k, params[k]) in ps)
      && (forall i | 0 <= i < |ps| :: ks[i] in params && ps[i] == Quoted(ks[i], params[ks[i]]))
      && (forall i, j | 0 <= i < j < |ps| :: Less(ks[i], ks[j]))
  {
    var ks := SortedKeys(params);
    var ps := HeaderPairs(ks, params);
    forall k | k in params
      ensures Quoted(k, params[k]) in ps
    {
      var i :| 0 <= i < |ks| && ks[i] == k;
      assert ps[i] == Quoted(k, params[k]);
    }
  }

  /** Nothing of a value is lost or escaped on its way into the header: every
      unit of every value occurs in the header value. */
  lemma HeaderShowsEveryValue(params: map<JString, JString>, k: JString, j: nat)
    requires k in params && j < |params[k]|
    ensures params[k][j] in AuthorizationValue(params)
  {
    var ks := SortedKeys(params);
    var n :| 0 <= n < |ks| && ks[n] == k;
    var ps := HeaderPairs(ks, params);
    QuotedShowsValue(k, params[k], j);
    assert ps[n] == Quoted(k, params[k]);
    JoinKeepsParts(COMMA_SPACE, ps, n, |k| + 2 + j);
  }

  lemma QuotedShowsValue(k: JString, v: JString, j: nat)
    requires j < |v|
    ensures |k| + 2 + j < |Quoted(k, v)| && Quoted(k, v)[|k| + 2 + j] == v[j]
  {
  }

  // ---------------------------------------------------------------------
  // The request URL

  /** `key=value` for each query entry, in the map's own order, unencoded. */
  function QueryPairs(query: seq<Entry>): (ps: seq<JString>)
    ensures |ps| == |query|
  {
    seq(|query|, i requires 0 <= i < |query| => query[i].0 + [EQUALS] + query[i].1)
  }

  function QueryString(query: seq<Entry>): JString {
    Join([AMPERSAND], QueryPairs(query))
  }

  /** The URL requested: `url`, followed by `?` and the query string when that
      string is not empty. */
  function RequestUrl(url: JString, query: seq<Entry>): JString {
    var q := QueryString(query);
    if q == [] then url else url + [QUESTION_MARK] + q
  }

  /** The query string is empty exactly when the query map is, so the URL is
      the bare `host + endpoint` for an empty map and carries every query
      entry, in the map's order and without any OAuth parameter, otherwise. */
  lemma RequestUrlShape(url: JString, query: seq<Entry>)
    ensures RequestUrl(url, query) == url <==> query == []
    ensures query != [] ==> RequestUrl(url, query) == url + [QUESTION_MARK] + Join([AMPERSAND], QueryPairs(query))
    ensures forall i | 0 <= i < |query| :: QueryPairs(query)[i] == query[i].0 + [EQUALS] + query[i].1
  {
    var ps := QueryPairs(query);
    JoinLength(AMPERSAND, ps);
    if query != [] {
      assert |ps[0]| > 0;
    }
  }

  /** The query string is not encoded, so a value holding `&` and `=` reads as
      two parameters: two different maps give the same URL. */
  lemma UnencodedQueryIsAmbiguous()
    ensures QueryString([(Lit("a"), Lit("b&c=d"))]) == QueryString([(Lit("a"), Lit("b")), (Lit("c"), Lit("d"))])
  {
    var one := [(Lit("a"), Lit("b&c=d"))];
    var two := [(Lit("a"), Lit("b")), (Lit("c"), Lit("d"))];
    assert QueryString(one) == Lit("a=b&c=d");
    assert QueryPairs(two)[0] == Lit("a=b") && QueryPairs(two)[1] == Lit("c=d");
    assert QueryPairs(two)[1..] == [Lit("c=d")];
    assert QueryString(two) == Lit("a=b") + [AMPERSAND] + Lit("c=d");
  }
}
