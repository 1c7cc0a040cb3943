# Cardmarket client: OAuth 1.0a request signing

This is a Dafny model of the part of `CardmarketClient` that signs and builds
requests to the Cardmarket API.

**Signing (`generateHeader`).** It takes the caller's query map, an endpoint
and an HTTP verb:

- It copies the query into a `TreeMap` and puts the six OAuth parameters over it:
  - `oauth_consumer_key` (the app token)
  - `oauth_token` (the access token)
  - `oauth_nonce` (a random number)
  - `oauth_timestamp` (the current time in **milliseconds**)
  - `oauth_signature_method`
  - `oauth_version`
- It builds the signature base string
  `verb & enc(host + endpoint) & enc(k1=v1&k2=v2...)`. Every key and value is
  form-encoded by `URLEncoder`, and the pairs are taken in ascending key order.
- It signs that string with HMAC-SHA1 under the key
  `enc(appSecret) & enc(accessTokenSecret)`.
- It puts `realm` (the unencoded URL) and `oauth_signature` into the same map.
- It renders **every** entry of the map as `key="value"`, unencoded, joined by
  `", "`. The query parameters are included.
- It returns the URL with `?k=v&...` appended. This query string is written in
  the caller's map order and is not encoded.

**Requests.** `generateGetRequest` and `generatePutRequest` send that URL with
`Authorization: OAuth <value>` and a one-minute timeout. A PUT's body is the
payload serialized to XML. The request builder throws when the header value
holds a unit above U+00FF or a control character other than tab, which an
unencoded query value can bring in. `sendRequest` yields the decoded body for a
2xx status and `null` for any other status.

**Modules.** The model has five modules, one per file:

- `JavaText` models Java strings as UTF-16 code units. It covers the order of
  `String.compareTo`, `Collectors.joining` and `Long.toString`.
- `UrlEncoder` models `URLEncoder.encode(_, UTF_8)` together with a strict
  decoder, and proves the decoder is its exact inverse on well-formed strings.
- `SortedMaps` models `TreeMap` as a class with a sorted key list, updated in
  place by `put`.
- `OAuthSignature` holds the base string, the signing key, the header value and
  the URL as functions, with the properties about them.
- `CardmarketClient` holds `generateHeader` as an imperative method (a `TreeMap`
  and a string buffer), proved equal to the specification function `Signed`. It
  also holds the GET and PUT request builders and the response rule.

**Inputs.** Three things become parameters:

- The random nonce (`Double.toString(new Random().nextDouble())`).
- The clock reading (`System.currentTimeMillis()`).
- The HMAC-SHA1 + Base64 digest (a function `mac(key, message)`).

**Where this model follows the code rather than a textbook OAuth signer:**

- The Authorization header lists the query parameters too, not only the
  `oauth_*` parameters and `realm`.
- The URL's query string is not percent-encoded.
- The timestamp is in milliseconds, not seconds.
- A query key named like an OAuth parameter is silently overwritten.

## Model

| member | source | states |
|---|---|---|
| `JavaText.LessTransitive` | cardmarket-client/src/main/java/io/happyharbor/cardmarket/client/CardmarketClient.java:103 | The `String.compareTo` order that sorts the `TreeMap` is transitive. |
| `JavaText.LessTotal` | cardmarket-client/src/main/java/io/happyharbor/cardmarket/client/CardmarketClient.java:103 | Of two different strings, one comes before the other. |
| `JavaText.LessAsymmetric` | cardmarket-client/src/main/java/io/happyharbor/cardmarket/client/CardmarketClient.java:103 | No two strings precede each other. |
| `JavaText.LessIrreflexive` | cardmarket-client/src/main/java/io/happyharbor/cardmarket/client/CardmarketClient.java:103 | No string precedes itself. |
| `JavaText.JoinInjective` | cardmarket-client/src/main/java/io/happyharbor/cardmarket/client/CardmarketClient.java:119-122 | Joining non-empty lists with a one-character separator that no part contains is injective: the joined string gives back the parts. |
| `JavaText.JoinKeepsParts` | cardmarket-client/src/main/java/io/happyharbor/cardmarket/client/CardmarketClient.java:138-141 | `Collectors.joining` drops nothing: every unit of every part occurs in the joined string. |
| `JavaText.Decimal` | cardmarket-client/src/main/java/io/happyharbor/cardmarket/client/CardmarketClient.java:109 | `Long.toString` of a non-negative time is a non-empty string of decimal digits with no leading zero. |
| `JavaText.DecimalValue` | cardmarket-client/src/main/java/io/happyharbor/cardmarket/client/CardmarketClient.java:109 | Reading the rendered timestamp back gives the millisecond count: the rendering loses nothing. |
| `UrlEncoder.Encode` | cardmarket-client/src/main/java/io/happyharbor/cardmarket/client/CardmarketClient.java:116 | The encoder only ever outputs unreserved characters, `+` and `%`. It never outputs `&`, `=` or `"`. |
| `UrlEncoder.DecodeEncode` | cardmarket-client/src/main/java/io/happyharbor/cardmarket/client/CardmarketClient.java:121 | Every well-formed string is recovered from its encoding. |
| `UrlEncoder.EncodeDecode` | cardmarket-client/src/main/java/io/happyharbor/cardmarket/client/CardmarketClient.java:121 | Every string that decodes is the encoding of the well-formed string it decodes to. |
| `UrlEncoder.DecodeIffEncode` | cardmarket-client/src/main/java/io/happyharbor/cardmarket/client/CardmarketClient.java:116-123 | `t` decodes to `s` if and only if `s` is well formed and encodes to `t`. |
| `UrlEncoder.EncodeInjective` | cardmarket-client/src/main/java/io/happyharbor/cardmarket/client/CardmarketClient.java:121 | Different well-formed strings get different encodings. |
| `UrlEncoder.LoneSurrogateEncodesAsQuestionMark` | cardmarket-client/src/main/java/io/happyharbor/cardmarket/client/CardmarketClient.java:121 | A lone surrogate and `?` both encode as `%3F`, so on text that is not well formed the encoder loses information. |
| `UrlEncoder.EncodeFixesExactlyUnreserved` | cardmarket-client/src/main/java/io/happyharbor/cardmarket/client/CardmarketClient.java:116 | Encoding leaves a string unchanged if and only if every character is unreserved. It never shortens a string. |
| `SortedMaps.MapOf` | cardmarket-client/src/main/java/io/happyharbor/cardmarket/client/CardmarketClient.java:103 | Copying a map's entries gives a map whose keys are exactly the entries' keys. |
| `SortedMaps.MapOfDistinct` | cardmarket-client/src/main/java/io/happyharbor/cardmarket/client/CardmarketClient.java:103 | Copying a Java map (distinct keys) keeps every entry's value. |
| `SortedMaps.MapOfSameEntries` | cardmarket-client/src/main/java/io/happyharbor/cardmarket/client/CardmarketClient.java:103 | Two maps with the same entries, in any iteration order, give the same `TreeMap` contents. |
| `SortedMaps.InsertSorted` | cardmarket-client/src/main/java/io/happyharbor/cardmarket/client/CardmarketClient.java:106 | Inserting a key into a strictly ascending key list keeps it strictly ascending, and its elements are the old ones plus that key. |
| `SortedMaps.SortedUnique` | cardmarket-client/src/main/java/io/happyharbor/cardmarket/client/CardmarketClient.java:119-120 | A set of keys has exactly one ascending listing, so the `TreeMap` iteration order is determined by its keys. |
| `SortedMaps.SortedKeys` | cardmarket-client/src/main/java/io/happyharbor/cardmarket/client/CardmarketClient.java:119-120 | The iteration order of a `TreeMap` is strictly ascending and lists exactly its keys. |
| `SortedMaps.TreeMap.constructor` | cardmarket-client/src/main/java/io/happyharbor/cardmarket/client/CardmarketClient.java:103 | `new TreeMap<>(queryMap)` holds exactly the query's entries, keys ascending. |
| `SortedMaps.TreeMap.Put` | cardmarket-client/src/main/java/io/happyharbor/cardmarket/client/CardmarketClient.java:106-111 | `put(k, v)` maps `k` to `v` and leaves every other entry alone. The key list stays ascending and lists exactly the keys. |
| `OAuthSignature.OAuthNamesDistinct` | cardmarket-client/src/main/java/io/happyharbor/cardmarket/client/CardmarketClient.java:106-136 | The eight parameter names put by the signer are pairwise different. |
| `OAuthSignature.SignedParamsContents` | cardmarket-client/src/main/java/io/happyharbor/cardmarket/client/CardmarketClient.java:103-111 | The signed map has the query's keys plus the six OAuth names. The OAuth names carry the client's values (timestamp as decimal milliseconds) whatever the query says. Every other query entry is kept. |
| `OAuthSignature.EncodeAvoidsSeparators` | cardmarket-client/src/main/java/io/happyharbor/cardmarket/client/CardmarketClient.java:121 | An encoded key or value never contains `&` or `=`, and every unit of it is ASCII (below 0x80, so no surrogate). |
| `OAuthSignature.EncodedPairsShape` | cardmarket-client/src/main/java/io/happyharbor/cardmarket/client/CardmarketClient.java:121 | Each encoded `key=value` pair is non-empty and contains no `&`. |
| `OAuthSignature.EncodedPairInjective` | cardmarket-client/src/main/java/io/happyharbor/cardmarket/client/CardmarketClient.java:121 | An encoded pair determines its key and its value. |
| `OAuthSignature.ParamStringInjective` | cardmarket-client/src/main/java/io/happyharbor/cardmarket/client/CardmarketClient.java:119-122 | The normalized parameter string of a map (in `TreeMap` order) determines the whole map. |
| `OAuthSignature.ParamStringIsWellFormed` | cardmarket-client/src/main/java/io/happyharbor/cardmarket/client/CardmarketClient.java:119-123 | The joined parameter string is well-formed text, so its own encoding is injective. |
| `OAuthSignature.BaseStringInjective` | cardmarket-client/src/main/java/io/happyharbor/cardmarket/client/CardmarketClient.java:113-123 | If the verbs have no `&`, equal base strings come from equal verbs, URLs and signed maps. No key or value can forge a separator. |
| `OAuthSignature.SigningKeyInjective` | cardmarket-client/src/main/java/io/happyharbor/cardmarket/client/CardmarketClient.java:127-129 | The signing key determines both secrets. |
| `OAuthSignature.RealmAndSignatureComeLate` | cardmarket-client/src/main/java/io/happyharbor/cardmarket/client/CardmarketClient.java:113-136 | `realm` and `oauth_signature` are signed only if the query itself has such a key. They always reach the header map, carrying the URL and the signature. |
| `OAuthSignature.HeaderParamsContents` | cardmarket-client/src/main/java/io/happyharbor/cardmarket/client/CardmarketClient.java:103-136 | The header map has the query keys, the six OAuth names, `realm` and `oauth_signature`, and nothing else. The OAuth names carry the client's values, `realm` the URL, `oauth_signature` the signature, and every other query entry keeps its value. |
| `OAuthSignature.HeaderKeysIgnoreNonceAndTime` | cardmarket-client/src/main/java/io/happyharbor/cardmarket/client/CardmarketClient.java:108-109 | The nonce and the timestamp change header values only, never the set of header keys. |
| `OAuthSignature.HeaderListsEveryEntry` | cardmarket-client/src/main/java/io/happyharbor/cardmarket/client/CardmarketClient.java:138-141 | The header renders each entry of its map as one `key="value"` pair and nothing else, in ascending key order. |
| `OAuthSignature.HeaderShowsEveryValue` | cardmarket-client/src/main/java/io/happyharbor/cardmarket/client/CardmarketClient.java:138-141 | Every unit of every value in the header map occurs, unescaped, in the header value. |
| `OAuthSignature.RequestUrlShape` | cardmarket-client/src/main/java/io/happyharbor/cardmarket/client/CardmarketClient.java:143-144 | The URL is `host + endpoint` if and only if the query is empty. Otherwise it is followed by `?` and the query's `k=v` pairs, unencoded, in the map's order. |
| `OAuthSignature.UnencodedQueryIsAmbiguous` | cardmarket-client/src/main/java/io/happyharbor/cardmarket/client/CardmarketClient.java:143 | The query string is not encoded: `{a: "b&c=d"}` and `{a: b, c: d}` give the same query string. |
| `CardmarketClient.GenerateHeader` | cardmarket-client/src/main/java/io/happyharbor/cardmarket/client/CardmarketClient.java:101-147 | The imperative signer (a `TreeMap`, eight `put`s, a string buffer) returns exactly the URL and header value of the specification `Signed`. |
| `CardmarketClient.SignedHeaderRendersMap` | cardmarket-client/src/main/java/io/happyharbor/cardmarket/client/CardmarketClient.java:138-141 | The generated header value is the `", "`-joined `key="value"` list of the header map, one pair per entry and nothing else, keys ascending. |
| `CardmarketClient.SignedHeaderContents` | cardmarket-client/src/main/java/io/happyharbor/cardmarket/client/CardmarketClient.java:103-136 | End to end, the header map holds the six OAuth values, `realm` = `host + endpoint`, `oauth_signature` = the MAC of the base string, and every query entry not named like one of these eight. |
| `CardmarketClient.SameEntriesSameHeader` | cardmarket-client/src/main/java/io/happyharbor/cardmarket/client/CardmarketClient.java:103-141 | The signed map and the header value depend on the query's entries, not on its iteration order. |
| `CardmarketClient.EmptyQuerySignsBareUrl` | cardmarket-client/src/main/java/io/happyharbor/cardmarket/client/CardmarketClient.java:143-144 | With an empty query the URL is `host + endpoint` and the header map holds exactly the eight client parameters. |
| `CardmarketClient.SignatureInputDeterminesRequest` | cardmarket-client/src/main/java/io/happyharbor/cardmarket/client/CardmarketClient.java:113-134 | If two signings have equal MAC inputs (key and message), they agree on both secrets, the verb, the URL, every signed parameter, the nonce and the timestamp. |
| `CardmarketClient.GenerateGetRequest` | cardmarket-client/src/main/java/io/happyharbor/cardmarket/client/CardmarketClient.java:73-83 | No request is built (the builder throws) if and only if `OAuth <header value>` holds a unit above U+00FF or a control character other than tab. Otherwise the GET goes to the signed URL with a 60-second timeout, no body, and the one header `Authorization: OAuth <header value>`. |
| `CardmarketClient.GeneratePutRequest` | cardmarket-client/src/main/java/io/happyharbor/cardmarket/client/CardmarketClient.java:85-99 | No request is built if and only if serialization fails or the builder refuses the header value. Otherwise it is the GET request's shape with verb PUT and the serialized payload as body. |
| `CardmarketClient.QueryValueOutsideHeaderRangeIsRefused` | cardmarket-client/src/main/java/io/happyharbor/cardmarket/client/CardmarketClient.java:80-96 | A query value (not overwritten by a client parameter) holding a unit above U+00FF or a control character makes the header value one the builder refuses, so both request builders throw. |
| `CardmarketClient.RequestsSignTheirVerb` | cardmarket-client/src/main/java/io/happyharbor/cardmarket/client/CardmarketClient.java:75-89 | GET and PUT of the same URL and parameters sign different base strings. |
| `CardmarketClient.HandleResponse` | cardmarket-client/src/main/java/io/happyharbor/cardmarket/client/CardmarketClient.java:149-158 | Outside `[200, 300)` the result is `null`. On a 2xx status it fails if and only if the body cannot be decoded, and is otherwise the decoded body, which may itself be `null`. A non-null result only comes from a 2xx status. |

## Left out

- The network, the asynchronous `HttpClient.sendAsync`, the `CompletableFuture` plumbing and the logging of failed statuses: only the value the future completes with is modelled.
- The public `sendGetRequest` / `sendPutRequest` overloads: they only pass their arguments (or an empty map) to the builders and `sendRequest`.
- HMAC-SHA1 and Base64: the digest is an uninterpreted function parameter `mac(key, message)`. `Mac.getInstance` failing is not modelled.
- `new Random().nextDouble()` and `System.currentTimeMillis()`: these are inputs. The nonce is any string, and the clock is a non-negative millisecond count (the `long` range is not bounded).
- XML serialization of the payload (`XmlMapper`): it is an input, either the serialized text or a failure.
- `JsonBodyHandler` is not part of this model. Its supplier is an input that yields a value or throws.
- The Spring configuration classes behind host, credentials and OAuth settings: they are plain values here.
- `java.net.http` is not part of this model: the rule the request builder applies to a header value (no unit above U+00FF, no control character but tab) is stated as `ValidHeaderValue`, and its check of the header name is not modelled (`Authorization` is a valid name).
- `URI.create` rejecting a malformed URL (for instance the unencoded query with a space) is not modelled. The URI is the generated string.
- Java `null` keys or values in the query map are not modelled: every key and value is a string.
- The `Expansion` data transfer object is not part of the signer.
- `UrlEncoder.Encode` encodes character by character. The JDK encodes runs of characters; for UTF-8 this writes the same bytes.
