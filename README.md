# RestManager in Dafny

A model of the core of a small Swift HTTP client, `RestManager`
(`RestManager/RestManager.swift`). The client keeps three string-to-string
stores (`RestEntity`): request headers, URL query parameters and body fields,
plus an optional raw body. `makeRequest` builds a request from them and hands a
`Results` value to its completion handler:

- `addURLQueryParameters` percent-encodes every query parameter value with
  Foundation's `.urlQueryAllowed` set and puts one query item per parameter
  into the URL; without parameters, or when the URL cannot be parsed or
  rebuilt, the URL is returned unchanged;
- `getHttpBody` chooses the body from the `Content-Type` header: none without
  the header, JSON of the body fields for `application/json`, an `&`-joined
  `key=value` string for `application/x-www-form-urlencoded`, the raw body
  otherwise;
- `prepareRequest` sets the method (the lower-case raw value of `HttpMethod`),
  every header and the body;
- `Response.init` records the status code (0 without an HTTP response) and
  every response header; `Results(withError:)` carries only an error.

Modules: `Wrappers` (Optional), `Bytes` (bytes, UTF-8), `PercentEncoding`
(section 2.1 of RFC 3986 and the `.urlQueryAllowed` set), `RestTypes` (the
types of the `RestManager` extension), `Client` (the `RestManager` class and
the block that `makeRequest` dispatches).

Behaviour of the code that the model keeps as it is:

- the method token is the enum's raw value, the case name in lower case
  (`"get"`, `"post"`), not the upper-case token of HTTP;
- `.urlQueryAllowed` keeps `&`, `=`, `?` and `/` as they are; only the
  characters outside the query grammar of section 3.4 of RFC 3986 (the control
  characters 0x00 to 0x1F and 0x7F, space, `"`, `#`, `%`, `<`, `>`, `[`, `\`,
  `]`, `^`, `` ` ``, `{`, `|`, `}` and every non-ASCII byte) are escaped;
- the form body renders each value with `String(describing:)` of an optional
  string, so a field reads `name=Optional("John")`, and an `&` inside a value
  is not escaped: the form body cannot in general be parsed back into the
  fields (`Client.FormBodyDescribesOptional`, `Client.FormBodyAmpersandInValue`);
- the request-construction error is reached only when the manager itself is
  gone by the time the background block runs: `addURLQueryParameters` always
  yields a URL, so `prepareRequest` always yields a request for a live manager.

Parameters standing for what the model does not interpret: `Library.parse`
(`URLComponents(url:resolvingAgainstBaseURL:)`), `Library.rebuild`
(`URLComponents.url`), `Library.json` (`JSONSerialization` with pretty printing
and sorted keys), the `Transfer` value (what the data task delivers), the
`owner` of `MakeRequestTask` (the weakly captured manager) and the `order` in
which a dictionary is iterated.

## Model

| member | source | states |
|---|---|---|
| `Bytes.Utf8` | RestManager/RestManager.swift:101 | The UTF-8 encoding of a string: between one and four bytes per character (that it is injective is `Bytes.Utf8Injective`). |
| `Bytes.CodePointOfUtf8Char` | RestManager/RestManager.swift:77 | Reading a character's one to four UTF-8 bytes back gives its code point. |
| `Bytes.Utf8Injective` | RestManager/RestManager.swift:77 | The UTF-8 bytes of a string determine the string. |
| `Bytes.Utf8HasAsciiByte` | RestManager/RestManager.swift:77 | An ASCII byte occurs in the UTF-8 encoding exactly when its character occurs in the string. |
| `PercentEncoding.PercentEncode` | RestManager/RestManager.swift:77 | Percent-encoding at most triples the length and yields only allowed bytes, `%` and upper-case hex digits. |
| `PercentEncoding.DecodeEncode` | RestManager/RestManager.swift:77 | Percent-decoding undoes percent-encoding whenever `%` is not in the allowed set. |
| `PercentEncoding.EncodeAllowedIsIdentity` | RestManager/RestManager.swift:77 | Input made only of allowed bytes is not changed. |
| `PercentEncoding.EncodeKeepsOccurrence` | RestManager/RestManager.swift:77 | An allowed byte other than `%` and hex digits occurs in the encoding exactly when it occurs in the input. |
| `PercentEncoding.UrlQueryAllowedFacts` | RestManager/RestManager.swift:77 | `.urlQueryAllowed` is ASCII, excludes `%`, space, `"` and `\`, and includes `&`, `=`, `?` and `/`. |
| `PercentEncoding.EncodeQueryValue` | RestManager/RestManager.swift:77 | `addingPercentEncoding(withAllowedCharacters: .urlQueryAllowed)` is present, ASCII, free of `"` and `\`, and decodes back to the value's UTF-8 bytes. |
| `PercentEncoding.EncodeQueryValueRoundTrip` | RestManager/RestManager.swift:77 | An encoded value decodes to the UTF-8 bytes of exactly one string, the value itself. |
| `PercentEncoding.EncodeQueryValueKeepsAllowed` | RestManager/RestManager.swift:77 | A value of allowed ASCII characters encodes to itself. |
| `PercentEncoding.EncodedHasAmpersand` | RestManager/RestManager.swift:100 | The encoded value contains `&` exactly when the value does. |
| `PercentEncoding.EncodeQueryValueKeepsDelimiters` | RestManager/RestManager.swift:77 | `&=?/` is left unescaped. |
| `PercentEncoding.EncodeQueryValueEscapesSpace` | RestManager/RestManager.swift:77 | `a b` encodes to `a%20b`. |
| `RestTypes.HttpMethod.RawValue` | RestManager/RestManager.swift:127-133 | Each method's raw value is a lower-case word that `init?(rawValue:)` maps back to the method. |
| `RestTypes.FromRawValueInverse` | RestManager/RestManager.swift:127-133 | `init?(rawValue:)` accepts exactly the five raw values, each for its own method. |
| `RestTypes.RawValueInjective` | RestManager/RestManager.swift:127-133 | Distinct methods have distinct raw values. |
| `RestTypes.RestEntity.constructor` | RestManager/RestManager.swift:137-138 | A new store is empty. |
| `RestTypes.RestEntity.Add` | RestManager/RestManager.swift:140-142 | After `add`, the key maps to the value, every other key is unchanged and the count grows by one exactly for a new key. |
| `RestTypes.RestEntity.Value` | RestManager/RestManager.swift:144-146 | The lookup is present exactly for stored keys and then gives the stored value. |
| `RestTypes.RestEntity.AllValues` | RestManager/RestManager.swift:148-150 | The snapshot has the store's keys and values. |
| `RestTypes.RestEntity.TotalItems` | RestManager/RestManager.swift:152-154 | The count is the number of distinct keys. |
| `RestTypes.LastAddWins` | RestManager/RestManager.swift:140-146 | After a series of `add` calls, looking a key up gives the last value added under it, or the earlier value if it was never added. |
| `RestTypes.AfterAddsKeys` | RestManager/RestManager.swift:140-142 | After a series of `add` calls the keys are the earlier keys plus the added ones. |
| `RestTypes.CountIsDistinctKeys` | RestManager/RestManager.swift:140-154 | Starting empty, `totalItems()` equals the number of distinct keys added. |
| `RestTypes.StatusCodeOf` | RestManager/RestManager.swift:161-167 | The status is the HTTP response's code, and 0 without an HTTP response. |
| `RestTypes.HeaderFieldsOf` | RestManager/RestManager.swift:169-173 | The headers are the HTTP response's fields, and none without an HTTP response. |
| `RestTypes.Response.constructor` | RestManager/RestManager.swift:164-174 | `Response(fromURLResponse:)` keeps the response, takes its status (0 by default) and copies every header into a new store. |
| `RestTypes.WithError` | RestManager/RestManager.swift:190-192 | `Results(withError:)` carries the error, with data and response nil. |
| `Client.NewRequest` | RestManager/RestManager.swift:111 | A new request has the URL, no headers and no body. |
| `Client.SetValue` | RestManager/RestManager.swift:115 | Setting a header field changes that field and nothing else. |
| `Client.EnumerationLength` | RestManager/RestManager.swift:76 | An iteration order of a dictionary has as many entries as the dictionary has keys. |
| `Client.Enumerate` | RestManager/RestManager.swift:100 | Iterating a dictionary visits each key exactly once. |
| `Client.QueryItemsStep` | RestManager/RestManager.swift:76-80 | Appending the item of one more parameter keeps one encoded item per parameter seen so far. |
| `Client.QueryItemsMeaning` | RestManager/RestManager.swift:75-82 | There are as many query items as parameters, one per key, each value the encoding of that key's value, decoding to that value's UTF-8 bytes and so to that value and no other. |
| `Client.ComposedUrlChanged` | RestManager/RestManager.swift:72-89 | The URL changes only when there are parameters, it parses, and rebuilding it with the query items yields the new URL. |
| `Client.HttpBody` | RestManager/RestManager.swift:93-105 | No body without `Content-Type`; JSON of the fields when it contains `application/json` (checked first); the UTF-8 form string when it contains only the form type; otherwise exactly the raw body. |
| `Client.Contains` | RestManager/RestManager.swift:97-99 | `String.contains`: a prefix is contained, and only text no longer than the string can be. |
| `Client.ContainsMeans` | RestManager/RestManager.swift:97-99 | `Contains` holds exactly when the text is a prefix of some suffix of the string. |
| `Client.Describe` | RestManager/RestManager.swift:100 | `String(describing:)` of an optional: `nil` exactly for none, otherwise the string between `Optional("` and `")`. |
| `Client.DescribeInjective` | RestManager/RestManager.swift:100 | Different optionals are described differently. |
| `Client.Join` | RestManager/RestManager.swift:100 | `joined(separator:)`: every segment occurs in the result, whose length is the segments' total plus one separator between each two. |
| `Client.FormBody` | RestManager/RestManager.swift:100 | The form body of no fields is empty, and every field occurs in it as its `key=Optional("…")` segment. |
| `Client.JoinSeparatorCount` | RestManager/RestManager.swift:100 | Joining n segments free of the separator character puts n - 1 separators in. |
| `Client.FormBodySeparators` | RestManager/RestManager.swift:100 | The form body of n fields whose keys and values contain no `&` contains exactly n - 1 `&`. |
| `Client.FormBodyDescribesOptional` | RestManager/RestManager.swift:100 | The field `name: John` renders as `name=Optional("John")`. |
| `Client.FormBodyAmpersandInValue` | RestManager/RestManager.swift:100 | One field whose value is `a&b` yields a body containing an `&`. |
| `Client.RestManager.constructor` | RestManager/RestManager.swift:16-22 | A new manager has three separate empty stores and no raw body. |
| `Client.RestManager.AddUrlQueryParameters` | RestManager/RestManager.swift:72-89 | Without parameters or with an unparsable URL the URL is returned; otherwise the rebuilt URL with one encoded query item per parameter, or the URL if rebuilding fails. |
| `Client.RestManager.PrepareRequest` | RestManager/RestManager.swift:109-120 | No request exactly when there is no URL; otherwise the URL, the lower-case method token, exactly the manager's headers and the given body. |
| `Client.MakeRequestTask` | RestManager/RestManager.swift:31-50 | With the manager gone the result carries only the request-construction error; otherwise data and error are the transport's and the response is normalised from the transport's response, and the request sent has the composed URL, the method token, the headers and the selected body. |

## Left out

- `getData(fromURL:)` (RestManager/RestManager.swift:55-66): a plain download whose only logic is passing on the data or nil; it is network I/O.
- The background dispatch, the `URLSession` data task and the asynchronous completion (RestManager/RestManager.swift:31, 42-49): the data task's outcome is a parameter (`Transfer`), and the completion's argument is the method's result.
- The `weak self` capture: modelled only as the manager being present or absent when the block runs, not as object lifetime.
- The bytes `JSONSerialization` produces, including its determinism and key order: the JSON serialiser is an opaque function.
- How `URLComponents` parses a URL, renders query items (including what it does to already-encoded values) and rebuilds the URL: opaque partial functions.
- `Client.SetValue`, `Client.RestManager.PrepareRequest`: `URLRequest` header fields are case-insensitive in Foundation; the model stores each `setValue` under the exact field name, so two store keys differing only in case stay two headers.
- `Client.Contains`: `String.contains` is modelled as a search for a contiguous run of characters; Foundation's Unicode canonical equivalence is not.
- `Client.Describe`: `String(describing:)` escapes quotes and backslashes inside `Optional("…")`; the model does not escape, which is exact for encoded values since they contain neither (`PercentEncoding.EncodeQueryValue`).
- Response header names and values are taken as their string descriptions; the `AnyHashable`/`Any` types of `allHeaderFields` are not modelled.
- `RestTypes.RestEntity`: keys are compared character by character (Unicode scalar by scalar); Swift's `String` equality and `Dictionary` hashing use canonical equivalence, so keys such as `"\u{E9}"` and `"e\u{301}"` are one key in Swift and two in the model. The same holds for every header, parameter and field map.
- `Client.RestManager`, `RestTypes.Response`: the three stores and the response headers are objects where Swift has values. The constructors create separate stores (`Client.RestManager.constructor` ensures it), but a Dafny caller that assigns one store to another field aliases them, which Swift's copy semantics rule out.
- The `localizedDescription` text of the custom error and `ViewController.swift` (the demo screen, its JSON models and file saving) are not part of this model.
