/**
 * The RestManager class: composing the URL query, choosing the body from the
 * Content-Type header, preparing the request and packaging the outcome for
 * the completion handler.
 *
 * Foundation's URL parsing and rebuilding and its JSON serialiser are not
 * modelled; they are the functions of a `Library` value.
 */
module Client {
  import opened Wrappers
  import opened Bytes
  import opened PercentEncoding
  import opened RestTypes

  datatype Url = Url(text: string)

  /** `URLQueryItem`. */
  datatype QueryItem = QueryItem(name: string, value: Option<string>)

  /** `URLComponents`, with the parts the model distinguishes. */
  datatype UrlComponents = UrlComponents(
    scheme: Option<string>,
    host: Option<string>,
    path: string,
    queryItems: Option<seq<QueryItem>>,
    fragment: Option<string>)

  /** The Foundation calls the core depends on, as opaque partial functions. */
  datatype Library = Library(
    /** `URLComponents(url:resolvingAgainstBaseURL: false)` */
    parse: Url -> Option<UrlComponents>,
    /** `URLComponents.url` */
    rebuild: UrlComponents -> Option<Url>,
    /** `try? JSONSerialization.data(withJSONObject:options: [.prettyPrinted, .sortedKeys])` */
    json: map<string, string> -> Option<Data>)

  /** `URLRequest`, with the fields the core sets. */
  datatype Request = Request(url: Url, httpMethod: string, headers: map<string, string>, httpBody: Option<Data>)

  /** `URLRequest(url:)`: method GET, no headers, no body. */
  function NewRequest(url: Url): (r: Request)
    ensures r.url == url && r.headers == map[] && r.httpBody.None?
  {
    Request(url, "GET", map[], None)
  }

  /** `setValue(_:forHTTPHeaderField:)`. */
  function SetValue(r: Request, value: string, field: string): (r': Request)
    ensures r'.headers == r.headers[field := value]
    ensures r'.url == r.url && r'.httpMethod == r.httpMethod && r'.httpBody == r.httpBody
  {
    r.(headers := r.headers[field := value])
  }

  /** The three values the data task hands to its completion handler. */
  datatype Transfer = Transfer(data: Option<Data>, response: Option<UrlResponse>, error: Option<Error>)

  // ---------------------------------------------------------------------
  // Dictionary enumeration

  /** `keys` lists every element of `s` exactly once: an iteration order of a dictionary with keys `s`. */
  ghost predicate IsEnumeration(keys: seq<string>, s: set<string>) {
    && (forall i, j :: 0 <= i < j < |keys| ==> keys[i] != keys[j])
    && (forall k :: k in keys ==> k in s)
    && (forall k :: k in s ==> k in keys)
  }

  lemma {:induction false} EnumerationLength(keys: seq<string>, s: set<string>)
    requires IsEnumeration(keys, s)
    ensures |keys| == |s|
  {
    if keys != [] {
      var rest := s - {keys[0]};
      forall k | k in keys[1..] ensures k in rest {
        var j :| 1 <= j < |keys| && keys[j] == k;
      }
      forall k | k in rest ensures k in keys[1..] {
        var j :| 0 <= j < |keys| && keys[j] == k;
        assert j != 0;
      }
      EnumerationLength(keys[1..], rest);
    }
  }

  /** Iterating a dictionary: some order of its keys, chosen by the dictionary. */
  method Enumerate(s: set<string>) returns (keys: seq<string>)
    ensures IsEnumeration(keys, s)
  {
    keys := [];
    var remaining := s;
    while remaining != {}
      invariant remaining <= s
      invariant IsEnumeration(keys, s - remaining)
      decreases |remaining|
    {
      var k :| k in remaining;
      keys := keys + [k];
      remaining := remaining - {k};
    }
  }

  // ---------------------------------------------------------------------
  // Query composition

  function Names(items: seq<QueryItem>): (names: seq<string>)
    ensures |names| == |items| && forall i :: 0 <= i < |items| ==> names[i] == items[i].name
  {
    seq(|items|, i requires 0 <= i < |items| => items[i].name)
  }

  /** `items` holds one query item per parameter, its value percent-encoded. */
  ghost predicate QueryItemsFor(items: seq<QueryItem>, params: map<string, string>) {
    && IsEnumeration(Names(items), params.Keys)
    && forall i :: 0 <= i < |items| ==> items[i].name in params && items[i].value == EncodeQueryValue(params[items[i].name])
  }

  /**
   * The query items: as many as there are parameters, one for each key, and
   * each value decodes back to the UTF-8 bytes of the parameter's value and
   * so to that value and no other.
   */
  lemma QueryItemsMeaning(items: seq<QueryItem>, params: map<string, string>)
    requires QueryItemsFor(items, params)
    ensures |items| == |params|
    ensures forall k :: k in params ==> exists i :: 0 <= i < |items| && items[i] == QueryItem(k, EncodeQueryValue(params[k]))
    ensures forall i :: 0 <= i < |items| ==>
      items[i].value.Some? && PercentDecode(Codes(items[i].value.value)) == Some(Utf8(params[items[i].name]))
    ensures forall i, t :: 0 <= i < |items| && PercentDecode(Codes(items[i].value.value)) == Some(Utf8(t)) ==>
      t == params[items[i].name]
  {
    forall i, t | 0 <= i < |items| && PercentDecode(Codes(items[i].value.value)) == Some(Utf8(t))
      ensures t == params[items[i].name]
    {
      EncodeQueryValueRoundTrip(params[items[i].name], t);
    }
    EnumerationLength(Names(items), params.Keys);
    forall k | k in params ensures exists i :: 0 <= i < |items| && items[i] == QueryItem(k, EncodeQueryValue(params[k])) {
      var i :| 0 <= i < |items| && Names(items)[i] == k;
      assert items[i] == QueryItem(k, EncodeQueryValue(params[k]));
    }
  }

  /** Appending the item for one more key keeps `QueryItemsFor` for the keys seen so far. */
  lemma QueryItemsStep(items: seq<QueryItem>, params: map<string, string>, remaining: set<string>, key: string)
    requires remaining <= params.Keys && key in remaining
    requires QueryItemsFor(items, params - remaining)
    ensures QueryItemsFor(items + [QueryItem(key, EncodeQueryValue(params[key]))], params - (remaining - {key}))
  {
    var item := QueryItem(key, EncodeQueryValue(params[key]));
    assert Names(items + [item]) == Names(items) + [key];
  }

  /** What `addURLQueryParameters(toURL:)` may return for `url`. */
  ghost predicate ComposedUrl(url: Url, params: map<string, string>, lib: Library, r: Url) {
    if |params| == 0 then r == url
    else match lib.parse(url)
      case None => r == url
      case Some(c) => exists items :: QueryItemsFor(items, params) && r == lib.rebuild(c.(queryItems := Some(items))).GetOr(url)
  }

  /**
   * The composed URL differs from the input only when there are parameters,
   * the input parses, and rebuilding it with the parameters' query items
   * succeeds with that URL.
   */
  lemma ComposedUrlChanged(url: Url, params: map<string, string>, lib: Library, r: Url)
    ensures ComposedUrl(url, params, lib, r) && r != url ==>
      && |params| > 0
      && lib.parse(url).Some?
      && exists items :: QueryItemsFor(items, params) && lib.rebuild(lib.parse(url).value.(queryItems := Some(items))) == Some(r)
  {
    if ComposedUrl(url, params, lib, r) && r != url {
      var items :| QueryItemsFor(items, params) && r == lib.rebuild(lib.parse(url).value.(queryItems := Some(items))).GetOr(url);
    }
  }

  // ---------------------------------------------------------------------
  // Body selection

  /** `String.contains(_:)`: `sub` occurs in `s` as a contiguous run. */
  predicate Contains(s: string, sub: string)
    ensures sub <= s ==> Contains(s, sub)
    ensures Contains(s, sub) ==> |sub| <= |s|
    decreases |s|
  {
    sub <= s || (|s| > 0 && Contains(s[1..], sub))
  }

  /** `Contains` holds exactly when `sub` is a prefix of some suffix of `s`. */
  lemma {:induction false} ContainsMeans(s: string, sub: string)
    ensures Contains(s, sub) <==> exists i :: 0 <= i <= |s| && sub <= s[i..]
    decreases |s|
  {
    if s != [] {
      ContainsMeans(s[1..], sub);
      if exists i :: 0 <= i <= |s| && sub <= s[i..] {
        var i :| 0 <= i <= |s| && sub <= s[i..];
        if i > 0 {
          assert s[1..][i - 1..] == s[i..];
        }
      }
      if Contains(s[1..], sub) {
        var i :| 0 <= i <= |s[1..]| && sub <= s[1..][i..];
        assert s[i + 1..] == s[1..][i..];
      }
    } else {
      assert Contains(s, sub) ==> sub <= s[0..];
    }
  }

  /** Text found in the tail is found in the whole. */
  lemma {:induction false} ContainsAppend(a: string, b: string, sub: string)
    requires Contains(b, sub)
    ensures Contains(a + b, sub)
  {
    if a == [] {
      assert a + b == b;
    } else {
      assert (a + b)[1..] == a[1..] + b;
      ContainsAppend(a[1..], b, sub);
    }
  }

  /**
   * `String(describing:)` of an optional string: `nil`, or the string
   * between `Optional("` and `")`.
   */
  function Describe(o: Option<string>): (r: string)
    ensures o.None? <==> r == "nil"
    ensures o.Some? ==> |r| == |o.value| + 12 && r[..10] == "Optional(\"" && r[10..|r| - 2] == o.value && r[|r| - 2..] == "\")"
  {
    match o
    case None => "nil"
    case Some(s) => "Optional(\"" + s + "\")"
  }

  /** Describing loses nothing: different optionals are described differently. */
  lemma DescribeInjective(o: Option<string>, p: Option<string>)
    ensures Describe(o) == Describe(p) ==> o == p
  {
    if Describe(o) == Describe(p) && o.Some? && p.Some? {
      assert o.value == Describe(o)[10..|Describe(o)| - 2];
    }
  }

  function TotalLength(segments: seq<string>): nat {
    if segments == [] then 0 else |segments[0]| + TotalLength(segments[1..])
  }

  /**
   * `joined(separator:)`: every segment occurs in the result, whose length
   * is that of the segments plus one separator between each two.
   */
  function Join(segments: seq<string>, sep: string): (r: string)
    ensures |r| == TotalLength(segments) + (if segments == [] then 0 else (|segments| - 1) * |sep|)
    ensures forall i :: 0 <= i < |segments| ==> Contains(r, segments[i])
  {
    if segments == [] then ""
    else if |segments| == 1 then segments[0]
    else
      var rest := Join(segments[1..], sep);
      forall i | 1 <= i < |segments| ensures Contains(segments[0] + sep + rest, segments[i]) {
        assert segments[i] == segments[1..][i - 1];
        ContainsAppend(segments[0] + sep, rest, segments[i]);
      }
      segments[0] + sep + rest
  }

  /** One form field, as written: the key, "=", and the described optional encoded value. */
  function FormSegment(key: string, value: string): string {
    key + "=" + Describe(EncodeQueryValue(value))
  }

  /** The form-encoded body string, with the fields taken in the dictionary's order `order`. */
  function FormBody(fields: map<string, string>, order: seq<string>): (body: string)
    requires IsEnumeration(order, fields.Keys)
    ensures |fields| == 0 ==> body == ""
    ensures forall k :: k in fields ==> Contains(body, FormSegment(k, fields[k]))
  {
    EnumerationLength(order, fields.Keys);
    var segments := seq(|order|, i requires 0 <= i < |order| => FormSegment(order[i], fields[order[i]]));
    forall k | k in fields ensures Contains(Join(segments, "&"), FormSegment(k, fields[k])) {
      var i :| 0 <= i < |order| && order[i] == k;
      assert segments[i] == FormSegment(k, fields[k]);
    }

    Join(segments, "&")
  }

  const CONTENT_TYPE := "Content-Type"
  const JSON_TYPE := "application/json"
  const FORM_TYPE := "application/x-www-form-urlencoded"

  /**
   * `getHttpBody()` over the manager's headers, body fields and raw body,
   * with `order` the iteration order of the body fields.
   */
  function HttpBody(headers: map<string, string>, fields: map<string, string>, raw: Option<Data>,
                    json: map<string, string> -> Option<Data>, order: seq<string>): (body: Option<Data>)
    requires IsEnumeration(order, fields.Keys)
    ensures CONTENT_TYPE !in headers ==> body.None?
    ensures CONTENT_TYPE in headers && Contains(headers[CONTENT_TYPE], JSON_TYPE) ==> body == json(fields)
    ensures CONTENT_TYPE in headers && !Contains(headers[CONTENT_TYPE], JSON_TYPE) && Contains(headers[CONTENT_TYPE], FORM_TYPE)
      ==> body == Some(Utf8(FormBody(fields, order)))
    ensures CONTENT_TYPE in headers && !Contains(headers[CONTENT_TYPE], JSON_TYPE) && !Contains(headers[CONTENT_TYPE], FORM_TYPE)
      ==> body == raw
  {
    match Lookup(headers, CONTENT_TYPE)
    case None => None
    case Some(contentType) =>
      if Contains(contentType, JSON_TYPE) then json(fields)
      else if Contains(contentType, FORM_TYPE) then Some(Utf8(FormBody(fields, order)))
      else raw
  }

  /** `body` is what `getHttpBody()` returns for some iteration order of the fields. */
  ghost predicate IsHttpBody(body: Option<Data>, headers: map<string, string>, fields: map<string, string>,
                             raw: Option<Data>, json: map<string, string> -> Option<Data>) {
    exists order :: IsEnumeration(order, fields.Keys) && body == HttpBody(headers, fields, raw, json, order)
  }

  function Occurrences(s: string, c: char): nat {
    if s == [] then 0 else (if s[0] == c then 1 else 0) + Occurrences(s[1..], c)
  }

  lemma {:induction false} OccurrencesConcat(a: string, b: string, c: char)
    ensures Occurrences(a + b, c) == Occurrences(a, c) + Occurrences(b, c)
  {
    if a == [] {
      assert a + b == b;
    } else {
      assert (a + b)[1..] == a[1..] + b;
      OccurrencesConcat(a[1..], b, c);
    }
  }

  lemma {:induction false} OccurrencesAbsent(s: string, c: char)
    ensures Occurrences(s, c) == 0 <==> c !in s
  {
    if s != [] {
      OccurrencesAbsent(s[1..], c);
      assert s == [s[0]] + s[1..];
    }
  }

  /** Joining n segments free of `c` with the separator `c` puts exactly n - 1 copies of `c` in. */
  lemma {:induction false} JoinSeparatorCount(segments: seq<string>, c: char)
    requires |segments| > 0
    requires forall i :: 0 <= i < |segments| ==> c !in segments[i]
    ensures Occurrences(Join(segments, [c]), c) == |segments| - 1
  {
    OccurrencesAbsent(segments[0], c);
    if |segments| > 1 {
      JoinSeparatorCount(segments[1..], c);
      OccurrencesConcat(segments[0] + [c], Join(segments[1..], [c]), c);
      OccurrencesConcat(segments[0], [c], c);
    }
  }

  /**
   * The form body of n fields is n segments joined by "&": when no key and no
   * value contains "&", it holds exactly n - 1 of them. ("&" is in the
   * allowed set, so a value's own "&" reaches the body unescaped.)
   */
  lemma FormBodySeparators(fields: map<string, string>, order: seq<string>)
    requires IsEnumeration(order, fields.Keys)
    requires |fields| > 0
    requires forall k :: k in fields ==> '&' !in k && '&' !in fields[k]
    ensures Occurrences(FormBody(fields, order), '&') == |fields| - 1
  {
    EnumerationLength(order, fields.Keys);
    var segments := seq(|order|, i requires 0 <= i < |order| => FormSegment(order[i], fields[order[i]]));
    forall i | 0 <= i < |segments| ensures '&' !in segments[i] {
      var k := order[i];
      EncodedHasAmpersand(fields[k]);
      var e := EncodeQueryValue(fields[k]).value;
      assert segments[i] == k + "=" + ("Optional(\"" + e + "\")");
    }
    JoinSeparatorCount(segments, '&');
  }

  /** The body of a single field is that field's segment, with no separator. */
  lemma SingleFieldBody(key: string, value: string)
    ensures FormBody(map[key := value], [key]) == FormSegment(key, value)
  {
    assert FormBody(map[key := value], [key]) == Join([FormSegment(key, value)], "&");
  }

  /** "John" is made of allowed characters, so its encoding is itself. */
  lemma EncodeJohn()
    ensures EncodeQueryValue("John") == Some("John")
  {
    var s := "John";
    assert s[0] == 'J' && s[1] == 'o' && s[2] == 'h' && s[3] == 'n';
    assert IsQueryAllowed(74) && IsQueryAllowed(111) && IsQueryAllowed(104) && IsQueryAllowed(110);
    EncodeQueryValueKeepsAllowed(s);
  }

  lemma JohnSegment()
    ensures FormSegment("name", "John") == "name=Optional(\"John\")"
  {
    EncodeJohn();
  }

  /** A single field renders as `key=Optional("…")`, not as `key=…`. */
  lemma FormBodyDescribesOptional()
    ensures FormBody(map["name" := "John"], ["name"]) == "name=Optional(\"John\")"
  {
    SingleFieldBody("name", "John");
    JohnSegment();
  }

  /** "a&b" is made of allowed characters, so its encoding is itself. */
  lemma EncodeAmpersandValue()
    ensures EncodeQueryValue("a&b") == Some("a&b")
  {
    var s := "a&b";
    assert s[0] == 'a' && s[1] == '&' && s[2] == 'b';
    assert IsQueryAllowed(97) && IsQueryAllowed(38) && IsQueryAllowed(98);
    EncodeQueryValueKeepsAllowed(s);
  }

  lemma AmpersandSegment()
    ensures FormSegment("q", "a&b") == "q=Optional(\"a&b\")"
  {
    EncodeAmpersandValue();
  }

  /** A string with exactly one `c` in it. */
  lemma {:induction false} OccurrencesOnce(before: string, after: string, c: char)
    requires c !in before && c !in after
    ensures Occurrences(before + [c] + after, c) == 1
  {
    OccurrencesConcat(before + [c], after, c);
    OccurrencesConcat(before, [c], c);
    OccurrencesAbsent(before, c);
    OccurrencesAbsent(after, c);
    assert [c][1..] == [];
  }

  /** An "&" inside a value is not escaped, so one field can yield a body with an "&" in it. */
  lemma FormBodyAmpersandInValue()
    ensures Occurrences(FormBody(map["q" := "a&b"], ["q"]), '&') == 1
  {
    SingleFieldBody("q", "a&b");
    AmpersandSegment();
    var before, after := "q=Optional(\"a", "b\")";
    assert "q=Optional(\"a&b\")" == before + ['&'] + after;
    OccurrencesOnce(before, after, '&');
  }

  // ---------------------------------------------------------------------
  // The manager

  class RestManager {
    var requestHttpHeaders: RestEntity
    var urlQueryParameters: RestEntity
    var httpBodyParameters: RestEntity
    var httpBody: Option<Data>

    /** Three separate empty stores (in Swift each is a value of its own) and no raw body. */
    constructor ()
      ensures requestHttpHeaders != urlQueryParameters && requestHttpHeaders != httpBodyParameters
      ensures urlQueryParameters != httpBodyParameters
      ensures fresh(requestHttpHeaders) && fresh(urlQueryParameters) && fresh(httpBodyParameters)
      ensures requestHttpHeaders.values == map[] && urlQueryParameters.values == map[]
      ensures httpBodyParameters.values == map[] && httpBody.None?
    {
      requestHttpHeaders := new RestEntity();
      urlQueryParameters := new RestEntity();
      httpBodyParameters := new RestEntity();
      httpBody := None;
    }

    /**
     * `addURLQueryParameters(toURL:)`: without parameters, or when the URL
     * cannot be parsed or rebuilt, the URL itself; otherwise the rebuilt URL
     * whose query items are the parameters, values percent-encoded.
     */
    method AddUrlQueryParameters(url: Url, lib: Library) returns (r: Url)
      ensures urlQueryParameters.TotalItems() == 0 ==> r == url
      ensures lib.parse(url).None? ==> r == url
      ensures ComposedUrl(url, urlQueryParameters.values, lib, r)
    {
      var params := urlQueryParameters.AllValues();
      if urlQueryParameters.TotalItems() > 0 {
        var parsed := lib.parse(url);
        if parsed.None? {
          return url;
        }
        var components := parsed.value;
        var queryItems: seq<QueryItem> := [];
        var remaining := params.Keys;
        while remaining != {}
          invariant remaining <= params.Keys
          invariant QueryItemsFor(queryItems, params - remaining)
          decreases |remaining|
        {
          var key :| key in remaining;
          QueryItemsStep(queryItems, params, remaining, key);
          queryItems := queryItems + [QueryItem(key, EncodeQueryValue(params[key]))];
          remaining := remaining - {key};
        }
        assert params - {} == params;
        components := components.(queryItems := Some(queryItems));
        var updated := lib.rebuild(components);
        r := updated.GetOr(url);
        assert QueryItemsFor(queryItems, params) && r == lib.rebuild(parsed.value.(queryItems := Some(queryItems))).GetOr(url);
        return;
      }
      return url;
    }

    /**
     * `prepareRequest(withURL:httpBody:httpMethod:)`: no request without a
     * URL; otherwise a request for the URL whose method is the raw value of
     * `httpMethod`, whose headers are exactly the manager's request headers
     * and whose body is `httpBody`.
     */
    method PrepareRequest(url: Option<Url>, httpBody: Option<Data>, httpMethod: HttpMethod) returns (r: Option<Request>)
      ensures r.None? <==> url.None?
      ensures r.Some? ==> r.value.url == url.value && r.value.httpMethod == httpMethod.RawValue()
      ensures r.Some? ==> r.value.headers == requestHttpHeaders.values && r.value.httpBody == httpBody
    {
      if url.None? {
        return None;
      }
      var request := NewRequest(url.value);
      request := request.(httpMethod := httpMethod.RawValue());
      var headers := requestHttpHeaders.AllValues();
      var remaining := headers.Keys;
      while remaining != {}
        invariant remaining <= headers.Keys
        invariant request.url == url.value && request.httpMethod == httpMethod.RawValue()
        invariant request.headers == headers - remaining
        decreases |remaining|
      {
        var header :| header in remaining;
        request := SetValue(request, headers[header], header);
        remaining := remaining - {header};
      }
      assert headers - {} == headers;
      request := request.(httpBody := httpBody);
      return Some(request);
    }
  }

  /**
   * The block `makeRequest(toURL:withHttpMethod:completion:)` dispatches,
   * returning what it passes to `completion`. `owner` is the weakly captured
   * manager as the block finds it (null once the manager is gone) and
   * `transfer` what the data task delivers. `sent` is the request handed to
   * the data task, if one was built.
   */
  method MakeRequestTask(owner: RestManager?, url: Url, httpMethod: HttpMethod, lib: Library, transfer: Transfer)
    returns (result: Results, ghost sent: Option<Request>)
    ensures sent.None? <==> owner == null
    ensures owner == null ==> result == WithError(FailedToCreateRequest)
    ensures owner != null ==> result.data == transfer.data && result.error == transfer.error
    ensures owner != null ==> result.response.Some? && fresh(result.response.value)
    ensures owner != null ==> result.response.value.response == transfer.response
    ensures owner != null ==> result.response.value.httpStatusCode == StatusCodeOf(transfer.response)
    ensures owner != null ==> result.response.value.headers.values == HeaderFieldsOf(transfer.response)
    ensures sent.Some? ==> (
      && owner != null
      && ComposedUrl(url, owner.urlQueryParameters.values, lib, sent.value.url)
      && sent.value.httpMethod == httpMethod.RawValue()
      && sent.value.headers == owner.requestHttpHeaders.values
      && IsHttpBody(sent.value.httpBody, owner.requestHttpHeaders.values, owner.httpBodyParameters.values, owner.httpBody, lib.json))
  {
    if owner == null {
      // self?.prepareRequest(...) is nil: the guard's else branch.
      result := WithError(FailedToCreateRequest);
      sent := None;
      return;
    }
    var targetUrl := owner.AddUrlQueryParameters(url, lib);
    var order := Enumerate(owner.httpBodyParameters.values.Keys);
    var body := HttpBody(owner.requestHttpHeaders.AllValues(), owner.httpBodyParameters.AllValues(), owner.httpBody, lib.json, order);
    var request := owner.PrepareRequest(Some(targetUrl), body, httpMethod);
    sent := request;
    var response := new Response(transfer.response);
    result := Results(transfer.data, Some(response), transfer.error);
  }
}
