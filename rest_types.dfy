/**
 * The types that RestManager declares in its extension: the HTTP methods,
 * the string-to-string store used for headers, query parameters and body
 * fields, the normalised response, the result handed to the completion
 * handler and the custom error.
 */
module RestTypes {
  import opened Wrappers
  import opened Bytes

  /** `enum HttpMethod: String`: the raw value of each case is its name, in lower case. */
  datatype HttpMethod = Get | Post | Put | Patch | Delete {

    function RawValue(): (raw: string)
      ensures FromRawValue(raw) == Some(this)
      ensures forall i :: 0 <= i < |raw| ==> 'a' <= raw[i] <= 'z'
    {
      match this
      case Get => "get"
      case Post => "post"
      case Put => "put"
      case Patch => "patch"
      case Delete => "delete"
    }

    /** The synthesised `init?(rawValue:)`. */
    static function FromRawValue(raw: string): (m: Option<HttpMethod>)
    {
      if raw == "get" then Some(Get)
      else if raw == "post" then Some(Post)
      else if raw == "put" then Some(Put)
      else if raw == "patch" then Some(Patch)
      else if raw == "delete" then Some(Delete)
      else None
    }
  }

  /** Only the five raw values name a method, and each names the method it is the raw value of. */
  lemma FromRawValueInverse(raw: string)
    ensures FromRawValueOk(raw)
  {
  }

  ghost predicate FromRawValueOk(raw: string) {
    match HttpMethod.FromRawValue(raw)
    case None => forall m: HttpMethod :: m.RawValue() != raw
    case Some(m) => m.RawValue() == raw
  }

  /** Two methods with the same raw value are the same method. */
  lemma RawValueInjective(m: HttpMethod, n: HttpMethod)
    ensures m.RawValue() == n.RawValue() ==> m == n
  {
    assert HttpMethod.FromRawValue(m.RawValue()) == Some(m);
  }

  // ---------------------------------------------------------------------
  // RestEntity

  /** `struct RestEntity`: a dictionary from string keys to string values. */
  class RestEntity {
    var values: map<string, string>

    constructor ()
      ensures values == map[]
    {
      values := map[];
    }

    /** `add(value:forKey:)`: sets the key, overwriting an earlier value. */
    method Add(value: string, key: string)
      modifies this
      ensures values == old(values)[key := value]
      ensures Value(key) == Some(value)
      ensures forall k :: k != key ==> Value(k) == old(Value(k))
      ensures TotalItems() == old(TotalItems()) + (if key in old(values) then 0 else 1)
    {
      values := values[key := value];
    }

    /** `value(forKey:)`. */
    function Value(key: string): (r: Option<string>)
      reads this
      ensures r.Some? <==> key in values
      ensures r.Some? ==> r.value == values[key]
    {
      Lookup(values, key)
    }

    /** `allValues()`: a snapshot, a value that later `add`s do not affect. */
    function AllValues(): (r: map<string, string>)
      reads this
      ensures r.Keys == values.Keys && forall k :: k in r ==> r[k] == values[k]
    {
      values
    }

    /** `totalItems()`: the number of distinct keys. */
    function TotalItems(): (n: nat)
      reads this
      ensures n == |values.Keys|
    {
      |values|
    }
  }

  function Lookup(m: map<string, string>, key: string): Option<string>
  {
    if key in m then Some(m[key]) else None
  }

  /** The dictionary after a series of `add(value:forKey:)` calls, given as (key, value) pairs. */
  function AfterAdds(m: map<string, string>, adds: seq<(string, string)>): map<string, string>
  {
    if adds == [] then m
    else
      var last := adds[|adds| - 1];
      AfterAdds(m, adds[..|adds| - 1])[last.0 := last.1]
  }

  /** The value of the last addition under `key`, if any. */
  function LastAdded(adds: seq<(string, string)>, key: string): (r: Option<string>)
    ensures r.Some? <==> exists i :: 0 <= i < |adds| && adds[i].0 == key
  {
    if adds == [] then None
    else if adds[|adds| - 1].0 == key then Some(adds[|adds| - 1].1)
    else LastAdded(adds[..|adds| - 1], key)
  }

  function AddedKeys(adds: seq<(string, string)>): set<string>
  {
    set i | 0 <= i < |adds| :: adds[i].0
  }

  /** Lookup after a series of additions: the last value added under the key wins. */
  lemma {:induction false} LastAddWins(m: map<string, string>, adds: seq<(string, string)>, key: string)
    ensures Lookup(AfterAdds(m, adds), key) == if LastAdded(adds, key).Some? then LastAdded(adds, key) else Lookup(m, key)
  {
    if adds != [] {
      LastAddWins(m, adds[..|adds| - 1], key);
    }
  }

  /** The keys after a series of additions are the earlier keys plus the added ones. */
  lemma {:induction false} AfterAddsKeys(m: map<string, string>, adds: seq<(string, string)>)
    ensures AfterAdds(m, adds).Keys == m.Keys + AddedKeys(adds)
  {
    if adds != [] {
      var init := adds[..|adds| - 1];
      AfterAddsKeys(m, init);
      assert AddedKeys(adds) == AddedKeys(init) + {adds[|adds| - 1].0} by {
        forall k | k in AddedKeys(adds) ensures k in AddedKeys(init) + {adds[|adds| - 1].0} {
          var i :| 0 <= i < |adds| && adds[i].0 == k;
          if i < |adds| - 1 { assert init[i] == adds[i]; }
        }
        forall k | k in AddedKeys(init) ensures k in AddedKeys(adds) {
          var i :| 0 <= i < |init| && init[i].0 == k;
          assert adds[i] == init[i];
        }
      }
    }
  }

  /** Starting empty, `totalItems()` is the number of distinct keys ever added. */
  lemma CountIsDistinctKeys(adds: seq<(string, string)>)
    ensures |AfterAdds(map[], adds)| == |AddedKeys(adds)|
  {
    AfterAddsKeys(map[], adds);
    assert AfterAdds(map[], adds).Keys == AddedKeys(adds);
  }

  // ---------------------------------------------------------------------
  // Response, Results, CustomError

  /** What the transport delivered: `URLResponse`, possibly an `HTTPURLResponse`. */
  datatype UrlResponse =
    | NonHttpResponse
      /** Header names and values as their string descriptions ("\(key)", "\(value)"). */
    | HttpResponse(statusCode: int, allHeaderFields: map<string, string>)

  /** The status code `Response` records: 0 unless there is an HTTP response. */
  function StatusCodeOf(r: Option<UrlResponse>): (code: int)
    ensures code != 0 ==> r.Some? && r.value.HttpResponse? && code == r.value.statusCode
    ensures r.Some? && r.value.HttpResponse? ==> code == r.value.statusCode
  {
    if r.Some? && r.value.HttpResponse? then r.value.statusCode else 0
  }

  /** The headers `Response` records: those of an HTTP response, none otherwise. */
  function HeaderFieldsOf(r: Option<UrlResponse>): (h: map<string, string>)
    ensures h != map[] ==> r.Some? && r.value.HttpResponse? && h == r.value.allHeaderFields
    ensures r.Some? && r.value.HttpResponse? ==> h == r.value.allHeaderFields
  {
    if r.Some? && r.value.HttpResponse? then r.value.allHeaderFields else map[]
  }

  /** `struct Response`. */
  class Response {
    var response: Option<UrlResponse>
    var httpStatusCode: int
    var headers: RestEntity

    /** `init(fromURLResponse:)`: copies the status code and every header of an HTTP response. */
    constructor (fromUrlResponse: Option<UrlResponse>)
      ensures response == fromUrlResponse
      ensures fresh(headers)
      ensures httpStatusCode == StatusCodeOf(fromUrlResponse)
      ensures headers.values == HeaderFieldsOf(fromUrlResponse)
    {
      response := None;
      httpStatusCode := 0;
      headers := new RestEntity();
      new;
      if fromUrlResponse.Some? {
        response := fromUrlResponse;
        var r := fromUrlResponse.value;
        httpStatusCode := if r.HttpResponse? then r.statusCode else 0;
        if r.HttpResponse? {
          var fields := r.allHeaderFields;
          var remaining := fields.Keys;
          while remaining != {}
            invariant remaining <= fields.Keys
            invariant headers.values == fields - remaining
            decreases |remaining|
            modifies headers
          {
            var key :| key in remaining;
            headers.Add(fields[key], key);
            remaining := remaining - {key};
          }
          assert fields - {} == fields;
        }
      }
    }
  }

  /** `enum CustomError` together with the transport's errors. */
  datatype Error =
    | FailedToCreateRequest
    | TransportError(description: string)

  /**
   * `struct Results`; the datatype constructor is `init(withData:response:error:)`,
   * which stores its three arguments.
   */
  datatype Results = Results(data: Option<Data>, response: Option<Response>, error: Option<Error>)

  /** `init(withError:)`: only the error; data and response stay nil. */
  function WithError(error: Error): (r: Results)
    ensures r.error == Some(error)
    ensures r.data.None? && r.response.None?
  {
    Results(None, None, Some(error))
  }
}
