/** What an httpx request can come back with, as seen by the scraper's
    helpers: a response (status code and a payload), a transport failure
    (`httpx.RequestError`) or any other exception. */
module Http {
  import opened Text

  datatype Fetch<T> =
    | Response(status: int, payload: T)
    | TransportFailure
    | OtherFailure

  /** `response.raise_for_status()` raises `httpx.HTTPStatusError` for every
      final status outside 2xx. */
  predicate IsSuccess(status: int)
    ensures IsSuccess(status) <==> status / 100 == 2
  {
    200 <= status < 300
  }

  /** The response headers in the order received, as (name, value) pairs. */
  type Headers = seq<(string, string)>

  /** The values of every header whose name equals `name` ignoring case. */
  function ValuesOf(h: Headers, name: string): (r: seq<string>)
    ensures |r| <= |h|
    ensures forall v :: v in r <==> exists k :: 0 <= k < |h| && h[k] == (h[k].0, v) && ToLower(h[k].0) == ToLower(name)
    decreases |h|
  {
    if h == [] then []
    else
      var rest := ValuesOf(h[1..], name);
      assert forall k :: 1 <= k < |h| ==> h[k] == h[1..][k - 1];
      if ToLower(h[0].0) == ToLower(name) then [h[0].1] + rest else rest
  }

  /** `response.headers.get(name, default)`: httpx matches header names
      case-insensitively and joins repeated headers with ", ". */
  function HeaderGet(h: Headers, name: string, default: string): (r: string)
    ensures ValuesOf(h, name) == [] ==> r == default
    ensures |ValuesOf(h, name)| == 1 ==> r == ValuesOf(h, name)[0]
  {
    var vs := ValuesOf(h, name);
    if vs == [] then default else Join(vs, ", ")
  }

  /** Values are collected in the order the headers arrived: those of a
      first group of headers, then those of a second. */
  lemma {:induction false} ValuesOfAppend(a: Headers, b: Headers, name: string)
    ensures ValuesOf(a + b, name) == ValuesOf(a, name) + ValuesOf(b, name)
    decreases |a|
  {
    if a != [] {
      assert (a + b)[0] == a[0];
      assert (a + b)[1..] == a[1..] + b;
      ValuesOfAppend(a[1..], b, name);
    } else {
      assert a + b == b;
    }
  }

  /** One header contributes its value exactly when its name equals the
      requested one ignoring case. */
  lemma ValuesOfOne(n: string, v: string, name: string)
    ensures ValuesOf([(n, v)], name) == if ToLower(n) == ToLower(name) then [v] else []
  {
    assert [(n, v)][1..] == [];
  }

  /** A header repeated over two groups reads as the first group's value,
      `", "`, then the second group's. */
  lemma HeaderGetJoins(a: Headers, b: Headers, name: string, default: string)
    requires ValuesOf(a, name) != [] && ValuesOf(b, name) != []
    ensures HeaderGet(a + b, name, default) == HeaderGet(a, name, default) + ", " + HeaderGet(b, name, default)
  {
    ValuesOfAppend(a, b, name);
    JoinAppend(ValuesOf(a, name), ValuesOf(b, name), ", ");
  }
}
