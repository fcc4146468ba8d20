/**
 * The slice of the `http` crate the responders use: methods, the header
 * names they read or write, header-value validity, status codes, and a
 * response made of a status, an ordered header list and a body.
 */
module Http {
  import opened Wrappers
  import opened Bytes

  /** The standard request methods of `http::Method`. */
  datatype Method = Get | Head | Post | Put | Delete | Connect | Options | Trace | Patch

  /** The header names the responders read or write. */
  datatype HeaderName =
    | AcceptEncoding
    | IfNoneMatch
    | ContentType
    | ETag
    | CacheControl
    | ContentLength
    | ContentEncoding

  type HeaderValue = seq<byte>

  /** A request's headers: at most one value per name. */
  type HeaderMap = map<HeaderName, HeaderValue>

  datatype Header = Header(name: HeaderName, value: HeaderValue)

  /** A response: status code, headers in the order the builder added them, body. */
  datatype Response<B> = Response(status: nat, headers: seq<Header>, body: B)

  /** `http_body::SizeHint`: bounds on the bytes a body has left to yield. */
  datatype SizeHint = SizeHint(lower: nat, upper: Option<nat>)

  /** `SizeHint::with_exact`. */
  function ExactSize(n: nat): SizeHint
  {
    SizeHint(n, Some(n))
  }

  const OK: nat := 200
  const NOT_MODIFIED: nat := 304
  const BAD_REQUEST: nat := 400
  const NOT_FOUND: nat := 404
  const METHOD_NOT_ALLOWED: nat := 405

  /** A byte `HeaderValue::from_bytes` and `HeaderValue::from_str` accept. */
  predicate IsValueByte(b: byte)
  {
    (b >= 0x20 && b != 0x7F) || b == 0x09
  }

  /** Whether `HeaderValue::from_str(v)` succeeds (otherwise `unwrap` panics). */
  predicate ValidHeaderValue(v: seq<byte>)
  {
    forall i :: 0 <= i < |v| ==> IsValueByte(v[i])
  }

  /** Every header of a list has a valid value. */
  predicate ValidHeaders(headers: seq<Header>)
  {
    forall k :: 0 <= k < |headers| ==> ValidHeaderValue(headers[k].value)
  }

  /** A list with one header in front is valid when that header and the rest are. */
  lemma ValidHeadersCons(first: Header, rest: seq<Header>)
    requires ValidHeaderValue(first.value) && ValidHeaders(rest)
    ensures ValidHeaders([first] + rest)
  {
    var all := [first] + rest;
    forall k | 0 < k < |all|
      ensures all[k] == rest[k - 1]
    {
    }
  }

  /** A byte `HeaderValue::to_str` accepts: visible ASCII or tab. */
  predicate IsVisibleAscii(b: byte)
  {
    (0x20 <= b < 0x7F) || b == 0x09
  }

  /** `HeaderValue::to_str`: the value as text when it is all visible ASCII. */
  function ToStr(v: HeaderValue): (r: Option<Text>)
    ensures r.Some? <==> forall i :: 0 <= i < |v| ==> IsVisibleAscii(v[i])
    ensures r.Some? ==> r.value == v
  {
    if forall i :: 0 <= i < |v| ==> IsVisibleAscii(v[i]) then Some(v) else None
  }

  /** The value of the first header called `name`, as `HeaderMap::get` reports it. */
  function HeaderGet(headers: seq<Header>, name: HeaderName): (r: Option<HeaderValue>)
    ensures r.Some? <==> exists k :: 0 <= k < |headers| && headers[k].name == name
    ensures r.Some? ==>
              exists k :: 0 <= k < |headers| && headers[k] == Header(name, r.value)
                && forall j :: 0 <= j < k ==> headers[j].name != name
  {
    if |headers| == 0 then None
    else if headers[0].name == name then Some(headers[0].value)
    else
      var r := HeaderGet(headers[1..], name);
      assert r.Some? ==>
               exists k :: 0 <= k < |headers| && headers[k] == Header(name, r.value)
                 && forall j :: 0 <= j < k ==> headers[j].name != name by {
        if r.Some? {
          var k :| 0 <= k < |headers| - 1 && headers[1..][k] == Header(name, r.value)
                   && forall j :: 0 <= j < k ==> headers[1..][j].name != name;
          assert headers[k + 1] == Header(name, r.value);
          forall j | 0 <= j < k + 1
            ensures headers[j].name != name
          {
            if j > 0 {
              assert headers[j] == headers[1..][j - 1];
            }
          }
        }
      }
      assert (exists k :: 0 <= k < |headers| && headers[k].name == name) ==> r.Some? by {
        if exists k :: 0 <= k < |headers| && headers[k].name == name {
          var k :| 0 <= k < |headers| && headers[k].name == name;
          assert k > 0;
          assert headers[1..][k - 1].name == name;
        }
      }
      r
  }

  /** Looking up in a list with one more header in front. */
  lemma HeaderGetCons(first: Header, rest: seq<Header>, name: HeaderName)
    ensures HeaderGet([first] + rest, name) ==
              if first.name == name then Some(first.value) else HeaderGet(rest, name)
  {
    assert ([first] + rest)[1..] == rest;
  }

  /** The ASCII digit for `d`. */
  function Digit(d: nat): byte
    requires d < 10
  {
    0x30 + d
  }

  /** `n` in decimal ASCII, as `HeaderValue::from(usize)` renders a content length. */
  function Decimal(n: nat): (r: seq<byte>)
    ensures |r| > 0
    ensures forall i :: 0 <= i < |r| ==> 0x30 <= r[i] <= 0x39
    ensures |r| > 1 ==> r[0] != 0x30
  {
    if n < 10 then [Digit(n)] else Decimal(n / 10) + [Digit(n % 10)]
  }

  /** The value of a string of ASCII digits. */
  function DigitsValue(s: seq<byte>): nat
    requires forall i :: 0 <= i < |s| ==> 0x30 <= s[i] <= 0x39
  {
    if |s| == 0 then 0 else 10 * DigitsValue(s[..|s| - 1]) + (s[|s| - 1] - 0x30)
  }

  /** Reads a non-empty decimal ASCII number, the inverse of `Decimal`. */
  function ParseDecimal(s: seq<byte>): Option<nat>
  {
    if |s| > 0 && forall i :: 0 <= i < |s| ==> 0x30 <= s[i] <= 0x39 then Some(DigitsValue(s))
    else None
  }

  /** A rendered length reads back as the same number and is a valid header value. */
  lemma {:induction false} DecimalRoundTrip(n: nat)
    ensures ParseDecimal(Decimal(n)) == Some(n)
    ensures ValidHeaderValue(Decimal(n))
  {
    if n >= 10 {
      DecimalRoundTrip(n / 10);
      var s := Decimal(n);
      assert s[..|s| - 1] == Decimal(n / 10);
      assert DigitsValue(s) == 10 * (n / 10) + n % 10;
    } else {
      var s := Decimal(n);
      assert s == [Digit(n)];
      assert s[..0] == [];
      assert DigitsValue(s) == 10 * DigitsValue([]) + (Digit(n) - 0x30);
    }
  }
}
