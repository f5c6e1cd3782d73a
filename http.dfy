/**
 * Values shared by every part of the static-file server: bytes and their
 * encodings, header lists and first-match lookup, requests, responses, and
 * the Python exceptions that escape to the host server.
 */
module Http {

  /** A Python `bytes` element. */
  newtype byte = x: int | 0 <= x < 256

  type Bytes = seq<byte>

  datatype Option<T> = None | Some(value: T)

  /** An exception that escapes a coroutine to the host server. */
  datatype Exception =
    | RuntimeError(message: string)
    /** `assert ... is not None` failing */
    | AssertionError
    /** `parsedate` could not read a date header and the comparison of its `None` raised */
    | UnparseableDate

  /** What a Python call does: returns a value or raises. */
  datatype Outcome<T> = Return(value: T) | Raise(error: Exception)

  /** A bytes literal such as `b'etag'`; every character of the literals used here is ASCII. */
  function Ascii(s: string): (r: Bytes)
    ensures |r| == |s|
    ensures forall i :: 0 <= i < |s| ==> r[i] == (s[i] as int % 256) as byte
  {
    seq(|s|, i requires 0 <= i < |s| => (s[i] as int % 256) as byte)
  }

  /** UTF-8 encoding of one character. */
  function EncodeChar(c: char): Bytes
  {
    var n := c as int;
    if n < 0x80 then [n as byte]
    else if n < 0x800 then [(0xC0 + n / 64) as byte, (0x80 + n % 64) as byte]
    else if n < 0x10000 then
      [(0xE0 + n / 4096) as byte, (0x80 + (n / 64) % 64) as byte, (0x80 + n % 64) as byte]
    else
      [(0xF0 + n / 262144) as byte, (0x80 + (n / 4096) % 64) as byte,
       (0x80 + (n / 64) % 64) as byte, (0x80 + n % 64) as byte]
  }

  /** `str.encode()`: UTF-8. */
  function Utf8(s: string): Bytes
  {
    if s == [] then [] else EncodeChar(s[0]) + Utf8(s[1..])
  }

  /** A decimal digit as a character. */
  function DigitChar(d: nat): char
    requires d < 10
  {
    "0123456789"[d]
  }

  /** `str(n)` for a non-negative integer. */
  function Decimal(n: nat): (s: string)
    ensures |s| >= 1
    ensures forall i :: 0 <= i < |s| ==> '0' <= s[i] <= '9'
    decreases n
  {
    if n < 10 then [DigitChar(n)] else Decimal(n / 10) + [DigitChar(n % 10)]
  }

  /** `int(s)` for a string of decimal digits: the inverse of Decimal. */
  function ParseDecimal(s: string): int
  {
    if s == [] then 0
    else 10 * ParseDecimal(s[..|s| - 1]) + (s[|s| - 1] as int - '0' as int)
  }

  /** Reading back `str(n)` gives `n`. */
  lemma {:induction false} DecimalRoundTrip(n: nat)
    ensures ParseDecimal(Decimal(n)) == n
    decreases n
  {
    if n >= 10 {
      var s := Decimal(n);
      assert s[..|s| - 1] == Decimal(n / 10);
      DecimalRoundTrip(n / 10);
    }
  }

  /** Two numbers with the same decimal text are the same number. */
  lemma DecimalInjective(m: nat, n: nat)
    requires Decimal(m) == Decimal(n)
    ensures m == n
  {
    DecimalRoundTrip(m);
    DecimalRoundTrip(n);
  }

  /** An HTTP header: a lower-case name and a value, both bytes. */
  datatype Header = Header(name: Bytes, value: Bytes)

  /**
   * The value of the first header called `tag`, or None when no header has that
   * name: the first-match lookup of both copies of the library.
   */
  function Lookup(headers: seq<Header>, tag: Bytes): (r: Option<Bytes>)
    ensures r.None? <==> forall i :: 0 <= i < |headers| ==> headers[i].name != tag
  {
    if headers == [] then None
    else if headers[0].name == tag then Some(headers[0].value)
    else
      assert forall i :: 1 <= i < |headers| ==> headers[i] == headers[1..][i - 1];
      Lookup(headers[1..], tag)
  }

  /** A value Lookup finds belongs to the first header with that name. */
  lemma {:induction false} LookupFirstMatch(headers: seq<Header>, tag: Bytes)
    requires Lookup(headers, tag).Some?
    ensures exists i :: 0 <= i < |headers| && headers[i].name == tag && headers[i].value == Lookup(headers, tag).value
                        && forall j :: 0 <= j < i ==> headers[j].name != tag
  {
    if headers[0].name != tag {
      LookupFirstMatch(headers[1..], tag);
      var k :| 0 <= k < |headers[1..]| && headers[1..][k].name == tag
               && headers[1..][k].value == Lookup(headers[1..], tag).value
               && forall j :: 0 <= j < k ==> headers[1..][j].name != tag;
      assert headers[k + 1] == headers[1..][k];
      assert forall j :: 1 <= j < k + 1 ==> headers[j] == headers[1..][j - 1];
    }
  }

  /** The header at `i` is the first called `tag`, so Lookup finds its value. */
  lemma {:induction false} LookupAt(headers: seq<Header>, i: nat, tag: Bytes)
    requires i < |headers| && headers[i].name == tag
    requires forall j :: 0 <= j < i ==> headers[j].name != tag
    ensures Lookup(headers, tag) == Some(headers[i].value)
  {
    if i > 0 {
      LookupAt(headers[1..], i - 1, tag);
    }
  }

  /** Looking up a name in a concatenation looks in the second list only when the first lacks it. */
  lemma {:induction false} LookupAppend(a: seq<Header>, b: seq<Header>, tag: Bytes)
    ensures Lookup(a + b, tag) == if Lookup(a, tag).Some? then Lookup(a, tag) else Lookup(b, tag)
  {
    if a != [] {
      assert (a + b)[1..] == a[1..] + b;
      LookupAppend(a[1..], b, tag);
    } else {
      assert a + b == b;
    }
  }

  /** Python truthiness of an optional bytes value: present and non-empty. */
  predicate Truthy(v: Option<Bytes>)
  {
    v.Some? && v.value != []
  }

  /** Python truthiness of an optional string. */
  predicate TruthyString(v: Option<string>)
  {
    v.Some? && v.value != ""
  }

  predicate StartsWith(s: string, prefix: string)
  {
    |prefix| <= |s| && s[..|prefix|] == prefix
  }

  predicate EndsWith(s: string, suffix: string)
  {
    |suffix| <= |s| && s[|s| - |suffix|..] == suffix
  }

  /** A Python `list` of headers: an object that callers and callees share. */
  class HeaderList {
    var items: seq<Header>

    constructor (items: seq<Header>)
      ensures this.items == items
    {
      this.items := items;
    }
  }

  /** A response body: the chunks a file stream yields, or the text of `text_writer`. */
  datatype Body = Stream(chunks: seq<Bytes>) | Text(text: string)

  /** An HTTP response: status, optional header list, optional body. */
  datatype Response = Response(status: int, headers: Option<seq<Header>>, body: Option<Body>)

  /**
   * The part of an ASGI request the core reads: the method, the path, the
   * request headers and the route matches.
   */
  datatype Request = Request(verb: string, path: string, headers: seq<Header>, matches: map<string, string>)

  const CONTENT_TYPE: Bytes := Ascii("content-type")
  const CONTENT_LENGTH: Bytes := Ascii("content-length")
  const LAST_MODIFIED: Bytes := Ascii("last-modified")
  const ETAG: Bytes := Ascii("etag")
  const CONTENT_DISPOSITION: Bytes := Ascii("content-disposition")
  const IF_NONE_MATCH: Bytes := Ascii("if-none-match")
  const IF_MODIFIED_SINCE: Bytes := Ascii("if-modified-since")
  const TEXT_PLAIN: Bytes := Ascii("text/plain")

  /** The `[(b'content-type', b'text/plain')]` header list of every text response. */
  const PLAIN_TEXT_HEADERS: seq<Header> := [Header(CONTENT_TYPE, TEXT_PLAIN)]

  /** The 405 response for a method other than GET or HEAD. */
  const METHOD_NOT_ALLOWED: Response := Response(405, Some(PLAIN_TEXT_HEADERS), Some(Text("Method Not Allowed")))

  /** The 404 response. */
  const NOT_FOUND: Response := Response(404, Some(PLAIN_TEXT_HEADERS), Some(Text("Not Found")))

  /** The two methods a handler serves. */
  predicate IsReadMethod(verb: string)
  {
    verb == "GET" || verb == "HEAD"
  }
}
