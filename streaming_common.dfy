/**
 * The parts of `file_streaming.py` that the two copies of the library share
 * word for word: the chunked file writer, the entity tag, the generated
 * headers, the content-type fallback and the 304 header allow-list.
 */
module StreamingCommon {
  import opened Http
  import opened FileSystem

  const CHUNK_SIZE: nat := 4096

  const CACHE_CONTROL: Bytes := Ascii("cache-control")

  /** The headers a 304 response may carry (section 4.1 of RFC 7232). */
  const NOT_MODIFIED_HEADERS: seq<Bytes> :=
    [CACHE_CONTROL, Ascii("content-location"), Ascii("date"), ETAG, Ascii("expires"), Ascii("vary")]

  // ---------------------------------------------------------------- file_writer

  /** The chunks `file_writer` yields for a file holding `data`. */
  function ChunksOf(data: Bytes, size: nat): seq<Bytes>
    requires size > 0
    decreases |data|
  {
    if |data| < size then [data] else [data[..size]] + ChunksOf(data[size..], size)
  }

  function Concat(chunks: seq<Bytes>): Bytes
  {
    if chunks == [] then [] else chunks[0] + Concat(chunks[1..])
  }

  lemma MulAtLeast(k: int, d: int)
    requires k >= 1 && d > 0
    ensures k * d >= d
  {
  }

  /** Euclidean division has one quotient and one remainder. */
  lemma DivUnique(n: int, d: int, q: int, r: int)
    requires d > 0 && 0 <= r < d && n == q * d + r
    ensures n / d == q && n % d == r
  {
    var q', r' := n / d, n % d;
    assert (q' - q) * d == r - r';
    if q' > q {
      MulAtLeast(q' - q, d);
      assert false;
    } else if q' < q {
      MulAtLeast(q - q', d);
      assert false;
    }
  }

  lemma DivStep(n: nat, size: nat)
    requires size > 0 && n >= size
    ensures (n - size) / size + 1 == n / size && (n - size) % size == n % size
  {
    var q, r := (n - size) / size, (n - size) % size;
    assert (q + 1) * size == q * size + size;
    DivUnique(n, size, q + 1, r);
  }

  /** The stream reproduces the file. */
  lemma {:induction false} ChunksConcat(data: Bytes, size: nat)
    requires size > 0
    ensures Concat(ChunksOf(data, size)) == data
    decreases |data|
  {
    if |data| >= size {
      ChunksConcat(data[size..], size);
      assert data[..size] + data[size..] == data;
    } else {
      assert data + [] == data;
    }
  }

  /** There are `len / size + 1` chunks. */
  lemma {:induction false} ChunksCount(data: Bytes, size: nat)
    requires size > 0
    ensures |ChunksOf(data, size)| == |data| / size + 1
    decreases |data|
  {
    if |data| >= size {
      ChunksCount(data[size..], size);
      DivStep(|data|, size);
    } else {
      DivUnique(|data|, size, 0, |data|);
    }
  }

  /** Every chunk but the last is full. */
  lemma {:induction false} ChunksFull(data: Bytes, size: nat)
    requires size > 0
    ensures forall k :: 0 <= k < |ChunksOf(data, size)| - 1 ==> |ChunksOf(data, size)[k]| == size
    decreases |data|
  {
    if |data| >= size {
      var c, rest := ChunksOf(data, size), ChunksOf(data[size..], size);
      ChunksFull(data[size..], size);
      assert forall k :: 1 <= k < |c| ==> c[k] == rest[k - 1];
    }
  }

  /** The last chunk is short, and empty exactly when the length is a multiple of the chunk size. */
  lemma {:induction false} ChunksLast(data: Bytes, size: nat)
    requires size > 0
    ensures |ChunksOf(data, size)[|ChunksOf(data, size)| - 1]| < size
    ensures ChunksOf(data, size)[|ChunksOf(data, size)| - 1] == [] <==> |data| % size == 0
    decreases |data|
  {
    if |data| >= size {
      var c, rest := ChunksOf(data, size), ChunksOf(data[size..], size);
      ChunksLast(data[size..], size);
      DivStep(|data|, size);
      assert c[|c| - 1] == rest[|rest| - 1];
    } else {
      DivUnique(|data|, size, 0, |data|);
    }
  }

  /**
   * `file_writer`: read the file `chunkSize` bytes at a time, yielding each
   * read, until a read comes back shorter than `chunkSize`.
   */
  method FileWriter(data: Bytes, chunkSize: nat) returns (chunks: seq<Bytes>)
    requires chunkSize > 0
    ensures chunks == ChunksOf(data, chunkSize)
  {
    chunks := [];
    var pos := 0;
    var moreBody := true;
    while moreBody
      invariant 0 <= pos <= |data|
      invariant moreBody ==> chunks + ChunksOf(data[pos..], chunkSize) == ChunksOf(data, chunkSize)
      invariant !moreBody ==> chunks == ChunksOf(data, chunkSize)
      decreases |data| - pos, moreBody
    {
      // file.read(chunk_size)
      var end := if pos + chunkSize <= |data| then pos + chunkSize else |data|;
      var chunk := data[pos..end];
      ghost var rest := data[pos..];
      if |rest| >= chunkSize {
        assert chunk == rest[..chunkSize] && data[end..] == rest[chunkSize..];
      } else {
        assert chunk == rest;
      }
      chunks := chunks + [chunk];
      pos := end;
      moreBody := |chunk| == chunkSize;
    }
  }

  // ---------------------------------------------------------------- metadata

  /** The text `_stat_to_etag` hashes: modification time and size. */
  function EtagKey(mtime: nat, size: nat): string
  {
    Decimal(mtime) + "-" + Decimal(size)
  }

  /** The first `-` of the key ends the modification time. */
  lemma EtagKeyDash(mtime: nat, size: nat)
    ensures var k := EtagKey(mtime, size);
      |k| > |Decimal(mtime)| && k[|Decimal(mtime)|] == '-'
      && (forall i :: 0 <= i < |Decimal(mtime)| ==> k[i] == Decimal(mtime)[i] && k[i] != '-')
      && k[|Decimal(mtime)| + 1..] == Decimal(size)
  {
  }

  /** Distinct file states give distinct hash inputs. */
  lemma EtagKeyInjective(m1: nat, s1: nat, m2: nat, s2: nat)
    requires EtagKey(m1, s1) == EtagKey(m2, s2)
    ensures m1 == m2 && s1 == s2
  {
    var a, b := Decimal(m1), Decimal(m2);
    EtagKeyDash(m1, s1);
    EtagKeyDash(m2, s2);
    assert |a| == |b|;
    assert a == b;
    DecimalInjective(m1, m2);
    DecimalInjective(s1, s2);
  }

  /** `_stat_to_etag`: the MD5 hex digest of the key. */
  function StatToEtag(lib: Library, mtime: nat, size: nat): string
  {
    lib.md5HexDigest(Utf8(EtagKey(mtime, size)))
  }

  /** The content type of `file_response`: the caller's, else the guess for the download name or the path, else text/plain. */
  function ContentType(lib: Library, path: string, contentType: Option<string>, filename: Option<string>): string
  {
    if contentType.Some? then contentType.value
    else
      var guess := lib.guessType(if TruthyString(filename) then filename.value else path);
      if guess.Some? && guess.value != "" then guess.value else "text/plain"
  }

  /** The fallback chain: every content type comes from the caller, from the guess, or is text/plain. */
  lemma ContentTypeSource(lib: Library, path: string, contentType: Option<string>, filename: Option<string>)
    ensures contentType.Some? ==> ContentType(lib, path, contentType, filename) == contentType.value
    ensures contentType.None? ==>
      var name := if filename.Some? && filename.value != "" then filename.value else path;
      var r := ContentType(lib, path, contentType, filename);
      r != "" && (lib.guessType(name) == Some(r) || (r == "text/plain" && (lib.guessType(name).None? || lib.guessType(name) == Some(""))))
  {
  }

  /** The headers `file_response` appends after the caller's, in order. */
  function GeneratedHeaders(lib: Library, path: string, mtime: nat, size: nat,
                            contentType: Option<string>, filename: Option<string>): seq<Header>
  {
    [Header(CONTENT_TYPE, Utf8(ContentType(lib, path, contentType, filename))),
     Header(CONTENT_LENGTH, Utf8(Decimal(size))),
     Header(LAST_MODIFIED, Utf8(lib.formatDate(mtime))),
     Header(ETAG, Utf8(StatToEtag(lib, mtime, size)))]
    + (if filename.Some? then [Header(CONTENT_DISPOSITION, Utf8("attachment; filename=\"" + filename.value + "\""))] else [])
  }

  /** The header-name facts the lemmas lean on. */
  lemma HeaderNames()
    ensures ETAG in NOT_MODIFIED_HEADERS
    ensures CONTENT_TYPE !in NOT_MODIFIED_HEADERS && CONTENT_LENGTH !in NOT_MODIFIED_HEADERS
    ensures LAST_MODIFIED !in NOT_MODIFIED_HEADERS && CONTENT_DISPOSITION !in NOT_MODIFIED_HEADERS
    ensures ETAG != CONTENT_TYPE && ETAG != CONTENT_LENGTH && ETAG != LAST_MODIFIED
    ensures LAST_MODIFIED != CONTENT_TYPE && LAST_MODIFIED != CONTENT_LENGTH
  {
    assert LAST_MODIFIED[0] != CACHE_CONTROL[0];
  }

  /** `content-length` carries the decimal size, read back as the size. */
  lemma ContentLengthIsSize(lib: Library, path: string, mtime: nat, size: nat,
                            contentType: Option<string>, filename: Option<string>)
    ensures var g := GeneratedHeaders(lib, path, mtime, size, contentType, filename);
      Lookup(g, CONTENT_LENGTH) == Some(Utf8(Decimal(size))) && ParseDecimal(Decimal(size)) == size
  {
    HeaderNames();
    DecimalRoundTrip(size);
  }

  /**
   * The generated names come in the order content-type, content-length,
   * last-modified, etag, then content-disposition only for a download name.
   */
  lemma GeneratedHeadersOrder(lib: Library, path: string, mtime: nat, size: nat,
                              contentType: Option<string>, filename: Option<string>)
    ensures var g := GeneratedHeaders(lib, path, mtime, size, contentType, filename);
      && |g| == (if filename.Some? then 5 else 4)
      && g[0].name == CONTENT_TYPE && g[1].name == CONTENT_LENGTH
      && g[2].name == LAST_MODIFIED && g[3].name == ETAG
      && (filename.Some? ==> g[4] == Header(CONTENT_DISPOSITION, Utf8("attachment; filename=\"" + filename.value + "\"")))
      && Lookup(g, ETAG) == Some(Utf8(StatToEtag(lib, mtime, size)))
      && Lookup(g, LAST_MODIFIED) == Some(Utf8(lib.formatDate(mtime)))
  {
    HeaderNames();
    var g := GeneratedHeaders(lib, path, mtime, size, contentType, filename);
    LookupAt(g, 3, ETAG);
    LookupAt(g, 2, LAST_MODIFIED);
  }

  // ---------------------------------------------------------------- 304

  /** The headers of a 304 response: those on the allow-list, in their order. */
  function FilterNotModified(headers: seq<Header>): seq<Header>
    decreases |headers|
  {
    if headers == [] then []
    else (if headers[0].name in NOT_MODIFIED_HEADERS then [headers[0]] else []) + FilterNotModified(headers[1..])
  }

  /** `a` is `b` with some elements left out, the rest in order. */
  predicate IsSubsequence<T(==)>(a: seq<T>, b: seq<T>)
    decreases |b|
  {
    if a == [] then true
    else if b == [] then false
    else (a[0] == b[0] && IsSubsequence(a[1..], b[1..])) || IsSubsequence(a, b[1..])
  }

  /** The 304 list is `headers` with some entries left out, the rest in their order. */
  lemma {:induction false} FilterSubsequence(headers: seq<Header>)
    ensures IsSubsequence(FilterNotModified(headers), headers)
    decreases |headers|
  {
    if headers != [] {
      var f := FilterNotModified(headers[1..]);
      FilterSubsequence(headers[1..]);
      if headers[0].name in NOT_MODIFIED_HEADERS {
        assert FilterNotModified(headers) == [headers[0]] + f;
        assert ([headers[0]] + f)[1..] == f;
      } else {
        assert FilterNotModified(headers) == f;
        SubsequenceOfTail(f, headers);
      }
    }
  }

  /** The 304 list holds each allow-listed header as often as `headers` does, and no other. */
  lemma {:induction false} FilterCount(headers: seq<Header>, h: Header)
    ensures multiset(FilterNotModified(headers))[h] == if h.name in NOT_MODIFIED_HEADERS then multiset(headers)[h] else 0
    decreases |headers|
  {
    if headers != [] {
      var f := FilterNotModified(headers[1..]);
      FilterCount(headers[1..], h);
      assert headers == [headers[0]] + headers[1..];
      assert multiset(headers) == multiset([headers[0]]) + multiset(headers[1..]);
      if headers[0].name in NOT_MODIFIED_HEADERS {
        assert FilterNotModified(headers) == [headers[0]] + f;
        assert multiset(FilterNotModified(headers)) == multiset([headers[0]]) + multiset(f);
      } else {
        assert FilterNotModified(headers) == f;
      }
    }
  }

  /**
   * The 304 list keeps the allow-listed headers of `headers`, each as often
   * as it occurs, drops every other header, and keeps the original order.
   */
  lemma FilterNotModifiedSpec(headers: seq<Header>)
    ensures IsSubsequence(FilterNotModified(headers), headers)
    ensures forall h :: multiset(FilterNotModified(headers))[h] ==
                        if h.name in NOT_MODIFIED_HEADERS then multiset(headers)[h] else 0
  {
    FilterSubsequence(headers);
    forall h {
      FilterCount(headers, h);
    }
  }

  lemma {:induction false} SubsequenceOfTail<T>(a: seq<T>, b: seq<T>)
    requires b != [] && IsSubsequence(a, b[1..])
    ensures IsSubsequence(a, b)
  {
  }

  /** Filtering distributes over the caller's headers and the generated ones. */
  lemma {:induction false} FilterAppend(a: seq<Header>, b: seq<Header>)
    ensures FilterNotModified(a + b) == FilterNotModified(a) + FilterNotModified(b)
    decreases |a|
  {
    if a == [] {
      assert a + b == b;
    } else {
      assert (a + b)[1..] == a[1..] + b;
      FilterAppend(a[1..], b);
    }
  }

  /** Of the generated headers a 304 keeps only the entity tag. */
  lemma FilterGenerated(lib: Library, path: string, mtime: nat, size: nat,
                        contentType: Option<string>, filename: Option<string>)
    ensures FilterNotModified(GeneratedHeaders(lib, path, mtime, size, contentType, filename))
            == [Header(ETAG, Utf8(StatToEtag(lib, mtime, size)))]
  {
    HeaderNames();
    var g := GeneratedHeaders(lib, path, mtime, size, contentType, filename);
    var tail := if filename.Some? then [g[4]] else [];
    assert g == [g[0]] + ([g[1]] + ([g[2]] + ([g[3]] + tail)));
    FilterAppend([g[0]], [g[1]] + ([g[2]] + ([g[3]] + tail)));
    FilterAppend([g[1]], [g[2]] + ([g[3]] + tail));
    FilterAppend([g[2]], [g[3]] + tail);
    FilterAppend([g[3]], tail);
  }

  // ---------------------------------------------------------------- completion

  /**
   * The end of `file_response` once the headers are built: a 304 with the
   * allow-listed headers and no body, or the given status with every header
   * and a body unless the method is HEAD.
   */
  function Complete(decision: Outcome<bool>, status: int, verb: string, headers: seq<Header>, data: Bytes): Outcome<Response>
  {
    match decision
    case Raise(e) => Raise(e)
    case Return(notModified) =>
      if notModified then Return(Response(304, Some(FilterNotModified(headers)), None))
      else Return(Response(status, Some(headers), if verb == "HEAD" then None else Some(Stream(ChunksOf(data, CHUNK_SIZE)))))
  }
}
