/**
 * `bareasgi_static/file_streaming.py`, the newer copy: the conditional-request
 * decision and `file_response`, which builds its header list on a copy of the
 * caller's.
 */
module FileStreaming {
  import opened Http
  import opened FileSystem
  import opened StreamingCommon

  /**
   * `_is_not_modified`: no decision without both header lists; a missing
   * `last-modified` fails the assertion; then an exact `if-none-match` match,
   * an absent or empty `if-modified-since`, and the date comparison in whole
   * seconds, in that order.
   */
  function IsNotModified(lib: Library, requestHeaders: Option<seq<Header>>, responseHeaders: Option<seq<Header>>): (r: Outcome<bool>)
    ensures requestHeaders.None? || responseHeaders.None? ==> r == Return(false)
    ensures r == Return(true) <==>
      && requestHeaders.Some? && responseHeaders.Some?
      && Lookup(responseHeaders.value, LAST_MODIFIED).Some?
      && (|| Lookup(responseHeaders.value, ETAG) == Lookup(requestHeaders.value, IF_NONE_MATCH)
          || (&& Truthy(Lookup(requestHeaders.value, IF_MODIFIED_SINCE))
              && lib.parseDate(Lookup(requestHeaders.value, IF_MODIFIED_SINCE).value).Some?
              && lib.parseDate(Lookup(responseHeaders.value, LAST_MODIFIED).value).Some?
              && lib.parseDate(Lookup(requestHeaders.value, IF_MODIFIED_SINCE).value).value
                 >= lib.parseDate(Lookup(responseHeaders.value, LAST_MODIFIED).value).value))
    ensures r == Raise(AssertionError) <==>
      requestHeaders.Some? && responseHeaders.Some? && Lookup(responseHeaders.value, LAST_MODIFIED).None?
    ensures r.Raise? ==> r.error == AssertionError || r.error == UnparseableDate
    ensures (&& requestHeaders.Some? && responseHeaders.Some?
             && Lookup(responseHeaders.value, LAST_MODIFIED).Some?
             && Lookup(responseHeaders.value, ETAG) != Lookup(requestHeaders.value, IF_NONE_MATCH)
             && !Truthy(Lookup(requestHeaders.value, IF_MODIFIED_SINCE))) ==> r == Return(false)
    ensures r == Raise(UnparseableDate) <==>
      && requestHeaders.Some? && responseHeaders.Some?
      && Lookup(responseHeaders.value, LAST_MODIFIED).Some?
      && Lookup(responseHeaders.value, ETAG) != Lookup(requestHeaders.value, IF_NONE_MATCH)
      && Truthy(Lookup(requestHeaders.value, IF_MODIFIED_SINCE))
      && (|| lib.parseDate(Lookup(requestHeaders.value, IF_MODIFIED_SINCE).value).None?
          || lib.parseDate(Lookup(responseHeaders.value, LAST_MODIFIED).value).None?)
  {
    if requestHeaders.None? || responseHeaders.None? then Return(false)
    else
      var etag := Lookup(responseHeaders.value, ETAG);
      var lastModified := Lookup(responseHeaders.value, LAST_MODIFIED);
      if lastModified.None? then Raise(AssertionError)
      else if etag == Lookup(requestHeaders.value, IF_NONE_MATCH) then Return(true)
      else if !Truthy(Lookup(requestHeaders.value, IF_MODIFIED_SINCE)) then Return(false)
      else
        var lastReq := lib.parseDate(Lookup(requestHeaders.value, IF_MODIFIED_SINCE).value);
        var lastMod := lib.parseDate(lastModified.value);
        if lastReq.Some? && lastMod.Some? then Return(lastReq.value >= lastMod.value)
        else Raise(UnparseableDate)
  }

  /** The 500 response for a path that does not exist. */
  function MissingFile(path: string): Response
  {
    Response(500, Some(PLAIN_TEXT_HEADERS), Some(Text("File at path " + path + " does not exist.")))
  }

  /** The bare 500 response for a path that is not a regular file. */
  const NOT_A_FILE: Response := Response(500, None, None)

  /**
   * What `file_response` returns for the caller's headers `headers` (the
   * empty list when the caller passed None): the headers of a regular file
   * are the caller's followed by the generated ones. The older copy's
   * `LegacyFileStreaming.FileResponseSpec` is this function with its own
   * decision in place of IsNotModified.
   */
  function FileResponseSpec(lib: Library, fs: Fs, verb: string, requestHeaders: Option<seq<Header>>, status: int,
                            path: string, headers: seq<Header>, contentType: Option<string>,
                            filename: Option<string>, checkModified: bool): Outcome<Response>
  {
    if path !in fs then Return(MissingFile(path))
    else if !fs[path].Regular? then Return(NOT_A_FILE)
    else
      var node := fs[path];
      var hs := headers + GeneratedHeaders(lib, path, node.mtime, |node.content|, contentType, filename);
      Complete(if checkModified then IsNotModified(lib, requestHeaders, Some(hs)) else Return(false),
               status, verb, hs, node.content)
  }

  /**
   * `file_response`. It has no `modifies` clause: the caller's list is
   * copied, never changed.
   */
  method FileResponse(lib: Library, fs: Fs, verb: string, requestHeaders: seq<Header>, status: int, path: string,
                      headers: HeaderList?, contentType: Option<string>, filename: Option<string>,
                      checkModified: bool) returns (out: Outcome<Response>)
    ensures out == FileResponseSpec(lib, fs, verb, Some(requestHeaders), status, path,
                                    if headers == null then [] else headers.items,
                                    contentType, filename, checkModified)
  {
    if path !in fs {
      return Return(MissingFile(path));
    }
    var node := fs[path];
    if !node.Regular? {
      return Return(NOT_A_FILE);
    }
    var hs: seq<Header>;
    if headers == null || headers.items == [] {
      hs := [];
    } else {
      hs := headers.items;
    }
    ghost var caller := hs;
    var ct := ContentType(lib, path, contentType, filename);
    hs := hs + [Header(CONTENT_TYPE, Utf8(ct))];
    hs := hs + [Header(CONTENT_LENGTH, Utf8(Decimal(|node.content|)))];
    hs := hs + [Header(LAST_MODIFIED, Utf8(lib.formatDate(node.mtime)))];
    hs := hs + [Header(ETAG, Utf8(StatToEtag(lib, node.mtime, |node.content|)))];
    if filename.Some? {
      hs := hs + [Header(CONTENT_DISPOSITION, Utf8("attachment; filename=\"" + filename.value + "\""))];
    }
    assert hs == caller + GeneratedHeaders(lib, path, node.mtime, |node.content|, contentType, filename);
    if checkModified {
      var decision := IsNotModified(lib, Some(requestHeaders), Some(hs));
      if decision.Raise? {
        return Raise(decision.error);
      }
      if decision.value {
        return Return(Response(304, Some(FilterNotModified(hs)), None));
      }
    }
    if verb == "HEAD" {
      return Return(Response(status, Some(hs), None));
    }
    var chunks := FileWriter(node.content, CHUNK_SIZE);
    return Return(Response(status, Some(hs), Some(Stream(chunks))));
  }

  // ---------------------------------------------------------------- properties

  /** A missing path gives the 500 text response and a non-regular one the bare 500, whatever else is asked. */
  lemma FileResponseErrors(lib: Library, fs: Fs, verb: string, requestHeaders: Option<seq<Header>>, status: int,
                           path: string, headers: seq<Header>, contentType: Option<string>,
                           filename: Option<string>, checkModified: bool)
    ensures path !in fs ==>
      FileResponseSpec(lib, fs, verb, requestHeaders, status, path, headers, contentType, filename, checkModified)
      == Return(Response(500, Some([Header(CONTENT_TYPE, TEXT_PLAIN)]), Some(Text("File at path " + path + " does not exist."))))
    ensures path in fs && !IsRegularFile(fs, path) ==>
      FileResponseSpec(lib, fs, verb, requestHeaders, status, path, headers, contentType, filename, checkModified)
      == Return(Response(500, None, None))
  {
  }

  /**
   * A 304 comes only from the conditional check, and then carries the
   * allow-listed headers in order and no body. Every other answer for a
   * regular file has the given status, the caller's headers followed by
   * the generated ones, and a body exactly when the method is not HEAD.
   */
  lemma FileResponseShape(lib: Library, fs: Fs, verb: string, requestHeaders: Option<seq<Header>>, status: int,
                          path: string, headers: seq<Header>, contentType: Option<string>,
                          filename: Option<string>, checkModified: bool)
    requires IsRegularFile(fs, path)
    ensures var r := FileResponseSpec(lib, fs, verb, requestHeaders, status, path, headers, contentType, filename, checkModified);
      var hs := headers + GeneratedHeaders(lib, path, fs[path].mtime, |fs[path].content|, contentType, filename);
      var notModified := checkModified && IsNotModified(lib, requestHeaders, Some(hs)) == Return(true);
      && (r.Raise? ==> checkModified && IsNotModified(lib, requestHeaders, Some(hs)) == Raise(r.error) && r.error == UnparseableDate)
      && (r.Return? && notModified ==> r.value == Response(304, Some(FilterNotModified(hs)), None))
      && (r.Return? && !notModified ==>
            && r.value.status == status && r.value.headers == Some(hs)
            && (r.value.body.None? <==> verb == "HEAD"))
      && (!checkModified ==> r.Return?)
  {
    var node := fs[path];
    var hs := headers + GeneratedHeaders(lib, path, node.mtime, |node.content|, contentType, filename);
    GeneratedHeadersOrder(lib, path, node.mtime, |node.content|, contentType, filename);
    LookupAppend(headers, GeneratedHeaders(lib, path, node.mtime, |node.content|, contentType, filename), LAST_MODIFIED);
  }

  /**
   * Revalidation by entity tag: when the caller supplied no `etag` of its
   * own and the request's `if-none-match` is the file's tag, the answer is a
   * 304 whose headers are the caller's allow-listed ones and the tag.
   */
  lemma EtagRevalidation(lib: Library, fs: Fs, verb: string, requestHeaders: seq<Header>, status: int,
                         path: string, headers: seq<Header>, contentType: Option<string>, filename: Option<string>)
    requires IsRegularFile(fs, path)
    requires Lookup(headers, ETAG).None?
    requires Lookup(requestHeaders, IF_NONE_MATCH) == Some(Utf8(StatToEtag(lib, fs[path].mtime, |fs[path].content|)))
    ensures FileResponseSpec(lib, fs, verb, Some(requestHeaders), status, path, headers, contentType, filename, true)
            == Return(Response(304, Some(FilterNotModified(headers) + [Header(ETAG, Utf8(StatToEtag(lib, fs[path].mtime, |fs[path].content|)))]), None))
  {
    var node := fs[path];
    var g := GeneratedHeaders(lib, path, node.mtime, |node.content|, contentType, filename);
    GeneratedHeadersOrder(lib, path, node.mtime, |node.content|, contentType, filename);
    LookupAppend(headers, g, ETAG);
    LookupAppend(headers, g, LAST_MODIFIED);
    FilterAppend(headers, g);
    FilterGenerated(lib, path, node.mtime, |node.content|, contentType, filename);
  }

  /** The decision for a date-only revalidation is the comparison of the two dates. */
  lemma DateDecision(lib: Library, offset: int, requestHeaders: seq<Header>, hs: seq<Header>, mtime: nat, d: nat)
    requires DatesRoundTrip(lib, offset)
    requires Lookup(hs, LAST_MODIFIED) == Some(Utf8(lib.formatDate(mtime)))
    requires Lookup(hs, ETAG) != Lookup(requestHeaders, IF_NONE_MATCH)
    requires Lookup(requestHeaders, IF_MODIFIED_SINCE) == Some(Utf8(lib.formatDate(d))) && lib.formatDate(d) != ""
    ensures IsNotModified(lib, Some(requestHeaders), Some(hs)) == Return(d >= mtime)
  {
    var text := lib.formatDate(d);
    assert Utf8(text) == EncodeChar(text[0]) + Utf8(text[1..]);
    assert lib.parseDate(Utf8(lib.formatDate(d))) == Some(d as int - offset);
    assert lib.parseDate(Utf8(lib.formatDate(mtime))) == Some(mtime as int - offset);
  }

  /**
   * Revalidation by date: with a date parser that reads back the formatter's
   * dates shifted by a fixed UTC offset, a request carrying `if-modified-since: <date d>` and no matching
   * tag gets a 304 exactly when `d` is at or after the file's modification
   * time, and the full response otherwise.
   */
  lemma DateRevalidation(lib: Library, offset: int, fs: Fs, verb: string, requestHeaders: seq<Header>, status: int,
                         path: string, headers: seq<Header>, contentType: Option<string>,
                         filename: Option<string>, d: nat)
    requires DatesRoundTrip(lib, offset)
    requires IsRegularFile(fs, path)
    requires Lookup(headers, ETAG).None? && Lookup(headers, LAST_MODIFIED).None?
    requires Lookup(requestHeaders, IF_NONE_MATCH) != Some(Utf8(StatToEtag(lib, fs[path].mtime, |fs[path].content|)))
    requires Lookup(requestHeaders, IF_MODIFIED_SINCE) == Some(Utf8(lib.formatDate(d))) && lib.formatDate(d) != ""
    ensures var r := FileResponseSpec(lib, fs, verb, Some(requestHeaders), status, path, headers, contentType, filename, true);
      var hs := headers + GeneratedHeaders(lib, path, fs[path].mtime, |fs[path].content|, contentType, filename);
      && r.Return?
      && (d >= fs[path].mtime ==> r.value == Response(304, Some(FilterNotModified(hs)), None))
      && (d < fs[path].mtime ==> r.value.status == status && r.value.headers == Some(hs))
  {
    var node := fs[path];
    var g := GeneratedHeaders(lib, path, node.mtime, |node.content|, contentType, filename);
    GeneratedHeadersOrder(lib, path, node.mtime, |node.content|, contentType, filename);
    LookupAppend(headers, g, ETAG);
    LookupAppend(headers, g, LAST_MODIFIED);
    DateDecision(lib, offset, requestHeaders, headers + g, node.mtime, d);
  }

  /** HEAD gets what GET gets for a regular file, without the body. */
  lemma HeadMatchesGet(lib: Library, fs: Fs, requestHeaders: Option<seq<Header>>, status: int, path: string,
                       headers: seq<Header>, contentType: Option<string>, filename: Option<string>, checkModified: bool)
    requires IsRegularFile(fs, path)
    ensures var get := FileResponseSpec(lib, fs, "GET", requestHeaders, status, path, headers, contentType, filename, checkModified);
      var head := FileResponseSpec(lib, fs, "HEAD", requestHeaders, status, path, headers, contentType, filename, checkModified);
      && (get.Raise? <==> head.Raise?)
      && (get.Raise? ==> get == head)
      && (get.Return? ==> head.value == get.value.(body := None))
  {
  }

  /**
   * The body of a full response reproduces the file: every chunk but the
   * last holds `CHUNK_SIZE` bytes and the last is shorter, empty exactly
   * when the size is a multiple of `CHUNK_SIZE`.
   */
  lemma FullResponseStreamsFile(lib: Library, fs: Fs, verb: string, requestHeaders: Option<seq<Header>>, status: int,
                                path: string, headers: seq<Header>, contentType: Option<string>,
                                filename: Option<string>, checkModified: bool)
    requires IsRegularFile(fs, path)
    requires var r := FileResponseSpec(lib, fs, verb, requestHeaders, status, path, headers, contentType, filename, checkModified);
      r.Return? && r.value.body.Some?
    ensures var r := FileResponseSpec(lib, fs, verb, requestHeaders, status, path, headers, contentType, filename, checkModified);
      var data := fs[path].content;
      && r.value.body.value.Stream?
      && var c := r.value.body.value.chunks;
      && Concat(c) == data
      && |c| == |data| / CHUNK_SIZE + 1
      && (forall k :: 0 <= k < |c| - 1 ==> |c[k]| == CHUNK_SIZE)
      && |c[|c| - 1]| < CHUNK_SIZE
      && (c[|c| - 1] == [] <==> |data| % CHUNK_SIZE == 0)
  {
    var data := fs[path].content;
    ChunksConcat(data, CHUNK_SIZE);
    ChunksCount(data, CHUNK_SIZE);
    ChunksFull(data, CHUNK_SIZE);
    ChunksLast(data, CHUNK_SIZE);
  }
}
