/**
 * `src/bareasgi_static/file_streaming.py`, the older copy: its own header
 * search, a conditional check that looks up a misspelled header name, and a
 * `file_response` that appends to the caller's header list in place.
 */
module LegacyFileStreaming {
  import opened Http
  import opened FileSystem
  import opened StreamingCommon
  import FileStreaming

  /** The name the older copy looks up in place of `if-modified-since`. */
  const MISSPELLED_IF_MODIFIED_SINCE: Bytes := Ascii("if-modified-since\" not in req_headers")

  /** `_find_header`: scan the pairs in order and return the first value whose name is `tag`. */
  method FindHeader(headers: seq<Header>, tag: Bytes) returns (r: Option<Bytes>)
    ensures r == Lookup(headers, tag)
    ensures r.Some? ==> exists i :: 0 <= i < |headers| && headers[i] == Header(tag, r.value)
                                    && forall j :: 0 <= j < i ==> headers[j].name != tag
    ensures r.None? <==> forall i :: 0 <= i < |headers| ==> headers[i].name != tag
  {
    var i := 0;
    while i < |headers|
      invariant 0 <= i <= |headers|
      invariant forall j :: 0 <= j < i ==> headers[j].name != tag
    {
      if headers[i].name == tag {
        LookupAt(headers, i, tag);
        return Some(headers[i].value);
      }
      i := i + 1;
    }
    return None;
  }

  /** The date a header carries: its first value under `name`, parsed; None when it is absent or not a date. */
  function HeaderDate(lib: Library, headers: seq<Header>, name: Bytes): Option<int>
  {
    match Lookup(headers, name)
    case None => None
    case Some(v) => lib.parseDate(v)
  }

  /**
   * `_is_not_modified` as written: no decision without both header lists;
   * then an exact tag match (two absent values are equal); then a gate on the
   * misspelled name; only past that gate are `if-modified-since` and
   * `last-modified` compared, and a value that is absent or does not parse
   * raises.
   */
  function IsNotModified(lib: Library, requestHeaders: Option<seq<Header>>, responseHeaders: Option<seq<Header>>): (r: Outcome<bool>)
    ensures requestHeaders.None? || responseHeaders.None? ==> r == Return(false)
    ensures requestHeaders.Some? && responseHeaders.Some? && !Truthy(Lookup(requestHeaders.value, MISSPELLED_IF_MODIFIED_SINCE)) ==>
      r == Return(Lookup(responseHeaders.value, ETAG) == Lookup(requestHeaders.value, IF_NONE_MATCH))
    ensures r.Raise? ==> r.error == UnparseableDate && Truthy(Lookup(requestHeaders.value, MISSPELLED_IF_MODIFIED_SINCE))
    ensures (requestHeaders.Some? && responseHeaders.Some?
             && Lookup(responseHeaders.value, ETAG) == Lookup(requestHeaders.value, IF_NONE_MATCH)) ==> r == Return(true)
    ensures (requestHeaders.Some? && responseHeaders.Some?
             && Lookup(responseHeaders.value, ETAG) != Lookup(requestHeaders.value, IF_NONE_MATCH)
             && Truthy(Lookup(requestHeaders.value, MISSPELLED_IF_MODIFIED_SINCE))) ==>
      && (r.Return? <==> HeaderDate(lib, requestHeaders.value, IF_MODIFIED_SINCE).Some?
                         && HeaderDate(lib, responseHeaders.value, LAST_MODIFIED).Some?)
      && (r.Return? ==> r.value == (HeaderDate(lib, requestHeaders.value, IF_MODIFIED_SINCE).value
                                    >= HeaderDate(lib, responseHeaders.value, LAST_MODIFIED).value))
  {
    if requestHeaders.None? || responseHeaders.None? then Return(false)
    else
      var etag := Lookup(responseHeaders.value, ETAG);
      var lastModified := Lookup(responseHeaders.value, LAST_MODIFIED);
      if etag == Lookup(requestHeaders.value, IF_NONE_MATCH) then Return(true)
      else if !Truthy(Lookup(requestHeaders.value, MISSPELLED_IF_MODIFIED_SINCE)) then Return(false)
      else
        var lastReqTime := Lookup(requestHeaders.value, IF_MODIFIED_SINCE);
        if lastReqTime.Some? && lastModified.Some?
           && lib.parseDate(lastReqTime.value).Some? && lib.parseDate(lastModified.value).Some?
        then Return(lib.parseDate(lastReqTime.value).value >= lib.parseDate(lastModified.value).value)
        else Raise(UnparseableDate)
  }

  /**
   * The older `file_response` on values; `headers` is the caller's list, or
   * empty for None. It is `FileStreaming.FileResponseSpec` with the older
   * decision; SameAsNewerWithoutCheck relates the two.
   */
  function FileResponseSpec(lib: Library, fs: Fs, verb: string, requestHeaders: Option<seq<Header>>, status: int,
                            path: string, headers: seq<Header>, contentType: Option<string>,
                            filename: Option<string>, checkModified: bool): Outcome<Response>
  {
    if path !in fs then Return(Response(500, Some(PLAIN_TEXT_HEADERS), Some(Text("File at path " + path + " does not exist."))))
    else if !fs[path].Regular? then Return(Response(500, None, None))
    else
      var node := fs[path];
      var hs := headers + GeneratedHeaders(lib, path, node.mtime, |node.content|, contentType, filename);
      Complete(if checkModified then IsNotModified(lib, requestHeaders, Some(hs)) else Return(false),
               status, verb, hs, node.content)
  }

  /**
   * The caller's list after the older `file_response`: a non-empty list for
   * a regular file has gained the generated headers at its end; an empty
   * list was replaced by a fresh one and, like every list on an error path,
   * is as it was.
   */
  function HeadersAfter(lib: Library, fs: Fs, path: string, headers: seq<Header>,
                        contentType: Option<string>, filename: Option<string>): seq<Header>
  {
    if IsRegularFile(fs, path) && headers != [] then
      headers + GeneratedHeaders(lib, path, fs[path].mtime, |fs[path].content|, contentType, filename)
    else headers
  }

  /** The appends of the older `file_response`, made on `list` itself. */
  method AppendGenerated(list: HeaderList, lib: Library, path: string, mtime: nat, size: nat,
                         contentType: Option<string>, filename: Option<string>)
    modifies list
    ensures list.items == old(list.items) + GeneratedHeaders(lib, path, mtime, size, contentType, filename)
  {
    var ct := ContentType(lib, path, contentType, filename);
    list.items := list.items + [Header(CONTENT_TYPE, Utf8(ct))];
    list.items := list.items + [Header(CONTENT_LENGTH, Utf8(Decimal(size)))];
    list.items := list.items + [Header(LAST_MODIFIED, Utf8(lib.formatDate(mtime)))];
    list.items := list.items + [Header(ETAG, Utf8(StatToEtag(lib, mtime, size)))];
    if filename.Some? {
      list.items := list.items + [Header(CONTENT_DISPOSITION, Utf8("attachment; filename=\"" + filename.value + "\""))];
    }
  }

  /** `file_response` of the older copy, appending to the caller's list object. */
  method FileResponse(lib: Library, fs: Fs, verb: string, requestHeaders: seq<Header>, status: int, path: string,
                      headers: HeaderList?, contentType: Option<string>, filename: Option<string>,
                      checkModified: bool) returns (out: Outcome<Response>)
    modifies headers
    ensures out == FileResponseSpec(lib, fs, verb, Some(requestHeaders), status, path,
                                    if headers == null then [] else old(headers.items),
                                    contentType, filename, checkModified)
    ensures headers != null ==> headers.items == HeadersAfter(lib, fs, path, old(headers.items), contentType, filename)
  {
    if path !in fs {
      return Return(Response(500, Some(PLAIN_TEXT_HEADERS), Some(Text("File at path " + path + " does not exist."))));
    }
    var node := fs[path];
    if !node.Regular? {
      return Return(Response(500, None, None));
    }
    var list := headers;
    if list == null || list.items == [] {
      list := new HeaderList([]);
    }
    AppendGenerated(list, lib, path, node.mtime, |node.content|, contentType, filename);
    out := Respond(lib, requestHeaders, verb, status, list.items, node.content, checkModified);
  }

  /** The end of the older `file_response` once the header list is built. */
  method Respond(lib: Library, requestHeaders: seq<Header>, verb: string, status: int, hs: seq<Header>,
                 content: Bytes, checkModified: bool) returns (out: Outcome<Response>)
    ensures out == Complete(if checkModified then IsNotModified(lib, Some(requestHeaders), Some(hs)) else Return(false),
                            status, verb, hs, content)
  {
    if checkModified {
      var decision := IsNotModified(lib, Some(requestHeaders), Some(hs));
      if decision.Raise? {
        return Raise(decision.error);
      }
      if decision.value {
        return Return(Response(304, Some(FilterNotModified(hs)), None));
      }
    }
    if verb == "HEAD" {
      return Return(Response(status, Some(hs), None));
    }
    var chunks := FileWriter(content, CHUNK_SIZE);
    return Return(Response(status, Some(hs), Some(Stream(chunks))));
  }

  // ---------------------------------------------------------------- properties

  /** A response without an entity tag matches a request without `if-none-match`: `None == None`. */
  lemma AbsentTagsMatch(lib: Library, requestHeaders: seq<Header>, responseHeaders: seq<Header>)
    requires Lookup(responseHeaders, ETAG).None? && Lookup(requestHeaders, IF_NONE_MATCH).None?
    ensures IsNotModified(lib, Some(requestHeaders), Some(responseHeaders)) == Return(true)
  {
  }

  /**
   * Without a header under the misspelled name the decision is the tag
   * comparison alone: `if-modified-since` is never read.
   */
  lemma DateBranchNeedsMisspelledName(lib: Library, lib': Library, requestHeaders: seq<Header>, responseHeaders: seq<Header>)
    requires !Truthy(Lookup(requestHeaders, MISSPELLED_IF_MODIFIED_SINCE))
    ensures IsNotModified(lib, Some(requestHeaders), Some(responseHeaders))
            == IsNotModified(lib', Some(requestHeaders), Some(responseHeaders))
            == Return(Lookup(responseHeaders, ETAG) == Lookup(requestHeaders, IF_NONE_MATCH))
  {
  }

  /**
   * The misspelled name in action: a request whose only header is
   * `if-modified-since` set to the file's own `last-modified` date is
   * answered 200 by this copy, while the newer copy answers 304.
   */
  lemma IfModifiedSinceIgnored(lib: Library, offset: int, path: string, mtime: nat, size: nat)
    requires DatesRoundTrip(lib, offset) && lib.formatDate(mtime) != ""
    ensures var requestHeaders := [Header(IF_MODIFIED_SINCE, Utf8(lib.formatDate(mtime)))];
      var hs := GeneratedHeaders(lib, path, mtime, size, None, None);
      && IsNotModified(lib, Some(requestHeaders), Some(hs)) == Return(false)
      && FileStreaming.IsNotModified(lib, Some(requestHeaders), Some(hs)) == Return(true)
  {
    var requestHeaders := [Header(IF_MODIFIED_SINCE, Utf8(lib.formatDate(mtime)))];
    var hs := GeneratedHeaders(lib, path, mtime, size, None, None);
    GeneratedHeadersOrder(lib, path, mtime, size, None, None);
    assert Lookup(requestHeaders, IF_NONE_MATCH).None?;
    assert Lookup(requestHeaders, MISSPELLED_IF_MODIFIED_SINCE).None?;
    LookupAt(requestHeaders, 0, IF_MODIFIED_SINCE);
    FileStreaming.DateDecision(lib, offset, requestHeaders, hs, mtime, mtime);
  }

  /** Apart from the conditional check, both copies answer alike. */
  lemma SameAsNewerWithoutCheck(lib: Library, fs: Fs, verb: string, requestHeaders: Option<seq<Header>>, status: int,
                                path: string, headers: seq<Header>, contentType: Option<string>, filename: Option<string>)
    ensures FileResponseSpec(lib, fs, verb, requestHeaders, status, path, headers, contentType, filename, false)
            == FileStreaming.FileResponseSpec(lib, fs, verb, requestHeaders, status, path, headers, contentType, filename, false)
  {
  }

  /** A non-empty caller list for a regular file gains exactly the 4 or 5 generated headers at its end. */
  lemma HeadersAfterGrowth(lib: Library, fs: Fs, path: string, headers: seq<Header>,
                           contentType: Option<string>, filename: Option<string>)
    requires IsRegularFile(fs, path) && headers != []
    ensures var after := HeadersAfter(lib, fs, path, headers, contentType, filename);
      && |after| == |headers| + (if filename.Some? then 5 else 4)
      && after[..|headers|] == headers
      && after[|headers|].name == CONTENT_TYPE && after[|headers| + 3].name == ETAG
  {
    GeneratedHeadersOrder(lib, path, fs[path].mtime, |fs[path].content|, contentType, filename);
  }
}
