# bareASGI-static in Dafny

This project models the request-handling core of bareASGI-static. The library serves static files for the bareASGI web framework. It comes in two copies:

- the newer copy, `bareasgi_static/`, built on `HttpRequest`/`HttpResponse`;
- the older copy, `src/bareasgi_static/`, which answers with `(status, headers, body)` tuples.

The model covers four parts of each copy.

1. **Path resolution and sandboxing.** The handler chooses the request path, which is either the request's own path or `/` plus the route match. It appends an index file name to a directory path. It splits the path on `/`, joins the parts and normalises them as POSIX `os.path.normpath` does. It refuses a result whose text starts with `..` and joins the rest onto the served root.
2. **The conditional request.** The entity tag is a hash of the modification time and the size. `_is_not_modified` decides a request in this order:
   - the `if-none-match` comparison;
   - the `if-modified-since` test;
   - a date comparison.

   A 304 response carries only the headers allowed by section 4.1 of RFC 7232.
3. **`file_response`.** It builds the header list in a fixed order with a content-type fallback chain, sends no body for HEAD, and maps errors to fixed 500 responses. The newer copy works on a copy of the caller's header list. The older copy appends to the caller's list itself.
4. **`file_writer` and the once-only root check.** `file_writer` streams a file in 4096-byte chunks. The `config_checked` flag makes a handler examine its root at most once. When the root check fails, the newer copy answers 404 and the older copy raises `RuntimeError`.

## Modules

| Module | File |
|---|---|
| `Http` | bytes, UTF-8 and decimal encodings, headers with first-match `Lookup`, requests, responses, escaping exceptions (`Outcome`) |
| `PosixPath` | `str.split('/')`, `os.path.join` and `os.path.normpath` on POSIX, as component lists |
| `Sandbox` | the normalise-and-reject step and the proof that accepted paths stay under the root |
| `FileSystem` | `stat` as a map from path to node, and the library functions the core calls (MD5, `guess_type`, `formatdate`, date parsing) as a `Library` value |
| `StreamingCommon` | what both `file_streaming.py` copies share: `file_writer`, `_stat_to_etag`, the generated headers, the 304 filter |
| `FileStreaming` | the newer `_is_not_modified` and `file_response` |
| `LegacyFileStreaming` | the older `_find_header`, `_is_not_modified` with its misspelled key, and the mutating `file_response` |
| `ProviderCommon` | what both providers share: path choice, the index rule, `add_static_file_provider`, the root checks, and the count of root checks |
| `Provider` | the newer `StaticFilesProvider` |
| `LegacyProvider` | the older `StaticFilesProvider` |
| `LegacyStaticFiles` | the older `StaticFiles` |

Imperative source stays imperative in the model:

- Each handler is a class with a mutable `configChecked` field. Its `Call` method is proved equal to a `Handle` function of the old flag, and its new flag value is stated outright.
- `file_writer` is a `while moreBody` loop, proved equal to the function `ChunksOf`.
- `_find_header` is a loop with an early return, proved equal to `Lookup`.
- The older `file_response` appends to a `HeaderList` object it `modifies`.
- The newer `file_response` has no `modifies` clause, so the verifier itself guarantees that it never changes the caller's list.

`config_checked` is set by the first call that passes the method and traversal tests. A 405 or traversal answer returns before the flag is read (bareasgi_static/static_files_provider.py:47-73, src/bareasgi_static/static_files_provider.py:44-62, src/bareasgi_static/static_files.py:27-44). Each handler object also carries a ghost count of the root checks it has made, which its `Call` keeps equal to 1 once the flag is set and 0 before.

## Model

| member | source | states |
|---|---|---|
| Http.Lookup | src/bareasgi_static/file_streaming.py:39-43 | the lookup is None exactly when no header has the name |
| Http.LookupFirstMatch | src/bareasgi_static/file_streaming.py:39-43 | a value found belongs to the first header with that name |
| Http.LookupAppend | src/bareasgi_static/file_streaming.py:39-43 | a lookup in caller headers followed by generated ones finds the caller's value first |
| Http.DecimalRoundTrip | bareasgi_static/file_streaming.py:130 | the decimal text of `str(st_size)` reads back as the size |
| Http.DecimalInjective | bareasgi_static/file_streaming.py:37 | distinct numbers have distinct decimal texts |
| LegacyFileStreaming.FindHeader | src/bareasgi_static/file_streaming.py:39-43 | the loop returns the value of the first pair named `tag`, or None exactly when no pair has that name |
| Sandbox.RelativePathShape | bareasgi_static/static_files_provider.py:63 | the relative path is its normal components joined by `/`, or `.` when there are none; every `..` precedes all other components |
| Sandbox.EscapesIff | bareasgi_static/static_files_provider.py:64-65 | the text test refuses exactly the paths whose first component starts with `..`, including names such as `..foo` |
| Sandbox.AcceptedHasNoParent | bareasgi_static/static_files_provider.py:63-65 | an accepted path has no `..`, `.` or empty component |
| Sandbox.ResolvedUnderRoot | bareasgi_static/static_files_provider.py:63-67 | the joined path normalises to the root's components followed by the request's ordinary components |
| Sandbox.ResolvedExtendsRoot | bareasgi_static/static_files_provider.py:67 | the joined path is the root's text extended, never the root itself |
| Sandbox.ParentFirstRefused | bareasgi_static/static_files_provider.py:63-65 | a path starting `/../` is always refused |
| Sandbox.IndexIsLastComponent | bareasgi_static/static_files_provider.py:60-63 | a plain index name (not empty, no `/`, not `.` or `..`) appended to an empty path or one ending in `/` becomes the last component served |
| StreamingCommon.FileWriter | bareasgi_static/file_streaming.py:79-84 | the read loop yields exactly `ChunksOf(data, chunkSize)` |
| StreamingCommon.ChunksConcat | tests/test_file_streaming.py:10-15 | the chunks concatenate to the file's bytes |
| StreamingCommon.ChunksCount | bareasgi_static/file_streaming.py:80-84 | there are `len / size + 1` chunks |
| StreamingCommon.ChunksFull | bareasgi_static/file_streaming.py:80-84 | every chunk but the last holds `size` bytes |
| StreamingCommon.ChunksLast | bareasgi_static/file_streaming.py:80-84 | the last chunk is shorter than `size`, and empty exactly when the length is a multiple of `size` |
| StreamingCommon.EtagKeyInjective | bareasgi_static/file_streaming.py:36-39 | distinct (mtime, size) pairs give distinct hash inputs |
| StreamingCommon.ContentTypeSource | bareasgi_static/file_streaming.py:126-127 | the content type is the caller's, else the non-empty guess for `filename or path`, else `text/plain` |
| StreamingCommon.ContentLengthIsSize | bareasgi_static/file_streaming.py:130 | `content-length` carries the decimal size, which reads back as the size |
| StreamingCommon.GeneratedHeadersOrder | bareasgi_static/file_streaming.py:126-142 | the generated headers are content-type, content-length, last-modified, etag, then content-disposition `attachment; filename="<name>"` exactly when a name is given |
| StreamingCommon.FilterNotModifiedSpec | bareasgi_static/file_streaming.py:144-152 | the 304 list is a subsequence in the original order, keeps each allow-listed header as often as it occurs and drops every other header |
| StreamingCommon.FilterGenerated | bareasgi_static/file_streaming.py:26-33 | of the generated headers a 304 keeps only the entity tag |
| FileStreaming.IsNotModified | bareasgi_static/file_streaming.py:46-62 | the decision is `false` for a missing list; AssertionError exactly when `last-modified` is missing; `true` exactly on a tag match or a parsed `if-modified-since` at or after `last-modified`; `false` on a tag miss with `if-modified-since` absent or empty; UnparseableDate exactly when, past those tests, either date does not parse |
| FileStreaming.DateDecision | bareasgi_static/file_streaming.py:53-62 | for a date-only request the decision is `d >= mtime` in whole seconds, on a host at any fixed offset from UTC |
| FileStreaming.FileResponse | bareasgi_static/file_streaming.py:115-167 | the response is FileResponseSpec of the caller's items; without a `modifies` clause, the caller's list is unchanged |
| FileStreaming.FileResponseErrors | bareasgi_static/file_streaming.py:160-167 | a missing file gives 500 with the text message; a non-regular file gives a bare 500 |
| FileStreaming.FileResponseShape | bareasgi_static/file_streaming.py:144-158 | 304 only when checked and not modified, with the allow-listed headers and no body; otherwise the given status, the caller's headers plus the generated ones, and no body exactly for HEAD |
| FileStreaming.EtagRevalidation | bareasgi_static/file_streaming.py:144-152 | a matching `if-none-match` gives a 304 carrying the caller's allow-listed headers and the tag |
| FileStreaming.DateRevalidation | bareasgi_static/file_streaming.py:144-158 | with `if-modified-since: d` and no tag match, a 304 exactly when `d >= mtime`, and the full response otherwise, on a host at any fixed offset from UTC |
| FileStreaming.HeadMatchesGet | bareasgi_static/file_streaming.py:154-158 | HEAD gets GET's answer without the body |
| FileStreaming.FullResponseStreamsFile | bareasgi_static/file_streaming.py:157 | a response body is chunks that reproduce the file, all full but a short last one |
| LegacyFileStreaming.IsNotModified | src/bareasgi_static/file_streaming.py:46-56 | `false` for a missing list; `true` on an exact tag match whatever else the request carries; otherwise `false` without a header under the misspelled name; past that gate, the comparison `if-modified-since >= last-modified` when both parse, and UnparseableDate otherwise |
| LegacyFileStreaming.AbsentTagsMatch | src/bareasgi_static/file_streaming.py:49-52 | no tag and no `if-none-match` count as a match (`None == None`) |
| LegacyFileStreaming.DateBranchNeedsMisspelledName | src/bareasgi_static/file_streaming.py:53-54 | without the misspelled header, the date parser plays no part and the decision is the tag comparison |
| LegacyFileStreaming.IfModifiedSinceIgnored | src/bareasgi_static/file_streaming.py:53-56 | a request holding only `if-modified-since` equal to the file's date is not revalidated, where the newer copy revalidates it |
| LegacyFileStreaming.AppendGenerated | src/bareasgi_static/file_streaming.py:105-115 | the list object gains exactly the generated headers at its end |
| LegacyFileStreaming.FileResponse | src/bareasgi_static/file_streaming.py:96-125 | the response is FileResponseSpec of the caller's old items; a non-empty caller list for a regular file gains the generated headers; any other list is unchanged |
| LegacyFileStreaming.Respond | src/bareasgi_static/file_streaming.py:117-125 | the end of the older `file_response`: the date decision's error, a 304 with the allow-listed headers, or the status with every header and a body unless HEAD |
| LegacyFileStreaming.HeadersAfterGrowth | src/bareasgi_static/file_streaming.py:102-115 | a non-empty caller list grows by 4 or 5 entries, its old items first |
| LegacyFileStreaming.SameAsNewerWithoutCheck | src/bareasgi_static/file_streaming.py:117-125 | without `check_modified`, both copies give the same answer |
| ProviderCommon.WithIndex | bareasgi_static/static_files_provider.py:60-61 | the index is appended exactly when it is set and the path is empty or ends in `/` |
| ProviderCommon.RoutedPathIgnoresScopePath | bareasgi_static/static_files_provider.py:56-59 | with a path variable, the path is `/` plus the match, whatever the request's own path |
| ProviderCommon.IndexServed | bareasgi_static/static_files_provider.py:60-63 | a directory request with a plain index name resolves to that name as its last component |
| ProviderCommon.FolderCheck | bareasgi_static/static_files_provider.py:39-40 | the constructor raises `Directory '<folder>' does not exist` exactly when checking is on and the folder is not a directory |
| ProviderCommon.AddStaticFileProvider | bareasgi_static/static_files_provider.py:118-130 | raises the mount-point error exactly for "no leading `/` and a trailing `/`"; otherwise the folder check; the route is GET at `mount + "{rest:path}"`, with variable `rest` unless the mount is `/` |
| ProviderCommon.MountPointCheckTooWeak | bareasgi_static/static_files_provider.py:118-119 | `static` and `/static` are accepted as mount points |
| ProviderCommon.AddStaticFileProviderChecked | bareasgi_static/static_files_provider.py:118-119 | with the test the message states, every accepted mount starts and ends with `/` |
| ProviderCommon.LegacyRootCheck | src/bareasgi_static/static_files_provider.py:64-70 | no error exactly for a directory or a link; otherwise "does not exist" or "is not a directory" |
| ProviderCommon.RootStatedAtMostOnce | bareasgi_static/static_files_provider.py:69-73 | over any run of calls the root is examined at most once, exactly once if some call gets that far, and never once the flag is set |
| Provider.StaticFilesProvider.New | bareasgi_static/static_files_provider.py:39-44 | raises exactly when checking is on and the folder is not a directory; otherwise a fresh provider with the flag clear |
| ProviderCommon.PathOf | bareasgi_static/static_files_provider.py:56-61 | the path both providers compute with `+=` is RequestPath: the route match or the request path, then the index rule |
| Provider.StaticFilesProvider.Call | bareasgi_static/static_files_provider.py:46-91 | the answer is Handle of the old flag; the flag is set exactly when it was set or the call reached the check; the object's count of root checks grows by one exactly on that first reaching call and never passes 1 |
| Provider.OtherMethodsRefused | bareasgi_static/static_files_provider.py:47-52 | any method but GET and HEAD gets 405 `Method Not Allowed` and leaves the flag alone |
| Provider.ParentTraversalRefused | bareasgi_static/static_files_provider.py:63-65 | a path `/../…` gets 404 whatever the filesystem holds |
| Provider.ServedOnlyUnderRoot | bareasgi_static/static_files_provider.py:63-85 | every answer other than the 404 and 405 texts is `file_response` (status 200, check on) of a regular file under the root |
| Provider.RootIgnoredOnceChecked | bareasgi_static/static_files_provider.py:69-78 | once the flag is set, changing the root's entry changes no answer |
| Provider.UnusableRootNotFound | bareasgi_static/static_files_provider.py:75-78 | on the checking call, a root that is neither a directory nor a link gives 404 |
| Provider.MissingTargetNotFound | bareasgi_static/static_files_provider.py:80-91 | a missing or non-regular target gets the same 404 as a traversal |
| ProviderCommon.RootStatedOncePerProvider | bareasgi_static/static_files_provider.py:69-73 | one provider examines its root at most once over any run of requests, and never after its flag is set |
| LegacyProvider.StaticFilesProvider.New | src/bareasgi_static/static_files_provider.py:36-41 | raises exactly when checking is on and the folder is not a directory |
| LegacyProvider.StaticFilesProvider.Call | src/bareasgi_static/static_files_provider.py:43-81 | the answer is Handle of the old flag; the flag is set exactly when it was set or the call reached the check; the object's count of root checks grows by one exactly on that first reaching call and never passes 1 |
| LegacyProvider.BadRootRaisesOnce | src/bareasgi_static/static_files_provider.py:58-70 | on the checking call a missing root raises "does not exist" and a non-directory raises "is not a directory"; once checked the same request does not raise them |
| LegacyProvider.OtherMethodsRefused | src/bareasgi_static/static_files_provider.py:44-45 | a method other than GET or HEAD gets 405 and does not reach the flag |
| LegacyProvider.TraversalNotFound | src/bareasgi_static/static_files_provider.py:52-54 | a refused path gets 404 without any filesystem lookup |
| LegacyProvider.MissingTargetNotFound | src/bareasgi_static/static_files_provider.py:72-79 | past the root check, a missing or non-regular target gets 404 whatever the headers |
| LegacyProvider.ServedOnlyUnderRoot | src/bareasgi_static/static_files_provider.py:72-81 | past the root check, any answer other than 404 and 405 is `file_response` (200, check on) of a regular file under the root |
| LegacyProvider.AgreesWithNewerOnUsableRoot | src/bareasgi_static/static_files_provider.py:72-81 | with a usable root and no date headers, both providers give the same answer |
| LegacyStaticFiles.StaticFiles.New | src/bareasgi_static/static_files.py:18-23 | raises exactly when `check_dir` is set and the directory is not one; the flag starts clear |
| LegacyStaticFiles.StaticFiles.Call | src/bareasgi_static/static_files.py:26-63 | the answer is Handle of the old flag; the flag is set exactly when it was set or the call reached the check; the object's count of root checks grows by one exactly on that first reaching call and never passes 1 |
| LegacyStaticFiles.FilesPath | src/bareasgi_static/static_files.py:30-32 | the index is appended exactly when it is set and the path ends with `/` |
| LegacyStaticFiles.EmptyPathNotIndexed | src/bareasgi_static/static_files.py:30-32 | an empty path resolves to the directory itself, where the providers resolve it to the index |
| LegacyStaticFiles.ServedUnderDirectory | src/bareasgi_static/static_files.py:34-38 | an accepted path stays under the directory |
| LegacyStaticFiles.OtherMethodsRefused | src/bareasgi_static/static_files.py:27-28 | a method other than GET or HEAD gets 405 and does not reach the flag |
| LegacyStaticFiles.TraversalNotFound | src/bareasgi_static/static_files.py:34-36 | a refused path gets 404 whatever the filesystem holds, and does not reach the flag |
| LegacyStaticFiles.MissingTargetNotFound | src/bareasgi_static/static_files.py:54-60 | past the directory check, a missing or non-regular target gets 404 |
| LegacyStaticFiles.ServedOnlyUnderDirectory | src/bareasgi_static/static_files.py:54-63 | past the directory check, any answer other than 404 and 405 is `file_response` (200, check on) of a regular file under the directory |
| LegacyStaticFiles.DirectoryCheckedOnce | src/bareasgi_static/static_files.py:40-52 | the checking call raises for an unusable directory; after it, the directory's entry is not consulted |
| LegacyStaticFiles.DirectoryStatedOnce | src/bareasgi_static/static_files.py:40-44 | the directory is examined at most once over any run of calls |

## Left out

- MD5, `mimetypes.guess_type`, `email.utils.formatdate` and `parsedate` with `time.mktime` are fields of a `Library` value. The model does not define them.
  - A date that does not parse stands for the `TypeError` raised by `mktime(None)` in the newer copy (bareasgi_static/file_streaming.py:62), or by comparing `None` in the older one (`UnparseableDate`).
  - `DatesRoundTrip(lib, offset)` is the one assumption about them, and is stated where it is used. `formatdate` writes GMT and `mktime` reads local time, so parsing a formatted date gives it back shifted by the host's offset from UTC. The assumption takes that offset as fixed. An offset that changes during the year (daylight saving), and dates that fall on either side of such a change, are not modelled.
- The older copy hands `bytes` to `parsedate`. CPython's parser then raises, so that copy's date branch always raises. The model gives the older copy the same parser as the newer one.
- Modification times are whole seconds (`nat`). The float `st_mtime` and its text in the entity-tag key are not modelled.
- Async file I/O, file-handle lifetime and cancellation are not modelled. A file is read as one byte sequence. There is no race between `stat` and the read.
- Concurrent calls are not modelled. The flag is updated by sequential calls.
- Framework glue is not modelled: routing, `HttpResponse`, `text_writer` and the bareutils helpers. `header.find` is taken to have the same first-match behaviour as `_find_header`.
- bareasgi_static/static_files_provider.py:85 passes `request.scope` where `file_response` expects the request. The model passes the request's method and headers, and leaves out the attribute error this causes.
- `If-None-Match` is compared as exact bytes, as the code does. Weak comparison and lists (section 2.3.2 and section 3.2 of RFC 7232) are not in the code.
- `stat` errors other than FileNotFoundError are not modelled. A path that is not a key of the filesystem map counts as missing, so the model answers 404. The source lets such errors escape `__call__`, for example NotADirectoryError for `/a.txt/b` when `a.txt` is a regular file, or PermissionError. The source catches only FileNotFoundError, at bareasgi_static/static_files_provider.py:80-86, src/bareasgi_static/static_files_provider.py:72-75 and src/bareasgi_static/static_files.py:54-57.
- Paths follow POSIX `/` rules only. There are no Windows separators or drives.
- `os.path.isdir` is true for a `Directory` node only. The model does not follow links.
  - The handlers' `stat` test accepts a `Directory` or a `Link` node, as the code's `S_ISDIR or S_ISLNK` reads. That is the literal reading of the test.
  - `aiofiles.os.stat` follows symbolic links, so the real stat never reports a link. A linked directory reports as a directory, and a `Link` node stands for no real stat result.
  - The filesystem map does not resolve symbolic links or `.` components.
- StreamingCommon.FileWriter: the chunk size must be positive. Every call site uses the default of 4096. For other sizes the source behaves as follows, and the model covers neither case:
  - with a chunk size of 0, the loop at bareasgi_static/file_streaming.py:80-84 never ends and yields empty chunks;
  - with a negative size, `read(-1)` yields the whole file as one chunk.
- LegacyFileStreaming.FileResponse: the returned header list is stated as a value. When the caller's list is non-empty, the source returns that same list object, and the model does not capture this aliasing.
- setup.py, src/bareasgi_static/__init__.py, examples/ and the test are glue; the test's property is ChunksConcat.

## Findings

| source | as written | input that shows it | evidently intended | confidence | as-written member | corrected member |
|---|---|---|---|---|---|---|
| src/bareasgi_static/file_streaming.py:53 | the gate looks up the header name `if-modified-since" not in req_headers` | a request whose only header is `if-modified-since` set to the file's own `last-modified` date, with no `if-none-match` | gate on `if-modified-since`; the file is unchanged since that date, so the answer is 304 | not executed | LegacyFileStreaming.IfModifiedSinceIgnored | FileStreaming.IsNotModified |
| bareasgi_static/static_files_provider.py:118-119 | `not mount_point.startswith('/') and mount_point.endswith('/')` raises only for a mount with no leading `/` and a trailing one | mount point `static` is accepted and registers the template `static{rest:path}` | raise unless the mount point starts and ends with `/`. The error message says so, and the repository's `alt_mount_point` example mounts at `/ui/`. The docstring (line 115) and the comment (line 117) ask only for the leading `/`, and `static` fails that too | not executed | ProviderCommon.MountPointCheckTooWeak | ProviderCommon.AddStaticFileProviderChecked |
