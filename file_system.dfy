/**
 * The filesystem as the handlers see it through `stat`, and the parts of
 * Python's standard library whose internals the core does not define.
 */
module FileSystem {
  import opened Http

  /** What `stat` reports for a path that exists. */
  datatype Node =
    | Regular(content: Bytes, mtime: nat)
    | Directory
    | Link
    | Other

  /** A path is missing exactly when it is not a key. */
  type Fs = map<string, Node>

  /** `stat.S_ISREG` of an existing path. */
  predicate IsRegularFile(fs: Fs, path: string)
  {
    path in fs && fs[path].Regular?
  }

  /** `os.path.isdir`. */
  predicate IsDir(fs: Fs, path: string)
  {
    path in fs && fs[path].Directory?
  }

  /** The root test of the handlers: the root exists and is a directory or a link. */
  predicate RootUsable(fs: Fs, root: string)
  {
    root in fs && (fs[root].Directory? || fs[root].Link?)
  }

  /** The two filesystems differ at most at `path`. */
  ghost predicate SameExcept(fs: Fs, fs': Fs, path: string)
  {
    forall p :: p != path ==> (p in fs <==> p in fs') && (p in fs ==> fs[p] == fs'[p])
  }

  /**
   * The library functions the core calls and does not define, as total
   * functions: `hashlib.md5(key).hexdigest()`, `mimetypes.guess_type(name)[0]`,
   * `email.utils.formatdate(t, usegmt=True)` and the date parse of an
   * `If-Modified-Since` or `Last-Modified` value to whole seconds (None when
   * the text is not a date).
   */
  datatype Library = Library(
    md5HexDigest: Bytes -> string,
    guessType: string -> Option<string>,
    formatDate: nat -> string,
    parseDate: Bytes -> Option<int>)

  /**
   * The date parser reads back what the date formatter writes, shifted by a
   * fixed `offset`: `formatdate(t, usegmt=True)` writes GMT, and `mktime`
   * reads the parsed date as local time, so on a host `offset` seconds east
   * of UTC the parse gives `t - offset`.
   */
  ghost predicate DatesRoundTrip(lib: Library, offset: int)
  {
    forall t: nat {:trigger lib.formatDate(t)} :: lib.parseDate(Utf8(lib.formatDate(t))) == Some(t as int - offset)
  }
}
