/**
 * `src/bareasgi_static/static_files.py`: the older handler without a route
 * variable. It always serves the request's own path, and appends the index
 * file name only to a path that ends in `/`.
 */
module LegacyStaticFiles {
  import opened Http
  import opened FileSystem
  import opened PosixPath
  import opened Sandbox
  import opened LegacyFileStreaming
  import opened ProviderCommon

  /** The path `StaticFiles` resolves: the index rule without the empty-path case. */
  function FilesPath(indexFilename: Option<string>, req: Request): (p: string)
    ensures EndsWith(req.path, "/") && TruthyString(indexFilename) ==> p == req.path + indexFilename.value
    ensures !(EndsWith(req.path, "/") && TruthyString(indexFilename)) ==> p == req.path
  {
    if EndsWith(req.path, "/") && TruthyString(indexFilename) then req.path + indexFilename.value else req.path
  }

  /** A call gets past the method and traversal tests. */
  predicate ReachesFlag(directory: string, indexFilename: Option<string>, req: Request)
  {
    IsReadMethod(req.verb) && Resolve(directory, FilesPath(indexFilename, req)).Some?
  }

  /** The answer of `StaticFiles.__call__` given whether the directory was already checked. */
  function Handle(directory: string, indexFilename: Option<string>, checked: bool, fs: Fs, lib: Library,
                  req: Request): Outcome<Response>
  {
    if !IsReadMethod(req.verb) then Return(METHOD_NOT_ALLOWED)
    else
      match Resolve(directory, FilesPath(indexFilename, req))
      case None => Return(NOT_FOUND)
      case Some(rooted) =>
        if !checked && LegacyRootCheck(fs, directory).Some? then Raise(LegacyRootCheck(fs, directory).value)
        else if !IsRegularFile(fs, rooted) then Return(NOT_FOUND)
        else FileResponseSpec(lib, fs, req.verb, Some(req.headers), 200, rooted, [], None, None, true)
  }

  /** `StaticFiles`: the served directory, the index name and the once-only flag. */
  class StaticFiles {
    const directory: string
    const indexFilename: Option<string>
    var configChecked: bool
    /** How many times this object has examined its root. */
    ghost var rootStats: nat

    /** The flag is set exactly when the root has been examined, which happens once. */
    ghost predicate Valid()
      reads this
    {
      rootStats == if configChecked then 1 else 0
    }

    /** The assignments of `__init__` once the directory check has passed. */
    constructor (directory: string, indexFilename: Option<string>)
      ensures this.directory == directory && this.indexFilename == indexFilename && !configChecked
      ensures Valid() && rootStats == 0
    {
      this.directory := directory;
      this.configChecked := false;
      this.rootStats := 0;
      this.indexFilename := indexFilename;
    }

    /** `__init__`: raises when `check_dir` is set and the directory is not one. */
    static method New(fs: Fs, directory: string, checkDir: bool, indexFilename: Option<string>)
      returns (r: Outcome<StaticFiles>)
      ensures r.Raise? <==> checkDir && !IsDir(fs, directory)
      ensures r.Raise? ==> r.error == RuntimeError("Directory '" + directory + "' does not exist")
      ensures r.Return? ==> fresh(r.value) && r.value.directory == directory
                            && r.value.indexFilename == indexFilename && !r.value.configChecked
                            && r.value.Valid() && r.value.rootStats == 0
    {
      var failure := FolderCheck(fs, directory, checkDir);
      if failure.Some? {
        return Raise(failure.value);
      }
      var h := new StaticFiles(directory, indexFilename);
      return Return(h);
    }

    /** `__call__`: the answer is Handle's, and the flag is set by every call that reaches it. */
    method Call(fs: Fs, lib: Library, req: Request) returns (out: Outcome<Response>)
      requires Valid()
      modifies this
      ensures Valid() && rootStats <= 1
      ensures rootStats == old(rootStats) + (if !old(configChecked) && ReachesFlag(directory, indexFilename, req) then 1 else 0)
      ensures out == Handle(directory, indexFilename, old(configChecked), fs, lib, req)
      ensures configChecked == (old(configChecked) || ReachesFlag(directory, indexFilename, req))
    {
      if !IsReadMethod(req.verb) {
        return Return(METHOD_NOT_ALLOWED);
      }
      var path := req.path;
      if EndsWith(path, "/") && TruthyString(indexFilename) {
        path := path + indexFilename.value;
      }
      var relativePath := RelativePath(path);
      if StartsWith(relativePath, "..") {
        return Return(NOT_FOUND);
      }
      var rootedPath := Join(directory, relativePath);
      assert Resolve(directory, path) == Some(rootedPath);
      var checkDirectory: Option<string>;
      if configChecked {
        checkDirectory := None;
      } else {
        checkDirectory := Some(directory);
        configChecked := true;
        rootStats := rootStats + 1;
      }
      if checkDirectory.Some? {
        var failure := LegacyRootCheck(fs, checkDirectory.value);
        if failure.Some? {
          return Raise(failure.value);
        }
      }
      if !IsRegularFile(fs, rootedPath) {
        return Return(NOT_FOUND);
      }
      out := FileResponse(lib, fs, req.verb, req.headers, 200, rootedPath, null, None, None, true);
    }
  }

  // ---------------------------------------------------------------- properties

  /**
   * The empty path is not indexed here, where the providers index it: the
   * same request resolves to the directory itself rather than to the
   * index file.
   */
  lemma EmptyPathNotIndexed(req: Request, indexFilename: string)
    requires req.path == "" && Ordinary(indexFilename) && NoSep(indexFilename)
    ensures FilesPath(Some(indexFilename), req) == ""
    ensures Components(FilesPath(Some(indexFilename), req)) == []
    ensures RequestPath(Config("", None, Some(indexFilename)), req) == indexFilename
    ensures Components(RequestPath(Config("", None, Some(indexFilename)), req)) == [indexFilename]
  {
    assert Split("") == [""];
    assert "" + indexFilename == indexFilename;
    SplitNoSep(indexFilename);
    NormFromOrdinary([], [indexFilename], false);
  }

  /** A method other than GET or HEAD gets 405 and leaves the flag alone. */
  lemma OtherMethodsRefused(directory: string, indexFilename: Option<string>, checked: bool, fs: Fs, lib: Library,
                            req: Request)
    requires req.verb != "GET" && req.verb != "HEAD"
    ensures Handle(directory, indexFilename, checked, fs, lib, req) == Return(METHOD_NOT_ALLOWED)
    ensures !ReachesFlag(directory, indexFilename, req)
  {
  }

  /** A refused path gets 404 whatever the filesystem holds, and does not reach the flag. */
  lemma TraversalNotFound(directory: string, indexFilename: Option<string>, checked: bool, fs: Fs, fs': Fs,
                          lib: Library, req: Request)
    requires IsReadMethod(req.verb) && Escapes(FilesPath(indexFilename, req))
    ensures Handle(directory, indexFilename, checked, fs, lib, req) == Return(NOT_FOUND)
    ensures Handle(directory, indexFilename, checked, fs', lib, req) == Return(NOT_FOUND)
    ensures !ReachesFlag(directory, indexFilename, req)
  {
  }

  /** Past the directory check, a missing or non-regular target gets 404. */
  lemma MissingTargetNotFound(directory: string, indexFilename: Option<string>, checked: bool, fs: Fs, lib: Library,
                              req: Request)
    requires ReachesFlag(directory, indexFilename, req) && (checked || RootUsable(fs, directory))
    requires !IsRegularFile(fs, Resolve(directory, FilesPath(indexFilename, req)).value)
    ensures Handle(directory, indexFilename, checked, fs, lib, req) == Return(NOT_FOUND)
  {
  }

  /**
   * Past the directory check, every answer other than 404 and 405 is the
   * older `file_response` (status 200, check on) of a regular file under
   * the directory.
   */
  lemma ServedOnlyUnderDirectory(directory: string, indexFilename: Option<string>, checked: bool, fs: Fs, lib: Library,
                                 req: Request)
    requires checked || RootUsable(fs, directory)
    requires Handle(directory, indexFilename, checked, fs, lib, req) != Return(NOT_FOUND)
    requires Handle(directory, indexFilename, checked, fs, lib, req) != Return(METHOD_NOT_ALLOWED)
    ensures ReachesFlag(directory, indexFilename, req)
    ensures var rooted := Resolve(directory, FilesPath(indexFilename, req)).value;
      && IsRegularFile(fs, rooted)
      && Segments(rooted) == Segments(directory) + Components(FilesPath(indexFilename, req))
      && Handle(directory, indexFilename, checked, fs, lib, req)
         == FileResponseSpec(lib, fs, req.verb, Some(req.headers), 200, rooted, [], None, None, true)
  {
    ResolvedUnderRoot(directory, FilesPath(indexFilename, req));
  }

  /** Every accepted request path stays under the served directory. */
  lemma ServedUnderDirectory(directory: string, indexFilename: Option<string>, checked: bool, fs: Fs, lib: Library,
                             req: Request)
    requires ReachesFlag(directory, indexFilename, req)
    ensures var rooted := Resolve(directory, FilesPath(indexFilename, req)).value;
      && Segments(rooted) == Segments(directory) + Components(FilesPath(indexFilename, req))
      && (forall i :: 0 <= i < |Components(FilesPath(indexFilename, req))| ==> Ordinary(Components(FilesPath(indexFilename, req))[i]))
  {
    ResolvedUnderRoot(directory, FilesPath(indexFilename, req));
  }

  /** On the call that checks it, an unusable directory raises; once checked it is not consulted. */
  lemma DirectoryCheckedOnce(directory: string, indexFilename: Option<string>, fs: Fs, fs': Fs, lib: Library, req: Request)
    requires ReachesFlag(directory, indexFilename, req)
    requires SameExcept(fs, fs', directory)
    ensures !RootUsable(fs, directory) ==> Handle(directory, indexFilename, false, fs, lib, req).Raise?
    ensures Handle(directory, indexFilename, true, fs, lib, req) == Handle(directory, indexFilename, true, fs', lib, req)
  {
    ResolvedExtendsRoot(directory, FilesPath(indexFilename, req));
  }

  /** Per call of a run, whether it reaches the flag. */
  function ReachedFlags(directory: string, indexFilename: Option<string>, reqs: seq<Request>): (r: seq<bool>)
    ensures |r| == |reqs| && forall i :: 0 <= i < |reqs| ==> r[i] == ReachesFlag(directory, indexFilename, reqs[i])
  {
    seq(|reqs|, i requires 0 <= i < |reqs| => ReachesFlag(directory, indexFilename, reqs[i]))
  }

  /** Over any run of calls the directory is examined at most once. */
  lemma DirectoryStatedOnce(directory: string, indexFilename: Option<string>, checked: bool, reqs: seq<Request>)
    ensures RootStats(checked, ReachedFlags(directory, indexFilename, reqs)) <= 1
    ensures checked ==> RootStats(checked, ReachedFlags(directory, indexFilename, reqs)) == 0
  {
    RootStatedAtMostOnce(checked, ReachedFlags(directory, indexFilename, reqs));
  }
}
