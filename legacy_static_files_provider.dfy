/**
 * `src/bareasgi_static/static_files_provider.py`, the older copy: the same
 * path rules as the newer provider, but an unusable root raises on the
 * call that checks it, and files are answered by the older `file_response`.
 */
module LegacyProvider {
  import opened Http
  import opened FileSystem
  import opened PosixPath
  import opened Sandbox
  import opened StreamingCommon
  import opened LegacyFileStreaming
  import opened ProviderCommon
  import Provider

  /**
   * The answer of `__call__` given whether the root was already checked:
   * 405, 404 for a traversal, the root check's RuntimeError on the call that
   * checks an unusable root, 404 for a missing or non-regular target, and
   * otherwise the file with status 200 and the conditional check on.
   */
  function Handle(cfg: Config, checked: bool, fs: Fs, lib: Library, req: Request): Outcome<Response>
  {
    if !IsReadMethod(req.verb) then Return(METHOD_NOT_ALLOWED)
    else
      match Resolve(cfg.sourceFolder, RequestPath(cfg, req))
      case None => Return(NOT_FOUND)
      case Some(rooted) =>
        if !checked && LegacyRootCheck(fs, cfg.sourceFolder).Some? then Raise(LegacyRootCheck(fs, cfg.sourceFolder).value)
        else if !IsRegularFile(fs, rooted) then Return(NOT_FOUND)
        else FileResponseSpec(lib, fs, req.verb, Some(req.headers), 200, rooted, [], None, None, true)
  }

  /** The older `StaticFilesProvider`. */
  class StaticFilesProvider {
    const sourceFolder: string
    const pathVariable: Option<string>
    const indexFilename: Option<string>
    var configChecked: bool
    /** How many times this object has examined its root. */
    ghost var rootStats: nat

    /** The flag is set exactly when the root has been examined, which happens once. */
    ghost predicate Valid()
      reads this
    {
      rootStats == if configChecked then 1 else 0
    }

    function Cfg(): Config
    {
      Config(sourceFolder, pathVariable, indexFilename)
    }

    /** The assignments of `__init__` once the folder check has passed. */
    constructor (sourceFolder: string, pathVariable: Option<string>, indexFilename: Option<string>)
      ensures this.sourceFolder == sourceFolder && this.pathVariable == pathVariable
      ensures this.indexFilename == indexFilename && !configChecked
      ensures Valid() && rootStats == 0
    {
      this.sourceFolder := sourceFolder;
      this.pathVariable := pathVariable;
      this.configChecked := false;
      this.rootStats := 0;
      this.indexFilename := indexFilename;
    }

    /** `__init__`: raises when the check is on and the folder is not a directory. */
    static method New(fs: Fs, sourceFolder: string, pathVariable: Option<string>, checkSourceFolder: bool,
                      indexFilename: Option<string>) returns (r: Outcome<StaticFilesProvider>)
      ensures r.Raise? <==> checkSourceFolder && !IsDir(fs, sourceFolder)
      ensures r.Raise? ==> r.error == RuntimeError("Directory '" + sourceFolder + "' does not exist")
      ensures r.Return? ==> fresh(r.value) && r.value.Cfg() == Config(sourceFolder, pathVariable, indexFilename)
                            && !r.value.configChecked
                            && r.value.Valid() && r.value.rootStats == 0
    {
      var failure := FolderCheck(fs, sourceFolder, checkSourceFolder);
      if failure.Some? {
        return Raise(failure.value);
      }
      var p := new StaticFilesProvider(sourceFolder, pathVariable, indexFilename);
      return Return(p);
    }

    /** `__call__`: the answer is Handle's, and the flag is set by every call that reaches it. */
    method Call(fs: Fs, lib: Library, req: Request) returns (out: Outcome<Response>)
      requires Valid()
      modifies this
      ensures Valid() && rootStats <= 1
      ensures rootStats == old(rootStats) + (if !old(configChecked) && Reaches(Cfg(), req) then 1 else 0)
      ensures out == Handle(Cfg(), old(configChecked), fs, lib, req)
      ensures configChecked == (old(configChecked) || Reaches(Cfg(), req))
    {
      if !IsReadMethod(req.verb) {
        return Return(METHOD_NOT_ALLOWED);
      }
      var path := PathOf(Cfg(), req);
      var relativePath := RelativePath(path);
      if StartsWith(relativePath, "..") {
        return Return(NOT_FOUND);
      }
      var rootedPath := Join(sourceFolder, relativePath);
      assert Resolve(sourceFolder, path) == Some(rootedPath);
      var checkDirectory: Option<string>;
      if configChecked {
        checkDirectory := None;
      } else {
        checkDirectory := Some(sourceFolder);
        configChecked := true;
        rootStats := rootStats + 1;
      }
      if checkDirectory.Some? {
        var failure := LegacyRootCheck(fs, checkDirectory.value);
        if failure.Some? {
          return Raise(failure.value);
        }
      }
      if !IsRegularFile(fs, rootedPath) {
        return Return(NOT_FOUND);
      }
      out := FileResponse(lib, fs, req.verb, req.headers, 200, rootedPath, null, None, None, true);
    }
  }

  // ---------------------------------------------------------------- properties

  /**
   * On the call that checks it, a missing root raises "does not exist" and
   * a root that is neither a directory nor a link raises "is not a
   * directory"; a later call with the same root answers normally.
   */
  lemma BadRootRaisesOnce(cfg: Config, fs: Fs, lib: Library, req: Request)
    requires Reaches(cfg, req) && !RootUsable(fs, cfg.sourceFolder)
    ensures cfg.sourceFolder !in fs ==>
      Handle(cfg, false, fs, lib, req) == Raise(RuntimeError("directory '" + cfg.sourceFolder + "' does not exist."))
    ensures cfg.sourceFolder in fs ==>
      Handle(cfg, false, fs, lib, req) == Raise(RuntimeError("path '" + cfg.sourceFolder + "' is not a directory."))
    ensures Handle(cfg, true, fs, lib, req).Return? || Handle(cfg, true, fs, lib, req).error == UnparseableDate
  {
    var rooted := Resolve(cfg.sourceFolder, RequestPath(cfg, req)).value;
    if IsRegularFile(fs, rooted) {
      var node := fs[rooted];
      var hs := GeneratedHeaders(lib, rooted, node.mtime, |node.content|, None, None);
      assert [] + hs == hs;
    }
  }

  /** A method other than GET or HEAD gets 405 and leaves the flag alone. */
  lemma OtherMethodsRefused(cfg: Config, checked: bool, fs: Fs, lib: Library, req: Request)
    requires req.verb != "GET" && req.verb != "HEAD"
    ensures Handle(cfg, checked, fs, lib, req) == Return(METHOD_NOT_ALLOWED)
    ensures !Reaches(cfg, req)
  {
  }

  /** A traversal is answered 404 without looking at the filesystem. */
  lemma TraversalNotFound(cfg: Config, checked: bool, fs: Fs, fs': Fs, lib: Library, req: Request)
    requires IsReadMethod(req.verb) && Escapes(RequestPath(cfg, req))
    ensures Handle(cfg, checked, fs, lib, req) == Handle(cfg, checked, fs', lib, req) == Return(NOT_FOUND)
    ensures !Reaches(cfg, req)
  {
  }

  /**
   * With a usable root the two copies of the provider differ only in
   * their conditional check: a request that carries neither
   * `if-modified-since` nor the misspelled name gets the same answer from
   * both.
   */
  lemma AgreesWithNewerOnUsableRoot(cfg: Config, checked: bool, fs: Fs, lib: Library, req: Request)
    requires RootUsable(fs, cfg.sourceFolder)
    requires var rooted := Resolve(cfg.sourceFolder, RequestPath(cfg, req));
      rooted.Some? && IsRegularFile(fs, rooted.value) ==>
      !Truthy(Lookup(req.headers, MISSPELLED_IF_MODIFIED_SINCE))
      && !Truthy(Lookup(req.headers, IF_MODIFIED_SINCE))
    ensures Handle(cfg, checked, fs, lib, req) == Provider.Handle(cfg, checked, fs, lib, req)
  {
    var rooted := Resolve(cfg.sourceFolder, RequestPath(cfg, req));
    if IsReadMethod(req.verb) && rooted.Some? && IsRegularFile(fs, rooted.value) {
      var node := fs[rooted.value];
      var g := GeneratedHeaders(lib, rooted.value, node.mtime, |node.content|, None, None);
      GeneratedHeadersOrder(lib, rooted.value, node.mtime, |node.content|, None, None);
      assert [] + g == g;
    }
  }

  /** Past the root check, a missing or non-regular target gets 404, whatever the request's headers. */
  lemma MissingTargetNotFound(cfg: Config, checked: bool, fs: Fs, lib: Library, req: Request)
    requires Reaches(cfg, req) && (checked || RootUsable(fs, cfg.sourceFolder))
    requires !IsRegularFile(fs, Resolve(cfg.sourceFolder, RequestPath(cfg, req)).value)
    ensures Handle(cfg, checked, fs, lib, req) == Return(NOT_FOUND)
  {
  }

  /**
   * Past the root check, every answer other than 404 and 405 is the older
   * `file_response` (status 200, check on) of a regular file under the root.
   */
  lemma ServedOnlyUnderRoot(cfg: Config, checked: bool, fs: Fs, lib: Library, req: Request)
    requires checked || RootUsable(fs, cfg.sourceFolder)
    requires Handle(cfg, checked, fs, lib, req) != Return(NOT_FOUND)
    requires Handle(cfg, checked, fs, lib, req) != Return(METHOD_NOT_ALLOWED)
    ensures Reaches(cfg, req)
    ensures var rooted := Resolve(cfg.sourceFolder, RequestPath(cfg, req)).value;
      && IsRegularFile(fs, rooted)
      && Segments(rooted) == Segments(cfg.sourceFolder) + Components(RequestPath(cfg, req))
      && Handle(cfg, checked, fs, lib, req) == FileResponseSpec(lib, fs, req.verb, Some(req.headers), 200, rooted, [], None, None, true)
  {
    ResolvedUnderRoot(cfg.sourceFolder, RequestPath(cfg, req));
  }
}
