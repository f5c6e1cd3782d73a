/**
 * `bareasgi_static/static_files_provider.py`, the newer copy: a provider
 * that refuses other methods, resolves the request path under its root,
 * checks the root once, and answers every failure with 404.
 */
module Provider {
  import opened Http
  import opened FileSystem
  import opened PosixPath
  import opened Sandbox
  import opened FileStreaming
  import opened ProviderCommon

  /**
   * The answer of `__call__` given whether the root was already checked:
   * 405 before any path work, 404 for a traversal, for an unusable root on
   * the call that checks it, and for a target that is missing or not a
   * regular file; otherwise the file answered with status 200 and the
   * conditional check on.
   */
  function Handle(cfg: Config, checked: bool, fs: Fs, lib: Library, req: Request): Outcome<Response>
  {
    if !IsReadMethod(req.verb) then Return(METHOD_NOT_ALLOWED)
    else
      match Resolve(cfg.sourceFolder, RequestPath(cfg, req))
      case None => Return(NOT_FOUND)
      case Some(rooted) =>
        if !checked && !RootUsable(fs, cfg.sourceFolder) then Return(NOT_FOUND)
        else if !IsRegularFile(fs, rooted) then Return(NOT_FOUND)
        else FileResponseSpec(lib, fs, req.verb, Some(req.headers), 200, rooted, [], None, None, true)
  }

  /** `StaticFilesProvider`: its configuration and the once-only `config_checked` flag. */
  class StaticFilesProvider {
    const sourceFolder: string
    const pathVariable: Option<string>
    const indexFilename: Option<string>
    var configChecked: bool
    /** How many times this object has examined its root. */
    ghost var rootStats: nat

    /** The flag is set exactly when the root has been examined, which happens once. */
    ghost predicate Valid()
      reads this
    {
      rootStats == if configChecked then 1 else 0
    }

    function Cfg(): Config
    {
      Config(sourceFolder, pathVariable, indexFilename)
    }

    /** The assignments of `__init__` once the folder check has passed. */
    constructor (sourceFolder: string, pathVariable: Option<string>, indexFilename: Option<string>)
      ensures this.sourceFolder == sourceFolder && this.pathVariable == pathVariable
      ensures this.indexFilename == indexFilename && !configChecked
      ensures Valid() && rootStats == 0
    {
      this.sourceFolder := sourceFolder;
      this.pathVariable := pathVariable;
      this.configChecked := false;
      this.rootStats := 0;
      this.indexFilename := indexFilename;
    }

    /** `__init__`: raises when the check is on and the folder is not a directory. */
    static method New(fs: Fs, sourceFolder: string, pathVariable: Option<string>, checkSourceFolder: bool,
                      indexFilename: Option<string>) returns (r: Outcome<StaticFilesProvider>)
      ensures r.Raise? <==> checkSourceFolder && !IsDir(fs, sourceFolder)
      ensures r.Raise? ==> r.error == RuntimeError("Directory '" + sourceFolder + "' does not exist")
      ensures r.Return? ==> fresh(r.value) && r.value.Cfg() == Config(sourceFolder, pathVariable, indexFilename)
                            && !r.value.configChecked
                            && r.value.Valid() && r.value.rootStats == 0
    {
      var failure := FolderCheck(fs, sourceFolder, checkSourceFolder);
      if failure.Some? {
        return Raise(failure.value);
      }
      var p := new StaticFilesProvider(sourceFolder, pathVariable, indexFilename);
      return Return(p);
    }

    /** `__call__`: the answer is Handle's, and the flag is set by every call that reaches it. */
    method Call(fs: Fs, lib: Library, req: Request) returns (out: Outcome<Response>)
      requires Valid()
      modifies this
      ensures Valid() && rootStats <= 1
      ensures rootStats == old(rootStats) + (if !old(configChecked) && Reaches(Cfg(), req) then 1 else 0)
      ensures out == Handle(Cfg(), old(configChecked), fs, lib, req)
      ensures configChecked == (old(configChecked) || Reaches(Cfg(), req))
    {
      if !IsReadMethod(req.verb) {
        return Return(METHOD_NOT_ALLOWED);
      }
      var path := PathOf(Cfg(), req);
      var relativePath := RelativePath(path);
      if StartsWith(relativePath, "..") {
        return Return(NOT_FOUND);
      }
      var rootedPath := Join(sourceFolder, relativePath);
      assert Resolve(sourceFolder, path) == Some(rootedPath);
      var checkDirectory: Option<string>;
      if configChecked {
        checkDirectory := None;
      } else {
        checkDirectory := Some(sourceFolder);
        configChecked := true;
        rootStats := rootStats + 1;
      }
      if checkDirectory.Some? && !RootUsable(fs, checkDirectory.value) {
        return Return(NOT_FOUND);
      }
      if !IsRegularFile(fs, rootedPath) {
        return Return(NOT_FOUND);
      }
      out := FileResponse(lib, fs, req.verb, req.headers, 200, rootedPath, null, None, None, true);
    }
  }

  // ---------------------------------------------------------------- properties

  /** A method other than GET or HEAD gets 405 and leaves the flag alone. */
  lemma OtherMethodsRefused(cfg: Config, checked: bool, fs: Fs, lib: Library, req: Request)
    requires req.verb != "GET" && req.verb != "HEAD"
    ensures Handle(cfg, checked, fs, lib, req) == Return(Response(405, Some([Header(CONTENT_TYPE, TEXT_PLAIN)]), Some(Text("Method Not Allowed"))))
    ensures !Reaches(cfg, req)
  {
  }

  /**
   * A request path whose first component is `..` is refused with 404
   * before the root or the target is looked at.
   */
  lemma ParentTraversalRefused(cfg: Config, checked: bool, fs: Fs, fs': Fs, lib: Library, req: Request, rest: string)
    requires RequestPath(cfg, req) == "/../" + rest
    ensures Handle(cfg, checked, fs, lib, req) == Handle(cfg, checked, fs', lib, req)
    ensures IsReadMethod(req.verb) ==> Handle(cfg, checked, fs, lib, req) == Return(NOT_FOUND)
    ensures !Reaches(cfg, req)
  {
    ParentFirstRefused(cfg.sourceFolder, rest);
  }

  /**
   * Only a regular file under the root is ever answered from disk: any
   * answer other than the 404 and 405 texts comes from `file_response` on
   * the resolved path, whose components are the root's followed by the
   * request's ordinary ones.
   */
  lemma ServedOnlyUnderRoot(cfg: Config, checked: bool, fs: Fs, lib: Library, req: Request)
    requires Handle(cfg, checked, fs, lib, req) != Return(NOT_FOUND)
    requires Handle(cfg, checked, fs, lib, req) != Return(METHOD_NOT_ALLOWED)
    ensures Reaches(cfg, req)
    ensures var rooted := Resolve(cfg.sourceFolder, RequestPath(cfg, req)).value;
      && IsRegularFile(fs, rooted)
      && Segments(rooted) == Segments(cfg.sourceFolder) + Components(RequestPath(cfg, req))
      && (forall i :: 0 <= i < |Components(RequestPath(cfg, req))| ==> Ordinary(Components(RequestPath(cfg, req))[i]))
      && Handle(cfg, checked, fs, lib, req) == FileResponseSpec(lib, fs, req.verb, Some(req.headers), 200, rooted, [], None, None, true)
  {
    ResolvedUnderRoot(cfg.sourceFolder, RequestPath(cfg, req));
  }

  /** Once the flag is set the root is not consulted: changing only the root's entry changes no answer. */
  lemma RootIgnoredOnceChecked(cfg: Config, fs: Fs, fs': Fs, lib: Library, req: Request)
    requires SameExcept(fs, fs', cfg.sourceFolder)
    ensures Handle(cfg, true, fs, lib, req) == Handle(cfg, true, fs', lib, req)
  {
    var r := Resolve(cfg.sourceFolder, RequestPath(cfg, req));
    if IsReadMethod(req.verb) && r.Some? {
      ResolvedExtendsRoot(cfg.sourceFolder, RequestPath(cfg, req));
      assert r.value != cfg.sourceFolder;
    }
  }

  /** On the call that checks it, an unusable root gives 404 for every request that reaches the check. */
  lemma UnusableRootNotFound(cfg: Config, fs: Fs, lib: Library, req: Request)
    requires Reaches(cfg, req) && !RootUsable(fs, cfg.sourceFolder)
    ensures Handle(cfg, false, fs, lib, req) == Return(NOT_FOUND)
  {
  }

  /** A missing or non-regular target gets the same 404 as a traversal. */
  lemma MissingTargetNotFound(cfg: Config, checked: bool, fs: Fs, lib: Library, req: Request)
    requires Reaches(cfg, req) && (checked || RootUsable(fs, cfg.sourceFolder))
    requires !IsRegularFile(fs, Resolve(cfg.sourceFolder, RequestPath(cfg, req)).value)
    ensures Handle(cfg, checked, fs, lib, req) == Return(NOT_FOUND)
  {
  }
}
