/**
 * What the request handlers of both copies share: the constructor's folder
 * check, the choice of the request path and its index rule,
 * `add_static_file_provider`, the older copy's root check, and the once-only
 * root check as a count over a run of requests.
 */
module ProviderCommon {
  import opened Http
  import opened FileSystem
  import opened PosixPath
  import opened Sandbox

  /** A handler's configuration: the served root, the route variable and the index file name. */
  datatype Config = Config(sourceFolder: string, pathVariable: Option<string>, indexFilename: Option<string>)

  /** A registered route: its methods, its path template and the handler it calls. */
  datatype Route = Route(methods: set<string>, template: string, handler: Config)

  /** The constructors' check: with the flag set, a source folder that is not a directory raises. */
  function FolderCheck(fs: Fs, sourceFolder: string, checkSourceFolder: bool): (r: Option<Exception>)
    ensures r.Some? <==> checkSourceFolder && !IsDir(fs, sourceFolder)
    ensures r.Some? ==> r.value == RuntimeError("Directory '" + sourceFolder + "' does not exist")
  {
    if checkSourceFolder && !IsDir(fs, sourceFolder) then Some(RuntimeError("Directory '" + sourceFolder + "' does not exist"))
    else None
  }

  /** The path a provider starts from: `/` and the route match when a path variable is set, else the request's path. */
  function ChosenPath(pathVariable: Option<string>, req: Request): (p: string)
    ensures TruthyString(pathVariable) ==>
      p == "/" + (if pathVariable.value in req.matches then req.matches[pathVariable.value] else "")
    ensures !TruthyString(pathVariable) ==> p == req.path
  {
    if TruthyString(pathVariable) then
      "/" + (if pathVariable.value in req.matches then req.matches[pathVariable.value] else "")
    else req.path
  }

  /** The providers' index rule: the index file name is appended to an empty path or one ending in `/`. */
  function WithIndex(path: string, indexFilename: Option<string>): (p: string)
    ensures (path == "" || EndsWith(path, "/")) && TruthyString(indexFilename) ==> p == path + indexFilename.value
    ensures !((path == "" || EndsWith(path, "/")) && TruthyString(indexFilename)) ==> p == path
  {
    if (path == "" || EndsWith(path, "/")) && TruthyString(indexFilename) then path + indexFilename.value else path
  }

  /** The path a provider resolves. */
  function RequestPath(cfg: Config, req: Request): string
  {
    WithIndex(ChosenPath(cfg.pathVariable, req), cfg.indexFilename)
  }

  /** The path computation of both providers' `__call__`, with `+=` for the index. */
  method PathOf(cfg: Config, req: Request) returns (path: string)
    ensures path == RequestPath(cfg, req)
  {
    if TruthyString(cfg.pathVariable) {
      path := "/" + (if cfg.pathVariable.value in req.matches then req.matches[cfg.pathVariable.value] else "");
    } else {
      path := req.path;
    }
    if (path == "" || EndsWith(path, "/")) && TruthyString(cfg.indexFilename) {
      path := path + cfg.indexFilename.value;
    }
  }

  /** A provider call gets past the method and traversal tests, to the point where the flag is read. */
  predicate Reaches(cfg: Config, req: Request)
  {
    IsReadMethod(req.verb) && Resolve(cfg.sourceFolder, RequestPath(cfg, req)).Some?
  }

  /** With a path variable the requested path is absolute, so the request's own path plays no part. */
  lemma RoutedPathIgnoresScopePath(cfg: Config, req: Request, other: string)
    requires TruthyString(cfg.pathVariable)
    ensures StartsWith(RequestPath(cfg, req), "/")
    ensures RequestPath(cfg, req) == RequestPath(cfg, req.(path := other))
  {
  }

  /**
   * A directory request with a plain index name resolves to that file:
   * the index is the last component of the path that is served.
   */
  lemma IndexServed(cfg: Config, req: Request)
    requires var p := ChosenPath(cfg.pathVariable, req); p == "" || EndsWith(p, "/")
    requires cfg.indexFilename.Some? && Ordinary(cfg.indexFilename.value) && NoSep(cfg.indexFilename.value)
    ensures var c := Components(RequestPath(cfg, req)); c != [] && c[|c| - 1] == cfg.indexFilename.value
  {
    IndexIsLastComponent(ChosenPath(cfg.pathVariable, req), cfg.indexFilename.value);
  }

  const MOUNT_POINT_ERROR: string := "mount_point must start and end with \"/\""

  /**
   * `add_static_file_provider` as written: the mount-point test raises only
   * for a mount point that lacks the leading `/` and has the trailing one;
   * then the provider's constructor checks the folder; the route serves GET
   * under `mount_point + "{rest:path}"`, with the route variable `rest`
   * unless the mount point is `/`.
   */
  function AddStaticFileProvider(fs: Fs, sourceFolder: string, mountPoint: string, checkSourceFolder: bool,
                                 indexFilename: Option<string>): (r: Outcome<Route>)
    ensures r == Raise(RuntimeError(MOUNT_POINT_ERROR)) <==> !StartsWith(mountPoint, "/") && EndsWith(mountPoint, "/")
    ensures r.Raise? ==> r.error == RuntimeError(MOUNT_POINT_ERROR) || FolderCheck(fs, sourceFolder, checkSourceFolder) == Some(r.error)
    ensures r.Return? <==> !(!StartsWith(mountPoint, "/") && EndsWith(mountPoint, "/")) && FolderCheck(fs, sourceFolder, checkSourceFolder).None?
    ensures r.Return? ==>
      && r.value.methods == {"GET"}
      && r.value.template == mountPoint + "{rest:path}"
      && r.value.handler.sourceFolder == sourceFolder && r.value.handler.indexFilename == indexFilename
      && (r.value.handler.pathVariable.None? <==> mountPoint == "/")
      && (r.value.handler.pathVariable.Some? ==> r.value.handler.pathVariable.value == "rest")
  {
    if !StartsWith(mountPoint, "/") && EndsWith(mountPoint, "/") then Raise(RuntimeError(MOUNT_POINT_ERROR))
    else
      match FolderCheck(fs, sourceFolder, checkSourceFolder)
      case Some(e) =>
        assert e.message[0] == 'D' != MOUNT_POINT_ERROR[0];
        Raise(e)
      case None =>
        Return(Route({"GET"}, mountPoint + "{rest:path}",
                     Config(sourceFolder, if mountPoint == "/" then None else Some("rest"), indexFilename)))
  }

  /** The mount points the test lets through include ones that are not absolute or lack the trailing `/`. */
  lemma MountPointCheckTooWeak(fs: Fs, sourceFolder: string)
    ensures AddStaticFileProvider(fs, sourceFolder, "static", false, None).Return?
    ensures AddStaticFileProvider(fs, sourceFolder, "static", false, None).value.template == "static{rest:path}"
    ensures AddStaticFileProvider(fs, sourceFolder, "/static", false, None).value.template == "/static{rest:path}"
  {
    assert !EndsWith("static", "/") by { assert "static"[5] != '/'; }
    assert StartsWith("/static", "/") by { assert "/static"[..1] == "/"; }
  }

  /** `add_static_file_provider` with the test its message states: the mount point must start and end with `/`. */
  function AddStaticFileProviderChecked(fs: Fs, sourceFolder: string, mountPoint: string, checkSourceFolder: bool,
                                        indexFilename: Option<string>): (r: Outcome<Route>)
    ensures r == Raise(RuntimeError(MOUNT_POINT_ERROR)) <==> !(StartsWith(mountPoint, "/") && EndsWith(mountPoint, "/"))
    ensures r.Return? ==>
      && StartsWith(r.value.template, "/")
      && r.value.template == mountPoint + "{rest:path}"
      && mountPoint[|mountPoint| - 1] == '/'
      && r == AddStaticFileProvider(fs, sourceFolder, mountPoint, checkSourceFolder, indexFilename)
  {
    if !(StartsWith(mountPoint, "/") && EndsWith(mountPoint, "/")) then Raise(RuntimeError(MOUNT_POINT_ERROR))
    else
      assert (mountPoint + "{rest:path}")[..1] == mountPoint[..1];
      AddStaticFileProvider(fs, sourceFolder, mountPoint, checkSourceFolder, indexFilename)
  }

  /**
   * The older copy's root check on the first call that reaches it: a
   * missing root and a root that is neither a directory nor a link raise.
   */
  function LegacyRootCheck(fs: Fs, root: string): (r: Option<Exception>)
    ensures r.None? <==> RootUsable(fs, root)
    ensures root !in fs ==> r == Some(RuntimeError("directory '" + root + "' does not exist."))
    ensures root in fs && !RootUsable(fs, root) ==> r == Some(RuntimeError("path '" + root + "' is not a directory."))
  {
    if root !in fs then Some(RuntimeError("directory '" + root + "' does not exist."))
    else if !(fs[root].Directory? || fs[root].Link?) then Some(RuntimeError("path '" + root + "' is not a directory."))
    else None
  }

  // ---------------------------------------------------------------- once-only root check

  /**
   * The number of times the root is examined over a run of calls, given the
   * flag before the run and, per call, whether it passed the method and
   * traversal tests: a call examines the root when the flag is still clear,
   * and every such call sets it.
   */
  function RootStats(checked: bool, reaches: seq<bool>): nat
    decreases |reaches|
  {
    if reaches == [] then 0
    else (if !checked && reaches[0] then 1 else 0) + RootStats(checked || reaches[0], reaches[1..])
  }

  /** The root is examined at most once per handler, and exactly once if some call gets that far. */
  lemma {:induction false} RootStatedAtMostOnce(checked: bool, reaches: seq<bool>)
    ensures RootStats(checked, reaches) <= 1
    ensures checked ==> RootStats(checked, reaches) == 0
    ensures RootStats(checked, reaches) == 1 <==> !checked && true in reaches
    decreases |reaches|
  {
    if reaches != [] {
      RootStatedAtMostOnce(checked || reaches[0], reaches[1..]);
      assert reaches == [reaches[0]] + reaches[1..];
      assert true in reaches <==> reaches[0] || true in reaches[1..];
    }
  }

  /** Per call of a run, whether it reaches a provider's flag. */
  function Reached(cfg: Config, reqs: seq<Request>): (r: seq<bool>)
    ensures |r| == |reqs| && forall i :: 0 <= i < |reqs| ==> r[i] == Reaches(cfg, reqs[i])
  {
    seq(|reqs|, i requires 0 <= i < |reqs| => Reaches(cfg, reqs[i]))
  }

  /** Over any run of calls on one provider the root is examined at most once, and never after the flag is set. */
  lemma RootStatedOncePerProvider(cfg: Config, checked: bool, reqs: seq<Request>)
    ensures RootStats(checked, Reached(cfg, reqs)) <= 1
    ensures checked ==> RootStats(checked, Reached(cfg, reqs)) == 0
  {
    RootStatedAtMostOnce(checked, Reached(cfg, reqs));
  }
}
