/** The plugin adapter of index.js (`directoryIndexPlugin`): a start hook
    that records the host's root directory and a per-request hook that
    lists a directory or declines. */
module PluginAdapter {
  import opened Optional
  import opened ListingBuilder

  /** What `readdir` of `node:fs/promises` settles to. */
  datatype ReaddirResult = Entries(names: seq<string>) | ReaddirFailed(error: Failure)

  /** The filesystem as one request sees it. */
  datatype FileSystem = FileSystem(stat: string -> StatResult, readdir: string -> ReaddirResult)

  /** `path.join` and `path.dirname` of `node:path`, left uninterpreted. */
  datatype PathLibrary = PathLibrary(join: (string, string) -> string, dirname: string -> string)

  /** The part of the host configuration the start hook reads. */
  datatype HostConfig = HostConfig(rootDir: Option<string>)

  /** What the promise of the `serve` hook settles to. */
  datatype ServeOutcome =
    | Html(page: string)        // resolves to the rendered listing
    | Decline                   // resolves to `undefined`: the host goes on
    | Error(error: Failure)     // resolves to the error object caught
    | Rejected(error: Failure)  // rejects: `path.join` threw before the `try`

  /** The error `path.join` throws when its first argument is not a string. */
  const InvalidRootDir: Failure := Failure("ERR_INVALID_ARG_TYPE")

  /** One instance stands for the module: `rootDir` is module-level state,
      shared by every object `directoryIndexPlugin()` returns, and
      `ServerStart` is the only method that writes it. */
  class DirectoryIndexPlugin {
    const name: string
    var rootDir: Option<string>

    /** The module as loaded: `let rootDir;` leaves it undefined. */
    constructor ()
      ensures name == "directory-index" && rootDir == None
    {
      name := "directory-index";
      rootDir := None;
    }

    /** `({ rootDir } = args.config)`. */
    method ServerStart(config: HostConfig)
      modifies this
      ensures rootDir == config.rootDir
    {
      rootDir := config.rootDir;
    }

    /** The `serve` hook for a request whose `originalUrl` is given. */
    method Serve(originalUrl: string, fs: FileSystem, paths: PathLibrary) returns (r: ServeOutcome)
      ensures r.Rejected? <==> rootDir.None?
      ensures r.Rejected? ==> r.error == InvalidRootDir
      ensures rootDir.Some? ==>
        var fp := paths.join(rootDir.value, originalUrl);
        && (r.Html? <==> fs.stat(fp) == Stat(true) && fs.readdir(fp).Entries?)
        && (r.Html? ==>
              r.page == PageHTML(originalUrl, WithTrailingSlash(fp), fs.readdir(fp).names, fs.stat, paths.dirname))
        && (r.Decline? <==> fs.stat(fp) == Stat(false))
        && (r.Error? <==> fs.stat(fp).StatFailed? || (fs.stat(fp) == Stat(true) && fs.readdir(fp).ReaddirFailed?))
        && (r.Error? ==> r.error == if fs.stat(fp).StatFailed? then fs.stat(fp).error else fs.readdir(fp).error)
    {
      if rootDir.None? {
        return Rejected(InvalidRootDir);
      }
      var fp := paths.join(rootDir.value, originalUrl);
      match fs.stat(fp)
      case StatFailed(e) =>
        r := Error(e);
      case Stat(isDirectory) =>
        if isDirectory {
          match fs.readdir(fp)
          case ReaddirFailed(e) =>
            r := Error(e);
          case Entries(dirContent) =>
            var fullPath := WithTrailingSlash(fp);
            var h := GetPageHTML(originalUrl, fullPath, dirContent, fs.stat, paths.dirname);
            r := Html(h);
        } else {
          r := Decline;
        }
    }
  }
}
