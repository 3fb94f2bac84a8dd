/** The configuration after loading (main.go:34-50, 69-79): what is read
    from the file is taken as given, and the defaults are filled in where
    it left a field empty. The home directory is a parameter, None when it
    cannot be resolved. */
module Config {
  import Paths

  datatype Option<T> = None | Some(value: T)

  datatype Config = Config(scanPaths: seq<string>, bookmarks: seq<string>, exclude: seq<string>, maxDepth: int)

  /** defaultExclude (main.go:41-50). */
  function DefaultExclude(): seq<string> {
    [".git", "node_modules", "vendor", "dist", "build", "target", "out", "bin",
     ".cache", ".next", ".nuxt", ".pnpm-store", ".yarn", ".yarn/cache",
     ".venv", ".direnv", "deps", "_build",
     ".terraform", ".terragrunt-cache",
     ".m2", ".gradle", "Pods", "Carthage"]
  }

  /** The defaulting of loadConfig: no exclusion list means the default
      one, a depth of 0 means 3, and no scan path means "<home>/Code" when
      the home directory is known. */
  function ApplyDefaults(cfg: Config, home: Option<Paths.Path>): (r: Config)
    ensures r.bookmarks == cfg.bookmarks
    ensures r.exclude != [] && (cfg.exclude != [] ==> r.exclude == cfg.exclude)
    ensures cfg.exclude == [] ==> r.exclude == DefaultExclude()
    ensures r.maxDepth != 0 && (cfg.maxDepth != 0 ==> r.maxDepth == cfg.maxDepth)
    ensures cfg.maxDepth == 0 ==> r.maxDepth == 3
    ensures cfg.scanPaths != [] ==> r.scanPaths == cfg.scanPaths
    ensures cfg.scanPaths == [] && home.None? ==> r.scanPaths == []
    ensures cfg.scanPaths == [] && home.Some? ==> r.scanPaths == [Paths.ToString(home.value + ["Code"])]
  {
    var exclude := if |cfg.exclude| == 0 then DefaultExclude() else cfg.exclude;
    var maxDepth := if cfg.maxDepth == 0 then 3 else cfg.maxDepth;
    var scanPaths := if |cfg.scanPaths| == 0 && home.Some? then [Paths.ToString(home.value + ["Code"])] else cfg.scanPaths;
    Config(scanPaths, cfg.bookmarks, exclude, maxDepth)
  }

  /** Filling in defaults twice changes nothing more. */
  lemma ApplyDefaultsIdempotent(cfg: Config, home: Option<Paths.Path>)
    ensures ApplyDefaults(ApplyDefaults(cfg, home), home) == ApplyDefaults(cfg, home)
  {
  }

  /** The default list names ".git", although the walk never applies the
      exclusion list to ".git" directories. */
  lemma DefaultExcludeHasGit()
    ensures ".git" in DefaultExclude() && "node_modules" in DefaultExclude()
    ensures |DefaultExclude()| == 24
  {
  }

  /** Names of the example tree in main_test.go:55-59: only node_modules is
      in the default list. */
  lemma DefaultExcludeNames()
    ensures "r1" !in DefaultExclude() && "x" !in DefaultExclude() && "r2" !in DefaultExclude()
    ensures "node_modules" in DefaultExclude()
  {
    assert forall i :: 0 <= i < |DefaultExclude()| ==> |DefaultExclude()[i]| >= 3;
  }
}
