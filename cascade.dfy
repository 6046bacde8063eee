/**
 * The `CFS` singleton of lib/index.js: four fixed roots, the ordered root
 * list `requirePaths` and the memo table `cache`, with the operations that
 * update them in place. The filesystem is the oracle `fs`, read by the
 * operations that stat paths.
 */
module Cascade {
  import opened Wrappers
  import opened FileSystem
  import opened Resolution
  import opened Activation
  import opened ClassNames

  /** Every cached answer names only paths to its own key. */
  ghost predicate CacheWellFormed(cache: Cache) {
    forall k :: k in cache ==> AnswersKey(cache[k], k)
  }

  /** Storing an answer made of paths to its key keeps the cache well formed. */
  lemma StoreKeepsWellFormed(cache: Cache, key: string, found: Found)
    requires CacheWellFormed(cache) && AnswersKey(found, key)
    ensures CacheWellFormed(cache[key := found])
  {
  }

  class Cfs {
    var appPath: string
    var modPath: string
    var sysPath: string
    /** Stored for callers; never used in resolution. */
    var docRoot: string
    /** The cascade, highest precedence first. */
    var requirePaths: seq<string>
    /** Answers by key `dir/file.ext`. */
    var cache: Cache

    /** After `init`: the application root leads the cascade (every rebuild
        starts from it), and every cached answer is a path to its key. */
    ghost predicate Valid()
      reads this
    {
      |requirePaths| > 0 && requirePaths[0] == appPath && CacheWellFormed(cache)
    }

    /** `CFS.init`: set the fixed roots, reset the cascade to application
        then system, and empty the cache. */
    method Init(appPath: string, modPath: string, sysPath: string, docRoot: string)
      modifies this
      ensures Valid()
      ensures this.appPath == appPath && this.modPath == modPath
      ensures this.sysPath == sysPath && this.docRoot == docRoot
      ensures requirePaths == [appPath, sysPath] && cache == map[]
    {
      this.appPath := appPath;
      this.modPath := modPath;
      this.sysPath := sysPath;
      this.docRoot := docRoot;
      cache := map[];
      requirePaths := [appPath, sysPath];
    }

    /** `CFS.findFile`: a truthy cached answer is returned as it is;
        otherwise the cascade is searched in the mode `dir` and `asList`
        select, and the answer is cached under `dir/file.ext`. Only that one
        cache entry changes; the cascade is only read. */
    method FindFile(fs: Tree, dir: string, file: string, ext: Option<string>, asList: bool) returns (found: Found)
      requires Valid()
      modifies this`cache
      ensures Valid()
      ensures Step(found, cache) == Lookup(old(cache), requirePaths, fs, dir, file, ext, asList)
      ensures CacheHit(cache, Key(dir, file, ext)) <==> found != NotFound
    {
      var path := Key(dir, file, ext);
      if path in cache && Truthy(cache[path]) {
        return cache[path];
      }
      if ListMode(dir, asList) {
        var all := FindAll(requirePaths, path, fs);
        found := Many(all);
      } else {
        found := FindFirst(requirePaths, path, fs);
      }
      SearchAnswersKey(requirePaths, path, fs, ListMode(dir, asList));
      StoreKeepsWellFormed(cache, path, found);
      cache := cache[path := found];
      FalseIsTheOnlyMiss(cache, path);
    }

    /** `CFS.load`: look the transformed class name up under `classes` in
        SINGLE mode with the default extension; a truthy answer stands for
        the loaded class, anything else gives `false`. */
    method Load(fs: Tree, className: string) returns (loaded: Found)
      requires Valid()
      modifies this`cache
      ensures Valid()
      ensures var s := Lookup(old(cache), requirePaths, fs, "classes", ClassFile(className), None, false);
        && cache == s.cache
        && loaded == (if Truthy(s.found) then s.found else NotFound)
    {
      var file := ClassFile(className);
      var foundFile := FindFile(fs, "classes", file, None, false);
      if Truthy(foundFile) {
        return foundFile;
      }
      return NotFound;
    }

    /** `CFS.modules`: an empty list changes nothing. Otherwise the cascade
        is rebuilt as the application root, the listed modules that are
        directories, and the system root; `inits` are the init scripts
        required on the way. A stat that throws ends the rebuild with
        `failure` naming its path, the modules pushed so far kept and the
        system root missing. The cache is not touched. */
    method Modules(fs: Tree, moduleList: seq<string>) returns (inits: seq<string>, failure: Option<string>)
      requires Valid()
      modifies this`requirePaths
      ensures Valid()
      ensures moduleList == [] ==> requirePaths == old(requirePaths) && inits == [] && failure == None
      ensures moduleList != [] ==>
        var a := Activate(modPath, moduleList, fs);
        && requirePaths == [appPath] + a.roots + (if a.failed.None? then [sysPath] else [])
        && inits == a.inits
        && failure == a.failed
    {
      inits, failure := [], None;
      if |moduleList| == 0 {
        return;
      }
      requirePaths := [appPath];
      var i := 0;
      ghost var done := Activation([], [], None);
      while i < |moduleList|
        invariant 0 <= i <= |moduleList|
        invariant done == Activate(modPath, moduleList[..i], fs) && done.failed.None?
        invariant requirePaths == [appPath] + done.roots && inits == done.inits
      {
        ActivatePrefix(modPath, moduleList, i, fs);
        done := ActivateOne(done, modPath, moduleList[i], fs);
        var modulePath := Join(modPath, moduleList[i]);
        var kind := Stat(fs, modulePath);
        if kind.None? {
          failure := Some(modulePath);
          FailureIsFinalAt(modPath, moduleList, i, fs);
          return;
        }
        if kind.value == Directory {
          requirePaths := requirePaths + [modulePath];
          var initKind := Stat(fs, Join(modulePath, "init.js"));
          if initKind.None? {
            failure := Some(Join(modulePath, "init.js"));
            FailureIsFinalAt(modPath, moduleList, i, fs);
            return;
          }
          if initKind.value == RegularFile {
            inits := inits + [Join(modulePath, "init")];
          }
        }
        i := i + 1;
      }
      assert moduleList[..i] == moduleList;
      requirePaths := requirePaths + [sysPath];
    }
  }

  /** The calls of the repository's test suite that pass an array or
      search (`init`, `modules(['auth', 'stats'])`, `modules([])`,
      `modules(['auth'])`, `findFile('hello', 'world')`), in order, on a
      filesystem where the modules `auth` and `stats` are directories with
      init scripts. An empty module list keeps the four-root cascade. */
  method TestSuiteCalls()
  {
    var fs: Tree := map["m/auth" := Directory, "m/auth/init.js" := RegularFile,
                        "m/stats" := Directory, "m/stats/init.js" := RegularFile];
    var cfs := new Cfs;
    cfs.Init("app", "m", "sys", "public");
    assert cfs.requirePaths == ["app", "sys"];

    var inits, failure := cfs.Modules(fs, ["auth", "stats"]);
    TwoModulesActivated();
    assert cfs.requirePaths == ["app", "m/auth", "m/stats", "sys"];
    assert inits == ["m/auth/init", "m/stats/init"] && failure == None;

    inits, failure := cfs.Modules(fs, []);
    assert cfs.requirePaths == ["app", "m/auth", "m/stats", "sys"];

    inits, failure := cfs.Modules(fs, ["auth"]);
    OneModuleActivated();
    assert cfs.requirePaths == ["app", "m/auth", "sys"];
    assert inits == ["m/auth/init"];

    var found := cfs.FindFile(fs, "hello", "world", None, false);
    NoHelloWorld(cfs.requirePaths, fs);
    assert found == NotFound;
  }

  lemma NoHelloWorld(roots: seq<string>, fs: Tree)
    requires roots == ["app", "m/auth", "sys"]
    requires fs == map["m/auth" := Directory, "m/auth/init.js" := RegularFile,
                       "m/stats" := Directory, "m/stats/init.js" := RegularFile]
    ensures FirstMatch(roots, Key("hello", "world", None), fs) == NotFound
  {
    var key := Key("hello", "world", None);
    assert key == "hello/world.js";
    forall i | 0 <= i < |roots| ensures !CheckFile(fs, Join(roots[i], key)) {
      var p := Join(roots[i], key);
      assert p[|p| - 3..] == ".js" && |p| > |"m/auth"|;
      assert p !in fs;
    }
    FirstMatchIsLeast(roots, key, fs);
  }

}
