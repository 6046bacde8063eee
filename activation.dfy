/**
 * Module activation, the loop of `CFS.modules` (lib/index.js:150-171), as a
 * function of the module directory, the module list and the filesystem.
 * The loop stats `modPath/name`; a directory is pushed onto the root list,
 * and then `modPath/name/init.js` is stat'ed and, when it is a regular file,
 * the module's `init` script is required. A stat that throws ends the call
 * with the roots pushed so far and without the system root.
 */
module Activation {
  import opened Wrappers
  import opened FileSystem

  /** What the loop over the module list produced: the module roots pushed,
      the init scripts required (in order), and the path whose stat threw. */
  datatype Activation = Activation(roots: seq<string>, inits: seq<string>, failed: Option<string>)

  /** One iteration of the loop for module `name`; after a failure nothing
      more happens. */
  function ActivateOne(a: Activation, modPath: string, name: string, fs: Tree): Activation {
    if a.failed.Some? then a
    else
      var modulePath := Join(modPath, name);
      match Stat(fs, modulePath)
      case None => a.(failed := Some(modulePath))
      case Some(kind) =>
        if kind != Directory then a
        else
          var pushed := a.(roots := a.roots + [modulePath]);
          var initFile := Join(modulePath, "init.js");
          match Stat(fs, initFile)
          case None => pushed.(failed := Some(initFile))
          case Some(initKind) =>
            if initKind == RegularFile then pushed.(inits := a.inits + [Join(modulePath, "init")])
            else pushed
  }

  /** The loop run over the whole list, first name first. */
  function Activate(modPath: string, names: seq<string>, fs: Tree): Activation {
    if names == [] then Activation([], [], None)
    else ActivateOne(Activate(modPath, names[..|names| - 1], fs), modPath, names[|names| - 1], fs)
  }

  /** Running the loop over the first `i + 1` names is one more step after
      the first `i`. */
  lemma ActivatePrefix(modPath: string, names: seq<string>, i: nat, fs: Tree)
    requires i < |names|
    ensures Activate(modPath, names[..i + 1], fs) == ActivateOne(Activate(modPath, names[..i], fs), modPath, names[i], fs)
  {
    assert names[..i + 1][..i] == names[..i];
  }

  // ---------------------------------------------------------------------
  // Reference definitions, stated name by name

  /** Both stats the loop makes for `name` succeed: the module path exists,
      and if it is a directory so does its `init.js`. */
  predicate StatsSucceed(modPath: string, name: string, fs: Tree) {
    var modulePath := Join(modPath, name);
    modulePath in fs && (fs[modulePath] == Directory ==> Join(modulePath, "init.js") in fs)
  }

  predicate AllStatsSucceed(modPath: string, names: seq<string>, fs: Tree) {
    forall i :: 0 <= i < |names| ==> StatsSucceed(modPath, names[i], fs)
  }

  /** The path of the stat that throws for `name`. */
  function FailingStat(modPath: string, name: string, fs: Tree): string {
    var modulePath := Join(modPath, name);
    if modulePath !in fs then modulePath else Join(modulePath, "init.js")
  }

  /** The roots of the listed modules that are directories, in list order. */
  function ModuleDirs(modPath: string, names: seq<string>, fs: Tree): seq<string> {
    if names == [] then []
    else
      var modulePath := Join(modPath, names[0]);
      (if modulePath in fs && fs[modulePath] == Directory then [modulePath] else [])
      + ModuleDirs(modPath, names[1..], fs)
  }

  /** The init scripts of the listed directory modules whose `init.js` is a
      regular file, in list order. */
  function InitScripts(modPath: string, names: seq<string>, fs: Tree): seq<string> {
    if names == [] then []
    else
      var modulePath := Join(modPath, names[0]);
      var initFile := Join(modulePath, "init.js");
      (if modulePath in fs && fs[modulePath] == Directory && initFile in fs && fs[initFile] == RegularFile
       then [Join(modulePath, "init")] else [])
      + InitScripts(modPath, names[1..], fs)
  }

  lemma {:induction false} ModuleDirsAppend(modPath: string, names: seq<string>, name: string, fs: Tree)
    ensures var modulePath := Join(modPath, name);
      ModuleDirs(modPath, names + [name], fs)
        == ModuleDirs(modPath, names, fs) + (if modulePath in fs && fs[modulePath] == Directory then [modulePath] else [])
  {
    if names != [] {
      assert (names + [name])[1..] == names[1..] + [name];
      ModuleDirsAppend(modPath, names[1..], name, fs);
    }
  }

  lemma {:induction false} InitScriptsAppend(modPath: string, names: seq<string>, name: string, fs: Tree)
    ensures var modulePath := Join(modPath, name);
      var initFile := Join(modulePath, "init.js");
      InitScripts(modPath, names + [name], fs)
        == InitScripts(modPath, names, fs)
           + (if modulePath in fs && fs[modulePath] == Directory && initFile in fs && fs[initFile] == RegularFile
              then [Join(modulePath, "init")] else [])
  {
    if names != [] {
      assert (names + [name])[1..] == names[1..] + [name];
      InitScriptsAppend(modPath, names[1..], name, fs);
    }
  }

  // ---------------------------------------------------------------------
  // What activation does

  /** The loop runs to the end exactly when every stat it makes succeeds. */
  lemma {:induction false} CompletesIffStatsSucceed(modPath: string, names: seq<string>, fs: Tree)
    ensures Activate(modPath, names, fs).failed.None? <==> AllStatsSucceed(modPath, names, fs)
  {
    if names != [] {
      var init := names[..|names| - 1];
      CompletesIffStatsSucceed(modPath, init, fs);
      assert forall i :: 0 <= i < |init| ==> init[i] == names[i];
      if !AllStatsSucceed(modPath, init, fs) {
        var i :| 0 <= i < |init| && !StatsSucceed(modPath, init[i], fs);
        assert !StatsSucceed(modPath, names[i], fs);
      }
    }
  }

  /** When every stat succeeds, the pushed roots are the listed modules that
      are directories, in list order, and the init scripts required are
      those of the directory modules whose `init.js` is a regular file. */
  lemma {:induction false} CompletedActivation(modPath: string, names: seq<string>, fs: Tree)
    requires AllStatsSucceed(modPath, names, fs)
    ensures Activate(modPath, names, fs)
         == Activation(ModuleDirs(modPath, names, fs), InitScripts(modPath, names, fs), None)
  {
    if names != [] {
      var init := names[..|names| - 1];
      assert forall i :: 0 <= i < |init| ==> init[i] == names[i];
      assert AllStatsSucceed(modPath, init, fs);
      CompletedActivation(modPath, init, fs);
      assert names == init + [names[|names| - 1]];
      ModuleDirsAppend(modPath, init, names[|names| - 1], fs);
      InitScriptsAppend(modPath, init, names[|names| - 1], fs);
    }
  }

  /** The run over `names` stops at `names[i]`: every stat before it
      succeeds, one of its own throws, and the outcome is what the modules up
      to and including it pushed and required, with the path that threw. */
  predicate FailsAt(modPath: string, names: seq<string>, i: nat, fs: Tree)
    requires i < |names|
  {
    && AllStatsSucceed(modPath, names[..i], fs)
    && !StatsSucceed(modPath, names[i], fs)
    && Activate(modPath, names, fs)
       == Activation(ModuleDirs(modPath, names[..i + 1], fs), InitScripts(modPath, names[..i + 1], fs),
                     Some(FailingStat(modPath, names[i], fs)))
  }

  /** A stat that throws ends the loop at the first module whose stats do
      not all succeed: the earlier modules are processed as usual, the
      failing module's root is kept only if it is a directory (its `init.js`
      is what was missing), and the failure names the path that was stat'ed. */
  lemma {:induction false} StopsAtFirstFailure(modPath: string, names: seq<string>, fs: Tree)
    requires !AllStatsSucceed(modPath, names, fs)
    ensures exists i :: 0 <= i < |names| && FailsAt(modPath, names, i, fs)
  {
    var init := names[..|names| - 1];
    assert forall i :: 0 <= i < |init| ==> init[i] == names[i];
    if !AllStatsSucceed(modPath, init, fs) {
      StopsAtFirstFailure(modPath, init, fs);
      CompletesIffStatsSucceed(modPath, init, fs);
      var i :| 0 <= i < |init| && FailsAt(modPath, init, i, fs);
      assert init[..i] == names[..i] && init[..i + 1] == names[..i + 1];
      assert Activate(modPath, names, fs) == Activate(modPath, init, fs);
      assert FailsAt(modPath, names, i, fs);
    } else {
      FailsAtLast(modPath, names, fs);
    }
  }

  /** When only the stats of the last module fail, the run stops there. */
  lemma FailsAtLast(modPath: string, names: seq<string>, fs: Tree)
    requires names != []
    requires AllStatsSucceed(modPath, names[..|names| - 1], fs)
    requires !StatsSucceed(modPath, names[|names| - 1], fs)
    ensures FailsAt(modPath, names, |names| - 1, fs)
  {
    var init, last := names[..|names| - 1], names[|names| - 1];
    assert names == init + [last];
    CompletedActivation(modPath, init, fs);
    ModuleDirsAppend(modPath, init, last, fs);
    InitScriptsAppend(modPath, init, last, fs);
    assert names[..|names|] == names;
  }

  /** `p` is `modPath/name` for a name of the list. */
  predicate Listed(p: string, modPath: string, names: seq<string>) {
    exists i :: 0 <= i < |names| && p == Join(modPath, names[i])
  }

  /** One step after a failure changes nothing. Otherwise it pushes at most
      the module's root and requires at most its init script, and only after
      pushing the root; it fails exactly when one of its two stats throws,
      naming the path of that stat. */
  lemma ActivateOneStep(a: Activation, modPath: string, name: string, fs: Tree)
    ensures var r := ActivateOne(a, modPath, name, fs);
      && (a.failed.Some? ==> r == a)
      && (r.roots == a.roots || r.roots == a.roots + [Join(modPath, name)])
      && (r.inits == a.inits || (r.inits == a.inits + [Join(Join(modPath, name), "init")] && |r.roots| > |a.roots|))
      && (a.failed.None? ==> (r.failed.None? <==> StatsSucceed(modPath, name, fs)))
      && (a.failed.None? && r.failed.Some? ==> r.failed == Some(FailingStat(modPath, name, fs)))
  {
  }

  /** At most one root is pushed per listed module, and at most one init
      script is required per pushed root. */
  lemma {:induction false} ActivationBounds(modPath: string, names: seq<string>, fs: Tree)
    ensures |Activate(modPath, names, fs).inits| <= |Activate(modPath, names, fs).roots| <= |names|
  {
    if names != [] {
      var init := names[..|names| - 1];
      ActivationBounds(modPath, init, fs);
      ActivateOneStep(Activate(modPath, init, fs), modPath, names[|names| - 1], fs);
    }
  }

  /** Every pushed root is `modPath/name` for a listed name. */
  lemma {:induction false} RootsAreListed(modPath: string, names: seq<string>, fs: Tree)
    ensures forall k :: 0 <= k < |Activate(modPath, names, fs).roots| ==>
              Listed(Activate(modPath, names, fs).roots[k], modPath, names)
  {
    if names != [] {
      var init := names[..|names| - 1];
      RootsAreListed(modPath, init, fs);
      var before, after := Activate(modPath, init, fs), Activate(modPath, names, fs);
      ActivateOneStep(before, modPath, names[|names| - 1], fs);
      forall k | 0 <= k < |after.roots| ensures Listed(after.roots[k], modPath, names) {
        if k < |before.roots| {
          assert Listed(before.roots[k], modPath, init);
          var i :| 0 <= i < |init| && before.roots[k] == Join(modPath, init[i]);
          assert after.roots[k] == Join(modPath, names[i]);
        } else {
          assert after.roots[k] == Join(modPath, names[|names| - 1]);
        }
      }
    }
  }

  /** After a failure the rest of the list is not looked at. */
  lemma {:induction false} FailureIsFinal(modPath: string, names: seq<string>, rest: seq<string>, fs: Tree)
    requires Activate(modPath, names, fs).failed.Some?
    ensures Activate(modPath, names + rest, fs) == Activate(modPath, names, fs)
  {
    if rest != [] {
      var init := rest[..|rest| - 1];
      var all := names + rest;
      assert all[..|all| - 1] == names + init;
      FailureIsFinal(modPath, names, init, fs);
      var before := Activate(modPath, names + init, fs);
      assert before == Activate(modPath, names, fs) && before.failed.Some?;
      assert Activate(modPath, all, fs) == ActivateOne(before, modPath, all[|all| - 1], fs) == before;
    } else {
      assert names + rest == names;
    }
  }

  /** A failure while processing `names[i]` is the result of the whole run. */
  lemma FailureIsFinalAt(modPath: string, names: seq<string>, i: nat, fs: Tree)
    requires i < |names| && Activate(modPath, names[..i + 1], fs).failed.Some?
    ensures Activate(modPath, names, fs) == Activate(modPath, names[..i + 1], fs)
  {
    FailureIsFinal(modPath, names[..i + 1], names[i + 1..], fs);
    assert names[..i + 1] + names[i + 1..] == names;
  }

  /** One directory module with an init script is pushed and its init
      script is required. */
  lemma OneModuleActivated()
    ensures var fs: Tree := map["m/auth" := Directory, "m/auth/init.js" := RegularFile,
                                "m/stats" := Directory, "m/stats/init.js" := RegularFile];
      Activate("m", ["auth"], fs) == Activation(["m/auth"], ["m/auth/init"], None)
  {
    assert Join("m", "auth") == "m/auth" && Join("m/auth", "init.js") == "m/auth/init.js";
    assert Join("m/auth", "init") == "m/auth/init";
    assert ["auth"][..0] == [];
  }

  /** Two directory modules with init scripts are both pushed, in list
      order, and both init scripts are required. */
  lemma TwoModulesActivated()
    ensures var fs: Tree := map["m/auth" := Directory, "m/auth/init.js" := RegularFile,
                                "m/stats" := Directory, "m/stats/init.js" := RegularFile];
      Activate("m", ["auth", "stats"], fs)
        == Activation(["m/auth", "m/stats"], ["m/auth/init", "m/stats/init"], None)
  {
    var fs: Tree := map["m/auth" := Directory, "m/auth/init.js" := RegularFile,
                        "m/stats" := Directory, "m/stats/init.js" := RegularFile];
    assert Join("m", "auth") == "m/auth" && Join("m/auth", "init.js") == "m/auth/init.js";
    assert Join("m", "stats") == "m/stats" && Join("m/stats", "init.js") == "m/stats/init.js";
    assert Join("m/auth", "init") == "m/auth/init" && Join("m/stats", "init") == "m/stats/init";
    assert ["auth", "stats"][..1] == ["auth"];
    OneModuleActivated();
  }

  /** A module whose directory is missing is not skipped: its stat throws. */
  lemma MissingModuleFails()
    ensures Activate("m", ["ghost"], map[]) == Activation([], [], Some("m/ghost"))
  {
    assert ["ghost"][..0] == [];
    assert Join("m", "ghost") == "m/ghost";
  }

}
