# node-cfs: a verified model of the cascading file system resolver

node-cfs is a Kohana-style "cascading file system" for Node. One singleton,
`CFS` in `lib/index.js`, holds an ordered list of root directories (the
cascade: application root, then module roots, then the system root) and
resolves a logical name such as `views/template` or `config/mimes` to the
file under the root with the highest precedence, or, for the mergeable
directories `config`, `i18n` and `messages` (or on request), to every
matching file, lowest precedence first. Answers are memoised per key
`dir/file.ext`. `load` maps a class name to a file under `classes`, and
`modules` rebuilds the cascade from a module list.

The model:

- `wrappers.dfy` — `Option`.
- `filesystem.dfy` (module `FileSystem`) — the filesystem as an oracle
  `map<string, Kind>` from paths to what `stat` reports (`RegularFile`,
  `Directory`, `OtherEntry`); a path outside the map is one whose `stat`
  throws. `CheckFile` is the source's `checkFile`.
- `resolution.dfy` (module `Resolution`) — the answer type `Found`
  (`false`, one path, an array), JavaScript truthiness of answers, the cache
  key, the two search policies as functions (`FirstMatch`, `AllMatches` over
  the reversed cascade), the two loops of `findFile` as methods proved
  against them, and `Lookup`, one `findFile` call as a function of the
  cache, the cascade and the filesystem, with the lemmas about cache hits
  and misses.
- `activation.dfy` (module `Activation`) — the loop of `modules` as a
  function (`Activate`), with reference definitions stated name by name and
  the lemmas that connect them, including what happens when a `stat` throws.
- `class_names.dfy` (module `ClassNames`) — the name transform of `load`.
- `cascade.dfy` (module `Cascade`) — the class `Cfs` with the singleton's
  fields and the methods `Init`, `FindFile`, `Load` and `Modules`, which
  update them in place and are proved against the functions above, and a
  client method that replays, in order, the test suite's calls `init`,
  `modules(['auth', 'stats'])`, `modules([])`, `modules(['auth'])` and
  `findFile('hello', 'world')`; the call `modules('auth')` at
  `test/index.js:27`, which passes a bare string, is not replayed.

## Where the code and its documentation disagree

The model follows the code.

- A cached answer is used only when it is truthy (`lib/index.js:82`): a
  cached `false` is searched again, so a file created after a miss is found
  by the next call (`CachedFalseIsSearchedAgain`). A cached array, even an
  empty one, is always a hit.
- The cache key (`lib/index.js:79`) leaves out the `array` flag, so a
  truthy answer cached by one mode is returned to the other: an array cached
  by a LIST-mode call is what a later SINGLE-mode call gets
  (`FirstShapeWins`). A cached `false` is not reused; the next call searches
  in its own mode.
- `load` replaces only the first `_` (`lib/index.js:129`); the doc comment at
  `lib/index.js:120` says `My_Class_Name` loads `classes/my/class/name.js`,
  the code looks up `classes/my/class_name.js` (`SecondUnderscoreKept`).
- `modules` does not skip a module whose directory is missing: the
  unguarded `fs.statSync` at `lib/index.js:161` throws, and so does the one
  at `lib/index.js:165` for a module directory without `init.js`. The call
  ends there with the cascade partly rebuilt and no system root
  (`StopsAtFirstFailure`, `MissingModuleFails`).
- `modules([])` returns at `lib/index.js:151-152` without touching the
  cascade; the test at `test/index.js:46-53` expects it to reset the cascade
  to two roots (`Cascade.TestSuiteCalls` shows four roots kept).

## Model

| member | source | states |
|---|---|---|
| FileSystem.Stat | lib/index.js:28 | `statSync` reports the entry's kind, and fails exactly for a path with no entry |
| FileSystem.CheckFile | lib/index.js:25-37 | the probe is true iff the path exists and is not a directory; a failing stat gives false |
| FileSystem.Join | lib/index.js:100-101 | `root + '/' + rel` is the root, one `/`, then the relative path, nothing more |
| Resolution.Truthy | lib/index.js:82 | an answer is truthy iff it is neither `false` nor the empty string; every array is truthy |
| Resolution.ListMode | lib/index.js:87 | LIST mode iff the flag is set or the directory is `config`, `i18n` or `messages` |
| Resolution.KeyLayout | lib/index.js:69-79 | the key is `dir`, `/`, `file`, `.`, then the extension, `js` when none is given; the `array` flag is no part of it |
| Resolution.Reverse | lib/index.js:89 | the reversed copy has the same length and element `i` is element `n-1-i` of the cascade |
| Resolution.FindFirst | lib/index.js:96-105 | the SINGLE-mode loop, stopping at the first hit, computes `FirstMatch` of the cascade |
| Resolution.FindAll | lib/index.js:86-95 | the LIST-mode loop over a reversed copy, pushing every hit, computes `AllMatches` of the reversed cascade |
| Resolution.FirstMatchIsLeast | lib/index.js:96-105 | SINGLE mode answers `false` iff no root holds the file as a non-directory, and otherwise the path under the least such root index |
| Resolution.FirstMatchFromRoot | lib/index.js:99-101 | a SINGLE-mode answer is never an array, and a path it returns is `root + "/" + key` for a root that holds the file |
| Resolution.AllMatchesCount | lib/index.js:91-95 | the collected list has exactly one path per root index that holds the file, so never more than the roots |
| Resolution.AllMatchesInOrder | lib/index.js:91-95 | the collected list is a subsequence of the roots' paths, in root order |
| Resolution.AllMatchesMembers | lib/index.js:91-95 | a path is collected iff some root holds it as a non-directory |
| Resolution.AllMatchesSpec | lib/index.js:91-95 | the three together: as many paths as matching root indices, in root order, exactly the matching roots' paths |
| Resolution.MatchingRootsReversed | lib/index.js:89 | reversing the cascade leaves the number of roots that hold the file unchanged |
| Resolution.AllRootsMatch | lib/index.js:91-95 | when every root holds the file, every root's path is collected, in order |
| Resolution.ListModeAnswer | lib/index.js:86-95 | LIST mode returns an array with one path per root index that holds the file (so at most `|cascade|`), a subsequence of the reversed roots' paths (lowest precedence first), holding exactly the matching roots' paths |
| Resolution.ListModeAllRoots | lib/index.js:44-47 | when all roots hold the file LIST mode returns all their paths in reverse cascade order (`[S, M, A]` for `[A, M, S]`) |
| Resolution.SearchAnswersKey | lib/index.js:92-101 | every path a search computes ends in `/dir/file.ext`, so a computed answer is `false` or truthy |
| Resolution.CacheHit | lib/index.js:82 | a key is a hit iff it is cached with an answer other than `false` and the empty string |
| Resolution.Lookup | lib/index.js:68-109 | one call writes only `cache[key]`, which then equals the answer; on a hit the answer is the cached one, otherwise a fresh search of the cascade in the mode `ListMode` selects |
| Resolution.HitIgnoresFlagRootsAndFiles | lib/index.js:81-84 | on a truthy cached answer the call returns it and leaves the cache as it is, whatever the flag, the cascade or the filesystem |
| Resolution.MissSearches | lib/index.js:86-107 | on a miss the answer is the search in the mode `array` or a mergeable directory selects, stored under the key |
| Resolution.LookupIdempotent | lib/index.js:81-108 | two identical calls in a row give the same answer and the same cache |
| Resolution.FirstShapeWins | lib/index.js:79-84 | after a LIST-mode miss caches an array, a SINGLE-mode call for the same key gets that array |
| Resolution.CachedFalseIsSearchedAgain | lib/index.js:82 | a cached `false` is no hit: a file that appeared since is found |
| Resolution.FalseIsTheOnlyMiss | lib/index.js:82 | for a cached answer made of paths to its key, it is a hit iff it is not `false` |
| Activation.ActivateOneStep | lib/index.js:159-167 | one iteration after a failure changes nothing; otherwise it pushes at most `modPath/name`, requires at most that module's `init` and only after pushing its root, and fails exactly when one of its two stats throws, naming that path |
| Activation.ActivationBounds | lib/index.js:158-169 | the loop pushes at most one root per listed module and requires at most one init script per pushed root |
| Activation.RootsAreListed | lib/index.js:159-162 | every pushed root is `modPath + '/' + name` for a listed name |
| Activation.CompletesIffStatsSucceed | lib/index.js:158-169 | the module loop runs to the end iff, for every listed module, its path exists and, when it is a directory, so does its `init.js` |
| Activation.CompletedActivation | lib/index.js:155-170 | when every stat succeeds, the pushed roots are the listed modules that are directories, in list order, and the required inits are those whose `init.js` is a regular file |
| Activation.StopsAtFirstFailure | lib/index.js:159-167 | otherwise the loop stops at the first module whose stat throws, keeps what the earlier modules pushed (and the failing module's root if only its `init.js` is missing) and names the failing path |
| Activation.FailureIsFinal | lib/index.js:161-165 | after a throwing stat the remaining modules are not processed |
| Activation.FailureIsFinalAt | lib/index.js:158-167 | a stat that throws while processing `names[i]` fixes the outcome of the whole call |
| Activation.FailsAtLast | lib/index.js:159-167 | when only the last module's stats fail, the earlier modules are processed as usual and the call fails there |
| Activation.OneModuleActivated | test/index.js:55-58 | a single directory module with an init script is pushed and its init script is required |
| Activation.TwoModulesActivated | test/index.js:35-44 | two directory modules with init scripts are pushed in list order and both inits are required |
| Activation.MissingModuleFails | lib/index.js:159-161 | a module whose directory is missing makes the call fail with that path, pushing nothing |
| ClassNames.ReplaceFirst | lib/index.js:129 | `replace` keeps the length of the name |
| ClassNames.ReplaceFirstChanges | lib/index.js:129 | a character changes only if it is a `from`, which becomes `to`; the first `from` does, and nothing after it changes |
| ClassNames.ReplaceFirstAbsent | lib/index.js:129 | replacing a character that does not occur changes nothing |
| ClassNames.ReplaceFirstAfter | lib/index.js:129 | in `prefix + from + rest` with no `from` in `prefix`, exactly that occurrence becomes `to` and `rest` is kept as it is |
| ClassNames.ReplaceFirstAt | lib/index.js:129 | only the first occurrence is replaced; everything after it is kept |
| ClassNames.Lower | lib/index.js:129 | lower-casing keeps the length, lowers each upper-case letter, keeps every other character and leaves no upper-case letter |
| ClassNames.ClassFile | lib/index.js:129 | the transformed name has the class name's length and no upper-case letter |
| ClassNames.ClassFileSpec | lib/index.js:127-130 | the class file name has the first `_` as `/`, every other character lower-cased in place (later `_` kept), and is the lower-cased name when there is no `_` |
| ClassNames.SecondUnderscoreKept | lib/index.js:118-121 | `My_Class_Name` is looked up as `my/class_name` |
| Cascade.Cfs.Init | lib/index.js:8-18 | the four roots equal the arguments, the cascade is `[appPath, sysPath]` and the cache is empty |
| Cascade.Cfs.FindFile | lib/index.js:68-109 | the answer and the new cache are those of `Lookup` on the old cache and the current cascade, the cascade and roots are unchanged, and afterwards the key is a hit iff the answer is not `false` |
| Cascade.Cfs.Load | lib/index.js:127-136 | looks up `classes/ClassFile(name).js` in SINGLE mode, returns a truthy answer and otherwise `false`; the cache changes as that lookup says |
| Cascade.Cfs.Modules | lib/index.js:150-171 | an empty list changes nothing; otherwise the cascade is `[appPath]`, the activated module roots, and `sysPath` unless a stat threw; the init scripts and the failing path are returned; the cache is untouched |
| Cascade.NoHelloWorld | test/index.js:61-64 | `findFile('hello', 'world')` over the cascade the test suite has built by then answers `false` |

## Left out

- Real filesystem I/O: `fs.statSync` is the oracle `fs`, passed to each
  operation; every kind of stat error (missing, permission denied) is one
  case, a path outside the oracle.
- `require` of module init scripts (`lib/index.js:166`) and of class files
  (`lib/index.js:133`) run foreign code: `Modules` returns the init script
  paths it would require, in order, and `Load` returns the found answer in
  place of the loaded value.
- Cascade.Cfs.Modules: a throwing `statSync` is modelled as a returned
  `failure` path, not as an exception propagating to the caller.
- Cascade.Cfs.Init: does not return the object for chaining (`return this`).
- Array identity: `findFile` caches and returns the same array object
  (`lib/index.js:83`, `lib/index.js:107-108`), so a caller that mutates a
  returned array changes the cache. The model's answers are values, and this
  aliasing is not captured.
- `docRoot` is stored and never read.
- `toLowerCase` is modelled for ASCII letters only; Unicode case mapping is
  not modelled.
- JavaScript dynamic typing: `ext` is an `Option<string>` (absent means
  `js`), `array` is a `bool`, the module list is a `seq<string>`; `null`
  arguments, a bare string passed to `modules` (which iterates its
  characters) and values of other types are not modelled.
- Behaviour before `init`: every method requires the state `init` sets up.
- The mocha test harness; its expectations at `test/index.js:26-33` and
  `test/index.js:46-53` contradict the code and are not encoded.
