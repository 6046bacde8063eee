/**
 * The search at the heart of `CFS.findFile` (lib/index.js): the cache key,
 * the two search policies over the ordered root list, and the memo-table
 * step. The functions here are the specification that the `Cfs` class's
 * methods are proved against.
 */
module Resolution {
  import opened Wrappers
  import opened FileSystem

  /** A `findFile` answer: `false`, one path string, or an array of paths. */
  datatype Found = NotFound | Single(path: string) | Many(paths: seq<string>)

  /** JavaScript truthiness of an answer: `false` and the empty string are
      falsy; every array, even an empty one, is truthy. */
  predicate Truthy(f: Found): (truthy: bool)
    ensures truthy <==> f != NotFound && f != Single("")
  {
    match f
    case NotFound => false
    case Single(p) => p != ""
    case Many(_) => true
  }

  /** Directories whose files are merged, so every match is returned. */
  const MergeableDirs: set<string> := {"config", "i18n", "messages"}

  /** LIST mode is asked for by the flag or implied by a mergeable directory. */
  predicate ListMode(dir: string, asList: bool): (list: bool)
    ensures list <==> asList || dir == "config" || dir == "i18n" || dir == "messages"
  {
    asList || dir in MergeableDirs
  }

  /** An omitted extension means `js`. */
  function ExtOrDefault(ext: Option<string>): string {
    match ext
    case None => "js"
    case Some(e) => e
  }

  /** The relative path and cache key `dir/file.ext`; the source's `array`
      flag (`asList` here) is not part of it. */
  function Key(dir: string, file: string, ext: Option<string>): string {
    Join(dir, file + "." + ExtOrDefault(ext))
  }

  /** The key is `dir`, `/`, `file`, `.` and the extension, `js` when none
      is given. */
  lemma KeyLayout(dir: string, file: string, ext: Option<string>)
    ensures var key := Key(dir, file, ext);
      && |key| == |dir| + 1 + |file| + 1 + |ExtOrDefault(ext)|
      && key[..|dir| + 1] == dir + "/"
      && key[|dir| + 1..|dir| + 1 + |file|] == file
      && key[|dir| + 1 + |file|..] == "." + ExtOrDefault(ext)
      && (ext.None? ==> key[|key| - 3..] == ".js")
  {
  }

  /** `p` is some root's path to `key`: it ends in `/key`. */
  predicate PathFor(p: string, key: string) {
    |p| > |key| && p[|p| - |key| - 1..] == "/" + key
  }

  /** Every path in an answer is a path to `key`. */
  predicate AnswersKey(f: Found, key: string) {
    match f
    case NotFound => true
    case Single(p) => PathFor(p, key)
    case Many(ps) => forall i :: 0 <= i < |ps| ==> PathFor(ps[i], key)
  }

  lemma JoinIsPathFor(root: string, key: string)
    ensures PathFor(Join(root, key), key)
  {
    var p := Join(root, key);
    assert p[|p| - |key| - 1..] == p[|root|..];
    assert p[|root|..] == [p[|root|]] + p[|root| + 1..];
  }

  // ---------------------------------------------------------------------
  // The root list, reversed and joined

  /** `slice(0).reverse()`: a reversed copy. */
  function Reverse(s: seq<string>): (r: seq<string>)
    ensures |r| == |s|
    ensures forall i :: 0 <= i < |s| ==> r[i] == s[|s| - 1 - i]
  {
    if s == [] then [] else Reverse(s[1..]) + [s[0]]
  }

  /** Each root's path to `key`, in root order. */
  function JoinAll(roots: seq<string>, key: string): (ps: seq<string>)
    ensures |ps| == |roots|
    ensures forall i :: 0 <= i < |roots| ==> ps[i] == Join(roots[i], key)
  {
    seq(|roots|, i requires 0 <= i < |roots| => Join(roots[i], key))
  }

  /** `a` is `b` with some elements left out and the rest kept in order. */
  predicate IsSubsequence(a: seq<string>, b: seq<string>)
    decreases |b|
  {
    if b == [] then a == []
    else
      (a != [] && a[|a| - 1] == b[|b| - 1] && IsSubsequence(a[..|a| - 1], b[..|b| - 1]))
      || IsSubsequence(a, b[..|b| - 1])
  }

  // ---------------------------------------------------------------------
  // The two search policies

  /** SINGLE mode: the path under the first root, in precedence order, that
      holds `key` as a non-directory, or `false`. */
  function FirstMatch(roots: seq<string>, key: string, fs: Tree): Found {
    if roots == [] then NotFound
    else if CheckFile(fs, Join(roots[0], key)) then Single(Join(roots[0], key))
    else FirstMatch(roots[1..], key, fs)
  }

  /** The paths under every root of `roots` that holds `key` as a
      non-directory, in the order of `roots`. */
  function AllMatches(roots: seq<string>, key: string, fs: Tree): seq<string> {
    if roots == [] then []
    else
      var last := Join(roots[|roots| - 1], key);
      AllMatches(roots[..|roots| - 1], key, fs) + (if CheckFile(fs, last) then [last] else [])
  }

  /** The answer computed on a cache miss: LIST mode walks the reversed
      root list and collects, SINGLE mode takes the first hit. */
  function Search(roots: seq<string>, key: string, fs: Tree, list: bool): Found {
    if list then Many(AllMatches(Reverse(roots), key, fs)) else FirstMatch(roots, key, fs)
  }

  /** SINGLE mode answers `false` exactly when no root holds the file, and
      otherwise the path under the least root index that does. */
  lemma {:induction false} FirstMatchIsLeast(roots: seq<string>, key: string, fs: Tree)
    ensures FirstMatch(roots, key, fs) == NotFound
        <==> forall i :: 0 <= i < |roots| ==> !CheckFile(fs, Join(roots[i], key))
    ensures forall i :: 0 <= i < |roots| && CheckFile(fs, Join(roots[i], key))
                        && (forall j :: 0 <= j < i ==> !CheckFile(fs, Join(roots[j], key)))
                   ==> FirstMatch(roots, key, fs) == Single(Join(roots[i], key))
  {
    if roots != [] {
      FirstMatchIsLeast(roots[1..], key, fs);
      assert forall i :: 1 <= i < |roots| ==> roots[1..][i - 1] == roots[i];
      if !CheckFile(fs, Join(roots[0], key)) {
        forall i | 0 <= i < |roots| && CheckFile(fs, Join(roots[i], key))
                   && (forall j :: 0 <= j < i ==> !CheckFile(fs, Join(roots[j], key)))
          ensures FirstMatch(roots, key, fs) == Single(Join(roots[i], key))
        {
          assert i > 0;
          assert forall j :: 0 <= j < i - 1 ==> roots[1..][j] == roots[j + 1];
        }
      }
    }
  }

  /** A SINGLE-mode answer is `false` or one root's path to the key. */
  lemma {:induction false} FirstMatchFromRoot(roots: seq<string>, key: string, fs: Tree)
    ensures !FirstMatch(roots, key, fs).Many?
    ensures FirstMatch(roots, key, fs).Single? ==>
      exists i :: 0 <= i < |roots| && FirstMatch(roots, key, fs) == Single(Join(roots[i], key))
                  && CheckFile(fs, Join(roots[i], key))
  {
    if roots != [] && !CheckFile(fs, Join(roots[0], key)) {
      FirstMatchFromRoot(roots[1..], key, fs);
      if FirstMatch(roots, key, fs).Single? {
        var i :| 0 <= i < |roots[1..]| && FirstMatch(roots[1..], key, fs) == Single(Join(roots[1..][i], key))
                 && CheckFile(fs, Join(roots[1..][i], key));
        assert roots[1..][i] == roots[i + 1];
      }
    }
  }

  /** The indices of the roots that hold `key` as a non-directory. */
  function MatchingRoots(roots: seq<string>, key: string, fs: Tree): set<int> {
    set i | 0 <= i < |roots| && CheckFile(fs, Join(roots[i], key))
  }

  /** One collected path per matching root, so never more than the roots. */
  lemma {:induction false} AllMatchesCount(roots: seq<string>, key: string, fs: Tree)
    ensures |AllMatches(roots, key, fs)| == |MatchingRoots(roots, key, fs)|
    ensures |AllMatches(roots, key, fs)| <= |roots|
  {
    if roots != [] {
      var n := |roots|;
      var init := roots[..n - 1];
      AllMatchesCount(init, key, fs);
      assert forall i :: 0 <= i < |init| ==> init[i] == roots[i];
      if CheckFile(fs, Join(roots[n - 1], key)) {
        assert MatchingRoots(roots, key, fs) == MatchingRoots(init, key, fs) + {n - 1};
      } else {
        assert MatchingRoots(roots, key, fs) == MatchingRoots(init, key, fs);
      }
    }
  }

  /** The collected paths keep the order of the roots. */
  lemma {:induction false} AllMatchesInOrder(roots: seq<string>, key: string, fs: Tree)
    ensures IsSubsequence(AllMatches(roots, key, fs), JoinAll(roots, key))
  {
    if roots != [] {
      var init := roots[..|roots| - 1];
      var last := Join(roots[|roots| - 1], key);
      AllMatchesInOrder(init, key, fs);
      var a, b := AllMatches(roots, key, fs), JoinAll(roots, key);
      assert b[..|b| - 1] == JoinAll(init, key) && b[|b| - 1] == last;
      if CheckFile(fs, last) {
        assert a[..|a| - 1] == AllMatches(init, key, fs) && a[|a| - 1] == last;
      } else {
        assert a == AllMatches(init, key, fs);
      }
    }
  }

  /** A path is collected exactly when some root holds it. */
  lemma {:induction false} AllMatchesMembers(roots: seq<string>, key: string, fs: Tree)
    ensures forall p :: p in AllMatches(roots, key, fs) <==> MatchesSome(p, roots, key, fs)
  {
    if roots != [] {
      var init := roots[..|roots| - 1];
      AllMatchesMembers(init, key, fs);
      assert forall i :: 0 <= i < |init| ==> init[i] == roots[i];
      forall p ensures p in AllMatches(roots, key, fs) <==> MatchesSome(p, roots, key, fs) {
        MatchesSomeInit(p, roots, key, fs);
      }
    }
  }

  /** A root of the list holds `p`: one of the first `n - 1`, or the last. */
  lemma MatchesSomeInit(p: string, roots: seq<string>, key: string, fs: Tree)
    requires roots != []
    ensures var n := |roots|;
      MatchesSome(p, roots, key, fs)
      <==> (MatchesSome(p, roots[..n - 1], key, fs) || (p == Join(roots[n - 1], key) && CheckFile(fs, p)))
  {
    var init := roots[..|roots| - 1];
    if MatchesSome(p, roots, key, fs) {
      var i :| 0 <= i < |roots| && p == Join(roots[i], key) && CheckFile(fs, p);
      if i < |roots| - 1 {
        assert p == Join(init[i], key);
      }
    }
    if MatchesSome(p, init, key, fs) {
      var i :| 0 <= i < |init| && p == Join(init[i], key) && CheckFile(fs, p);
      assert init[i] == roots[i];
    }
  }

  /** The collected list holds exactly the matching roots' paths, in root
      order, one per matching root. */
  lemma AllMatchesSpec(roots: seq<string>, key: string, fs: Tree)
    ensures |AllMatches(roots, key, fs)| == |MatchingRoots(roots, key, fs)| <= |roots|
    ensures IsSubsequence(AllMatches(roots, key, fs), JoinAll(roots, key))
    ensures forall p :: p in AllMatches(roots, key, fs) <==> MatchesSome(p, roots, key, fs)
  {
    AllMatchesCount(roots, key, fs);
    AllMatchesInOrder(roots, key, fs);
    AllMatchesMembers(roots, key, fs);
  }

  /** Mirroring a set of indices keeps its size. */
  lemma {:induction false} MirrorSize(s: set<int>, n: int)
    ensures |set i | i in s :: n - 1 - i| == |s|
    decreases |s|
  {
    if exists x :: x in s {
      var x :| x in s;
      var rest := s - {x};
      MirrorSize(rest, n);
      var image, image' := set i | i in s :: n - 1 - i, set i | i in rest :: n - 1 - i;
      forall y | y in image ensures y in image' + {n - 1 - x} {
        var i :| i in s && y == n - 1 - i;
        if i != x {
          assert i in rest;
        }
      }
      assert image == image' + {n - 1 - x};
    } else {
      assert s == {};
    }
  }

  /** Reversing the roots mirrors the matching indices, so as many roots match. */
  lemma MatchingRootsReversed(roots: seq<string>, key: string, fs: Tree)
    ensures |MatchingRoots(Reverse(roots), key, fs)| == |MatchingRoots(roots, key, fs)|
  {
    var n := |roots|;
    var rev, s := Reverse(roots), MatchingRoots(roots, key, fs);
    forall j | j in MatchingRoots(rev, key, fs) ensures j in set i | i in s :: n - 1 - i {
      assert rev[j] == roots[n - 1 - j];
      assert n - 1 - j in s;
    }
    forall i | i in s ensures n - 1 - i in MatchingRoots(rev, key, fs) {
      assert rev[n - 1 - i] == roots[i];
    }
    assert MatchingRoots(rev, key, fs) == set i | i in s :: n - 1 - i;
    MirrorSize(s, n);
  }

  /** When every root holds the file, the collected list is every root's
      path, in the given order. */
  lemma {:induction false} AllRootsMatch(roots: seq<string>, key: string, fs: Tree)
    requires forall i :: 0 <= i < |roots| ==> CheckFile(fs, Join(roots[i], key))
    ensures AllMatches(roots, key, fs) == JoinAll(roots, key)
  {
    if roots != [] {
      var init := roots[..|roots| - 1];
      assert forall i :: 0 <= i < |init| ==> init[i] == roots[i];
      AllRootsMatch(init, key, fs);
      assert JoinAll(roots, key) == JoinAll(init, key) + [Join(roots[|roots| - 1], key)];
    }
  }

  lemma ReverseJoinAll(roots: seq<string>, key: string)
    ensures JoinAll(Reverse(roots), key) == Reverse(JoinAll(roots, key))
  {
  }

  /** `p` is the path to `key` under some root of `roots` that holds it. */
  predicate MatchesSome(p: string, roots: seq<string>, key: string, fs: Tree) {
    exists i :: 0 <= i < |roots| && p == Join(roots[i], key) && CheckFile(fs, p)
  }

  lemma MatchesSomeReversed(p: string, roots: seq<string>, key: string, fs: Tree)
    ensures MatchesSome(p, Reverse(roots), key, fs) <==> MatchesSome(p, roots, key, fs)
  {
    var rev := Reverse(roots);
    if MatchesSome(p, roots, key, fs) {
      var i :| 0 <= i < |roots| && p == Join(roots[i], key) && CheckFile(fs, p);
      assert rev[|roots| - 1 - i] == roots[i];
    }
  }

  /** LIST mode: the answer is an array holding exactly the matching roots'
      paths, lowest precedence first (a subsequence of the reversed root
      paths), one per matching root. */
  lemma ListModeAnswer(roots: seq<string>, key: string, fs: Tree)
    ensures Search(roots, key, fs, true).Many?
    ensures var ps := Search(roots, key, fs, true).paths;
      && |ps| == |MatchingRoots(roots, key, fs)| <= |roots|
      && IsSubsequence(ps, Reverse(JoinAll(roots, key)))
      && forall p :: p in ps <==> MatchesSome(p, roots, key, fs)
  {
    var rev := Reverse(roots);
    AllMatchesSpec(rev, key, fs);
    MatchingRootsReversed(roots, key, fs);
    ReverseJoinAll(roots, key);
    forall p ensures p in AllMatches(rev, key, fs) <==> MatchesSome(p, roots, key, fs) {
      MatchesSomeReversed(p, roots, key, fs);
    }
  }

  /** When every root holds the file, LIST mode returns every root's path,
      lowest precedence first: `[S, M, A]` for roots `[A, M, S]`. */
  lemma ListModeAllRoots(roots: seq<string>, key: string, fs: Tree)
    requires forall i :: 0 <= i < |roots| ==> CheckFile(fs, Join(roots[i], key))
    ensures Search(roots, key, fs, true) == Many(Reverse(JoinAll(roots, key)))
  {
    var rev := Reverse(roots);
    assert forall i :: 0 <= i < |rev| ==> rev[i] == roots[|roots| - 1 - i];
    AllRootsMatch(rev, key, fs);
    ReverseJoinAll(roots, key);
  }

  /** Every answer a search computes names only paths to the key, so a
      computed path is never the falsy empty string. */
  lemma SearchAnswersKey(roots: seq<string>, key: string, fs: Tree, list: bool)
    ensures AnswersKey(Search(roots, key, fs, list), key)
    ensures Search(roots, key, fs, list) == NotFound || Truthy(Search(roots, key, fs, list))
  {
    if list {
      var ps := AllMatches(Reverse(roots), key, fs);
      AllMatchesMembers(Reverse(roots), key, fs);
      forall i | 0 <= i < |ps| ensures PathFor(ps[i], key) {
        assert MatchesSome(ps[i], Reverse(roots), key, fs);
        var j :| 0 <= j < |Reverse(roots)| && ps[i] == Join(Reverse(roots)[j], key);
        JoinIsPathFor(Reverse(roots)[j], key);
      }
    } else {
      FirstMatchFromRoot(roots, key, fs);
      if FirstMatch(roots, key, fs).Single? {
        var i :| 0 <= i < |roots| && FirstMatch(roots, key, fs) == Single(Join(roots[i], key));
        JoinIsPathFor(roots[i], key);
      }
    }
  }

  // ---------------------------------------------------------------------
  // The loops of `findFile`

  /** The SINGLE-mode loop: walk the roots in order, stop on the first hit. */
  method FindFirst(roots: seq<string>, key: string, fs: Tree) returns (found: Found)
    ensures found == FirstMatch(roots, key, fs)
  {
    found := NotFound;
    var i := 0;
    while i < |roots|
      invariant 0 <= i <= |roots|
      invariant FirstMatch(roots, key, fs) == FirstMatch(roots[i..], key, fs)
    {
      assert roots[i..][1..] == roots[i + 1..];
      if CheckFile(fs, Join(roots[i], key)) {
        found := Single(Join(roots[i], key));
        return;
      }
      i := i + 1;
    }
  }

  /** The LIST-mode loop: walk a reversed copy of the roots and push every hit. */
  method FindAll(roots: seq<string>, key: string, fs: Tree) returns (found: seq<string>)
    ensures found == AllMatches(Reverse(roots), key, fs)
  {
    var reversed := Reverse(roots);
    found := [];
    var i := 0;
    while i < |reversed|
      invariant 0 <= i <= |reversed|
      invariant found == AllMatches(reversed[..i], key, fs)
    {
      assert reversed[..i + 1][..i] == reversed[..i];
      if CheckFile(fs, Join(reversed[i], key)) {
        found := found + [Join(reversed[i], key)];
      }
      i := i + 1;
    }
    assert reversed[..|reversed|] == reversed;
  }

  // ---------------------------------------------------------------------
  // The memo table

  type Cache = map<string, Found>

  /** The answer and the cache after one `findFile` call. */
  datatype Step = Step(found: Found, cache: Cache)

  /** A cached answer is used only when it is truthy: a cached `false` is
      searched again, a cached array (even an empty one) is returned. */
  predicate CacheHit(cache: Cache, key: string): (hit: bool)
    ensures hit <==> key in cache && cache[key] != NotFound && cache[key] != Single("")
  {
    key in cache && Truthy(cache[key])
  }

  /** One `findFile(dir, file, ext, asList)` call against `cache`, the root
      list `roots` and the filesystem `fs`. */
  function Lookup(cache: Cache, roots: seq<string>, fs: Tree,
                  dir: string, file: string, ext: Option<string>, asList: bool): (s: Step)
    ensures var key := Key(dir, file, ext);
      && s.cache.Keys == cache.Keys + {key}
      && s.cache[key] == s.found
      && (forall k :: k in cache && k != key ==> s.cache[k] == cache[k])
      && if CacheHit(cache, key) then s.found == cache[key]
         else s.found == Search(roots, key, fs, ListMode(dir, asList))
  {
    var key := Key(dir, file, ext);
    if CacheHit(cache, key) then Step(cache[key], cache)
    else
      var found := Search(roots, key, fs, ListMode(dir, asList));
      Step(found, cache[key := found])
  }

  /** On a truthy cached answer the cache is returned unchanged, whatever the
      flag, the root list or the filesystem now say. */
  lemma HitIgnoresFlagRootsAndFiles(cache: Cache, roots: seq<string>, roots': seq<string>, fs: Tree, fs': Tree,
                                    dir: string, file: string, ext: Option<string>, asList: bool, asList': bool)
    requires CacheHit(cache, Key(dir, file, ext))
    ensures Lookup(cache, roots, fs, dir, file, ext, asList) == Step(cache[Key(dir, file, ext)], cache)
    ensures Lookup(cache, roots', fs', dir, file, ext, asList') == Lookup(cache, roots, fs, dir, file, ext, asList)
  {
  }

  /** On a miss the roots are searched under the mode the directory and flag
      select, and the answer is stored under the key. */
  lemma MissSearches(cache: Cache, roots: seq<string>, fs: Tree,
                     dir: string, file: string, ext: Option<string>, asList: bool)
    requires !CacheHit(cache, Key(dir, file, ext))
    ensures var key := Key(dir, file, ext);
      Lookup(cache, roots, fs, dir, file, ext, asList)
        == Step(Search(roots, key, fs, ListMode(dir, asList)), cache[key := Search(roots, key, fs, ListMode(dir, asList))])
  {
  }

  /** Two identical calls with nothing in between give the same answer and
      leave the same cache: either the first answer is now a hit, or it was
      `false` and the search finds nothing again. */
  lemma LookupIdempotent(cache: Cache, roots: seq<string>, fs: Tree,
                         dir: string, file: string, ext: Option<string>, asList: bool)
    ensures var s := Lookup(cache, roots, fs, dir, file, ext, asList);
      Lookup(s.cache, roots, fs, dir, file, ext, asList) == s
  {
    var key := Key(dir, file, ext);
    if !CacheHit(cache, key) {
      SearchAnswersKey(roots, key, fs, ListMode(dir, asList));
    }
  }

  /** The cache key leaves out `asList`: whichever shape is cached first is
      returned to both modes. An array cached by a LIST-mode call is what a
      later SINGLE-mode call for the same key gets back. */
  lemma FirstShapeWins(cache: Cache, roots: seq<string>, fs: Tree, dir: string, file: string, ext: Option<string>)
    requires !CacheHit(cache, Key(dir, file, ext))
    ensures var first := Lookup(cache, roots, fs, dir, file, ext, true);
      && first.found.Many?
      && Lookup(first.cache, roots, fs, dir, file, ext, false).found == first.found
  {
  }

  /** A cached `false` is no hit: once the file appears, the next call finds it. */
  lemma CachedFalseIsSearchedAgain()
    ensures var key := Key("views", "x", None);
      var fs: Tree := map[Join("/app", key) := RegularFile];
      Lookup(map[key := NotFound], ["/app", "/sys"], fs, "views", "x", None, false).found
        == Single(Join("/app", key))
  {
    var key := Key("views", "x", None);
    var fs: Tree := map[Join("/app", key) := RegularFile];
    assert CheckFile(fs, Join(["/app", "/sys"][0], key));
  }

  /** Under a well-formed cache, the only answer a cached entry can hold that
      is not a hit is `false`. */
  lemma FalseIsTheOnlyMiss(cache: Cache, key: string)
    requires key in cache && AnswersKey(cache[key], key)
    ensures CacheHit(cache, key) <==> cache[key] != NotFound
  {
  }

}
