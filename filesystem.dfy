/**
 * The filesystem as the resolver sees it: an oracle from absolute paths to
 * what a successful `stat` reports. A path that is not a key is one whose
 * `stat` throws (missing, unreadable, broken link).
 */
module FileSystem {
  import opened Wrappers

  /** What `stat` reports about an entry that exists. `OtherEntry` is neither a
      regular file nor a directory (a socket, a device): `isDirectory()` and
      `isFile()` are both false for it. */
  datatype Kind = RegularFile | Directory | OtherEntry

  type Tree = map<string, Kind>

  /** `fs.statSync(path)`: the entry's kind, or `None` where it throws. */
  function Stat(fs: Tree, path: string): (k: Option<Kind>)
    ensures k.None? <==> path !in fs
    ensures k.Some? ==> fs[path] == k.value
  {
    if path in fs then Some(fs[path]) else None
  }

  /** `checkFile`: a probe that swallows every stat error and accepts any
      entry that is not a directory. */
  function CheckFile(fs: Tree, path: string): (present: bool)
    ensures present <==> path in fs && fs[path] != Directory
  {
    match Stat(fs, path)
    case None => false
    case Some(kind) => !kind.Directory?
  }

  /** The source's `a + '/' + b` path concatenation. */
  function Join(root: string, rel: string): (p: string)
    ensures |p| == |root| + 1 + |rel|
    ensures p[..|root|] == root && p[|root|] == '/' && p[|root| + 1..] == rel
  {
    root + "/" + rel
  }

}
