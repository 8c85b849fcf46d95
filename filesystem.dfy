/** The file system the scripts work on, and the two foreign tools they call
    on it: Python's `zipfile` reader and the external `unzip` command. Both
    are oracles over a file's bytes; this model never decodes an archive. */
module FileSystem {
  import opened Common
  import opened Search

  /** What `zipfile.ZipFile(path).extractall(...)` does with a file: unpack its
      entries (relative paths), raise `BadZipFile`, or raise another exception. */
  datatype ZipRead = Members(entries: map<Path, Node>) | BadZip | ReadFailed

  /** What `subprocess.run(["unzip", "-q", "-o", path, "-d", dest], timeout=300)`
      does: exit with a code and a stderr text after writing some entries below
      `dest`, fail to start because `unzip` is not installed, or time out. */
  datatype UnzipRun = Exited(code: int, stderr: string, written: map<Path, Node>) | ToolMissing | TimedOut

  /** The archive tools as functions of a file's bytes; `testzipRaises` says
      whether `ZipFile.testzip()` raises instead of returning. */
  datatype Tools = Tools(zip: seq<byte> -> ZipRead, unzip: seq<byte> -> UnzipRun,
                         testzipRaises: seq<byte> -> bool)

  /** How one call of an extraction function ends: it returns True, returns
      False, or lets an exception escape. */
  datatype Outcome = Extracted | Skipped | Raised

  /** The tree after one call of an extraction function, and how the call ended. */
  datatype Step = Step(tree: Tree, outcome: Outcome)

  /** The `except` branches guarded by `skip_if_corrupt`: return False, or re-raise. */
  function Tolerate(skipIfCorrupt: bool): (r: Outcome)
    ensures r != Extracted
    ensures r == Raised <==> !skipIfCorrupt
  {
    if skipIfCorrupt then Skipped else Raised
  }

  /** What `zipfile.ZipFile(p).extractall(...)` does with the entry at `p`: the
      walked directory itself, a directory or a missing file makes it raise an
      ordinary exception. */
  function ZipOf(tools: Tools, t: Tree, p: Path): (r: ZipRead)
    ensures !r.ReadFailed? ==> |p| > 0 && IsFile(t, p)
  {
    if |p| > 0 && IsFile(t, p) then tools.zip(t[p].data) else ReadFailed
  }

  /** What `unzip` does with the file at `p`. */
  function UnzipOf(tools: Tools, t: Tree, p: Path): UnzipRun
    requires IsFile(t, p)
  {
    tools.unzip(t[p].data)
  }

  /** `xs` lists every entry of `t` exactly once (`os.walk` and `rglob` visit
      each entry once, in an order this model does not fix). */
  ghost predicate IsListingOf(xs: seq<Path>, t: Tree) {
    NoDup(xs) && forall p :: p in xs <==> p in t
  }

  /** The directory a script runs on: its entries, the string of its path, the
      archive tools, and the order in which walks visit a given tree. */
  class Workspace {
    var tree: Tree
    const top: string
    const tools: Tools
    const listing: Tree -> seq<Path>

    ghost predicate Valid() {
      forall t :: IsListingOf(listing(t), t)
    }

    constructor (tree0: Tree, top: string, tools: Tools, listing: Tree -> seq<Path>)
      requires forall t :: IsListingOf(listing(t), t)
      ensures Valid()
      ensures tree == tree0 && this.top == top && this.tools == tools && this.listing == listing
    {
      this.tree := tree0;
      this.top := top;
      this.tools := tools;
      this.listing := listing;
    }

    /** Writes archive entries below `dest`, replacing whatever was there. */
    method WriteBelow(dest: Path, entries: map<Path, Node>)
      modifies this
      ensures tree == old(tree) + Place(dest, entries)
    {
      tree := tree + Place(dest, entries);
    }

    /** `path.unlink()` */
    method Unlink(p: Path)
      modifies this
      ensures tree == old(tree) - {p}
    {
      tree := tree - {p};
    }
  }
}
