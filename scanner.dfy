/** The archive scan the three scripts share: walk the directory, keep the
    regular files whose name ends in an archive suffix and contains no
    excluded pattern, and skip every directory whose path string contains
    ".git". */
module Scanner {
  import opened Common
  import opened Search

  /** The suffixes a scan accepts and the substrings it rejects in a name. */
  datatype ScanRule = ScanRule(suffixes: seq<string>, excludes: seq<string>)

  /** `file.endswith(tuple(suffixes))` */
  predicate HasSuffix(name: string, suffixes: seq<string>) {
    exists s :: s in suffixes && EndsWith(name, s)
  }

  /** `any(pattern in file for pattern in excludes)` */
  predicate Excluded(name: string, excludes: seq<string>) {
    exists e :: e in excludes && Contains(name, e)
  }

  /** `".git" in root` for the directory `os.walk` reports `p` under. */
  predicate InGitRoot(top: string, p: Path)
    requires |p| > 0
  {
    Contains(WalkRoot(top, Parent(p)), ".git")
  }

  /** The scan keeps the entry at `p`. */
  predicate Selected(rule: ScanRule, top: string, t: Tree, p: Path) {
    && |p| > 0
    && IsFile(t, p)
    && !InGitRoot(top, p)
    && HasSuffix(Name(p), rule.suffixes)
    && !Excluded(Name(p), rule.excludes)
  }

  /** The selected entries of a walk, in walk order. */
  function Candidates(rule: ScanRule, top: string, t: Tree, xs: seq<Path>): (r: seq<Path>)
    ensures forall p :: p in r <==> p in xs && Selected(rule, top, t, p)
    ensures NoDup(xs) ==> NoDup(r)
  {
    if xs == [] then []
    else
      var rest := Candidates(rule, top, t, xs[..|xs| - 1]);
      var p := xs[|xs| - 1];
      assert forall q :: q in xs <==> q in xs[..|xs| - 1] || q == p;
      if Selected(rule, top, t, p) then rest + [p] else rest
  }

  /** The `for root, dirs, files in os.walk(directory)` loop that appends each
      selected file to the result; `xs` is the walk. */
  method Scan(rule: ScanRule, top: string, t: Tree, xs: seq<Path>) returns (found: seq<Path>)
    ensures found == Candidates(rule, top, t, xs)
  {
    found := [];
    var i := 0;
    while i < |xs|
      invariant 0 <= i <= |xs|
      invariant found == Candidates(rule, top, t, xs[..i])
    {
      assert xs[..i + 1][..i] == xs[..i];
      if Selected(rule, top, t, xs[i]) {
        found := found + [xs[i]];
      }
      i := i + 1;
    }
    assert xs[..i] == xs;
  }

  /** `[p for p in found if p not in skipped]` */
  function Unskipped(found: seq<Path>, skipped: set<Path>): (r: seq<Path>)
    ensures forall p :: p in r <==> p in found && p !in skipped
    ensures NoDup(found) ==> NoDup(r)
    ensures |r| <= |found|
  {
    Keep(found, p => p !in skipped)
  }
}
