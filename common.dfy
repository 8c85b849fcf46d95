/** Values shared by every part of the model: bytes, paths, the file tree and
    the few string tests the scripts apply to names and path strings. */
module Common {

  datatype Option<T> = None | Some(value: T)

  datatype Result<T> = Success(value: T) | Failure(error: string)

  newtype byte = x: int | 0 <= x < 256

  /** A path relative to the directory a script was pointed at, one name per component. */
  type Path = seq<string>

  /** A file-system entry: a directory, or a regular file with its bytes. */
  datatype Node = Dir | File(data: seq<byte>)

  /** The file system below the walked directory. */
  type Tree = map<Path, Node>

  // ---------------------------------------------------------------------------
  // Paths

  /** `path.name` */
  function Name(p: Path): string
    requires |p| > 0
  {
    p[|p| - 1]
  }

  /** `path.parent` */
  function Parent(p: Path): Path
    requires |p| > 0
  {
    p[..|p| - 1]
  }

  predicate Exists(t: Tree, p: Path) {
    p in t
  }

  predicate IsDir(t: Tree, p: Path) {
    p in t && t[p].Dir?
  }

  predicate IsFile(t: Tree, p: Path) {
    p in t && t[p].File?
  }

  /** `q` lies strictly below directory `d`. */
  predicate Below(d: Path, q: Path) {
    |d| < |q| && q[..|d|] == d
  }

  /** `any(d.iterdir())`: something exists below `d`. */
  predicate HasEntryBelow(t: Tree, d: Path) {
    exists q :: q in t && Below(d, q)
  }

  /** The directories an extraction into `dest` creates on the way to its
      entries: `dest` itself and every proper prefix of an entry below it
      (`os.makedirs` in `zipfile`, and `unzip -d`). */
  function MadeDirs(dest: Path, entries: map<Path, Node>): set<Path> {
    set q, i | q in entries && 0 <= i < |q| :: dest + q[..i]
  }

  /** The entries of an archive (relative paths) as they land below `dest`,
      with the directories leading to them; an entry with an empty name
      writes nothing. */
  function Place(dest: Path, entries: map<Path, Node>): (r: Tree)
    ensures forall q :: q in entries && q != [] ==> dest + q in r && r[dest + q] == entries[q]
    ensures forall k :: k in r ==> k == dest || Below(dest, k)
  {
    assert forall q1, q2 :: q1 in entries && q2 in entries && dest + q1 == dest + q2 ==> q1 == q2 by {
      forall q1, q2 | q1 in entries && q2 in entries && dest + q1 == dest + q2 ensures q1 == q2 {
        assert q1 == (dest + q1)[|dest|..];
      }
    }
    var dirs := map k | k in MadeDirs(dest, entries) :: Dir;
    var files := map q | q in entries && q != [] :: dest + q := entries[q];
    forall k | k in dirs ensures k == dest || Below(dest, k) {
      var q, i :| q in entries && 0 <= i < |q| && k == dest + q[..i];
      assert k[..|dest|] == dest;
    }
    forall k | k in files ensures Below(dest, k) && k[|dest|..] in entries {
      var q :| q in entries && q != [] && k == dest + q;
      assert k[|dest|..] == q;
    }
    dirs + files
  }

  /** Every directory on the way to an entry exists after the extraction, and
      whatever the extraction adds besides the entries is a directory. */
  lemma PlaceMakesDirs(dest: Path, entries: map<Path, Node>)
    ensures forall k :: k in MadeDirs(dest, entries) ==> k in Place(dest, entries)
    ensures forall q, i :: q in entries && 0 <= i < |q| ==> dest + q[..i] in Place(dest, entries)
    ensures forall k :: k in Place(dest, entries) && !(Below(dest, k) && k[|dest|..] in entries) ==>
              Place(dest, entries)[k] == Dir
  {
    forall q | q in entries && q != [] ensures (dest + q)[|dest|..] == q {
    }
  }

  /** Joins the components with "/" (pathlib's rendering of a relative path). */
  function Join(p: Path): string {
    if |p| == 0 then ""
    else if |p| == 1 then p[0]
    else Join(p[..|p| - 1]) + "/" + p[|p| - 1]
  }

  /** `str(directory / p)` for a path produced by `rglob` or `glob` under the
      directory whose string is `top`; pathlib drops a leading ".". */
  function Render(top: string, p: Path): string {
    if |p| == 0 then top
    else if top == "." then Join(p)
    else if EndsWith(top, "/") then top + Join(p)
    else top + "/" + Join(p)
  }

  /** The `root` string `os.walk(top)` yields for directory `d`
      (`os.path.join(top, *d)`). */
  function WalkRoot(top: string, d: Path): string {
    if |d| == 0 then top
    else if EndsWith(top, "/") then top + Join(d)
    else top + "/" + Join(d)
  }

  lemma {:induction false} JoinEndsWithName(p: Path)
    requires |p| > 0
    ensures EndsWith(Join(p), Name(p))
  {
  }

  // ---------------------------------------------------------------------------
  // Strings

  predicate StartsWith(s: string, prefix: string) {
    |prefix| <= |s| && s[..|prefix|] == prefix
  }

  predicate EndsWith(s: string, suffix: string) {
    |suffix| <= |s| && s[|s| - |suffix|..] == suffix
  }

  /** `sub` occurs in `s` at index `i`. */
  predicate OccursAt(s: string, sub: string, i: int) {
    0 <= i <= |s| - |sub| && s[i..i + |sub|] == sub
  }

  /** Python's `sub in s`. */
  predicate Contains(s: string, sub: string) {
    exists i | 0 <= i <= |s| - |sub| :: OccursAt(s, sub, i)
  }

  lemma ContainsTransitive(a: string, b: string, c: string)
    requires Contains(a, b) && Contains(b, c)
    ensures Contains(a, c)
  {
    var i :| 0 <= i <= |a| - |b| && OccursAt(a, b, i);
    var j :| 0 <= j <= |b| - |c| && OccursAt(b, c, j);
    forall k | 0 <= k < |c| ensures a[i + j + k] == c[k] {
      assert a[i + j + k] == a[i..i + |b|][j + k] == b[j + k] == b[j..j + |c|][k];
    }
    assert a[i + j..i + j + |c|] == c;
    assert OccursAt(a, c, i + j);
  }

  lemma {:induction false} JoinContainsComponent(p: Path, i: int)
    requires 0 <= i < |p|
    ensures Contains(Join(p), p[i])
  {
    var n := |p|;
    if i == n - 1 {
      JoinEndsWithName(p);
      assert OccursAt(Join(p), p[i], |Join(p)| - |p[i]|);
    } else {
      JoinContainsComponent(p[..n - 1], i);
      var head := Join(p[..n - 1]);
      assert Join(p)[..|head|] == head;
      assert OccursAt(Join(p), head, 0);
      ContainsTransitive(Join(p), head, p[i]);
    }
  }

  /** Every component of `p` occurs in the string of `p`. */
  lemma RenderContainsComponent(top: string, p: Path, i: int)
    requires 0 <= i < |p|
    ensures Contains(Render(top, p), p[i])
  {
    JoinContainsComponent(p, i);
    var r := Render(top, p);
    var j := Join(p);
    assert r[|r| - |j|..] == j;
    assert OccursAt(r, j, |r| - |j|);
    ContainsTransitive(r, j, p[i]);
  }

  /** `sub in s[k:]` implies `sub in s`. */
  lemma ContainsInTail(s: string, k: int, sub: string)
    requires 0 <= k <= |s| && Contains(s[k..], sub)
    ensures Contains(s, sub)
  {
    assert s[k..k + |s[k..]|] == s[k..];
    assert OccursAt(s, s[k..], k);
    ContainsTransitive(s, s[k..], sub);
  }

  function LowerChar(c: char): char {
    if 'A' <= c <= 'Z' then (c as int + 32) as char else c
  }

  /** `s.lower()`, for ASCII letters. */
  function Lower(s: string): (r: string)
    ensures |r| == |s|
    ensures forall i :: 0 <= i < |s| ==> r[i] == LowerChar(s[i])
  {
    seq(|s|, i requires 0 <= i < |s| => LowerChar(s[i]))
  }

  /** Lower-casing keeps every occurrence of a text that has no upper-case letter. */
  lemma LowerKeepsLowerText(s: string, sub: string)
    requires Contains(s, sub)
    requires forall k :: 0 <= k < |sub| ==> !('A' <= sub[k] <= 'Z')
    ensures Contains(Lower(s), sub)
  {
    var i :| 0 <= i <= |s| - |sub| && OccursAt(s, sub, i);
    assert Lower(s)[i..i + |sub|] == sub by {
      forall k | 0 <= k < |sub| ensures Lower(s)[i + k] == sub[k] {
        assert s[i + k] == sub[k];
      }
    }
    assert OccursAt(Lower(s), sub, i);
  }

  /** Position of the last `c` in `s`, or -1 (`str.rfind`). */
  function RFind(s: string, c: char): (r: int)
    ensures -1 <= r < |s|
    ensures r >= 0 ==> s[r] == c && forall j :: r < j < |s| ==> s[j] != c
    ensures r == -1 ==> forall j :: 0 <= j < |s| ==> s[j] != c
  {
    if |s| == 0 then -1
    else if s[|s| - 1] == c then |s| - 1
    else RFind(s[..|s| - 1], c)
  }

  /** pathlib's `PurePath.suffix` of a name: from the last dot, unless the dot
      leads the name or ends it. */
  function Suffix(name: string): (r: string)
    ensures r == "" || (r[0] == '.' && EndsWith(name, r) && |r| < |name|)
  {
    var i := RFind(name, '.');
    if 0 < i < |name| - 1 then name[i..] else ""
  }

  /** `Path(name).with_suffix("").name` */
  function Stem(name: string): string {
    name[..|name| - |Suffix(name)|]
  }

  /** `p.with_suffix("")`: the directory a JAR is unpacked into. */
  function WithoutSuffix(p: Path): (r: Path)
    requires |p| > 0
    ensures |r| == |p| && Parent(r) == Parent(p)
  {
    Parent(p) + [Stem(Name(p))]
  }

  // ---------------------------------------------------------------------------
  // Byte search

  predicate MatchAt(data: seq<byte>, needle: seq<byte>, i: int) {
    0 <= i && i + |needle| <= |data| && data[i..i + |needle|] == needle
  }

  /** `data.find(needle, i)`: the first match at or after `i`, or -1. */
  function FindFrom(data: seq<byte>, needle: seq<byte>, i: nat): (r: int)
    requires i <= |data|
    decreases |data| - i
    ensures r == -1 <==> forall j :: i <= j ==> !MatchAt(data, needle, j)
    ensures r != -1 ==> i <= r && MatchAt(data, needle, r)
    ensures r != -1 ==> forall j :: i <= j < r ==> !MatchAt(data, needle, j)
  {
    if i + |needle| > |data| then -1
    else if data[i..i + |needle|] == needle then assert MatchAt(data, needle, i); i
    else FindFrom(data, needle, i + 1)
  }

  /** Python's `bytes.find`. */
  function Find(data: seq<byte>, needle: seq<byte>): (r: int)
    ensures r == -1 <==> forall j :: !MatchAt(data, needle, j)
    ensures r != -1 ==> MatchAt(data, needle, r) && forall j :: 0 <= j < r ==> !MatchAt(data, needle, j)
  {
    FindFrom(data, needle, 0)
  }
}
