/** extract_all_zips.py: expand every ZIP below the current directory until
    none is left. The loop itself lives in module Fixpoint. */
module ExtractAllZips {
  import opened Common
  import opened Search
  import opened FileSystem
  import opened Scanner

  /** `exclude_patterns` of `extract_all_recursive` when none is given. */
  const DefaultRecursiveExcludes: seq<string> := ["installer_payload.zip"]

  /** `find_zip_files` of this script: every `.zip` file outside a ".git" root
      whose name contains none of the exclude patterns, which default to none. */
  method FindZipFiles(ws: Workspace, excludePatterns: Option<seq<string>> := None) returns (found: seq<Path>)
    requires ws.Valid()
    ensures excludePatterns.None? ==>
              forall p :: p in found <==>
                |p| > 0 && IsFile(ws.tree, p) && !InGitRoot(ws.top, p) && EndsWith(Name(p), ".zip")
    ensures excludePatterns.Some? ==>
              forall p :: p in found <==>
                |p| > 0 && IsFile(ws.tree, p) && !InGitRoot(ws.top, p) && EndsWith(Name(p), ".zip")
                && forall e :: e in excludePatterns.value ==> !Contains(Name(p), e)
    ensures NoDup(found)
    ensures var excludes := if excludePatterns.None? then [] else excludePatterns.value;
            found == Candidates(ScanRule([".zip"], excludes), ws.top, ws.tree, ws.listing(ws.tree))
  {
    var excludes := if excludePatterns.None? then [] else excludePatterns.value;
    var rule := ScanRule([".zip"], excludes);
    found := Scan(rule, ws.top, ws.tree, ws.listing(ws.tree));
    forall p | |p| > 0 ensures HasSuffix(Name(p), rule.suffixes) <==> EndsWith(Name(p), ".zip") {
      if EndsWith(Name(p), ".zip") {
        assert ".zip" in rule.suffixes;
      }
    }
  }

  /** `extract_zip` of this script: open, `testzip()`, unpack next to the
      archive, then remove it. Any exception on the way is tolerated under
      `skip_if_corrupt` and leaves the tree as it was. */
  function CheckedZipStep(t: Tree, tools: Tools, p: Path, skipIfCorrupt: bool): (s: Step)
  {
    match ZipOf(tools, t, p)
    case Members(entries) =>
      if tools.testzipRaises(t[p].data) then Step(t, Tolerate(skipIfCorrupt))
      else Step(t + Place(Parent(p), entries) - {p}, Extracted)
    case _ => Step(t, Tolerate(skipIfCorrupt))
  }

  method ExtractZip(ws: Workspace, p: Path, skipIfCorrupt: bool := true) returns (r: Outcome)
    modifies ws
    ensures Step(ws.tree, r) == CheckedZipStep(old(ws.tree), ws.tools, p, skipIfCorrupt)
  {
    match ZipOf(ws.tools, ws.tree, p) {
      case Members(entries) =>
        if ws.tools.testzipRaises(ws.tree[p].data) {
          r := Tolerate(skipIfCorrupt);
        } else {
          ws.WriteBelow(Parent(p), entries);
          ws.Unlink(p);
          r := Extracted;
        }
      case _ =>
        r := Tolerate(skipIfCorrupt);
    }
  }

  /** True exactly when both `testzip` and `extractall` completed, and then
      the ZIP is gone; False (under `skip_if_corrupt`) or an exception leaves
      the tree exactly as it was. */
  lemma CheckedZipRemovedOnlyOnSuccess(t: Tree, tools: Tools, p: Path, skipIfCorrupt: bool)
    requires IsFile(t, p)
    ensures var s := CheckedZipStep(t, tools, p, skipIfCorrupt);
            && (s.outcome == Extracted <==> ZipOf(tools, t, p).Members? && !tools.testzipRaises(t[p].data))
            && (s.outcome == Extracted <==> p !in s.tree)
            && (s.outcome != Extracted ==> s.tree == t && s.outcome == Tolerate(skipIfCorrupt))
  {
    var s := CheckedZipStep(t, tools, p, skipIfCorrupt);
    if s.outcome == Extracted {
      assert p !in s.tree;
    }
  }
}
