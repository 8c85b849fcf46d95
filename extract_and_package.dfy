/** extract_and_package.py: carve the installer payload, expand its JAR and
    ZIP archives, and locate the four deliverables in the unpacked layout.
    The two expansion loops live in module Fixpoint. */
module ExtractAndPackage {
  import opened Common
  import opened Search
  import opened FileSystem
  import opened Scanner
  import ExtractPayload

  // ---------------------------------------------------------------------------
  // Payload

  /** `find_pk_header`: the offset of the first ZIP local-file-header
      signature, or None. */
  function FindPkHeader(data: seq<byte>): (r: Option<nat>)
    ensures r.None? <==> forall i :: !MatchAt(data, ExtractPayload.Signature, i)
    ensures r.Some? ==> r.value + 4 <= |data| && data[r.value..r.value + 4] == ExtractPayload.Signature
    ensures r.Some? ==> forall i :: 0 <= i < r.value ==> !MatchAt(data, ExtractPayload.Signature, i)
  {
    var offset := Find(data, ExtractPayload.Signature);
    if offset != -1 then Some(offset) else None
  }

  /** The carve step of `extract_payload_from_bin`: `ValueError` without a
      header, otherwise the bytes from the header on: the longest tail of the
      file that starts with the signature. */
  function ExtractPayloadFromBin(data: seq<byte>): (r: Result<seq<byte>>)
    ensures r.Failure? <==> FindPkHeader(data).None?
    ensures r.Success? ==> |r.value| == |data| - FindPkHeader(data).value
    ensures r.Success? ==> r.value == data[|data| - |r.value|..]
    ensures r.Success? ==> r.value[..4] == ExtractPayload.Signature
    ensures r.Success? ==> forall i :: 0 <= i < |data| - |r.value| ==> !MatchAt(data, ExtractPayload.Signature, i)
  {
    match FindPkHeader(data)
    case None => Failure("No PK header found in the file")
    case Some(offset) =>
      assert data[offset..][..4] == data[offset..offset + 4];
      Success(data[offset..])
  }

  /** Both scripts carve the same payload and fail on the same inputs. */
  lemma CarveAgreesWithExtractPayload(data: seq<byte>)
    ensures ExtractPayloadFromBin(data).Success? == ExtractPayload.ExtractInstallerPayload(data).Success?
    ensures ExtractPayloadFromBin(data).Success? ==>
              ExtractPayloadFromBin(data).value == ExtractPayload.ExtractInstallerPayload(data).value
  {
    var a := ExtractPayloadFromBin(data);
    var b := ExtractPayload.ExtractInstallerPayload(data);
    if a.Success? {
      var offset := FindPkHeader(data).value;
      var o2 :| 0 <= o2 <= |data| - 4 && b.value == data[o2..]
                && forall i :: 0 <= i < o2 ==> !MatchAt(data, ExtractPayload.Signature, i);
      assert data[o2..][..4] == data[o2..o2 + 4];
      assert MatchAt(data, ExtractPayload.Signature, o2);
      assert MatchAt(data, ExtractPayload.Signature, offset);
      assert o2 == offset;
    }
  }

  // ---------------------------------------------------------------------------
  // Scans

  const JarRule := ScanRule([".jar"], [])

  /** `exclude_patterns` of `find_zip_files` when none is given. */
  const DefaultZipExcludes: seq<string> := ["installer_payload.zip"]

  /** `find_jar_files`: every `.jar` file outside a ".git" root. */
  method FindJarFiles(ws: Workspace) returns (found: seq<Path>)
    requires ws.Valid()
    ensures NoDup(found)
    ensures forall p :: p in found <==>
              |p| > 0 && IsFile(ws.tree, p) && !InGitRoot(ws.top, p) && EndsWith(Name(p), ".jar")
    ensures found == Candidates(JarRule, ws.top, ws.tree, ws.listing(ws.tree))
  {
    found := Scan(JarRule, ws.top, ws.tree, ws.listing(ws.tree));
    forall p | |p| > 0 ensures HasSuffix(Name(p), JarRule.suffixes) <==> EndsWith(Name(p), ".jar") {
      if EndsWith(Name(p), ".jar") {
        assert ".jar" in JarRule.suffixes;
      }
    }
  }

  /** `find_zip_files`: every `.zip` file outside a ".git" root whose name
      contains none of the exclude patterns. */
  method FindZipFiles(ws: Workspace, excludePatterns: Option<seq<string>> := None) returns (found: seq<Path>)
    requires ws.Valid()
    ensures var excludes := if excludePatterns.None? then DefaultZipExcludes else excludePatterns.value;
            forall p :: p in found <==>
              |p| > 0 && IsFile(ws.tree, p) && !InGitRoot(ws.top, p) && EndsWith(Name(p), ".zip")
              && forall e :: e in excludes ==> !Contains(Name(p), e)
    ensures NoDup(found)
    ensures var excludes := if excludePatterns.None? then DefaultZipExcludes else excludePatterns.value;
            found == Candidates(ScanRule([".zip"], excludes), ws.top, ws.tree, ws.listing(ws.tree))
  {
    var excludes := if excludePatterns.None? then DefaultZipExcludes else excludePatterns.value;
    var rule := ScanRule([".zip"], excludes);
    found := Scan(rule, ws.top, ws.tree, ws.listing(ws.tree));
    forall p | |p| > 0 ensures HasSuffix(Name(p), rule.suffixes) <==> EndsWith(Name(p), ".zip") {
      if EndsWith(Name(p), ".zip") {
        assert ".zip" in rule.suffixes;
      }
    }
  }

  // ---------------------------------------------------------------------------
  // Extraction

  /** `extract_zip_file`: unpack into `outputDir`, falling back to `unzip`; the
      call fails only when the fallback also fails. `Extracted` stands for a
      normal return. The archive is never removed. */
  function ZipFileStep(t: Tree, tools: Tools, p: Path, outputDir: Path): (s: Step)
  {
    match ZipOf(tools, t, p)
    case Members(entries) => Step(t + Place(outputDir, entries), Extracted)
    case ReadFailed => Step(t, Raised)
    case BadZip =>
      match UnzipOf(tools, t, p)
      case Exited(code, _, written) =>
        var t1 := t + Place(outputDir, written);
        if code != 0 && !HasEntryBelow(t1, outputDir) then Step(t1, Raised) else Step(t1, Extracted)
      case ToolMissing => Step(t, Raised)
      case TimedOut => Step(t, Raised)
  }

  method ExtractZipFile(ws: Workspace, p: Path, outputDir: Path) returns (r: Outcome)
    modifies ws
    ensures Step(ws.tree, r) == ZipFileStep(old(ws.tree), ws.tools, p, outputDir)
  {
    match ZipOf(ws.tools, ws.tree, p) {
      case Members(entries) =>
        ws.WriteBelow(outputDir, entries);
        r := Extracted;
      case ReadFailed =>
        r := Raised;
      case BadZip =>
        match UnzipOf(ws.tools, ws.tree, p) {
          case Exited(code, _, written) =>
            ws.WriteBelow(outputDir, written);
            r := if code != 0 && !HasEntryBelow(ws.tree, outputDir) then Raised else Extracted;
          case ToolMissing =>
            r := Raised;
          case TimedOut =>
            r := Raised;
        }
    }
  }

  /** Once `zipfile` has rejected the archive as corrupt, the call fails exactly
      when `unzip` does not run to completion, or exits non-zero and leaves the
      output directory empty; and whatever happens, only the output directory
      and the entries below it change and nothing is removed. */
  lemma ZipFileFailsOnlyWhenFallbackFails(t: Tree, tools: Tools, p: Path, outputDir: Path)
    requires ZipOf(tools, t, p).BadZip?
    ensures var s := ZipFileStep(t, tools, p, outputDir);
            var run := UnzipOf(tools, t, p);
            && (s.outcome == Raised <==> !run.Exited? || (run.code != 0 && !HasEntryBelow(s.tree, outputDir)))
            && t.Keys <= s.tree.Keys
            && forall k :: k in t && k != outputDir && !Below(outputDir, k) ==> s.tree[k] == t[k]
  {
    var s := ZipFileStep(t, tools, p, outputDir);
    match UnzipOf(tools, t, p)
    case Exited(code, _, written) =>
      assert s.tree == t + Place(outputDir, written);
      forall k | k in t && k != outputDir && !Below(outputDir, k) ensures s.tree[k] == t[k] {
        assert k !in Place(outputDir, written);
      }
    case ToolMissing =>
    case TimedOut =>
  }

  /** `extract_jar`: unpack into `p.with_suffix("")`, falling back to `unzip`,
      whose run counts when it exits 0 or leaves the destination non-empty;
      the JAR is removed only then. Every failure is tolerated under
      `skip_if_corrupt`. The empty path (the walked directory itself) has no
      name, so `with_suffix` raises before the `try`. */
  function JarStep(t: Tree, tools: Tools, p: Path, skipIfCorrupt: bool): (s: Step)
  {
    if |p| == 0 then Step(t, Raised)
    else if WithoutSuffix(p) == p then OntoItselfStep(t, tools, p, skipIfCorrupt)
    else
      var dest := WithoutSuffix(p);
      match ZipOf(tools, t, p)
      case Members(entries) => Step(t + Place(dest, entries) - {p}, Extracted)
      case ReadFailed => Step(t, Tolerate(skipIfCorrupt))
      case BadZip =>
        match UnzipOf(tools, t, p)
        case Exited(code, _, written) =>
          var t1 := t + Place(dest, written);
          if code == 0 || HasEntryBelow(t1, dest) then Step(t1 - {p}, Extracted)
          else Step(t1, Tolerate(skipIfCorrupt))
        case ToolMissing => Step(t, Tolerate(skipIfCorrupt))
        case TimedOut => Step(t, Tolerate(skipIfCorrupt))
  }

  /** A JAR whose name has no suffix (exactly ".jar") is its own destination.
      Writing any entry below a regular file raises, `unzip` writes nothing
      there, and `iterdir()` on the file raises; so only an archive without
      entries, or an `unzip` run that exits 0, counts as success. */
  function OntoItselfStep(t: Tree, tools: Tools, p: Path, skipIfCorrupt: bool): (s: Step)
    requires |p| > 0
  {
    match ZipOf(tools, t, p)
    case Members(entries) =>
      if exists q :: q in entries && q != [] then Step(t, Tolerate(skipIfCorrupt))
      else Step(t - {p}, Extracted)
    case ReadFailed => Step(t, Tolerate(skipIfCorrupt))
    case BadZip =>
      match UnzipOf(tools, t, p)
      case Exited(code, _, _) =>
        if code == 0 then Step(t - {p}, Extracted) else Step(t, Tolerate(skipIfCorrupt))
      case ToolMissing => Step(t, Tolerate(skipIfCorrupt))
      case TimedOut => Step(t, Tolerate(skipIfCorrupt))
  }

  method ExtractJar(ws: Workspace, p: Path, skipIfCorrupt: bool := true) returns (r: Outcome)
    modifies ws
    ensures Step(ws.tree, r) == JarStep(old(ws.tree), ws.tools, p, skipIfCorrupt)
  {
    if |p| == 0 {
      return Raised;
    }
    var dest := WithoutSuffix(p);
    match ZipOf(ws.tools, ws.tree, p) {
      case Members(entries) =>
        if dest == p && exists q :: q in entries && q != [] {
          r := Tolerate(skipIfCorrupt);
        } else {
          ws.WriteBelow(dest, entries);
          ws.Unlink(p);
          r := Extracted;
        }
      case ReadFailed =>
        r := Tolerate(skipIfCorrupt);
      case BadZip =>
        match UnzipOf(ws.tools, ws.tree, p) {
          case Exited(code, _, written) =>
            if dest != p {
              ws.WriteBelow(dest, written);
            }
            if code == 0 || (dest != p && HasEntryBelow(ws.tree, dest)) {
              ws.Unlink(p);
              r := Extracted;
            } else {
              r := Tolerate(skipIfCorrupt);
            }
          case ToolMissing =>
            r := Tolerate(skipIfCorrupt);
          case TimedOut =>
            r := Tolerate(skipIfCorrupt);
        }
    }
  }

  /** Under `skip_if_corrupt` a JAR never makes `extract_jar` raise. */
  lemma JarSkipNeverRaises(t: Tree, tools: Tools, p: Path)
    requires |p| > 0
    ensures JarStep(t, tools, p, true).outcome != Raised
  {
  }

  /** The JAR is gone exactly when the call reports success; otherwise it is
      left as it was, since the destination is its sibling and never its
      parent. */
  lemma JarRemovedOnlyOnSuccess(t: Tree, tools: Tools, p: Path, skipIfCorrupt: bool)
    requires |p| > 0 && IsFile(t, p)
    ensures var s := JarStep(t, tools, p, skipIfCorrupt);
            && (s.outcome == Extracted <==> p !in s.tree)
            && (s.outcome != Extracted ==> s.tree[p] == t[p])
  {
    var dest := WithoutSuffix(p);
    if dest != p {
      assert !Below(dest, p);
      forall entries: map<Path, Node> ensures p !in Place(dest, entries) {
      }
    }
  }

  /** A JAR that is its own destination is never written below: the call
      either fails and changes nothing, or finds nothing to write and removes
      the JAR. An archive with an entry to write always fails. */
  lemma JarOntoItselfWritesNothing(t: Tree, tools: Tools, p: Path, skipIfCorrupt: bool)
    requires |p| > 0 && WithoutSuffix(p) == p
    ensures var s := JarStep(t, tools, p, skipIfCorrupt);
            && (s.outcome == Extracted ==> s.tree == t - {p})
            && (s.outcome != Extracted ==> s.tree == t && s.outcome == Tolerate(skipIfCorrupt))
            && (ZipOf(tools, t, p).Members? && (exists q :: q in ZipOf(tools, t, p).entries && q != []) ==>
                  s.outcome == Tolerate(skipIfCorrupt))
  {
  }

  /** Namespaced extraction: apart from removing the JAR, only
      `p.with_suffix("")` and the entries below it change. */
  lemma JarStaysInItsDirectory(t: Tree, tools: Tools, p: Path, skipIfCorrupt: bool)
    requires |p| > 0
    ensures var s := JarStep(t, tools, p, skipIfCorrupt);
            forall k :: k != p && k != WithoutSuffix(p) && !Below(WithoutSuffix(p), k) ==>
              (k in s.tree <==> k in t) && (k in t ==> s.tree[k] == t[k])
  {
    var dest := WithoutSuffix(p);
    forall entries: map<Path, Node>, k | k != dest && !Below(dest, k) ensures k !in Place(dest, entries) {
    }
  }

  /** `extract_zip`: unpack next to the archive, then remove it; any exception
      is tolerated under `skip_if_corrupt` and leaves the tree as it was. */
  function FlatZipStep(t: Tree, tools: Tools, p: Path, skipIfCorrupt: bool): (s: Step)
  {
    match ZipOf(tools, t, p)
    case Members(entries) => Step(t + Place(Parent(p), entries) - {p}, Extracted)
    case _ => Step(t, Tolerate(skipIfCorrupt))
  }

  method ExtractZip(ws: Workspace, p: Path, skipIfCorrupt: bool := true) returns (r: Outcome)
    modifies ws
    ensures Step(ws.tree, r) == FlatZipStep(old(ws.tree), ws.tools, p, skipIfCorrupt)
  {
    match ZipOf(ws.tools, ws.tree, p) {
      case Members(entries) =>
        ws.WriteBelow(Parent(p), entries);
        ws.Unlink(p);
        r := Extracted;
      case _ =>
        r := Tolerate(skipIfCorrupt);
    }
  }

  /** The ZIP is removed exactly when the call reports success, a failed call
      changes nothing, and a successful one writes only at or below the ZIP's
      own directory. */
  lemma FlatZipRemovedOnlyOnSuccess(t: Tree, tools: Tools, p: Path, skipIfCorrupt: bool)
    requires IsFile(t, p)
    ensures var s := FlatZipStep(t, tools, p, skipIfCorrupt);
            && (s.outcome == Extracted <==> p !in s.tree)
            && (s.outcome != Extracted ==> s.tree == t && s.outcome == Tolerate(skipIfCorrupt))
            && (s.outcome == Extracted ==>
                  forall k :: k in s.tree && k != Parent(p) && !Below(Parent(p), k) ==> k in t && s.tree[k] == t[k])
  {
    var s := FlatZipStep(t, tools, p, skipIfCorrupt);
    if ZipOf(tools, t, p).Members? {
      var placed := Place(Parent(p), ZipOf(tools, t, p).entries);
      assert s.tree == t + placed - {p};
      forall k | k in s.tree && k != Parent(p) && !Below(Parent(p), k) ensures k in t && s.tree[k] == t[k] {
        assert k !in placed;
      }
    }
  }

  // ---------------------------------------------------------------------------
  // Deliverables

  /** `installer_dir / "C_" / "MakingInstalers" / "Layout"`, relative to the installer. */
  const Layout: Path := ["C_", "MakingInstalers", "Layout"]

  const CompilerDir: Path := ["Cross_Tools_zg_ia_sf", "powerpc-eabivle-4_9"]
  const EwlDir: Path := ["S32DS_zg_ia_sf", "e200_ewl2"]
  const DriversDir: Path := ["Drivers_zg_ia_sf", "libusb_64_32"]
  const CompilerMarker: Path := ["bin", "powerpc-eabivle-gcc"]
  const EwlMarker: Path := ["EWL_C"]
  const DriversMarker: Path := ["58-pemicro.rules"]
  const PluginBase: Path := ["eclipse_zg_ia_sf", "plugins"]
  const PluginPrefix := "com.pemicro.debug.gdbjtag.ppc_"
  const ServerName := "pegdbserver_power_console"

  /** The fallback test of a located directory: an `rglob(name)` match below
      `d` that is a directory holding `marker`. */
  function DirTest(t: Tree, d: Path, name: string, marker: Path): Path -> bool {
    q => Below(d, q) && Name(q) == name && IsDir(t, q) && Exists(t, q + marker)
  }

  /** One of the three directory deliverables: the layout path when it exists,
      else the first `rglob` match that passes its check, in the walk order `xs`. */
  function LocateDir(t: Tree, xs: seq<Path>, d: Path, fixed: Path, name: string, marker: Path): (r: Option<Path>)
    ensures Exists(t, d + Layout) && Exists(t, d + Layout + fixed) ==> r == Some(d + Layout + fixed)
    ensures !(Exists(t, d + Layout) && Exists(t, d + Layout + fixed)) ==> IsFirstWhere(xs, DirTest(t, d, name, marker), r)
    ensures r.Some? ==> Exists(t, r.value)
    ensures r.None? <==> !(Exists(t, d + Layout) && Exists(t, d + Layout + fixed))
                         && forall q :: q in xs ==> !DirTest(t, d, name, marker)(q)
  {
    var layout := d + Layout;
    if Exists(t, layout) && Exists(t, layout + fixed) then Some(layout + fixed)
    else First(xs, DirTest(t, d, name, marker))
  }

  /** A plugin directory that `glob("com.pemicro.debug.gdbjtag.ppc_*")` returns
      below `base` and whose `lin` directory holds the server. */
  function PluginTest(t: Tree, base: Path): Path -> bool {
    q => |q| > 0 && Parent(q) == base && StartsWith(Name(q), PluginPrefix)
         && Exists(t, q + ["lin"]) && Exists(t, q + ["lin", ServerName])
  }

  /** A `lin` directory found by `rglob("lin")` that holds the server. */
  function LinTest(t: Tree, d: Path): Path -> bool {
    q => Below(d, q) && Name(q) == "lin" && Exists(t, q + [ServerName])
  }

  /** The GDB server part of `find_deliverables`: the `lin` directory of the
      first plugin in the layout that holds the server, else the first `lin`
      directory anywhere that does. */
  function LocateGdbServer(t: Tree, xs: seq<Path>, d: Path): (r: Option<Path>)
    ensures r.Some? ==> |r.value| > 0 && Name(r.value) == "lin" && Exists(t, r.value + [ServerName])
    ensures var base := d + Layout + PluginBase;
            var inLayout := Exists(t, d + Layout) && Exists(t, base)
                            && exists q :: q in xs && PluginTest(t, base)(q);
            && (inLayout ==> r.Some? && IsFirstWhere(xs, PluginTest(t, base), Some(Parent(r.value))))
            && (!inLayout ==> IsFirstWhere(xs, LinTest(t, d), r))
  {
    var base := d + Layout + PluginBase;
    var plugin := if Exists(t, d + Layout) && Exists(t, base) then First(xs, PluginTest(t, base)) else None;
    if plugin.Some? then
      var lin := plugin.value + ["lin"];
      assert Parent(lin) == plugin.value;
      assert lin + [ServerName] == plugin.value + ["lin", ServerName];
      Some(lin)
    else
      var r := First(xs, LinTest(t, d));
      assert r.Some? ==> LinTest(t, d)(r.value);
      r
  }

  datatype Deliverables = Deliverables(compiler: Option<Path>, gdbServer: Option<Path>,
                                       ewl: Option<Path>, drivers: Option<Path>)

  /** `find_deliverables(installer_dir)`, with `d` the installer directory and
      `xs` the walk order of `rglob` and `glob`. Every answer exists; a layout
      path is taken on existence alone, a searched one only after its check. */
  function FindDeliverables(t: Tree, xs: seq<Path>, d: Path): (r: Deliverables)
    ensures r.compiler.Some? ==> (r.compiler.value == d + Layout + CompilerDir
                                  || DirTest(t, d, "powerpc-eabivle-4_9", CompilerMarker)(r.compiler.value))
    ensures r.ewl.Some? ==> (r.ewl.value == d + Layout + EwlDir || DirTest(t, d, "e200_ewl2", EwlMarker)(r.ewl.value))
    ensures r.drivers.Some? ==> (r.drivers.value == d + Layout + DriversDir
                                 || DirTest(t, d, "libusb_64_32", DriversMarker)(r.drivers.value))
    ensures r.gdbServer.Some? ==> Exists(t, r.gdbServer.value + [ServerName])
    ensures forall q :: q in [r.compiler, r.ewl, r.drivers] && q.Some? ==> Exists(t, q.value)
  {
    var compiler := LocateDir(t, xs, d, CompilerDir, "powerpc-eabivle-4_9", CompilerMarker);
    var ewl := LocateDir(t, xs, d, EwlDir, "e200_ewl2", EwlMarker);
    var drivers := LocateDir(t, xs, d, DriversDir, "libusb_64_32", DriversMarker);
    var gdb := LocateGdbServer(t, xs, d);
    Deliverables(compiler, gdb, ewl, drivers)
  }
}
