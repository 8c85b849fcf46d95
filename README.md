# extract_S32DS_Power_Linux, modelled in Dafny

The repository unpacks NXP's S32 Design Studio for Power Architecture
installer (a shell script with a ZIP payload appended) on Linux, and then
looks for the files a Debian package needs. Its core is made of three parts:

- **Payload carving.** Find the first ZIP local-file-header signature
  `50 4B 03 04` and keep the bytes from there to the end (`extract_payload.py`
  and `extract_and_package.py`).
- **Fixpoint archive expansion.** Scan the tree for `.zip`/`.jar` files. The
  scan skips directories whose walk root contains ".git" and names that
  contain an exclude pattern. Each archive that has not already failed is
  tried; a successful extraction deletes the archive. The round repeats until:
  - the scan finds nothing new, or
  - the goal holds (the goal-directed script only), or
  - `max_iterations` rounds have run.

  There are four such loops: `extract_all_jars`, `extract_all_zips`,
  `extract_all_recursive` and `extract_until_targets`.
- **Deliverable locators.** These try a fixed path first, then search the
  walk for candidates that pass a check, ranking Linux over unrecognised over Windows
  (`find_deliverables`, `find_powerpc_gcc`, `find_pegdbserver`,
  `find_gdi_directory`, `check_targets_found`).

## How it is modelled

- **File tree.** The tree is a `map<Path, Node>`. A `Path` is the sequence of
  names below the walked directory and a `Node` is `Dir` or `File(bytes)`
  (module `Common`). The empty path is the walked directory itself.
  - `Render(top, p)` is `str()` of the path.
  - `WalkRoot(top, d)` is the `root` string `os.walk` reports.
  - For the scripts that work on the current directory, `top` is ".", and
    their entry methods require it.
- **Foreign calls are oracles** (module `FileSystem`).
  - `zipfile` gives an archive's entries, `BadZip` or any other failure.
  - The `unzip` subprocess gives an exit code, stderr text and the entries it
    wrote, or is missing, or times out.
  - `testzip` is a predicate that says whether it raised.
  - The walk and glob order is a `listing` function from a tree to the
    sequence of its entries.
- **Workspace class.** The `Workspace` class holds the tree, which its methods
  `WriteBelow` (extractall) and `Unlink` change in place.
  An extraction writes its entries and, as `os.makedirs` and `unzip -d` do,
  every directory leading to them (`Common.Place`).
- **Extractors.** Each extractor is a `method` on the workspace. It is proved
  against a `...Step` function that gives the new tree and the outcome:
  `Extracted` (returned True), `Skipped` (returned False) or `Raised`. The
  properties are lemmas about those functions.
- **Scans.** A scan is a `method` whose loop appends to a list. It is proved
  equal to `Scanner.Candidates`, the walk filtered by `Scanner.Selected`.
- **Locators** are functions over the walk sequence.
  - `Search.First` is a for/break search.
  - `Search.Prefer` gives the Linux > other > Windows ranking.
- **The loops.** The four loops share the class `Fixpoint.Sweep`.
  - Its fields are the script's locals `iteration`, `extracted_count` and
    `skipped_files`, plus a ghost record of every extractor call.
  - Its invariant `Valid` ties the counters to that record.
  - A ghost `history` logs each counted round with the tree its scan saw.
    `RoundEffect` folds the loop's extractor (`StepOf`) over a round's
    pending archives. `Accounted` says that the rounds of the history, run
    one after another from the starting tree, give the current tree and
    every call made with its result.
  - Each script's function is an entry method that builds a `Sweep` and runs it.

## Notes on the source

- **`find_pk_header` in `extract_payload.py` returns an int.** Its annotation
  and docstring say Optional, but it returns `data.find(...)`, which is -1 when
  the signature is absent. Its caller tests for -1, so the script is
  consistent; the model returns the integer
  (`ExtractPayload.FindPkHeader`). The copy in `extract_and_package.py` does
  return None.
- **The `any(archive_dir.iterdir())` test in `extract_archive` cannot fail.**
  The archive itself is still in its directory when the test runs
  (`ExtractUntilTargets.ArchiveDirNeverEmpty`). The fallback's success
  therefore rests only on the exit code or a "warning" in stderr.
- **`testzip()` in `extract_all_zips.extract_zip` only counts if it raises.**
  Its return value (the first bad member) is ignored, so only an exception
  from it counts.

## Model

| member | source | states |
|---|---|---|
| ExtractPayload.FindPkHeader | extract_payload.py:69-83 | -1 exactly when the signature occurs nowhere; otherwise an offset at most len-4 where the signature occurs, with no earlier occurrence |
| ExtractPayload.ExtractInstallerPayload | extract_payload.py:110-118 | fails exactly when the signature is absent; otherwise the result is a suffix `data[offset:]` starting at the first occurrence and beginning with the signature |
| ExtractPayload.PayloadSplitsInstaller | extract_payload.py:110-118 | the carved payload plus the cut-off header rebuild the installer, and the header contains no signature |
| ExtractAndPackage.FindPkHeader | extract_and_package.py:57-72 | None exactly when the signature occurs nowhere; otherwise the first offset at which it occurs |
| ExtractAndPackage.ExtractPayloadFromBin | extract_and_package.py:97-105 | ValueError exactly when there is no header; otherwise the written bytes are the tail of the file of length len-offset, i.e. `data[offset:]`: they start with the signature and no signature starts in the bytes cut off |
| ExtractAndPackage.CarveAgreesWithExtractPayload | extract_and_package.py:97-105 | the two scripts' carve steps fail on the same inputs and produce the same payload |
| ExtractAndPackage.FindJarFiles | extract_and_package.py:159-167 | exactly the `.jar` files outside a ".git" walk root, each once, in walk order |
| ExtractAndPackage.FindZipFiles | extract_and_package.py:292-304 | exactly the `.zip` files outside a ".git" root whose name contains no exclude pattern (default "installer_payload.zip"), each once, in walk order |
| ExtractAndPackage.ExtractZipFile | extract_and_package.py:126-142 | the new tree and outcome are those of `ZipFileStep`: zipfile's entries, else unzip's output, written below the output directory |
| ExtractAndPackage.ZipFileFailsOnlyWhenFallbackFails | extract_and_package.py:129-142 | after BadZipFile the call raises exactly when unzip does not complete or exits non-zero leaving the output directory empty; nothing outside the output directory changes and nothing is removed |
| ExtractAndPackage.ExtractJar | extract_and_package.py:187-224 | the new tree and outcome are those of `JarStep`: extract into `with_suffix("")`, accept unzip on exit 0 or a non-empty destination, unlink only then; a JAR named exactly ".jar" is its own destination, so any entry to write makes the call fail |
| ExtractAndPackage.JarOntoItselfWritesNothing | extract_and_package.py:187-224 | when `with_suffix("")` is the JAR itself, nothing is written below it: a failure leaves the tree unchanged and is tolerated per `skip_if_corrupt`, a success only removes the JAR, and an archive with an entry to write always fails |
| ExtractAndPackage.JarSkipNeverRaises | extract_and_package.py:207-224 | with `skip_if_corrupt` no JAR makes the call raise |
| ExtractAndPackage.JarRemovedOnlyOnSuccess | extract_and_package.py:190-212 | the JAR is gone exactly when the call returns True; otherwise its bytes are unchanged |
| ExtractAndPackage.JarStaysInItsDirectory | extract_and_package.py:188-206 | apart from the JAR itself, only `jar.with_suffix("")` and the entries below it change |
| ExtractAndPackage.ExtractZip | extract_and_package.py:324-336 | the new tree and outcome are those of `FlatZipStep`: extract into the parent, unlink, or tolerate any exception |
| ExtractAndPackage.FlatZipRemovedOnlyOnSuccess | extract_and_package.py:324-336 | the ZIP is gone exactly on True; a failure leaves the tree unchanged and returns False (or raises without `skip_if_corrupt`); a success writes only at or below the ZIP's directory |
| ExtractAndPackage.LocateDir | extract_and_package.py:398-412 | the layout path when the layout and it exist; else the first `rglob` match that is a directory holding its marker; None exactly when neither exists; every answer exists |
| ExtractAndPackage.LocateGdbServer | extract_and_package.py:414-430 | a `lin` directory holding `pegdbserver_power_console`: that of the first matching layout plugin when there is one, else the first such `lin` found by `rglob` |
| ExtractAndPackage.FindDeliverables | extract_and_package.py:382-460 | each of compiler, EWL and drivers is the fixed layout path or a search match that passed its check, and exists; the GDB server directory holds the server binary |
| ExtractAllZips.FindZipFiles | extract_all_zips.py:44-57 | exactly the `.zip` files outside a ".git" root whose name contains no exclude pattern (default none), each once, in walk order |
| ExtractAllZips.ExtractZip | extract_all_zips.py:82-109 | the new tree and outcome are those of `CheckedZipStep`: open, `testzip`, extract into the parent, unlink |
| ExtractAllZips.CheckedZipRemovedOnlyOnSuccess | extract_all_zips.py:82-109 | True exactly when zipfile reads the archive and `testzip` does not raise, and then the ZIP is gone; otherwise the tree is unchanged and the exception is tolerated or re-raised per `skip_if_corrupt` |
| ExtractUntilTargets.FindArchives | extract_until_targets.py:49-62 | exactly the `.zip` and `.jar` files outside a ".git" root whose name contains no exclude pattern (default "installer_payload.zip"), each once, in walk order |
| ExtractUntilTargets.ArchiveStepAsWritten | extract_until_targets.py:94-127 | as written, a corrupt archive whose `unzip` times out raises, whatever `skip_if_corrupt` says |
| ExtractUntilTargets.ArchiveStep | extract_until_targets.py:82-133 | corrected: a timed-out `unzip` is tolerated like any other failed extraction |
| ExtractUntilTargets.ExtractArchive | extract_until_targets.py:82-133 | the new tree and outcome are those of the corrected `ArchiveStep` |
| ExtractUntilTargets.TimeoutEscapesAsWritten | extract_until_targets.py:97-127 | for such an archive the as-written step raises under `skip_if_corrupt` while the corrected one skips |
| ExtractUntilTargets.TimeoutCounterexample | extract_until_targets.py:99-104 | a concrete archive and tools for which the as-written step raises with `skip_if_corrupt=True` |
| ExtractUntilTargets.ArchiveSkipNeverRaises | extract_until_targets.py:120-133 | with `skip_if_corrupt`, the corrected call never raises |
| ExtractUntilTargets.ArchiveDirNeverEmpty | extract_until_targets.py:105-111 | the directory test after `unzip` always succeeds, because the archive is still there |
| ExtractUntilTargets.ArchiveFallbackSucceedsOnCodeOrWarning | extract_until_targets.py:105-119 | the `unzip` fallback counts as success exactly when it exits 0 or its lower-cased stderr contains "warning" |
| ExtractUntilTargets.ArchiveRemovedOnlyOnSuccess | extract_until_targets.py:86-119 | the archive is gone exactly when the call returns True; a failure removes nothing |
| ExtractUntilTargets.Bins | extract_until_targets.py:157-165 | the candidate binaries are exactly `dir/bin/<name>` for the listed names |
| ExtractUntilTargets.FirstOfTiers | extract_until_targets.py:150-190 | the first file of tier one if any, else the first file of tier two, else the first tier-three entry passing its check; None exactly when no tier has a hit |
| ExtractUntilTargets.FindPowerpcGcc | extract_until_targets.py:136-190 | the three tiers in order over the `Cross_Tools/gcc-*-powerpc*/bin`, `powerpc-*-4_9/bin` and prefix-glob candidates, with tier three's path, name and suffix check |
| ExtractUntilTargets.GccDirMentionsPowerpc | extract_until_targets.py:154 | a `gcc-*-powerpc*` name contains "powerpc" |
| ExtractUntilTargets.Tier1MentionsPowerpcGcc | extract_until_targets.py:151-165 | every tier-one candidate's path mentions "powerpc" and its name mentions "gcc" |
| ExtractUntilTargets.Tier2MentionsPowerpcGcc | extract_until_targets.py:168-173 | every tier-two candidate's path mentions "powerpc" and its name mentions "gcc" |
| ExtractUntilTargets.GccAnswerMentionsPowerpcGcc | extract_until_targets.py:150-188 | whichever tier answers, the answer is a file whose lower-cased path mentions "powerpc" and whose name mentions "gcc" |
| ExtractUntilTargets.FindPegdbserver | extract_until_targets.py:209-238 | the fixed Linux binary when it exists; else the first Linux candidate, else the first unrecognised one, else the first Windows one; None exactly when there is no candidate |
| ExtractUntilTargets.ServerAvoidsExe | extract_until_targets.py:219-236 | while any Linux or unrecognised candidate exists, the answer is a file whose path does not end in ".exe" |
| ExtractUntilTargets.FindGdiDirectory | extract_until_targets.py:257-291 | the fixed Linux directory when it is one; else the ranked `gdi` directory holding `P&E` (Linux, then "pemicro", then Windows); None exactly when there is no candidate |
| ExtractUntilTargets.CheckTargetsFound | extract_until_targets.py:294-316 | each flag holds exactly when its locator has a candidate that passes its check |
| Search.First | extract_and_package.py:409-412 | the first element passing the test, None exactly when none does |
| Search.Prefer | extract_until_targets.py:230-238 | the first Linux candidate, else the first unrecognised, else the first Windows; None exactly when nothing is classified |
| Search.PreferredClassIgnoresOrder | extract_until_targets.py:230-238 | the platform of the answer does not depend on the walk order |
| Scanner.Candidates | extract_until_targets.py:51-62 | an entry is kept exactly when it is selected; no duplicates when the walk has none |
| Scanner.Scan | extract_until_targets.py:51-62 | the append loop over the walk returns exactly `Candidates` |
| Scanner.Unskipped | extract_until_targets.py:376 | exactly the found archives not in `skipped_files`, in order |
| Common.Place | extract_until_targets.py:87-89 | an extraction writes each named entry at `dest` joined with its path, and touches nothing but `dest` and what lies below it |
| Common.PlaceMakesDirs | extract_until_targets.py:87-89 | an extraction also creates `dest` and every directory leading to an entry, and whatever it adds besides the entries is a directory |
| FileSystem.Workspace.WriteBelow | extract_until_targets.py:87-89 | the entries of an extraction, and the directories leading to them, overwrite the tree at and below the destination |
| FileSystem.Workspace.Unlink | extract_until_targets.py:91 | the archive's entry is removed and nothing else changes |
| Fixpoint.StepOf | extract_until_targets.py:385 | the loop's extractor with `skip_if_corrupt=True` never raises; for `extract_until_targets` this is the corrected `extract_archive` of the Findings table, since the one as written can raise |
| Fixpoint.StepRemovesOnlyOnSuccess | extract_and_package.py:263-268 | in every loop, an archive is removed exactly when its extractor returns True |
| Fixpoint.FailedPathsAreFailures | extract_until_targets.py:384-390 | a path is in the skip record exactly when some call on it returned False |
| Fixpoint.Record | extract_all_zips.py:157-163 | one call on a path not yet skipped keeps "never retried", adds the path to the skip set exactly on False, and adds one to the count exactly on True |
| Fixpoint.NothingPendingMeansAllSkipped | extract_until_targets.py:373-380 | when the filtered scan is empty, every archive the scan selects has already failed |
| Fixpoint.Sweep.constructor | extract_until_targets.py:342-346 | a fresh loop state: iteration 0, no extractions, empty skip set |
| Fixpoint.Sweep.ScanArchives | extract_until_targets.py:373 | each loop scans with its own finder, giving the selected archives without duplicates |
| Fixpoint.Sweep.ExtractOne | extract_until_targets.py:385 | the loop's extractor changes the tree as its step function says |
| Fixpoint.Sweep.Tally | extract_until_targets.py:386-390 | True adds one to `extracted_count`, False adds the path to `skipped_files`, and the invariant is kept |
| Fixpoint.Sweep.Try | extract_until_targets.py:384-390 | one pass of the `for` body: the extraction, then its tally, with the invariant kept |
| Fixpoint.StepRemovesOnlyItsArchive | extract_until_targets.py:384-390 | one call of any loop's extractor removes no entry except its own archive, and that one only on True |
| Fixpoint.RoundTriesEachPending | extract_until_targets.py:384 | a round calls the extractor exactly once on each pending archive, in order |
| Fixpoint.RoundRemovesOnlyExtracted | extract_until_targets.py:384-390 | across a round, an entry leaves the tree only as an archive whose own call returned True |
| Fixpoint.Sweep.RanOneMore | extract_until_targets.py:355-392 | a round run on the tree the earlier rounds left, after a scan with the skip set their calls built, extends the run |
| Fixpoint.Sweep.RanRemovesOnlyExtracted | extract_until_targets.py:355-392 | across all rounds run, an entry of the starting tree is gone only if it is an archive whose call returned True |
| Fixpoint.Sweep.TryNext | extract_until_targets.py:384-390 | after the i-th archive, the tree and the calls are those of the extractor run on the first i+1 pending archives in order, and none of the rest has failed |
| Fixpoint.Sweep.Round | extract_until_targets.py:384-390 | the tree after the round and the calls with their results are the extractor folded over the pending archives (`RoundEffect`); the skip set only grows; the invariant (counter = number of True results, skip set = paths that returned False, none retried) is kept |
| Fixpoint.Sweep.Pass | extract_until_targets.py:373-392 | a round run after a scan that found something and a goal that did not hold: the round is logged with that scan's tree and skip set, the new tree and calls are the round's `RoundEffect`, and `iteration` goes up by one |
| Fixpoint.Sweep.Advance | extract_until_targets.py:392 | `iteration += 1` together with the round's entry in the ghost history, keeping the history as long as the counter |
| Fixpoint.Sweep.Run | extract_until_targets.py:355-392 | the rounds run are the history, chained from the starting tree: each started on the tree the previous one left, with the goal false and the skip set built by the earlier calls, and tried exactly the scan's unskipped archives (at least one) with the extractor; the current tree and all calls follow from them; at most `max_iterations` rounds; an empty filtered scan stops with the goal false and every selected archive already failed; a goal stop means the goal holds; a goal holding on entry means no extraction at all |
| Fixpoint.ExtractAllJars | extract_and_package.py:245-273 | the JAR loop keeps the invariant; its rounds, run with `extract_jar` from the starting tree, give the final tree and every result; an entry is gone only if it is a JAR whose extraction returned True; every round followed a scan with something to try; it stops when the filtered scan is empty or after `max_iterations` rounds (default 200) |
| Fixpoint.ExtractAllZips | extract_and_package.py:351-379 | the ZIP loop, scanning without "installer_payload.zip"; its rounds, run with `extract_zip` from the starting tree, give the final tree and every result; an entry is gone only if it is a ZIP whose extraction returned True; every round followed a scan with something to try; it stops when the filtered scan is empty or after `max_iterations` rounds (default 100) |
| Fixpoint.ExtractAllRecursive | extract_all_zips.py:136-170 | on "."; the exclude patterns default to "installer_payload.zip" and go to every scan; its rounds, run with `extract_zip` from the starting tree, give the final tree and every result; an entry is gone only if it is a ZIP whose extraction returned True; every round followed a scan with something to try; it stops when the filtered scan is empty or after `max_iterations` rounds (default 100) |
| Fixpoint.ExtractUntilTargets | extract_until_targets.py:342-392 | on ".", with the corrected `extract_archive`: its rounds, run from the starting tree, give the final tree and every result; an entry is gone only if it is an archive whose extraction returned True; the goal is `check_targets_found`, checked false before every counted round's scan; a goal stop means all three targets are found; an empty-scan stop means they are not; at most `max_iterations` rounds; a goal already holding on entry (with at least one round allowed) means zero extractions and an unchanged tree |

## Left out

- Printing, progress messages and the every-10-rounds status report are left out. They have no effect on the state.
- The `.deb` assembly is left out: `create_deb_structure`, `create_deb_control_files`, `build_deb_package`. It is copying, text templates and a `dpkg-deb` subprocess.
- `main` and `find_bin_file` are left out: argument parsing, temporary directories and `rmtree`.
- Reading the installer and writing `installer_payload.zip` are I/O. Only the bytes that would be written are modelled.
- ZIP decoding, `testzip` and the `unzip` subprocess, with its 300-second timeout, are oracles. Their results are inputs, not computed.
- Walk and glob order is an input (`listing`). Glob wildcards are modelled as the name tests they amount to on the paths the walk lists: a prefix, an equality, or the `gcc-*-powerpc*` shape.
- File writes and `unlink` always succeed. A `PermissionError` or a full disk is not modelled.
- `zipfile` failing part-way through `extractall` is not modelled: a successful read writes all entries and a failed one writes nothing. A timed-out `unzip` writes nothing.
- Exception types are not distinguished. The model only records that an exception escapes (`Raised`).
- ExtractAndPackage.ExtractJar, ExtractAndPackage.ExtractZipFile, ExtractAndPackage.ExtractZip, ExtractAllZips.ExtractZip, ExtractUntilTargets.ExtractArchive: writing below an existing regular file is a map override, in which the file gives way to the entry or to a directory. The source raises there. The one case a scan can reach, a JAR named exactly ".jar" that is its own destination, is modelled (`JarOntoItselfWritesNothing`).
- `HasEntryBelow` stands for `any(dir.iterdir())`. A directory that does not exist counts as empty. The source raises `FileNotFoundError` there, but every caller reaches the same outcome either way.
- Search.Expand: states only that every result comes from some input. It does not state the converse or the order. Those follow from its definition and are not needed by the tier lemmas.
- ExtractUntilTargets.CheckTargetsFound: states each flag through the candidates, not through the path the locator returns. The returned path is stated by `FindPowerpcGcc`, `FindPegdbserver` and `FindGdiDirectory`.
- ExtractAndPackage.ExtractJar: a JAR named `..jar` or `...jar` has the stem "." or "..". The model extracts it into a child directory of that name. pathlib's `with_suffix("")` gives the JAR's own directory or its parent up to Python 3.12, and raises `ValueError` before the `try` from 3.13 on. Neither behaviour is modelled, so `JarStaysInItsDirectory` does not describe such a JAR.
- Fixpoint.ExtractUntilTargets: the loop runs the corrected `extract_archive`. With the code as written, a timed-out `unzip` aborts the whole loop. That abort is shown only for one call (`ExtractUntilTargets.TimeoutCounterexample`), and `Stop` has no state for it.
- Fixpoint.ExtractUntilTargets: states a goal stop through the sweep's goal. That goal is `GoalOf`, which for this loop is `TargetsFound` of the tree.

## Findings

| source | as written | input that shows it | evidently intended | confidence | as-written member | corrected member |
|---|---|---|---|---|---|---|
| extract_until_targets.py:97-127 | `subprocess.TimeoutExpired` from the `unzip` fallback is raised inside the `except zipfile.BadZipFile` handler. Neither the inner `except (CalledProcessError, FileNotFoundError)` nor the sibling `except Exception` catches it, so it escapes even with `skip_if_corrupt=True` and aborts `extract_until_targets` | an archive that `zipfile` rejects as corrupt and on which `unzip` runs longer than 300 seconds | with `skip_if_corrupt=True`, the archive is skipped (returns False) like every other failed extraction | not executed | ExtractUntilTargets.ArchiveStepAsWritten, ExtractUntilTargets.TimeoutCounterexample | ExtractUntilTargets.ArchiveStep, ExtractUntilTargets.ArchiveSkipNeverRaises |
