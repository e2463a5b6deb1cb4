# Aseprite extension toolkit — verified model

This project models the decision logic of the Aseprite extension toolkit
(`extension-toolkit.py`), in Dafny, and proves what that logic promises:

- **Manifest interpretation** (`ExtensionConfig.from_path` once `package.json`
  has been parsed). The model turns a JSON document into an
  `ExtensionConfig` record or an error. The errors are `ValidationError`
  with its reason, and the `AttributeError` Python raises when `.strip()` is
  called on a value that is not a string. The model covers name trimming and
  the reserved-character check, the main-script derivation with
  `str.strip("./")`, the three author shapes, the version, display-name and
  categories defaults, and `__post_init__`.
- **Runtime manifest** (`generate_extension_json`): the eleven-key
  `extension.json`. It has an inverse reader and a round-trip proof.
- **Packaging and installation paths** (`ExtensionPacker`):
  - `get_files_to_package`, as a loop over the candidate set;
  - the archive name of a file (`_get_archive_name`);
  - the copy targets and success flag of `_copy_files_to_folder`, as a loop;
  - the ordered `installedFiles` list of `_create_info_json`, as a loop.

  Lemmas tie these together. After a clean installation, every info-list
  entry except `extension.json` names a copy that was written, and
  `extension.json` names the generated runtime manifest. The `main` entry of
  the runtime manifest names the archived main script.
- **Live reload debounce** (`ExtensionWatcher.on_modified` and
  `_should_trigger_rebuild`). The watcher is a class whose `lastBuildTime`
  field the handler updates. The clock is an injected `now` and the
  install is abstract. Lemmas over a replayed sequence of events show that
  a burst shorter than the debounce interval starts at most one install and
  that well-spaced relevant events each start one.

Modules, one per file:

- `Text` (`text.dfy`): Python's `str.strip`, `split` and `join`, and the
  whitespace set that `str.isspace` accepts.
- `Paths` (`paths.dfy`): the lexical `pathlib` operations. A path is the
  sequence of its segments.
- `JsonValues`, `Results` (`json.dfy`): parsed JSON and `Result`/`Option`.
- `Manifest` (`manifest.dfy`): `ExtensionConfig`.
- `Packer` (`packer.dfy`): `ExtensionPacker`.
- `Watcher` (`watcher.dfy`): `ExtensionWatcher`.

The filesystem enters only as inputs:

- the set of paths that exist and the set that are directories;
- the outcome of reading `package.json`;
- the set of files whose copy raises `OSError`.

The main-script strip is `str.strip("./")`, which removes whole runs of `.`
and `/` from both ends, so `"../a/b.lua."` becomes `"a/b.lua"`. The model
keeps that behaviour as written (`MainScriptStripsWholeRuns`).

## Model

| member | source | states |
|---|---|---|
| Text.Strip | extension-toolkit.py:133 | `str.strip`: the result is no longer than the input and neither starts nor ends with a stripped character |
| Text.StripEmpty | extension-toolkit.py:134-135 | a stripped string is empty exactly when every character of the original is strippable, which is when the name check fails |
| Text.StripRuns | extension-toolkit.py:150 | `strip` removes whole runs of stripped characters at both ends, not a single prefix |
| Text.StripIdempotent | extension-toolkit.py:165-175 | stripping twice is stripping once |
| Text.ContainsAny | extension-toolkit.py:138 | no ensures of its own: specified by ContainsAnyAt |
| Text.ContainsAnyAt | extension-toolkit.py:137-138 | `any(char in name for char in invalid_chars)` holds exactly when some position holds a reserved character |
| Paths.ParseAsPosix | extension-toolkit.py:330-331 | the POSIX rendering of a root-relative path (`.` for the root itself) parses back to that path |
| Paths.ParseDotSlash | extension-toolkit.py:193 | a leading `./` does not change the path a string names |
| Paths.Child | extension-toolkit.py:104 | no ensures of its own: `base / rel`, where an absolute `rel` replaces the base; ArchiveNameLocatesCopy and RuntimeMainLocatesMainScript use it |
| Paths.ArchiveName | extension-toolkit.py:328-332 | no ensures of its own: specified by ArchiveNameRelative, ArchiveNameLocatesCopy and ParseAsPosix |
| Paths.ArchiveNameRelative | extension-toolkit.py:328-332 | the archive name of a pathlib path never starts with `/`, so joining it to a folder appends to the folder |
| Paths.CopyTarget | extension-toolkit.py:420-425 | no ensures of its own: specified by CopyTargetInsideFolder and ArchiveNameLocatesCopy |
| Paths.ArchiveNameLocatesCopy | extension-toolkit.py:420-425 | the archive name of a file, resolved in a folder, is exactly the file's copy target in that folder |
| Paths.CopyTargetInsideFolder | extension-toolkit.py:420-425 | the copy target of a `pathlib` path lies in the target folder, and a file under the root keeps its root-relative position |
| Paths.Suffix | extension-toolkit.py:522 | no ensures of its own: specified by LuaSuffix |
| Paths.LuaSuffix | extension-toolkit.py:522 | `suffix == ".lua"` exactly when the name ends in `.lua` with something before it |
| Manifest.FromPath | extension-toolkit.py:109-131 | a missing path, a non-directory and a missing `package.json` give their own ValidationError in that order; once all three checks pass, a readable document gives its interpretation and an unreadable one gives ManifestUnreadable |
| Manifest.Interpret | extension-toolkit.py:130-178 | no ensures of its own: InterpretAccepts and InterpretRejects decide when it succeeds and with which error it fails, and the Accepted* lemmas give every field of its result |
| Manifest.MainScriptOf | extension-toolkit.py:143-152 | no ensures of its own: specified by MainScriptOfCases and MainScriptOfValue |
| Manifest.AuthorInfo | extension-toolkit.py:154-163 | no ensures of its own: AcceptedAuthor states the author and website each author shape gives |
| Manifest.TextsOf | extension-toolkit.py:165-175 | no ensures of its own: TextsOfSucceeds, TextsOfFails and TextsOfSucceedsOnly state when the `.strip()` calls succeed, and the Accepted* lemmas give the values |
| Manifest.Assemble | extension-toolkit.py:165-178 | no ensures of its own: AssembleTrimmed, AcceptedVersion, AcceptedDisplayName, AcceptedAuthor and AcceptedDefaults state the fields it builds |
| Manifest.NameOf | extension-toolkit.py:133-141 | an accepted name is non-empty and free of reserved characters |
| Manifest.NameOfCases | extension-toolkit.py:133-141 | the name is accepted exactly when it is a string whose trimmed form is non-empty and reserved-free, and is then that trimmed form; a name that is a string or missing is rejected with ValidationError, any other value with AttributeError; a missing name means NameRequired |
| Manifest.MainScriptOfCases | extension-toolkit.py:143-152 | the main script derivation fails exactly when the first script's `path` is present and not a string, and then with AttributeError |
| Manifest.MainScriptOfValue | extension-toolkit.py:143-152 | the main script is the first script's path with `.`/`/` runs stripped, or `extension.lua` when there is none or nothing remains; it is never empty and neither starts nor ends with `.` or `/` |
| Manifest.TextsOfSucceeds | extension-toolkit.py:165-175 | when version, displayName, description, license and the author object's name and url are strings wherever present, the remaining `.strip()` calls succeed |
| Manifest.TextsOfFails | extension-toolkit.py:165-175 | otherwise they raise AttributeError |
| Manifest.TextsOfSucceedsOnly | extension-toolkit.py:165-175 | when they succeed, all those values and both author values are strings |
| Manifest.AssembleTrimmed | extension-toolkit.py:165-178 | given a trimmed name, every text field of the constructed record is trimmed |
| Manifest.DefaultVersionTrimmed | extension-toolkit.py:167 | the default version `1.0.0` has no surrounding whitespace |
| Manifest.InterpretAccepts | extension-toolkit.py:130-178 | an object with an acceptable name whose stripped values are all strings is accepted |
| Manifest.InterpretRejects | extension-toolkit.py:130-178 | every other document is rejected, with ValidationError exactly when it is not an object or its string-or-missing name is not acceptable, and with AttributeError otherwise |
| Manifest.AcceptedName | extension-toolkit.py:133-141 | the accepted name is the trimmed `name` string, non-empty and free of reserved characters |
| Manifest.RejectedName | extension-toolkit.py:133-141 | a missing or blank name gives NameRequired; a name with a reserved character gives NameHasInvalidChars |
| Manifest.AcceptedMainScript | extension-toolkit.py:143-152 | the accepted main script is never empty and neither starts nor ends with `.` or `/`, so it is a relative path |
| Manifest.MainScriptStripsWholeRuns | extension-toolkit.py:150-152 | a first script path `../a/b.lua.` becomes the main script `a/b.lua` |
| Manifest.AcceptedAuthor | extension-toolkit.py:154-174 | author and website per the author shape, both trimmed, and `source` equals `website` |
| Manifest.AcceptedVersion | extension-toolkit.py:167 | the version is the trimmed `version` string, or `1.0.0` when missing or blank |
| Manifest.AcceptedDisplayName | extension-toolkit.py:170 | the display name is the trimmed `displayName` string, or the name when missing or blank |
| Manifest.AcceptedDefaults | extension-toolkit.py:86-88 | categories become `["Scripts"]` only when missing or null and are otherwise kept as given; the path is the extension directory and the API version is 1.3 |
| Manifest.AcceptedFieldsTrimmed | extension-toolkit.py:165-175 | every text field of an accepted record is trimmed |
| Manifest.RuntimeManifest | extension-toolkit.py:180-194 | the runtime manifest has exactly the eleven keys, and `main` is `./` followed by the main script |
| Manifest.RuntimeManifestKeyCount | extension-toolkit.py:182-194 | the eleven key names are distinct |
| Manifest.RuntimeManifestSize | extension-toolkit.py:180-194 | the runtime manifest has exactly eleven entries |
| Manifest.RuntimeManifestRoundTrip | extension-toolkit.py:180-194 | reading the runtime manifest back, with the root directory, gives the original record: nothing but the root is lost |
| Manifest.RuntimeMainLocatesMainScript | extension-toolkit.py:193 | for a relative main script, which every accepted manifest gives, the `main` entry resolved in the extension directory is the main script path |
| Packer.GetFilesToPackage | extension-toolkit.py:231-245 | the result holds exactly the candidates that exist: the main script, `package.json`, every script, and the keys file when it exists; nothing missing is returned |
| Packer.CopyFilesToFolder | extension-toolkit.py:411-435 | success is false exactly when some existing file fails to copy; the files written are those of `Copied` |
| Packer.CopiedInsideFolder | extension-toolkit.py:420-425 | for files given as `pathlib` paths, every written copy lies inside the target folder |
| Packer.CopiedExactly | extension-toolkit.py:414-429 | a copy is written at a target exactly when some listed file exists, does not fail, and has that target |
| Packer.CreateInfoJson | extension-toolkit.py:449-465 | the list has each script's archive name in input order, then `extension.json` and `package.json`, then the keys file name when it exists; its length is the script count plus 2, plus 1 for keys |
| Packer.InfoListUnique | extension-toolkit.py:449-465 | that description fixes the list completely |
| Packer.InfoListsInstalledFiles | extension-toolkit.py:449-465 | each entry, resolved in the installed folder, is the copy target of its script, of `package.json` or of the keys file, or the generated `extension.json` |
| Packer.FilesToCopy | extension-toolkit.py:392-396 | the copy list is the scripts in order, then `package.json`, then the keys file; InfoEntriesCopied states what copying it yields |
| Packer.InfoEntriesCopied | extension-toolkit.py:392-465 | when the scripts and `package.json` exist and no copy of the copy list (scripts, `package.json`, keys file) failed, every info-list entry except `extension.json` resolves in the extension folder to a copy that was written, and `extension.json` to the generated runtime manifest |
| Packer.MainEntryArchived | extension-toolkit.py:328-332 | for a relative main script, the `main` entry of `extension.json` names the archive entry of the main script |
| Watcher.ShouldTriggerRebuild | extension-toolkit.py:520-525 | no ensures of its own: specified by ShouldTriggerRebuildNames |
| Watcher.ShouldTriggerRebuildNames | extension-toolkit.py:520-525 | a rebuild is triggered by a `.lua` name with something before the dot, or by exactly `extension.json` or `package.json` |
| Watcher.ExtensionWatcher.constructor | extension-toolkit.py:494-498 | the last build time starts at 0 and the debounce interval is the one given |
| Watcher.ExtensionWatcher.OnModified | extension-toolkit.py:500-515 | an install starts exactly for a non-directory event on a relevant file at least the debounce interval after the last build; then the last build time becomes `now` before the install; otherwise nothing changes |
| Watcher.DeliverAll | extension-toolkit.py:500-515 | handing events to `on_modified` in order leaves the last build time and the number of installs that `Replay` computes, and appends one log entry per install |
| Watcher.IrrelevantIgnored | extension-toolkit.py:502-507 | directory events and irrelevant files never change the state or start an install |
| Watcher.QuietWithinWindow | extension-toolkit.py:509-511 | events less than the debounce interval after the last build start no install |
| Watcher.BurstInstallsAtMostOnce | extension-toolkit.py:509-515 | events in time order spanning less than the debounce interval start at most one install |
| Watcher.SpacedEventsEachInstall | extension-toolkit.py:509-515 | relevant events at least the debounce interval apart each start an install, and the last build time ends at the last of them |

## Left out

- Reading `package.json` and `json.load` are I/O. The model starts from the parsed document, or from `None` when reading or decoding failed. Every such failure becomes `ManifestUnreadable`, including a decoding error the source does not catch.
- Paths are the ones `pathlib` produces: every segment is non-empty, is not `.`, and holds no `/`. The lemmas about copy targets assume this (`WellFormed`).
- `Path.resolve()` is left out. The extension path is taken as already absolute and normalised, and symbolic links are not followed.
- JSON numbers are exact reals, and duplicate keys in a JSON object are not represented: an object is a map, as the dictionary `json.load` builds.
- Zip creation (`_create_zip_package`) and the temporary `extension.json` in `create_package` are filesystem plumbing and are left out. So are the output-file naming and the "no files to package" error of `create_package`, the write-access probes, `mkdir`, `shutil.rmtree` and `clean_previous_builds`. Only their path computations are modelled: archive names and copy targets.
- Packer.CopyFilesToFolder: `shutil.copy2` and the parent `mkdir` are abstracted into the `failing` set. What the copied files contain is not modelled.
- `collect_scripts` (`rglob("*.lua")`) is directory traversal. The scripts are an input list.
- `install_to_aseprite` is left out as a sequence of filesystem steps. The model keeps its copy list (`FilesToCopy`), the copy step, the generated `extension.json` location and the info list.
- `_generate_extension_json` and `_create_info_json` write files, and those writes are left out. The model keeps the written content (`RuntimeManifest`, `CreateInfoJson`).
- `LiveReloadManager`, the watchdog observer thread and the sleep loop are concurrency and I/O. So is the watcher's `builder.install_to_aseprite()` call, which the class records in its `installs` log instead. `time.time()` is the `now` parameter. The default debounce of one second is the caller's argument to the constructor.
- Watcher.ExtensionWatcher.OnModified: the `except Exception` around the handler is not modelled. The install catches its own errors, and the remaining steps cannot raise in the model.
- The click CLI, `print_header`, `_show_package_info`, `_format_file_size`, the platform lookup of the extensions folder and `build.py` are console, platform and process plumbing.
- Floating-point time is modelled as exact reals.
