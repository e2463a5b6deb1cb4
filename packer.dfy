/** `ExtensionPacker`: which files go into a package, the names they get in
    the archive, where an installation copies them, and the `__info.json`
    list that tells Aseprite what was installed. The filesystem is an input:
    `existing` holds the paths that exist and `failing` the files whose copy
    raises `OSError`. */
module Packer {
  import opened Text
  import opened Paths
  import opened Manifest

  const InfoFile := "__info.json"

  /** The candidates of `get_files_to_package`: the main script, the
      manifest, every script, and the keys file when it exists. */
  predicate PackageCandidate(cfg: ExtensionConfig, scripts: seq<Path>, existing: set<Path>, p: Path)
  {
    || p == cfg.MainScriptPath()
    || p == cfg.PackageJson()
    || p in scripts
    || (p == cfg.ExtensionKeys() && cfg.ExtensionKeys() in existing)
  }

  /** `ExtensionPacker.get_files_to_package`: the candidates that exist,
      gathered one by one as the source's loop over the candidate set does. */
  method GetFilesToPackage(cfg: ExtensionConfig, scripts: seq<Path>, existing: set<Path>)
    returns (files: set<Path>)
    ensures files <= existing
    ensures forall p :: p in files <==> p in existing && PackageCandidate(cfg, scripts, existing, p)
  {
    var candidates := {cfg.MainScriptPath(), cfg.PackageJson()} + set s | s in scripts;
    if cfg.ExtensionKeys() in existing {
      candidates := candidates + {cfg.ExtensionKeys()};
    }
    assert forall p :: p in candidates <==> PackageCandidate(cfg, scripts, existing, p);
    files := {};
    var pending := candidates;
    while pending != {}
      invariant pending <= candidates
      invariant files == (candidates - pending) * existing
      decreases pending
    {
      var p :| p in pending;
      if p in existing {
        files := files + {p};
      }
      pending := pending - {p};
    }
  }

  /** The list `install_to_aseprite` hands to `_copy_files_to_folder`: the
      scripts in order, then the manifest and the keys file. */
  function FilesToCopy(cfg: ExtensionConfig, scripts: seq<Path>): (files: seq<Path>)
    ensures |files| == |scripts| + 2 && files[..|scripts|] == scripts
    ensures files[|scripts|] == cfg.PackageJson() && files[|scripts| + 1] == cfg.ExtensionKeys()
  {
    scripts + [cfg.PackageJson(), cfg.ExtensionKeys()]
  }

  /** The files `_copy_files_to_folder` writes, in order: for each file that
      exists and whose copy does not fail, its copy target. */
  function Copied(root: Path, folder: Path, files: seq<Path>, existing: set<Path>, failing: set<Path>)
    : seq<Path>
  {
    if files == [] then []
    else
      var earlier := Copied(root, folder, files[..|files| - 1], existing, failing);
      var p := files[|files| - 1];
      if p in existing && p !in failing then earlier + [CopyTarget(root, folder, p)] else earlier
  }

  /** A file whose copy is attempted and fails. */
  predicate CopyFails(files: seq<Path>, existing: set<Path>, failing: set<Path>)
  {
    exists i :: 0 <= i < |files| && files[i] in existing && files[i] in failing
  }

  /** `ExtensionPacker._copy_files_to_folder`: missing files are skipped, a
      failed copy clears the success flag but the loop goes on. */
  method CopyFilesToFolder(root: Path, files: seq<Path>, folder: Path, existing: set<Path>, failing: set<Path>)
    returns (success: bool, written: seq<Path>)
    ensures success <==> !CopyFails(files, existing, failing)
    ensures written == Copied(root, folder, files, existing, failing)
  {
    success := true;
    written := [];
    for i := 0 to |files|
      invariant success <==> !CopyFails(files[..i], existing, failing)
      invariant written == Copied(root, folder, files[..i], existing, failing)
    {
      var p := files[i];
      assert files[..i + 1][..i] == files[..i];
      if p !in existing {
        continue;
      }
      if p in failing {
        success := false;
        continue;
      }
      written := written + [CopyTarget(root, folder, p)];
    }
    assert files[..|files|] == files;
  }

  /** Every copy lands inside the target folder. */
  lemma {:induction false} CopiedInsideFolder(root: Path, folder: Path, files: seq<Path>, existing: set<Path>, failing: set<Path>)
    requires forall i :: 0 <= i < |files| ==> WellFormed(files[i])
    ensures forall t :: t in Copied(root, folder, files, existing, failing) ==> IsRelativeTo(t, folder)
  {
    if files != [] {
      CopiedInsideFolder(root, folder, files[..|files| - 1], existing, failing);
      CopyTargetInsideFolder(root, folder, files[|files| - 1]);
    }
  }

  /** A copy is written for a file exactly when some file in the list
      exists, does not fail, and has that target. */
  lemma {:induction false} CopiedExactly(root: Path, folder: Path, files: seq<Path>, existing: set<Path>, failing: set<Path>, t: Path)
    ensures t in Copied(root, folder, files, existing, failing) <==>
              exists i :: 0 <= i < |files| && files[i] in existing && files[i] !in failing
                          && CopyTarget(root, folder, files[i]) == t
  {
    if files != [] {
      var init := files[..|files| - 1];
      CopiedExactly(root, folder, init, existing, failing, t);
      if t in Copied(root, folder, files, existing, failing) && t !in Copied(root, folder, init, existing, failing) {
        assert CopyTarget(root, folder, files[|files| - 1]) == t;
      }
      if exists i :: 0 <= i < |files| && files[i] in existing && files[i] !in failing
                     && CopyTarget(root, folder, files[i]) == t {
        var i :| 0 <= i < |files| && files[i] in existing && files[i] !in failing
                 && CopyTarget(root, folder, files[i]) == t;
        if i < |init| {
          assert init[i] == files[i];
        }
      }
    }
  }

  /** What `_create_info_json` writes into `installedFiles`: each script's
      archive name in input order, then `extension.json` and `package.json`,
      then the keys file's name when that file exists, and nothing else. */
  predicate InfoListFor(cfg: ExtensionConfig, scripts: seq<Path>, existing: set<Path>, installed: seq<string>)
  {
    var n := |scripts|;
    var keys := cfg.ExtensionKeys() in existing;
    && |installed| == n + 2 + (if keys then 1 else 0)
    && (forall i :: 0 <= i < n ==> installed[i] == ArchiveName(cfg.path, scripts[i]))
    && installed[n] == RuntimeManifestFile
    && installed[n + 1] == ManifestFile
    && (keys ==> installed[n + 2] == Name(cfg.ExtensionKeys()))
  }

  /** `ExtensionPacker._create_info_json`, up to writing the list. */
  method CreateInfoJson(cfg: ExtensionConfig, scripts: seq<Path>, existing: set<Path>)
    returns (installed: seq<string>)
    ensures InfoListFor(cfg, scripts, existing, installed)
  {
    installed := [];
    for i := 0 to |scripts|
      invariant |installed| == i
      invariant forall k :: 0 <= k < i ==> installed[k] == ArchiveName(cfg.path, scripts[k])
    {
      var script := scripts[i];
      if IsRelativeTo(script, cfg.path) {
        installed := installed + [AsPosix(script[|cfg.path|..])];
      } else {
        installed := installed + [Name(script)];
      }
    }
    installed := installed + [RuntimeManifestFile, ManifestFile];
    if cfg.ExtensionKeys() in existing {
      installed := installed + [Name(cfg.ExtensionKeys())];
    }
  }

  /** The info list is determined by its inputs. */
  lemma InfoListUnique(cfg: ExtensionConfig, scripts: seq<Path>, existing: set<Path>, a: seq<string>, b: seq<string>)
    requires InfoListFor(cfg, scripts, existing, a) && InfoListFor(cfg, scripts, existing, b)
    ensures a == b
  {
    var n := |scripts|;
    forall i | 0 <= i < |a| ensures a[i] == b[i] {
      if i < n {
      } else if i == n {
      } else if i == n + 1 {
      } else {
        assert i == n + 2;
      }
    }
  }

  lemma ManifestFileSegment()
    ensures ValidSegment(ManifestFile) && Parse(ManifestFile) == [ManifestFile]
  {
    assert ManifestFile[0] == 'p';
    assert forall k :: 0 <= k < |ManifestFile| ==> ManifestFile[k] != '/';
    ParseSegment(ManifestFile);
  }

  lemma RuntimeManifestFileSegment()
    ensures ValidSegment(RuntimeManifestFile) && Parse(RuntimeManifestFile) == [RuntimeManifestFile]
  {
    assert RuntimeManifestFile[0] == 'e';
    assert forall k :: 0 <= k < |RuntimeManifestFile| ==> RuntimeManifestFile[k] != '/';
    ParseSegment(RuntimeManifestFile);
  }

  lemma KeysFileSegment()
    ensures ValidSegment(KeysFile) && Parse(KeysFile) == [KeysFile]
  {
    assert KeysFile[0] == 'e';
    assert forall k :: 0 <= k < |KeysFile| ==> KeysFile[k] != '/';
    ParseSegment(KeysFile);
  }

  /** Every entry of the info list, resolved inside the installed extension
      folder, names a file the installation writes there: a script's or the
      manifest's or the keys file's copy target, or the generated
      `extension.json`. */
  lemma InfoListsInstalledFiles(cfg: ExtensionConfig, scripts: seq<Path>, existing: set<Path>,
                                installed: seq<string>, folder: Path)
    requires forall i :: 0 <= i < |scripts| ==> WellFormed(scripts[i])
    requires InfoListFor(cfg, scripts, existing, installed)
    ensures forall i :: 0 <= i < |scripts| ==>
              Child(folder, installed[i]) == CopyTarget(cfg.path, folder, scripts[i])
    ensures Child(folder, installed[|scripts|]) == folder + [RuntimeManifestFile]
    ensures Child(folder, installed[|scripts| + 1]) == CopyTarget(cfg.path, folder, cfg.PackageJson())
    ensures cfg.ExtensionKeys() in existing ==>
              Child(folder, installed[|scripts| + 2]) == CopyTarget(cfg.path, folder, cfg.ExtensionKeys())
  {
    var n := |scripts|;
    forall i | 0 <= i < n
      ensures Child(folder, installed[i]) == CopyTarget(cfg.path, folder, scripts[i])
    {
      ArchiveNameLocatesCopy(cfg.path, folder, scripts[i]);
    }
    RuntimeManifestFileSegment();
    ManifestFileSegment();
    assert IsRelativeTo(cfg.PackageJson(), cfg.path);
    assert cfg.PackageJson()[|cfg.path|..] == [ManifestFile];
    if cfg.ExtensionKeys() in existing {
      KeysFileSegment();
      assert IsRelativeTo(cfg.ExtensionKeys(), cfg.path);
      assert cfg.ExtensionKeys()[|cfg.path|..] == [KeysFile];
    }
  }

  /** A listed file that exists and does not fail has its copy written. */
  lemma CopiedAt(root: Path, folder: Path, files: seq<Path>, existing: set<Path>, failing: set<Path>,
                 k: nat, target: Path)
    requires k < |files| && files[k] in existing && files[k] !in failing
    requires target == CopyTarget(root, folder, files[k])
    ensures target in Copied(root, folder, files, existing, failing)
  {
    CopiedExactly(root, folder, files, existing, failing, target);
  }

  /** What `install_to_aseprite` has established when it writes the info
      list: the scripts it collected exist, the manifest exists, and no copy
      failed. */
  predicate InstalledCleanly(cfg: ExtensionConfig, scripts: seq<Path>, existing: set<Path>, failing: set<Path>)
  {
    && (forall i :: 0 <= i < |scripts| ==> WellFormed(scripts[i]) && scripts[i] in existing)
    && cfg.PackageJson() in existing
    && !CopyFails(FilesToCopy(cfg, scripts), existing, failing)
  }

  /** One entry of the info list, other than `extension.json`, names a copy
      that was written. */
  lemma EntryCopied(cfg: ExtensionConfig, scripts: seq<Path>, existing: set<Path>, failing: set<Path>,
                    installed: seq<string>, folder: Path, i: nat)
    requires InstalledCleanly(cfg, scripts, existing, failing)
    requires InfoListFor(cfg, scripts, existing, installed)
    requires i < |installed| && i != |scripts|
    ensures Child(folder, installed[i]) in Copied(cfg.path, folder, FilesToCopy(cfg, scripts), existing, failing)
  {
    var files := FilesToCopy(cfg, scripts);
    var n := |scripts|;
    InfoListsInstalledFiles(cfg, scripts, existing, installed, folder);
    var k := if i < n then i else i - 1;
    var f := files[k];
    var target := Child(folder, installed[i]);
    if i < n {
      assert f == files[..n][i] == scripts[i];
      assert target == CopyTarget(cfg.path, folder, scripts[i]);
    } else if i == n + 1 {
      assert f == cfg.PackageJson();
      assert target == CopyTarget(cfg.path, folder, cfg.PackageJson());
    } else {
      assert i == n + 2 && cfg.ExtensionKeys() in existing;
      assert f == cfg.ExtensionKeys();
      assert target == CopyTarget(cfg.path, folder, cfg.ExtensionKeys());
    }
    CopiedAt(cfg.path, folder, files, existing, failing, k, target);
  }

  /** After a clean installation, every entry of the info list except the
      generated `extension.json` names a copy that `_copy_files_to_folder`
      wrote into the extension folder, and `extension.json` names the
      generated runtime manifest there. */
  lemma InfoEntriesCopied(cfg: ExtensionConfig, scripts: seq<Path>, existing: set<Path>, failing: set<Path>,
                          installed: seq<string>, folder: Path)
    requires InstalledCleanly(cfg, scripts, existing, failing)
    requires InfoListFor(cfg, scripts, existing, installed)
    ensures forall i :: 0 <= i < |installed| && i != |scripts| ==>
              Child(folder, installed[i]) in Copied(cfg.path, folder, FilesToCopy(cfg, scripts), existing, failing)
    ensures Child(folder, installed[|scripts|]) == folder + [RuntimeManifestFile]
  {
    forall i | 0 <= i < |installed| && i != |scripts|
      ensures Child(folder, installed[i]) in Copied(cfg.path, folder, FilesToCopy(cfg, scripts), existing, failing)
    {
      EntryCopied(cfg, scripts, existing, failing, installed, folder, i);
    }
    InfoListsInstalledFiles(cfg, scripts, existing, installed, folder);
  }

  /** In the package, the runtime manifest's `main` entry names the archive
      entry of the main script. */
  lemma MainEntryArchived(c: ExtensionConfig)
    requires Relative(c.mainScript)
    ensures Parse(RuntimeManifest(c)["main"].s) == Parse(ArchiveName(c.path, c.MainScriptPath()))
  {
    var rel := Parse(c.mainScript);
    ParseDotSlash(c.mainScript);
    assert c.MainScriptPath()[|c.path|..] == rel;
    ParseAsPosix(rel);
  }
}
