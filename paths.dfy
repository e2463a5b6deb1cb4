/** POSIX paths as `pathlib` sees them: an absolute path is the sequence of
    its segments below `/` (the root itself is the empty sequence). Only the
    lexical operations the toolkit uses are modelled; nothing here touches a
    filesystem. */
module Paths {
  import opened Text

  type Path = seq<string>

  /** A segment `pathlib` can produce: never empty, never `.`, never holding `/`. */
  predicate ValidSegment(s: string)
  {
    s != "" && s != "." && '/' !in s
  }

  predicate WellFormed(p: Path)
  {
    forall i :: 0 <= i < |p| ==> ValidSegment(p[i])
  }

  /** Drops the pieces `pathlib` discards when it parses a path string: the
      empty ones (from `//` or a trailing `/`) and `.`. */
  function KeepSegments(pieces: seq<string>): (p: Path)
    requires forall i :: 0 <= i < |pieces| ==> '/' !in pieces[i]
    ensures WellFormed(p)
  {
    if pieces == [] then []
    else (if pieces[0] == "" || pieces[0] == "." then [] else [pieces[0]]) + KeepSegments(pieces[1..])
  }

  /** The segments of a relative path string, as `PurePosixPath(s).parts`. */
  function Parse(s: string): (p: Path)
    ensures WellFormed(p)
  {
    KeepSegments(Split(s, '/'))
  }

  /** `base / rel`: an absolute `rel` (one starting with `/`) replaces the
      base, a relative one is appended to it. */
  function Child(base: Path, rel: string): Path
  {
    if rel != [] && rel[0] == '/' then Parse(rel) else base + Parse(rel)
  }

  /** A string that does not start with `/` is appended to the base. */
  predicate Relative(rel: string)
  {
    rel == [] || rel[0] != '/'
  }

  /** `p.name`: the last segment, or "" for the root. */
  function Name(p: Path): string
  {
    if p == [] then "" else p[|p| - 1]
  }

  /** `p.is_relative_to(root)`, which is purely lexical. */
  predicate IsRelativeTo(p: Path, root: Path)
  {
    |root| <= |p| && p[..|root|] == root
  }

  /** `str(rel.as_posix())` for a relative path: its segments joined by `/`,
      or `.` for the empty relative path. */
  function AsPosix(rel: Path): string
  {
    if rel == [] then "." else Join(rel, '/')
  }

  /** `ExtensionPacker._get_archive_name`: the root-relative POSIX path of a
      file under the root, and the file's bare name otherwise. The same
      mapping names the entries of `__info.json`. */
  function ArchiveName(root: Path, p: Path): string
  {
    if IsRelativeTo(p, root) then AsPosix(p[|root|..]) else Name(p)
  }

  /** The target of a copy into `folder`: the root-relative path below the
      folder for a file under the root, else the bare name directly in it. */
  function CopyTarget(root: Path, folder: Path, p: Path): Path
  {
    if IsRelativeTo(p, root) then folder + p[|root|..] else Child(folder, Name(p))
  }

  lemma {:induction false} KeepWellFormed(p: Path)
    requires WellFormed(p)
    ensures KeepSegments(p) == p
  {
    if p != [] {
      KeepWellFormed(p[1..]);
      assert [p[0]] + p[1..] == p;
    }
  }

  /** A single valid segment parses to itself. */
  lemma ParseSegment(s: string)
    requires ValidSegment(s)
    ensures Parse(s) == [s]
  {
    SplitWithoutSeparator(s, '/');
    assert KeepSegments([s]) == [s] + KeepSegments([]);
  }

  /** Parsing the POSIX rendering of a well-formed relative path gives the
      path back: the archive name of a file locates it again. */
  lemma ParseAsPosix(rel: Path)
    requires WellFormed(rel)
    ensures Parse(AsPosix(rel)) == rel
  {
    if rel == [] {
      SplitWithoutSeparator(".", '/');
      assert KeepSegments(["."]) == [] + KeepSegments([]);
    } else {
      SplitJoin(rel, '/');
      KeepWellFormed(rel);
    }
  }

  /** A leading `./` does not change what a relative path string denotes. */
  lemma ParseDotSlash(s: string)
    ensures Parse("./" + s) == Parse(s)
  {
    SplitAtFirst(".", '/', s);
    assert "./" + s == "." + ['/'] + s;
    var pieces := Split("./" + s, '/');
    assert pieces == ["."] + Split(s, '/');
    assert pieces[1..] == Split(s, '/');
  }

  /** The archive name of a file is a relative path string. */
  lemma ArchiveNameRelative(root: Path, p: Path)
    requires WellFormed(p)
    ensures Relative(ArchiveName(root, p))
  {
    if IsRelativeTo(p, root) {
      var rel := p[|root|..];
      if rel != [] {
        assert rel[0] == p[|root|];
        assert Join(rel, '/')[0] == rel[0][0];
      }
    } else if p != [] {
      assert ValidSegment(p[|p| - 1]);
    }
  }

  /** The archive name and the copy target of a file agree: the copy target
      is the archive name resolved inside the target folder. */
  lemma ArchiveNameLocatesCopy(root: Path, folder: Path, p: Path)
    requires WellFormed(p)
    ensures Child(folder, ArchiveName(root, p)) == CopyTarget(root, folder, p)
  {
    ArchiveNameRelative(root, p);
    if IsRelativeTo(p, root) {
      var rel := p[|root|..];
      assert WellFormed(rel) by {
        forall i | 0 <= i < |rel| ensures ValidSegment(rel[i]) {
          assert rel[i] == p[|root| + i];
        }
      }
      ParseAsPosix(rel);
    }
  }

  /** Every copy target lies inside the target folder, and a file under the
      root keeps its position relative to the root. */
  lemma CopyTargetInsideFolder(root: Path, folder: Path, p: Path)
    requires WellFormed(p)
    ensures IsRelativeTo(CopyTarget(root, folder, p), folder)
    ensures IsRelativeTo(p, root) ==> CopyTarget(root, folder, p)[|folder|..] == p[|root|..]
  {
    if p != [] {
      assert ValidSegment(p[|p| - 1]);
    }
    var t := CopyTarget(root, folder, p);
    assert t[..|folder|] == folder;
  }

  /** The index of the last occurrence of `c` in `s`, or -1 (`str.rfind`). */
  function RFind(s: string, c: char): (i: int)
    ensures -1 <= i < |s|
    ensures 0 <= i ==> s[i] == c
    ensures forall k :: i < k < |s| ==> s[k] != c
  {
    if s == [] then -1
    else if s[|s| - 1] == c then |s| - 1
    else RFind(s[..|s| - 1], c)
  }

  /** `p.suffix`: from the last dot of the name, provided that dot is neither
      the name's first nor its last character. */
  function Suffix(p: Path): string
  {
    var name := Name(p);
    var i := RFind(name, '.');
    if 0 < i < |name| - 1 then name[i..] else ""
  }

  /** A path has suffix `.lua` exactly when its name ends in `.lua` and has
      something before it: a bare `.lua` name has no suffix. */
  lemma LuaSuffix(p: Path)
    ensures Suffix(p) == ".lua" <==> |Name(p)| > 4 && Name(p)[|Name(p)| - 4..] == ".lua"
  {
    var name := Name(p);
    var i := RFind(name, '.');
    var n := |name|;
    if n > 4 && name[n - 4..] == ".lua" {
      assert name[n - 4] == '.' && name[n - 3] == 'l' && name[n - 2] == 'u' && name[n - 1] == 'a';
      assert i == n - 4;
    }
    if Suffix(p) == ".lua" {
      assert |name[i..]| == 4;
    }
  }
}
