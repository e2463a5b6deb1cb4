/** The extension configuration (`ExtensionConfig`): how a parsed
    `package.json` becomes a configuration record or an error, and how the
    runtime manifest `extension.json` is generated from the record. */
module Manifest {
  import opened Text
  import opened Paths
  import opened JsonValues
  import opened Results

  const ManifestFile := "package.json"
  const RuntimeManifestFile := "extension.json"
  const KeysFile := "extension-keys.aseprite-keys"
  const DefaultMainScript := "extension.lua"
  const DefaultVersion := "1.0.0"
  const ApiVersion := "1.3"
  const DefaultCategories: Json := JArr([JStr("Scripts")])

  /** Characters an extension name may not contain. */
  const ReservedNameChars: set<char> := {'<', '>', ':', '"', '/', '\\', '|', '?', '*'}

  /** Characters stripped from both ends of the declared main script path. */
  const PathStripChars: set<char> := {'.', '/'}

  datatype ExtensionConfig = ExtensionConfig(
    name: string,
    version: string,
    mainScript: string,
    path: Path,
    displayName: string,
    description: string,
    author: string,
    website: string,
    source: string,
    license: string,
    categories: Json,
    apiVersion: string)
  {
    function PackageJson(): Path { path + [ManifestFile] }

    function ExtensionKeys(): Path { path + [KeysFile] }

    function ExtensionJson(): Path { path + [RuntimeManifestFile] }

    function MainScriptPath(): Path { Child(path, mainScript) }
  }

  /** Why a `ValidationError` was raised. */
  datatype Reason =
    | PathMissing
    | NotADirectory
    | ManifestMissing
    | ManifestUnreadable
    | NotAnObject
    | NameRequired
    | NameHasInvalidChars

  /** A `ValidationError`, or the `AttributeError` Python raises when
      `.strip()` is called on a manifest value that is not a string. */
  datatype LoadError =
    | ValidationError(reason: Reason)
    | AttributeError(field: string)

  /** The lookup of `.strip` on a manifest value: only a string has it.
      Stripping itself cannot fail, so the model checks every value's type
      first and strips afterwards, which raises the same first error. */
  function TextValue(v: Json, field: string): Result<string, LoadError>
  {
    match v
    case JStr(s) => Ok(s)
    case _ => Err(AttributeError(field))
  }

  /** The raw `path` of the first declared script, when `contributes` is an
      object whose `scripts` is a non-empty list starting with an object that
      has a `path` key. */
  function FirstScriptPath(d: map<string, Json>): Option<Json>
  {
    match Get(d, "contributes", JObj(map[]))
    case JObj(c) =>
      (match Get(c, "scripts", JArr([]))
       case JArr(items) =>
         if items != [] && items[0].JObj? && "path" in items[0].fields
         then Some(items[0].fields["path"])
         else None
       case _ => None)
    case _ => None
  }

  /** The main script derivation. */
  function MainScriptOf(d: map<string, Json>): Result<string, LoadError>
  {
    match FirstScriptPath(d)
    case None => Ok(DefaultMainScript)
    case Some(JStr(p)) =>
      var stripped := Strip(p, PathStripChars);
      Ok(if stripped != "" then stripped else DefaultMainScript)
    case Some(_) => Err(AttributeError("contributes.scripts[0].path"))
  }

  /** The author and website values before they are stripped: a string
      author is the name alone, an object gives `name` and `url`, anything
      else gives nothing. */
  function AuthorInfo(d: map<string, Json>): (Json, Json)
  {
    match Get(d, "author", JObj(map[]))
    case JStr(s) => (JStr(s), JStr(""))
    case JObj(a) => (Get(a, "name", JStr("")), Get(a, "url", JStr("")))
    case _ => (JStr(""), JStr(""))
  }

  /** `s or fallback`. */
  function OrElse(s: string, fallback: string): string
  {
    if s != "" then s else fallback
  }

  /** The name check: the `name` value stripped, then rejected when empty or
      when it holds a reserved character. */
  function NameOf(d: map<string, Json>): (r: Result<string, LoadError>)
    ensures r.Ok? ==> r.value != "" && !ContainsAny(r.value, ReservedNameChars)
  {
    var raw :- TextValue(Get(d, "name", JStr("")), "name");
    var name := Strip(raw, Whitespace);
    if name == "" then Err(ValidationError(NameRequired))
    else if ContainsAny(name, ReservedNameChars) then Err(ValidationError(NameHasInvalidChars))
    else Ok(name)
  }

  /** The free-text values as given, before they are stripped and before
      their defaults apply. */
  datatype Texts = Texts(
    version: string,
    displayName: string,
    description: string,
    author: string,
    website: string,
    license: string)

  /** The remaining `.strip()` calls, in the order Python evaluates them:
      the first value that is not a string raises `AttributeError`. */
  function TextsOf(d: map<string, Json>, name: string): Result<Texts, LoadError>
  {
    var authorInfo := AuthorInfo(d);
    var version :- TextValue(Get(d, "version", JStr(DefaultVersion)), "version");
    var displayName :- TextValue(Get(d, "displayName", JStr(name)), "displayName");
    var description :- TextValue(Get(d, "description", JStr("")), "description");
    var author :- TextValue(authorInfo.0, "author");
    var website :- TextValue(authorInfo.1, "website");
    var license :- TextValue(Get(d, "license", JStr("")), "license");
    Ok(Texts(version, displayName, description, author, website, license))
  }

  /** The dataclass constructor call, `__post_init__` included: a missing or
      blank version and display name take their defaults, `source` repeats
      the website, and null categories become `["Scripts"]`. */
  function Assemble(root: Path, d: map<string, Json>, name: string, mainScript: string, t: Texts)
    : ExtensionConfig
  {
    var categories := Get(d, "categories", DefaultCategories);
    var website := Strip(t.website, Whitespace);
    ExtensionConfig(
      name, OrElse(Strip(t.version, Whitespace), DefaultVersion), mainScript, root,
      OrElse(Strip(t.displayName, Whitespace), name), Strip(t.description, Whitespace),
      Strip(t.author, Whitespace), website, website, Strip(t.license, Whitespace),
      if categories == JNull then DefaultCategories else categories,
      ApiVersion)
  }

  /** `ExtensionConfig.from_path` after the manifest has been parsed: `root`
      is the resolved extension directory and `j` the parsed manifest. */
  function Interpret(root: Path, j: Json): Result<ExtensionConfig, LoadError>
  {
    if !j.JObj? then Err(ValidationError(NotAnObject))
    else
      match NameOf(j.fields)
      case Err(e) => Err(e)
      case Ok(name) =>
        match MainScriptOf(j.fields)
        case Err(e) => Err(e)
        case Ok(mainScript) =>
          match TextsOf(j.fields, name)
          case Err(e) => Err(e)
          case Ok(t) => Ok(Assemble(root, j.fields, name, mainScript, t))
  }

  /** `ExtensionConfig.from_path` with the filesystem facts as inputs: the
      paths that exist, the ones that are directories, and the outcome of
      reading and parsing `package.json` (`None` when that failed). */
  function FromPath(root: Path, existing: set<Path>, directories: set<Path>, parsed: Option<Json>)
    : (r: Result<ExtensionConfig, LoadError>)
    ensures r.Ok? ==> root in existing && root in directories && root + [ManifestFile] in existing
    ensures r.Ok? ==> parsed.Some? && r == Interpret(root, parsed.value)
    ensures root !in existing ==> r == Err(ValidationError(PathMissing))
    ensures root in existing && root !in directories ==> r == Err(ValidationError(NotADirectory))
    ensures root in existing && root in directories && root + [ManifestFile] !in existing ==>
              r == Err(ValidationError(ManifestMissing))
    ensures root in existing && root in directories && root + [ManifestFile] in existing ==>
              r == (if parsed.Some? then Interpret(root, parsed.value)
                    else Err(ValidationError(ManifestUnreadable)))
  {
    if root !in existing then Err(ValidationError(PathMissing))
    else if root !in directories then Err(ValidationError(NotADirectory))
    else if root + [ManifestFile] !in existing then Err(ValidationError(ManifestMissing))
    else match parsed
      case None => Err(ValidationError(ManifestUnreadable))
      case Some(j) => Interpret(root, j)
  }

  // ----- reference definitions of what the manifest must look like -----

  predicate StringOrAbsent(d: map<string, Json>, key: string)
  {
    key !in d || d[key].JStr?
  }

  /** The name, trimmed, is non-empty and free of reserved characters. */
  predicate NameAcceptable(d: map<string, Json>)
  {
    && "name" in d && d["name"].JStr?
    && Strip(d["name"].s, Whitespace) != ""
    && !ContainsAny(Strip(d["name"].s, Whitespace), ReservedNameChars)
  }

  /** The free-text values (and the author object's `name` and `url`) are
      strings wherever present. */
  predicate TextValuesAreStrings(d: map<string, Json>)
  {
    && StringOrAbsent(d, "version")
    && StringOrAbsent(d, "displayName")
    && StringOrAbsent(d, "description")
    && StringOrAbsent(d, "license")
    && ("author" in d && d["author"].JObj? ==>
          StringOrAbsent(d["author"].fields, "name") && StringOrAbsent(d["author"].fields, "url"))
  }

  /** Every value that gets `.strip()`-ed is a string. */
  predicate StrippedValuesAreStrings(d: map<string, Json>)
  {
    && StringOrAbsent(d, "name")
    && (FirstScriptPath(d).Some? ==> FirstScriptPath(d).value.JStr?)
    && TextValuesAreStrings(d)
  }

  /** No leading or trailing whitespace. */
  predicate Trimmed(s: string)
  {
    Unpadded(s, Whitespace)
  }

  // ----- how the pieces behave -----

  lemma NameOfCases(d: map<string, Json>)
    ensures NameOf(d).Ok? <==> NameAcceptable(d)
    ensures NameOf(d).Ok? ==> NameOf(d).value == Strip(d["name"].s, Whitespace)
    ensures NameOf(d).Err? ==> (NameOf(d).error.ValidationError? <==> StringOrAbsent(d, "name"))
    ensures "name" !in d ==> NameOf(d) == Err(ValidationError(NameRequired))
  {
  }

  lemma MainScriptOfCases(d: map<string, Json>)
    ensures MainScriptOf(d).Ok? <==> (FirstScriptPath(d).Some? ==> FirstScriptPath(d).value.JStr?)
    ensures MainScriptOf(d).Err? ==> MainScriptOf(d).error.AttributeError?
  {
  }

  lemma TextsOfSucceeds(d: map<string, Json>, name: string)
    requires TextValuesAreStrings(d)
    ensures TextsOf(d, name).Ok?
  {
  }

  lemma TextsOfFails(d: map<string, Json>, name: string)
    requires !TextValuesAreStrings(d)
    ensures TextsOf(d, name).Err? && TextsOf(d, name).error.AttributeError?
  {
  }

  /** Only string values get through. */
  lemma TextsOfSucceedsOnly(d: map<string, Json>, name: string)
    requires TextsOf(d, name).Ok?
    ensures TextValuesAreStrings(d)
    ensures AuthorInfo(d).0.JStr? && AuthorInfo(d).1.JStr?
  {
    if !TextValuesAreStrings(d) {
      TextsOfFails(d, name);
    }
  }

  /** Each free-text field is the value given, or the default for a key
      that is missing. */
  lemma TextsOfValues(d: map<string, Json>, name: string)
    requires TextsOf(d, name).Ok?
    ensures var t := TextsOf(d, name).value;
            && t.version == Get(d, "version", JStr(DefaultVersion)).s
            && t.displayName == Get(d, "displayName", JStr(name)).s
            && t.description == Get(d, "description", JStr("")).s
            && t.license == Get(d, "license", JStr("")).s
    ensures var t := TextsOf(d, name).value;
            && t.author == AuthorInfo(d).0.s
            && t.website == AuthorInfo(d).1.s
  {
  }

  /** An accepted manifest is an object whose pieces all succeeded, and the
      configuration is assembled from them. */
  lemma InterpretOk(root: Path, j: Json, c: ExtensionConfig)
    requires Interpret(root, j) == Ok(c)
    ensures j.JObj? && NameOf(j.fields).Ok? && MainScriptOf(j.fields).Ok?
    ensures TextsOf(j.fields, NameOf(j.fields).value).Ok?
    ensures c == Assemble(root, j.fields, NameOf(j.fields).value, MainScriptOf(j.fields).value,
                          TextsOf(j.fields, NameOf(j.fields).value).value)
  {
  }

  // ----- properties of the interpretation -----

  /** A manifest is accepted exactly when it is an object with an acceptable
      name whose stripped values are all strings; a rejection is a
      `ValidationError` exactly when the document is not an object or its
      (string or missing) name is not acceptable, and an `AttributeError`
      otherwise. */
  lemma InterpretAccepts(root: Path, j: Json)
    requires j.JObj? && NameAcceptable(j.fields) && StrippedValuesAreStrings(j.fields)
    ensures Interpret(root, j).Ok?
  {
    var d := j.fields;
    NameOfCases(d);
    MainScriptOfCases(d);
    TextsOfSucceeds(d, NameOf(d).value);
  }

  /** Every other document is rejected: with a `ValidationError` exactly
      when it is not an object or its (string or missing) name is not
      acceptable, and with an `AttributeError` otherwise. */
  lemma InterpretRejects(root: Path, j: Json)
    requires !(j.JObj? && NameAcceptable(j.fields) && StrippedValuesAreStrings(j.fields))
    ensures Interpret(root, j).Err?
    ensures Interpret(root, j).error.ValidationError? <==>
              !j.JObj? || (StringOrAbsent(j.fields, "name") && !NameAcceptable(j.fields))
  {
    if j.JObj? {
      var d := j.fields;
      NameOfCases(d);
      MainScriptOfCases(d);
      var n := NameOf(d);
      if n.Err? {
        assert Interpret(root, j) == Err(n.error);
      } else {
        var m := MainScriptOf(d);
        if m.Err? {
          assert Interpret(root, j) == Err(m.error);
        } else {
          TextsOfFails(d, n.value);
          assert Interpret(root, j) == Err(TextsOf(d, n.value).error);
        }
      }
    }
  }

  /** The name is the trimmed `name` value, non-empty and free of reserved
      characters. */
  lemma AcceptedName(root: Path, j: Json, c: ExtensionConfig)
    requires Interpret(root, j) == Ok(c)
    ensures j.JObj? && "name" in j.fields && j.fields["name"].JStr?
    ensures c.name == Strip(j.fields["name"].s, Whitespace)
    ensures c.name != "" && !ContainsAny(c.name, ReservedNameChars)
  {
    InterpretOk(root, j, c);
    NameOfCases(j.fields);
  }

  /** A missing or blank name, and a name holding a reserved character, are
      rejected with a `ValidationError`. */
  lemma RejectedName(root: Path, j: Json)
    requires j.JObj?
    ensures "name" !in j.fields ==> Interpret(root, j) == Err(ValidationError(NameRequired))
    ensures "name" in j.fields && j.fields["name"].JStr? ==>
              var n := Strip(j.fields["name"].s, Whitespace);
              && (n == "" ==> Interpret(root, j) == Err(ValidationError(NameRequired)))
              && (n != "" && ContainsAny(n, ReservedNameChars) ==>
                    Interpret(root, j) == Err(ValidationError(NameHasInvalidChars)))
  {
    var d := j.fields;
    if NameOf(d).Err? {
      assert Interpret(root, j) == Err(NameOf(d).error);
    }
  }

  /** The main script is the declared first script path with every leading
      and trailing `.` and `/` removed, when that leaves something, and
      `extension.lua` otherwise; it is never empty and never starts or ends
      with `.` or `/`. */
  lemma MainScriptOfValue(d: map<string, Json>)
    requires MainScriptOf(d).Ok?
    ensures var m := MainScriptOf(d).value;
            && m != "" && m[0] !in PathStripChars && m[|m| - 1] !in PathStripChars
    ensures match FirstScriptPath(d)
            case Some(JStr(p)) =>
              MainScriptOf(d).value == OrElse(Strip(p, PathStripChars), DefaultMainScript)
            case _ => MainScriptOf(d).value == DefaultMainScript
  {
    assert DefaultMainScript[0] == 'e' && DefaultMainScript[12] == 'a';
  }

  lemma AcceptedMainScript(root: Path, j: Json, c: ExtensionConfig)
    requires Interpret(root, j) == Ok(c)
    ensures j.JObj? && MainScriptOf(j.fields) == Ok(c.mainScript)
    ensures c.mainScript != "" && c.mainScript[0] !in PathStripChars
    ensures c.mainScript[|c.mainScript| - 1] !in PathStripChars
    ensures Relative(c.mainScript)
  {
    InterpretOk(root, j, c);
    var d := j.fields;
    var m := MainScriptOf(d).value;
    assert c.mainScript == m;
    MainScriptOfValue(d);
    assert m != "" && m[0] !in PathStripChars;
  }

  /** The default version has no surrounding whitespace. */
  lemma DefaultVersionTrimmed()
    ensures Trimmed(DefaultVersion) && Strip(DefaultVersion, Whitespace) == DefaultVersion
  {
    assert DefaultVersion[0] == '1' && DefaultVersion[4] == '0';
    StripUnpadded(DefaultVersion, Whitespace);
  }

  /** What `Assemble` does with the given texts: each is stripped; a blank
      version or display name takes its default; `source` repeats the
      website; null or missing categories become `["Scripts"]`. */
  lemma AssembleFields(root: Path, d: map<string, Json>, name: string, mainScript: string, t: Texts)
    ensures var c := Assemble(root, d, name, mainScript, t);
            && c.name == name && c.mainScript == mainScript && c.path == root
            && c.version == OrElse(Strip(t.version, Whitespace), DefaultVersion)
            && c.displayName == OrElse(Strip(t.displayName, Whitespace), name)
            && c.description == Strip(t.description, Whitespace)
            && c.author == Strip(t.author, Whitespace)
            && c.website == Strip(t.website, Whitespace) && c.source == c.website
            && c.license == Strip(t.license, Whitespace)
            && c.apiVersion == ApiVersion
            && c.categories == (if "categories" !in d || d["categories"] == JNull
                                then DefaultCategories else d["categories"])
  {
  }

  /** An assembled configuration keeps a trimmed name trimmed and trims
      every other text. */
  lemma AssembleTrimmed(root: Path, d: map<string, Json>, name: string, mainScript: string, t: Texts)
    requires Trimmed(name)
    ensures var c := Assemble(root, d, name, mainScript, t);
            && Trimmed(c.version) && Trimmed(c.displayName) && Trimmed(c.description)
            && Trimmed(c.author) && Trimmed(c.website) && Trimmed(c.source) && Trimmed(c.license)
  {
    DefaultVersionTrimmed();
    var c := Assemble(root, d, name, mainScript, t);
    assert Trimmed(c.version);
    assert Trimmed(c.displayName);
  }

  /** The author and website values an author entry gives: a string is the
      author alone, an object gives its `name` and `url`, anything else
      gives nothing. */
  lemma AuthorInfoCases(d: map<string, Json>)
    ensures match Get(d, "author", JObj(map[]))
            case JStr(s) => AuthorInfo(d) == (JStr(s), JStr(""))
            case JObj(a) => AuthorInfo(d) == (Get(a, "name", JStr("")), Get(a, "url", JStr("")))
            case _ => AuthorInfo(d) == (JStr(""), JStr(""))
  {
  }

  /** The author, website and source of an assembled record are the
      stripped author values. */
  lemma AssembledAuthor(root: Path, d: map<string, Json>, name: string, mainScript: string)
    requires TextsOf(d, name).Ok?
    requires AuthorInfo(d).0.JStr? && AuthorInfo(d).1.JStr?
    ensures var c := Assemble(root, d, name, mainScript, TextsOf(d, name).value);
            && c.author == Strip(AuthorInfo(d).0.s, Whitespace)
            && c.website == Strip(AuthorInfo(d).1.s, Whitespace)
            && c.source == c.website
  {
    TextsOfValues(d, name);
  }

  /** An author string gives the author and an empty website; an author
      object gives its `name` and `url`; anything else gives two empty
      strings; the source field always equals the website. */
  lemma AcceptedAuthor(root: Path, j: Json, c: ExtensionConfig)
    requires Interpret(root, j) == Ok(c)
    ensures j.JObj?
    ensures c.source == c.website
    ensures match Get(j.fields, "author", JObj(map[]))
            case JStr(s) => c.author == Strip(s, Whitespace) && c.website == ""
            case JObj(a) =>
              && Get(a, "name", JStr("")).JStr? && Get(a, "url", JStr("")).JStr?
              && c.author == Strip(Get(a, "name", JStr("")).s, Whitespace)
              && c.website == Strip(Get(a, "url", JStr("")).s, Whitespace)
            case _ => c.author == "" && c.website == ""
  {
    InterpretOk(root, j, c);
    var d := j.fields;
    var name := NameOf(d).value;
    TextsOfSucceedsOnly(d, name);
    AssembledAuthor(root, d, name, MainScriptOf(d).value);
    AuthorInfoCases(d);
    assert Strip("", Whitespace) == "";
  }

  /** The version is the trimmed `version` value, or `1.0.0` when that is
      missing or blank. */
  lemma AcceptedVersion(root: Path, j: Json, c: ExtensionConfig)
    requires Interpret(root, j) == Ok(c)
    ensures j.JObj? && StringOrAbsent(j.fields, "version")
    ensures var d := j.fields;
            c.version == (if "version" in d && Strip(d["version"].s, Whitespace) != ""
                          then Strip(d["version"].s, Whitespace) else "1.0.0")
  {
    InterpretOk(root, j, c);
    var d := j.fields;
    var name := NameOf(d).value;
    var t := TextsOf(d, name).value;
    TextsOfValues(d, name);
    TextsOfSucceedsOnly(d, name);
    assert c.version == OrElse(Strip(t.version, Whitespace), DefaultVersion);
    if "version" !in d {
      assert t.version == DefaultVersion;
      DefaultVersionTrimmed();
    } else {
      assert t.version == d["version"].s;
    }
  }

  /** The display name is the trimmed `displayName` value, or the name when
      that is missing or blank. */
  lemma AcceptedDisplayName(root: Path, j: Json, c: ExtensionConfig)
    requires Interpret(root, j) == Ok(c)
    ensures j.JObj? && StringOrAbsent(j.fields, "displayName")
    ensures var d := j.fields;
            c.displayName == (if "displayName" in d && Strip(d["displayName"].s, Whitespace) != ""
                              then Strip(d["displayName"].s, Whitespace) else c.name)
  {
    InterpretOk(root, j, c);
    var d := j.fields;
    var name := NameOf(d).value;
    var t := TextsOf(d, name).value;
    TextsOfValues(d, name);
    TextsOfSucceedsOnly(d, name);
    NameOfCases(d);
    StripUnpadded(name, Whitespace);
    assert c.name == name;
    assert c.displayName == OrElse(Strip(t.displayName, Whitespace), name);
  }

  /** The categories become `["Scripts"]` only when missing or null and are
      otherwise kept exactly as given; the path is the extension directory
      and the API version is `1.3`. */
  lemma AcceptedDefaults(root: Path, j: Json, c: ExtensionConfig)
    requires Interpret(root, j) == Ok(c)
    ensures j.JObj? && c.path == root && c.apiVersion == "1.3"
    ensures var d := j.fields;
            c.categories == (if "categories" !in d || d["categories"] == JNull
                             then JArr([JStr("Scripts")]) else d["categories"])
    ensures c.categories != JNull
  {
    InterpretOk(root, j, c);
  }

  /** Every free-text field of an accepted configuration is trimmed. */
  lemma AcceptedFieldsTrimmed(root: Path, j: Json, c: ExtensionConfig)
    requires Interpret(root, j) == Ok(c)
    ensures Trimmed(c.name) && Trimmed(c.version) && Trimmed(c.displayName)
    ensures Trimmed(c.description) && Trimmed(c.author) && Trimmed(c.website)
    ensures Trimmed(c.source) && Trimmed(c.license)
  {
    InterpretOk(root, j, c);
    var d := j.fields;
    NameOfCases(d);
    var name := NameOf(d).value;
    AssembleTrimmed(root, d, name, MainScriptOf(d).value, TextsOf(d, name).value);
  }

  /** `str.strip("./")` removes a whole run of dots and slashes, so a
      script path that climbs out of the extension directory is silently
      re-rooted inside it, and a trailing dot is lost. */
  lemma MainScriptStripsWholeRuns(d: map<string, Json>)
    requires FirstScriptPath(d) == Some(JStr("../a/b.lua."))
    ensures MainScriptOf(d) == Ok("a/b.lua")
  {
    assert "../a/b.lua." == "../" + "a/b.lua" + ".";
    StripRuns("../", "a/b.lua", ".", PathStripChars);
  }

  // ----- the runtime manifest -----

  const RuntimeManifestKeys: set<string> :=
    {"name", "displayName", "version", "description", "author", "website",
     "source", "license", "categories", "apiVersion", "main"}

  /** `ExtensionConfig.generate_extension_json`. */
  function RuntimeManifest(c: ExtensionConfig): (m: map<string, Json>)
    ensures m.Keys == RuntimeManifestKeys
    ensures m["main"] == JStr("./" + c.mainScript)
  {
    map[
      "name" := JStr(c.name),
      "displayName" := JStr(c.displayName),
      "version" := JStr(c.version),
      "description" := JStr(c.description),
      "author" := JStr(c.author),
      "website" := JStr(c.website),
      "source" := JStr(c.source),
      "license" := JStr(c.license),
      "categories" := c.categories,
      "apiVersion" := JStr(c.apiVersion),
      "main" := JStr("./" + c.mainScript)]
  }

  /** Reads a configuration back from a runtime manifest, given the root
      directory the manifest does not record. */
  function ReadRuntimeManifest(m: map<string, Json>, root: Path): Option<ExtensionConfig>
  {
    if && RuntimeManifestKeys <= m.Keys
       && m["name"].JStr? && m["displayName"].JStr? && m["version"].JStr?
       && m["description"].JStr? && m["author"].JStr? && m["website"].JStr?
       && m["source"].JStr? && m["license"].JStr? && m["apiVersion"].JStr?
       && m["main"].JStr? && |m["main"].s| >= 2 && m["main"].s[..2] == "./"
    then Some(ExtensionConfig(
           m["name"].s, m["version"].s, m["main"].s[2..], root, m["displayName"].s,
           m["description"].s, m["author"].s, m["website"].s, m["source"].s,
           m["license"].s, m["categories"], m["apiVersion"].s))
    else None
  }

  /** There are eleven runtime manifest keys. */
  lemma RuntimeManifestKeyCount()
    ensures |RuntimeManifestKeys| == 11
  {
    var s := {"name", "displayName", "version", "description", "author"};
    assert |s| == 5;
    var t := {"website", "source", "license", "categories", "apiVersion", "main"};
    assert |t| == 6;
    assert s * t == {};
    assert RuntimeManifestKeys == s + t;
  }

  /** The runtime manifest has exactly eleven entries. */
  lemma RuntimeManifestSize(c: ExtensionConfig)
    ensures |RuntimeManifest(c)| == 11
  {
    RuntimeManifestKeyCount();
    assert |RuntimeManifest(c)| == |RuntimeManifest(c).Keys|;
  }

  /** The runtime manifest loses nothing but the root directory: every
      configuration field is recovered from it unchanged. */
  lemma RuntimeManifestRoundTrip(c: ExtensionConfig)
    ensures ReadRuntimeManifest(RuntimeManifest(c), c.path) == Some(c)
  {
    var main := "./" + c.mainScript;
    assert main[..2] == "./" && main[2..] == c.mainScript;
  }

  /** The `main` entry, resolved against the extension directory, names the
      main script path. */
  lemma RuntimeMainLocatesMainScript(c: ExtensionConfig)
    requires Relative(c.mainScript)
    ensures Child(c.path, RuntimeManifest(c)["main"].s) == c.MainScriptPath()
  {
    ParseDotSlash(c.mainScript);
  }
}
