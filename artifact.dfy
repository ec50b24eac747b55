/** The Maven coordinate of src/maven_artifact/artifact.py: a value with
    group, artifact, version, classifier, extension and the version a
    resolver found for it. Every `with_*` method of the source copies the
    object and sets one field on the copy, so the record is a datatype and
    each of them a record update. */
module MavenArtifact {
  import opened Wrappers
  import opened Exceptions
  import opened Strings

  const SNAPSHOT_SUFFIX := "-SNAPSHOT"
  const LATEST := "latest"
  const DEFAULT_EXTENSION := "jar"

  datatype Artifact = Artifact(
    groupId: string,
    artifactId: string,
    version: Option<string>,
    classifier: Option<string>,
    extension: string,
    resolvedVersion: Option<string>)
  {
    /** What the constructor guarantees of every artifact it builds. */
    predicate Valid()
    {
      groupId != "" && artifactId != "" && extension != ""
    }

    /** `is_snapshot()`, read as a truth value: the version is present and
        ends with the exact suffix `-SNAPSHOT`. */
    function IsSnapshot(): (r: bool)
      ensures r <==> version.Some? && EndsWith(version.value, SNAPSHOT_SUFFIX)
    {
      Truthy(version) && EndsWith(version.value, SNAPSHOT_SUFFIX)
    }

    /** The group as a directory path: every `.` becomes `/`. */
    function GroupPath(): string
    {
      Replace(groupId, '.', '/')
    }

    /** The version `path` puts in its last segment: the resolved version
        when the version is `latest`, else the version. */
    function PathVersion(): Option<string>
    {
      if version != Some(LATEST) then version else resolvedVersion
    }

    /** `path(with_version)` */
    function Path(withVersion: bool): (p: string)
      ensures !withVersion ==> p == GroupPath() + "/" + artifactId
      ensures withVersion ==> p == Path(false) + "/" + Show(PathVersion())
    {
      var base := GroupPath() + "/" + artifactId;
      if !withVersion then base else base + "/" + Show(PathVersion())
    }

    /** The version `uri` puts in the file name. */
    function FileVersion(): string
    {
      if Truthy(resolvedVersion) then resolvedVersion.value else Show(version)
    }

    /** `uri(base)`: fails exactly for a snapshot without a resolved
        version; otherwise the Maven repository layout
        `base/path()/artifactId-V[-classifier].extension`. */
    function Uri(base: string): (r: Result<string, Error>)
      ensures r.Failure? <==> IsSnapshot() && !Truthy(resolvedVersion)
      ensures r.Failure? ==> r.error == ValueError("Expected unique version for snapshot artifact " + ToString())
      ensures r.Success? ==>
        r.value == base + "/" + Path(true) + "/" + artifactId + "-" + FileVersion()
                   + (if Truthy(classifier) then "-" + classifier.value else "") + "." + extension
    {
      if IsSnapshot() && !Truthy(resolvedVersion) then
        Failure(ValueError("Expected unique version for snapshot artifact " + ToString()))
      else
        var ret := base + "/" + Path(true) + "/" + artifactId + "-" + FileVersion();
        var ret := if Truthy(classifier) then ret + "-" + classifier.value else ret;
        Success(ret + "." + extension)
    }

    /** `with_version(v)`: a copy in which only the version differs. */
    function WithVersion(v: Option<string>): (a: Artifact)
      ensures a.version == v
      ensures a.groupId == groupId && a.artifactId == artifactId && a.classifier == classifier
      ensures a.extension == extension && a.resolvedVersion == resolvedVersion
    {
      this.(version := v)
    }

    /** `with_classifier(c)`: a copy in which only the classifier differs. */
    function WithClassifier(c: Option<string>): (a: Artifact)
      ensures a.classifier == c
      ensures a.groupId == groupId && a.artifactId == artifactId && a.version == version
      ensures a.extension == extension && a.resolvedVersion == resolvedVersion
    {
      this.(classifier := c)
    }

    /** `with_resolved_version(v)`: a copy in which only the resolved
        version differs. */
    function WithResolvedVersion(v: Option<string>): (a: Artifact)
      ensures a.resolvedVersion == v
      ensures a.groupId == groupId && a.artifactId == artifactId && a.version == version
      ensures a.classifier == classifier && a.extension == extension
    {
      this.(resolvedVersion := v)
    }

    /** `_generate_filename()`: `artifactId[-classifier].extension` */
    function GenerateFilename(): string
    {
      if !Truthy(classifier) then artifactId + "." + extension
      else artifactId + "-" + classifier.value + "." + extension
    }

    /** `get_filename(filename)`, with `os.path.isdir(filename)` supplied as
        `isDir`. */
    function GetFilename(filename: Option<string>, isDir: bool): (r: string)
      ensures !Truthy(filename) ==> r == GenerateFilename()
      ensures Truthy(filename) && isDir ==> r == PathJoin(filename.value, GenerateFilename())
      ensures Truthy(filename) && !isDir ==> r == filename.value
    {
      if !Truthy(filename) then GenerateFilename()
      else if isDir then PathJoin(filename.value, GenerateFilename())
      else filename.value
    }

    /** `__str__()`; the version is rendered as `f"{version}"` renders it. */
    function ToString(): string
    {
      if Truthy(classifier) then
        groupId + ":" + artifactId + ":" + extension + ":" + classifier.value + ":" + Show(version)
      else if extension != DEFAULT_EXTENSION then
        groupId + ":" + artifactId + ":" + extension + ":" + Show(version)
      else
        groupId + ":" + artifactId + ":" + Show(version)
    }

    /** `__eq__`: all fields but the resolved version. */
    predicate Equals(other: Artifact)
    {
      && groupId == other.groupId
      && artifactId == other.artifactId
      && version == other.version
      && classifier == other.classifier
      && extension == other.extension
    }
  }

  /** `os.path.join(dir, name)` on POSIX paths. */
  function PathJoin(dir: string, name: string): (r: string)
    ensures StartsWith(name, "/") ==> r == name
    ensures !StartsWith(name, "/") && (dir == "" || EndsWith(dir, "/")) ==> r == dir + name
    ensures !StartsWith(name, "/") && dir != "" && !EndsWith(dir, "/") ==> r == dir + "/" + name
  {
    if |name| > 0 && name[0] == '/' then name
    else if dir == "" || dir[|dir| - 1] == '/' then dir + name
    else dir + "/" + name
  }

  /** `Artifact(group_id, artifact_id, version, classifier, extension)` */
  function New(groupId: string, artifactId: string, version: Option<string>,
               classifier: Option<string>, extension: Option<string>): (r: Result<Artifact, Error>)
    ensures r.Success? <==> groupId != "" && artifactId != ""
    ensures groupId == "" ==> r == Failure(ValueError("group_id must be set"))
    ensures groupId != "" && artifactId == "" ==> r == Failure(ValueError("artifact_id must be set"))
    ensures r.Success? ==> r.value.Valid()
    ensures r.Success? ==>
      && r.value.groupId == groupId && r.value.artifactId == artifactId
      && r.value.version == version && r.value.classifier == classifier
      && r.value.extension == (if Truthy(extension) then extension.value else DEFAULT_EXTENSION)
      && r.value.resolvedVersion == None
  {
    if groupId == "" then Failure(ValueError("group_id must be set"))
    else if artifactId == "" then Failure(ValueError("artifact_id must be set"))
    else Success(Artifact(groupId, artifactId, version, classifier,
                          if Truthy(extension) then extension.value else DEFAULT_EXTENSION, None))
  }

  /** `Artifact.parse(coordinate)`: `Success(None)` for fewer than three
      `:`-separated parts; the constructor's ValueError for an empty group
      or artifact. */
  function Parse(coordinate: string): (r: Result<Option<Artifact>, Error>)
    ensures var parts := Split(coordinate, ':');
      && (|parts| < 3 ==> r == Success(None))
      && (|parts| >= 3 ==> (r.Success? <==> parts[0] != "" && parts[1] != ""))
      && (|parts| >= 3 && r.Failure? ==>
            r.error == ValueError(if parts[0] == "" then "group_id must be set" else "artifact_id must be set"))
      && (|parts| >= 3 && r.Success? ==>
            && r.value.Some?
            && r.value.value.Valid()
            && r.value.value.groupId == parts[0]
            && r.value.value.artifactId == parts[1]
            && r.value.value.version == Some(parts[|parts| - 1])
            && r.value.value.extension ==
                 (if (|parts| == 4 || |parts| == 5) && parts[2] != "" then parts[2] else DEFAULT_EXTENSION)
            && r.value.value.classifier == (if |parts| == 5 then Some(parts[3]) else None)
            && r.value.value.resolvedVersion == None)
  {
    var parts := Split(coordinate, ':');
    if |parts| >= 3 then
      var g, a, v := parts[0], parts[1], parts[|parts| - 1];
      var t: Option<string> := if |parts| == 4 || |parts| == 5 then Some(parts[2]) else None;
      var c: Option<string> := if |parts| == 5 then Some(parts[3]) else None;
      match New(g, a, Some(v), c, t)
      case Success(artifact) => Success(Some(artifact))
      case Failure(e) => Failure(e)
    else
      Success(None)
  }

  /** The fields `__str__` writes contain no `:` and the classifier, when
      present, is not empty (an empty one would be dropped). */
  predicate Printable(a: Artifact)
  {
    && ':' !in a.groupId && ':' !in a.artifactId && ':' !in a.extension
    && a.version.Some? && ':' !in a.version.value
    && (a.classifier.Some? ==> a.classifier.value != "" && ':' !in a.classifier.value)
  }

  /** The fields `__str__` writes, in order. */
  function Fields(a: Artifact): seq<string>
  {
    if Truthy(a.classifier) then [a.groupId, a.artifactId, a.extension, a.classifier.value, Show(a.version)]
    else if a.extension != DEFAULT_EXTENSION then [a.groupId, a.artifactId, a.extension, Show(a.version)]
    else [a.groupId, a.artifactId, Show(a.version)]
  }

  lemma JoinThree(p0: string, p1: string, p2: string)
    ensures Join([p0, p1, p2], ':') == p0 + ":" + p1 + ":" + p2
  {
    assert [p0, p1, p2][1..] == [p1, p2];
    assert [p1, p2][1..] == [p2];
    var t := p1 + ":" + p2;
    assert Join([p1, p2], ':') == t;
    assert p0 + ":" + t == p0 + ":" + p1 + ":" + p2;
  }

  lemma JoinFour(p0: string, p1: string, p2: string, p3: string)
    ensures Join([p0, p1, p2, p3], ':') == p0 + ":" + p1 + ":" + p2 + ":" + p3
  {
    assert [p0, p1, p2, p3][1..] == [p1, p2, p3];
    JoinThree(p1, p2, p3);
  }

  lemma JoinFive(p0: string, p1: string, p2: string, p3: string, p4: string)
    ensures Join([p0, p1, p2, p3, p4], ':') == p0 + ":" + p1 + ":" + p2 + ":" + p3 + ":" + p4
  {
    assert [p0, p1, p2, p3, p4][1..] == [p1, p2, p3, p4];
    JoinFour(p1, p2, p3, p4);
  }

  /** `__str__` joins the fields with `:`. */
  lemma ToStringIsJoin(a: Artifact)
    ensures Join(Fields(a), ':') == a.ToString()
  {
    if Truthy(a.classifier) {
      JoinFive(a.groupId, a.artifactId, a.extension, a.classifier.value, Show(a.version));
    } else if a.extension != DEFAULT_EXTENSION {
      JoinFour(a.groupId, a.artifactId, a.extension, Show(a.version));
    } else {
      JoinThree(a.groupId, a.artifactId, Show(a.version));
    }
  }

  /** `parse(str(a))` rebuilds `a`, without its resolved version. */
  lemma ParseOfToString(a: Artifact)
    requires a.Valid() && Printable(a)
    ensures Parse(a.ToString()) == Success(Some(a.WithResolvedVersion(None)))
    ensures Parse(a.ToString()).value.value.Equals(a)
  {
    ToStringIsJoin(a);
    SplitOfJoin(Fields(a), ':');
    assert Split(a.ToString(), ':') == Fields(a);
  }

  /** `Split` of a string known to be the join of `:`-free parts. */
  lemma SplitKnown(s: string, parts: seq<string>)
    requires |parts| >= 1 && forall i :: 0 <= i < |parts| ==> ':' !in parts[i]
    requires Join(parts, ':') == s
    ensures Split(s, ':') == parts
  {
    SplitOfJoin(parts, ':');
  }

  /** `parse` on the documented coordinate forms: three parts give the
      `jar` default and no classifier. */
  lemma ParseThreeParts()
    ensures Parse("g:a:v") == Success(Some(Artifact("g", "a", Some("v"), None, "jar", None)))
  {
    JoinThree("g", "a", "v");
    SplitKnown("g:a:v", ["g", "a", "v"]);
  }

  /** Four parts give the extension. */
  lemma ParseFourParts()
    ensures Parse("g:a:war:3.5.0") == Success(Some(Artifact("g", "a", Some("3.5.0"), None, "war", None)))
  {
    JoinFour("g", "a", "war", "3.5.0");
    SplitKnown("g:a:war:3.5.0", ["g", "a", "war", "3.5.0"]);
  }

  /** Five parts give the extension and the classifier. */
  lemma ParseFiveParts()
    ensures Parse("g:a:war:doc:3.5.0") == Success(Some(Artifact("g", "a", Some("3.5.0"), Some("doc"), "war", None)))
  {
    var parts := ["g", "a", "war", "doc", "3.5.0"];
    JoinFive("g", "a", "war", "doc", "3.5.0");
    SplitKnown("g:a:war:doc:3.5.0", parts);
    assert New("g", "a", Some("3.5.0"), Some("doc"), Some("war")).Success?;
  }

  /** Six or more parts keep the first two and the last, and drop the rest. */
  lemma ParseSixParts()
    ensures Parse("g:a:x:y:z:6") == Success(Some(Artifact("g", "a", Some("6"), None, "jar", None)))
  {
    var p := ["g", "a", "x", "y", "z", "6"];
    assert Join(p[4..], ':') == "z:6";
    assert Join(p[3..], ':') == "y:z:6";
    assert Join(p[2..], ':') == "x:y:z:6";
    assert Join(p[1..], ':') == "a:x:y:z:6";
    SplitKnown("g:a:x:y:z:6", p);
  }

  /** Fewer than three parts are not a coordinate. */
  lemma ParseRejectsShort()
    ensures Parse("only:two") == Success(None)
  {
    var p := ["only", "two"];
    assert Join(p[1..], ':') == "two";
    SplitKnown("only:two", p);
  }

  /** An empty group is the constructor's error. */
  lemma ParseRejectsEmptyGroup()
    ensures Parse(":a:v") == Failure(ValueError("group_id must be set"))
  {
    JoinThree("", "a", "v");
    SplitKnown(":a:v", ["", "a", "v"]);
  }

  /** A concrete version that is not resolved yet gives the plain Maven
      repository layout `base/groupPath/artifactId/version/artifactId-version[-classifier].extension`. */
  lemma UriOfConcrete(a: Artifact, base: string)
    requires a.version.Some? && a.version.value != LATEST && !a.IsSnapshot()
    requires a.resolvedVersion == None
    ensures a.Uri(base) == Success(
      base + "/" + a.GroupPath() + "/" + a.artifactId + "/" + a.version.value + "/"
      + a.artifactId + "-" + a.version.value
      + (if Truthy(a.classifier) then "-" + a.classifier.value else "") + "." + a.extension)
  {
    var v := a.version.value;
    var tail := (if Truthy(a.classifier) then "-" + a.classifier.value else "") + "." + a.extension;
    assert a.Path(true) == a.GroupPath() + "/" + a.artifactId + "/" + v;
    assert a.FileVersion() == v;
    assert a.Uri(base).value == base + "/" + a.Path(true) + "/" + a.artifactId + "-" + v + tail;
    assert base + "/" + a.Path(true) == base + "/" + a.GroupPath() + "/" + a.artifactId + "/" + v;
  }

  /** A `latest` artifact whose resolved version `r` is concrete is laid out
      exactly like the unresolved artifact of version `r`. */
  lemma UriOfResolvedLatest(a: Artifact, base: string)
    requires a.version == Some(LATEST)
    requires Truthy(a.resolvedVersion) && a.resolvedVersion.value != LATEST
    requires !EndsWith(a.resolvedVersion.value, SNAPSHOT_SUFFIX)
    ensures a.Uri(base) == a.WithVersion(a.resolvedVersion).WithResolvedVersion(None).Uri(base)
  {
    var c := a.WithVersion(a.resolvedVersion).WithResolvedVersion(None);
    assert a.Path(true) == c.Path(true);
    assert a.FileVersion() == c.FileVersion();
  }

  /** Regrouping used for file names: `h + c + "." + e` is `h` followed by
      the part of `x + c + "." + e` after `x`. */
  lemma FileNameTail(h: string, x: string, c: string, e: string)
    ensures |x| <= |x + c + "." + e|
    ensures h + c + "." + e == h + (x + c + "." + e)[|x|..]
  {
    assert (x + c + "." + e)[|x|..] == c + "." + e;
  }

  /** The file a URI points to is the generated file name with `-V` after
      the artifact id, V the version the URI uses. */
  lemma UriNamesGeneratedFile(a: Artifact, base: string)
    requires a.Uri(base).Success?
    ensures |a.artifactId| <= |a.GenerateFilename()|
    ensures a.GenerateFilename()[..|a.artifactId|] == a.artifactId
    ensures a.Uri(base).value ==
      base + "/" + a.Path(true) + "/" + a.artifactId + "-" + a.FileVersion() + a.GenerateFilename()[|a.artifactId|..]
  {
    var cls := if Truthy(a.classifier) then "-" + a.classifier.value else "";
    var head := base + "/" + a.Path(true) + "/" + a.artifactId + "-" + a.FileVersion();
    assert a.GenerateFilename() == a.artifactId + cls + "." + a.extension;
    FileNameTail(head, a.artifactId, cls, a.extension);
  }

  /** Equality is equality of the records once the resolved version is
      cleared; in particular it is an equivalence. */
  lemma EqualsIgnoresResolvedVersion(a: Artifact, b: Artifact)
    ensures a.Equals(b) <==> a.WithResolvedVersion(None) == b.WithResolvedVersion(None)
    ensures a.WithResolvedVersion(b.resolvedVersion).Equals(a)
  {
  }

  /** Each `with_*` keeps the constructor's guarantees. */
  lemma WithKeepsValid(a: Artifact, v: Option<string>)
    requires a.Valid()
    ensures a.WithVersion(v).Valid() && a.WithClassifier(v).Valid() && a.WithResolvedVersion(v).Valid()
  {
  }

  /** The snapshot examples: `0.0.1` is not a snapshot, `0.0.1-SNAPSHOT` is. */
  lemma SnapshotExamples(a: Artifact)
    ensures !a.WithVersion(Some("0.0.1")).IsSnapshot()
    ensures a.WithVersion(Some("0.0.1-SNAPSHOT")).IsSnapshot()
    ensures !a.WithVersion(None).IsSnapshot()
  {
    assert "0.0.1-SNAPSHOT"[5..] == SNAPSHOT_SUFFIX;
  }
}
