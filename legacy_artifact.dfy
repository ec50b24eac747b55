/** The older coordinate of maven/artifact.py. It has no resolved-version
    field: `uri` takes the resolved version as an argument and uses it only
    for snapshots, `path(True)` always appends the version itself, and
    concatenating a missing version raises TypeError instead of printing
    "None". */
module LegacyArtifact {
  import opened Wrappers
  import opened Exceptions
  import opened Strings
  import MavenArtifact

  /** What `str + None` raises. */
  const CONCAT_NONE := "can only concatenate str (not \"NoneType\") to str"

  datatype Artifact = Artifact(
    groupId: string,
    artifactId: string,
    version: Option<string>,
    classifier: Option<string>,
    extension: string)
  {
    predicate Valid()
    {
      groupId != "" && artifactId != "" && extension != ""
    }

    /** `is_snapshot()`, read as a truth value. */
    function IsSnapshot(): (r: bool)
      ensures r <==> version.Some? && EndsWith(version.value, MavenArtifact.SNAPSHOT_SUFFIX)
    {
      Truthy(version) && EndsWith(version.value, MavenArtifact.SNAPSHOT_SUFFIX)
    }

    function GroupPath(): string
    {
      Replace(groupId, '.', '/')
    }

    /** `path(with_version)`: with the version it is `base + "/" + version`,
        which raises TypeError for a missing version. */
    function Path(withVersion: bool): (r: Result<string, Error>)
      ensures r.Failure? <==> withVersion && version.None?
      ensures r.Failure? ==> r.error == TypeError(CONCAT_NONE)
      ensures r.Success? && !withVersion ==> r.value == GroupPath() + "/" + artifactId
      ensures r.Success? && withVersion ==> r.value == GroupPath() + "/" + artifactId + "/" + version.value
    {
      var base := GroupPath() + "/" + artifactId;
      if !withVersion then Success(base)
      else if version.None? then Failure(TypeError(CONCAT_NONE))
      else Success(base + "/" + version.value)
    }

    /** `uri(base, resolved_version)`: ValueError for a snapshot without a
        resolved version; for a non-snapshot the argument is ignored and the
        version itself names the file. */
    function Uri(base: string, resolvedVersion: Option<string>): (r: Result<string, Error>)
      ensures IsSnapshot() && !Truthy(resolvedVersion) ==>
        r == Failure(ValueError("Expected uniqueversion for snapshot artifact " + ToString()))
      ensures !IsSnapshot() && version.None? ==> r == Failure(TypeError(CONCAT_NONE))
      ensures r.Success? <==> (if IsSnapshot() then Truthy(resolvedVersion) else version.Some?)
      ensures r.Success? ==>
        var fileVersion := if IsSnapshot() then resolvedVersion.value else version.value;
        r.value == base + "/" + Path(true).value + "/" + artifactId + "-" + fileVersion
                   + (if Truthy(classifier) then "-" + classifier.value else "") + "." + extension
    {
      if IsSnapshot() && !Truthy(resolvedVersion) then
        Failure(ValueError("Expected uniqueversion for snapshot artifact " + ToString()))
      else
        match Path(true)
        case Failure(e) => Failure(e)
        case Success(p) =>
          var fileVersion := if IsSnapshot() then resolvedVersion.value else version.value;
          if Truthy(classifier) then
            Success(base + "/" + p + "/" + artifactId + "-" + fileVersion + "-" + classifier.value + "." + extension)
          else
            Success(base + "/" + p + "/" + artifactId + "-" + fileVersion + "." + extension)
    }

    /** `with_version(v)`: a freshly constructed artifact with version `v`
        and the other fields of this one. */
    function WithVersion(v: Option<string>): (a: Artifact)
      ensures a.version == v
      ensures a.groupId == groupId && a.artifactId == artifactId
      ensures a.classifier == classifier && a.extension == extension
    {
      Artifact(groupId, artifactId, v, classifier, extension)
    }

    function GenerateFilename(): string
    {
      if !Truthy(classifier) then artifactId + "." + extension
      else artifactId + "-" + classifier.value + "." + extension
    }

    /** `get_filename(filename)`, with `os.path.isdir(filename)` as `isDir`. */
    function GetFilename(filename: Option<string>, isDir: bool): (r: string)
      ensures !Truthy(filename) ==> r == GenerateFilename()
      ensures Truthy(filename) && isDir ==> r == MavenArtifact.PathJoin(filename.value, GenerateFilename())
      ensures Truthy(filename) && !isDir ==> r == filename.value
    {
      if !Truthy(filename) then GenerateFilename()
      else if isDir then MavenArtifact.PathJoin(filename.value, GenerateFilename())
      else filename.value
    }

    /** `__str__()` */
    function ToString(): string
    {
      if Truthy(classifier) then
        groupId + ":" + artifactId + ":" + extension + ":" + classifier.value + ":" + Show(version)
      else if extension != MavenArtifact.DEFAULT_EXTENSION then
        groupId + ":" + artifactId + ":" + extension + ":" + Show(version)
      else
        groupId + ":" + artifactId + ":" + Show(version)
    }

    /** The same coordinate in the current representation, not yet resolved. */
    function Current(): (c: MavenArtifact.Artifact)
      ensures c.groupId == groupId && c.artifactId == artifactId && c.version == version
      ensures c.classifier == classifier && c.extension == extension && c.resolvedVersion == None
    {
      MavenArtifact.Artifact(groupId, artifactId, version, classifier, extension, None)
    }
  }

  /** `Artifact(group_id, artifact_id, version, classifier, extension)` */
  function New(groupId: string, artifactId: string, version: Option<string>,
               classifier: Option<string>, extension: Option<string>): (r: Result<Artifact, Error>)
    ensures r.Success? <==> groupId != "" && artifactId != ""
    ensures groupId == "" ==> r == Failure(ValueError("group_id must be set"))
    ensures groupId != "" && artifactId == "" ==> r == Failure(ValueError("artifact_id must be set"))
    ensures r.Success? ==> r.value.Valid()
    ensures r.Success? ==>
      && r.value.groupId == groupId && r.value.artifactId == artifactId
      && r.value.version == version && r.value.classifier == classifier
      && r.value.extension == (if Truthy(extension) then extension.value else MavenArtifact.DEFAULT_EXTENSION)
  {
    if groupId == "" then Failure(ValueError("group_id must be set"))
    else if artifactId == "" then Failure(ValueError("artifact_id must be set"))
    else Success(Artifact(groupId, artifactId, version, classifier,
                          if Truthy(extension) then extension.value else MavenArtifact.DEFAULT_EXTENSION))
  }

  /** `Artifact.parse(input)` */
  function Parse(input: string): (r: Result<Option<Artifact>, Error>)
    ensures var parts := Split(input, ':');
      && (|parts| < 3 ==> r == Success(None))
      && (|parts| >= 3 ==> (r.Success? <==> parts[0] != "" && parts[1] != ""))
      && (|parts| >= 3 && r.Failure? ==>
            r.error == ValueError(if parts[0] == "" then "group_id must be set" else "artifact_id must be set"))
      && (|parts| >= 3 && r.Success? ==>
            && r.value.Some?
            && r.value.value.Valid()
            && r.value.value.groupId == parts[0]
            && r.value.value.artifactId == parts[1]
            && r.value.value.version == Some(parts[|parts| - 1])
            && r.value.value.extension ==
                 (if (|parts| == 4 || |parts| == 5) && parts[2] != "" then parts[2] else MavenArtifact.DEFAULT_EXTENSION)
            && r.value.value.classifier == (if |parts| == 5 then Some(parts[3]) else None))
  {
    var parts := Split(input, ':');
    if |parts| >= 3 then
      var g, a, v := parts[0], parts[1], parts[|parts| - 1];
      var t: Option<string> := if |parts| == 4 || |parts| == 5 then Some(parts[2]) else None;
      var c: Option<string> := if |parts| == 5 then Some(parts[3]) else None;
      match New(g, a, Some(v), c, t)
      case Success(artifact) => Success(Some(artifact))
      case Failure(e) => Failure(e)
    else
      Success(None)
  }

  /** The two generations parse alike, render alike and name files alike. */
  lemma AgreesWithCurrent(input: string, a: Artifact, filename: Option<string>, isDir: bool)
    ensures Parse(input).Success? <==> MavenArtifact.Parse(input).Success?
    ensures Parse(input).Success? ==>
      (Parse(input).value.Some? <==> MavenArtifact.Parse(input).value.Some?)
    ensures Parse(input).Success? && Parse(input).value.Some? ==>
      Parse(input).value.value.Current() == MavenArtifact.Parse(input).value.value
    ensures a.ToString() == a.Current().ToString()
    ensures a.GenerateFilename() == a.Current().GenerateFilename()
    ensures a.GetFilename(filename, isDir) == a.Current().GetFilename(filename, isDir)
    ensures a.IsSnapshot() == a.Current().IsSnapshot()
  {
  }

  /** `__str__` joins the same fields with `:` as the current one. */
  lemma ToStringIsJoin(a: Artifact)
    ensures Join(MavenArtifact.Fields(a.Current()), ':') == a.ToString()
  {
    MavenArtifact.ToStringIsJoin(a.Current());
  }

  /** The file a URI points to is the generated file name with `-V` after
      the artifact id, V the version the URI uses. */
  lemma UriNamesGeneratedFile(a: Artifact, base: string, resolvedVersion: Option<string>)
    requires a.Uri(base, resolvedVersion).Success?
    ensures |a.artifactId| <= |a.GenerateFilename()|
    ensures a.GenerateFilename()[..|a.artifactId|] == a.artifactId
    ensures a.Uri(base, resolvedVersion).value ==
      base + "/" + a.Path(true).value + "/" + a.artifactId + "-"
      + (if a.IsSnapshot() then resolvedVersion.value else a.version.value)
      + a.GenerateFilename()[|a.artifactId|..]
  {
    var cls := if Truthy(a.classifier) then "-" + a.classifier.value else "";
    var fv := if a.IsSnapshot() then resolvedVersion.value else a.version.value;
    var head := base + "/" + a.Path(true).value + "/" + a.artifactId + "-" + fv;
    assert a.GenerateFilename() == a.artifactId + cls + "." + a.extension;
    MavenArtifact.FileNameTail(head, a.artifactId, cls, a.extension);
  }

  /** `parse(str(a))` rebuilds `a`, as it does for the current artifact. */
  lemma ParseOfToString(a: Artifact)
    requires a.Valid() && MavenArtifact.Printable(a.Current())
    ensures Parse(a.ToString()) == Success(Some(a))
  {
    MavenArtifact.ParseOfToString(a.Current());
    AgreesWithCurrent(a.ToString(), a, None, false);
  }

  /** Unlike the current `uri`, the resolved version never reaches the file
      name of a non-snapshot: the URL of a `latest` artifact says `latest`. */
  lemma UriIgnoresResolvedForRelease(a: Artifact, base: string, r1: Option<string>, r2: Option<string>)
    requires !a.IsSnapshot()
    ensures a.Uri(base, r1) == a.Uri(base, r2)
  {
  }

  /** The path of a `latest` artifact keeps `latest` as its version segment. */
  lemma LatestUriSaysLatest(a: Artifact, base: string, resolved: Option<string>)
    requires a.version == Some(MavenArtifact.LATEST)
    ensures a.Uri(base, resolved) == Success(
      base + "/" + a.GroupPath() + "/" + a.artifactId + "/" + MavenArtifact.LATEST + "/" + a.artifactId + "-" + MavenArtifact.LATEST
      + (if Truthy(a.classifier) then "-" + a.classifier.value else "") + "." + a.extension)
  {
    assert !a.IsSnapshot();
    var p := a.Path(true).value;
    assert p == a.GroupPath() + "/" + a.artifactId + "/" + MavenArtifact.LATEST;
    assert base + "/" + p == base + "/" + a.GroupPath() + "/" + a.artifactId + "/" + MavenArtifact.LATEST;
  }

  /** `with_version` changes to the given version and nothing else. */
  lemma WithVersionKeepsValid(a: Artifact, v: Option<string>)
    requires a.Valid()
    ensures a.WithVersion(v).Valid() && a.WithVersion(v).WithVersion(a.version) == a
  {
  }
}
