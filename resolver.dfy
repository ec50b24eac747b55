/** The resolver of src/maven_artifact/resolver.py. It turns `latest` (or a
    missing version) into the last release listed in the artifact's
    metadata and a `-SNAPSHOT` version into the unique snapshot version
    listed in the version's metadata, and records the outcome in the
    artifact's resolved version. The HTTP transport is the `send`
    parameter; the Requestor builds the headers it is given. */
module MavenResolver {
  import opened Wrappers
  import opened Exceptions
  import opened Strings
  import opened RepositoryMetadata
  import opened MavenArtifact
  import Requestor

  const METADATA_FILE := "/maven-metadata.xml"
  const CENTRAL := "https://repo1.maven.org/maven2"

  type Send = (string, map<string, string>) -> Requestor.Transport<MetadataDocument>

  /** The message of the RequestException a failed metadata fetch raises. */
  function FailureMessage(url: string, cause: Error): string
  {
    "Failed to download maven-metadata.xml from " + url + " due to " + Describe(cause)
  }

  /** `_onFail(url, e)`: always raises. */
  function OnFail(url: string, e: Error): (r: Result<Metadata, Error>)
    ensures r.Failure? && r.error.RequestException?
    ensures r.error.msg == FailureMessage(url, e)
  {
    Failure(RequestException(FailureMessage(url, e)))
  }

  datatype Resolver = Resolver(base: string, requestor: Requestor.Requestor)
  {
    /** `requestor.request(url, self._onFail, lambda r: etree.fromstring(r.content))` */
    function Fetch(url: string, send: Send): (r: Result<Metadata, Error>)
      ensures var sent := send(url, requestor.Headers());
        && (sent.Delivered? && sent.response.Parsed? ==> r == Success(sent.response.metadata))
        && (sent.Failed? ==> r == Failure(RequestException(FailureMessage(url, sent.cause))))
        && (sent.Delivered? && sent.response.Unparseable? ==>
              r == Failure(RequestException(FailureMessage(url, XmlSyntaxError(sent.response.reason)))))
    {
      match requestor.Request(url, send, Some(OnFail), Some(ParseDocument))
      case Success(Handled(md)) => Success(md)
      case Success(RawResponse(_)) => assert false; Failure(IndexError(""))
      case Failure(e) => Failure(e)
    }

    /** The metadata listing all versions: `base/groupPath/artifactId/maven-metadata.xml`. */
    function LatestMetadataUrl(a: Artifact): string
    {
      base + "/" + a.Path(false) + METADATA_FILE
    }

    /** The metadata of one version: `base/path()/maven-metadata.xml`. */
    function SnapshotMetadataUrl(a: Artifact): string
    {
      base + "/" + a.Path(true) + METADATA_FILE
    }

    /** `_find_latest_version_available(artifact)` */
    function FindLatestVersionAvailable(a: Artifact, send: Send): (r: Result<Option<string>, Error>)
      ensures var fetched := Fetch(LatestMetadataUrl(a), send);
        && (fetched.Failure? ==> r == Failure(fetched.error))
        && (fetched.Success? ==> r == Success(LatestListed(fetched.value)))
    {
      match Fetch(LatestMetadataUrl(a), send)
      case Failure(e) => Failure(e)
      case Success(md) => Success(LatestListed(md))
    }

    /** `_find_latest_snapshot_version(artifact)` */
    function FindLatestSnapshotVersion(a: Artifact, send: Send): (r: Result<string, Error>)
      ensures var fetched := Fetch(SnapshotMetadataUrl(a), send);
        && (fetched.Failure? ==> r == Failure(fetched.error))
        && (fetched.Success? ==> r == SnapshotValue(fetched.value))
    {
      match Fetch(SnapshotMetadataUrl(a), send)
      case Failure(e) => Failure(e)
      case Success(md) => SnapshotValue(md)
    }

    /** The first step of `resolve`: the version from the metadata for
        `latest` or a missing version, for a snapshot the unique snapshot
        version, else the version itself. */
    function ResolveVersion(a: Artifact, send: Send): Result<Option<string>, Error>
    {
      if !Truthy(a.version) || a.version == Some(LATEST) then
        FindLatestVersionAvailable(a, send)
      else if a.IsSnapshot() then
        match FindLatestSnapshotVersion(a, send)
        case Success(v) => Success(Some(v))
        case Failure(e) => Failure(e)
      else
        Success(a.version)
    }

    /** `resolve(artifact)` */
    function Resolve(a: Artifact, send: Send): (r: Result<Artifact, Error>)
      ensures r.Success? ==> r.value.WithVersion(a.version).WithResolvedVersion(a.resolvedVersion) == a
      ensures r.Success? && r.value.version != a.version ==> r.value.IsSnapshot()
      ensures r.Success? && r.value.IsSnapshot() ==> Truthy(r.value.resolvedVersion)
      ensures ResolveVersion(a, send).Failure? ==> r == Failure(ResolveVersion(a, send).error)
      ensures var v := ResolveVersion(a, send);
        v.Success? && a.WithVersion(v.value).IsSnapshot()
        && FindLatestSnapshotVersion(a.WithVersion(v.value), send).Failure? ==>
          r == Failure(FindLatestSnapshotVersion(a.WithVersion(v.value), send).error)
    {
      match ResolveVersion(a, send)
      case Failure(e) => Failure(e)
      case Success(version) =>
        var resolved := a.WithVersion(version);
        if resolved.IsSnapshot() then
          match FindLatestSnapshotVersion(resolved, send)
          case Failure(e) => Failure(e)
          case Success(rv) =>
            SnapshotResolvedIsTruthy(resolved, send);
            Success(resolved.WithResolvedVersion(Some(rv)))
        else
          Success(a.WithResolvedVersion(version))
    }

    /** `uri_for_artifact(artifact)`: the URI of the resolved artifact. It
        fails only where resolution fails. */
    function UriForArtifact(a: Artifact, send: Send): (r: Result<string, Error>)
      ensures Resolve(a, send).Failure? ==> r == Failure(Resolve(a, send).error)
      ensures Resolve(a, send).Success? ==> r.Success? && r == Resolve(a, send).value.Uri(base)
    {
      match Resolve(a, send)
      case Failure(e) => Failure(e)
      case Success(resolved) => resolved.Uri(base)
    }

    /** A resolved snapshot version is never empty. */
    lemma SnapshotResolvedIsTruthy(a: Artifact, send: Send)
      requires FindLatestSnapshotVersion(a, send).Success?
      ensures FindLatestSnapshotVersion(a, send).value != ""
    {
      SnapshotValueNonEmpty(Fetch(SnapshotMetadataUrl(a), send).value);
    }
  }

  /** `Resolver(base, requestor)`: every trailing `/` is dropped from the base. */
  function New(base: string, requestor: Requestor.Requestor): (r: Resolver)
    ensures r.requestor == requestor
    ensures !EndsWith(r.base, "/")
    ensures |r.base| <= |base| && r.base == base[..|r.base|]
    ensures forall i :: |r.base| <= i < |base| ==> base[i] == '/'
  {
    var b := if EndsWith(base, "/") then RStrip(base, '/') else base;
    Resolver(b, requestor)
  }

  /** `Resolver.default()` */
  function Default(): Resolver
  {
    New(CENTRAL, Requestor.Default())
  }

  /** Normalising an already normalised base changes nothing. */
  lemma NewIsIdempotent(base: string, q: Requestor.Requestor)
    ensures New(New(base, q).base, q) == New(base, q)
  {
  }

  /** The metadata URLs in terms of the coordinate. */
  lemma MetadataUrls(r: Resolver, a: Artifact)
    ensures r.LatestMetadataUrl(a) == r.base + "/" + a.GroupPath() + "/" + a.artifactId + METADATA_FILE
    ensures r.SnapshotMetadataUrl(a) ==
      r.base + "/" + a.GroupPath() + "/" + a.artifactId + "/" + Show(a.PathVersion()) + METADATA_FILE
  {
    var p := a.GroupPath() + "/" + a.artifactId;
    assert r.base + "/" + (p + "/" + Show(a.PathVersion())) == r.base + "/" + p + "/" + Show(a.PathVersion());
  }

  /** Every fetch failure is a RequestException whose message names the URL. */
  lemma FetchFailureNamesUrl(r: Resolver, url: string, send: Send)
    requires r.Fetch(url, send).Failure?
    ensures r.Fetch(url, send).error.RequestException?
    ensures Contains(r.Fetch(url, send).error.msg, url)
  {
    var sent := send(url, r.requestor.Headers());
    var cause := if sent.Failed? then sent.cause else XmlSyntaxError(sent.response.reason);
    var prefix, suffix := "Failed to download maven-metadata.xml from ", " due to " + Describe(cause);
    ContainsInfix(prefix, url, suffix);
    assert FailureMessage(url, cause) == prefix + url + suffix;
    assert r.Fetch(url, send).error.msg == FailureMessage(url, cause);
  }

  /** A concrete, non-snapshot version is its own resolution, and no
      metadata is consulted: the transport does not matter. */
  lemma ResolveConcrete(r: Resolver, a: Artifact, send: Send, other: Send)
    requires Truthy(a.version) && a.version != Some(LATEST) && !a.IsSnapshot()
    ensures r.Resolve(a, send) == Success(a.WithResolvedVersion(a.version))
    ensures r.Resolve(a, send) == r.Resolve(a, other)
  {
  }

  /** `latest` (or no version) resolves to the last listed release, which
      lands in the resolved version while the version field is kept; an
      empty list resolves to `None` without an error. */
  lemma ResolveLatest(r: Resolver, a: Artifact, send: Send, md: Metadata)
    requires !Truthy(a.version) || a.version == Some(LATEST)
    requires r.Fetch(r.LatestMetadataUrl(a), send) == Success(md)
    requires LatestListed(md).None? || !EndsWith(LatestListed(md).value, SNAPSHOT_SUFFIX)
    ensures r.Resolve(a, send) == Success(a.WithResolvedVersion(LatestListed(md)))
    ensures r.Resolve(a, send).value.version == a.version
  {
    assert !a.WithVersion(LatestListed(md)).IsSnapshot();
  }

  /** A latest release that is itself a snapshot is resolved a second time,
      from its own metadata; then the version field is replaced. */
  lemma ResolveLatestToSnapshot(r: Resolver, a: Artifact, send: Send, md: Metadata, snap: Metadata)
    requires !Truthy(a.version) || a.version == Some(LATEST)
    requires r.Fetch(r.LatestMetadataUrl(a), send) == Success(md)
    requires LatestListed(md).Some? && EndsWith(LatestListed(md).value, SNAPSHOT_SUFFIX)
    requires r.Fetch(r.SnapshotMetadataUrl(a.WithVersion(LatestListed(md))), send) == Success(snap)
    requires SnapshotValue(snap).Success?
    ensures r.Resolve(a, send) ==
      Success(a.WithVersion(LatestListed(md)).WithResolvedVersion(Some(SnapshotValue(snap).value)))
  {
    assert a.WithVersion(LatestListed(md)).IsSnapshot();
  }

  /** A snapshot keeps its version and gets the unique snapshot version of
      its metadata as resolved version. */
  lemma ResolveSnapshot(r: Resolver, a: Artifact, send: Send, md: Metadata)
    requires a.IsSnapshot() && a.version != Some(LATEST)
    requires r.Fetch(r.SnapshotMetadataUrl(a), send) == Success(md)
    requires SnapshotValue(md).Success? && !EndsWith(SnapshotValue(md).value, SNAPSHOT_SUFFIX)
    ensures r.Resolve(a, send) == Success(a.WithResolvedVersion(Some(SnapshotValue(md).value)))
    ensures r.Resolve(a, send).value.Equals(a)
  {
    SnapshotValueNonEmpty(md);
    assert !a.WithVersion(Some(SnapshotValue(md).value)).IsSnapshot();
  }

  /** A failed fetch of the latest-version metadata makes `resolve` fail
      with the RequestException that names that URL; it is never ignored. */
  lemma ResolveLatestFetchFails(r: Resolver, a: Artifact, send: Send)
    requires !Truthy(a.version) || a.version == Some(LATEST)
    requires r.Fetch(r.LatestMetadataUrl(a), send).Failure?
    ensures r.Resolve(a, send) == Failure(r.Fetch(r.LatestMetadataUrl(a), send).error)
    ensures r.Resolve(a, send).error.RequestException?
    ensures Contains(r.Resolve(a, send).error.msg, r.LatestMetadataUrl(a))
  {
    FetchFailureNamesUrl(r, r.LatestMetadataUrl(a), send);
  }

  /** Likewise for a snapshot whose own metadata cannot be fetched. */
  lemma ResolveSnapshotFetchFails(r: Resolver, a: Artifact, send: Send)
    requires a.IsSnapshot()
    requires r.Fetch(r.SnapshotMetadataUrl(a), send).Failure?
    ensures r.Resolve(a, send) == Failure(r.Fetch(r.SnapshotMetadataUrl(a), send).error)
    ensures r.Resolve(a, send).error.RequestException?
    ensures Contains(r.Resolve(a, send).error.msg, r.SnapshotMetadataUrl(a))
  {
    FetchFailureNamesUrl(r, r.SnapshotMetadataUrl(a), send);
  }

  /** Resolution gives an artifact equal to the one it was given, except
      where a snapshot had to be resolved a second time. */
  lemma ResolveKeepsEquality(r: Resolver, a: Artifact, send: Send)
    requires r.Resolve(a, send).Success?
    ensures r.Resolve(a, send).value.Equals(a)
         || (r.Resolve(a, send).value.IsSnapshot() && r.Resolve(a, send).value.version != a.version)
  {
  }

  /** A transport that serves the same parsed metadata for every URL. */
  function Serving(md: Metadata): Send
  {
    (url: string, headers: map<string, string>) => Requestor.Delivered(Parsed(md))
  }

  /** Against that transport every fetch yields the served metadata. */
  lemma ServingFetch(r: Resolver, url: string, md: Metadata)
    ensures r.Fetch(url, Serving(md)) == Success(md)
  {
  }

  /** The default resolver uses Maven Central as its base. */
  lemma DefaultBase()
    ensures Default().base == CENTRAL
    ensures Default().requestor == Requestor.Default()
  {
    assert !EndsWith(CENTRAL, "/");
  }

  /** The servlet-api example: `latest` against Maven Central whose last
      listed release is `3.0-alpha-1`. The resolved artifact still has the
      version `latest` (the integration test expects `3.0-alpha-1` there),
      and its URI is that of version `3.0-alpha-1`. */
  lemma ServletApiExample(older: seq<string>)
    ensures var md := Metadata(older + ["3.0-alpha-1"], None, None, []);
      var a := Artifact("javax.servlet", "servlet-api", Some("latest"), None, "jar", None);
      && Default().Resolve(a, Serving(md)) == Success(a.WithResolvedVersion(Some("3.0-alpha-1")))
      && Default().UriForArtifact(a, Serving(md)) ==
           Success("https://repo1.maven.org/maven2/javax/servlet/servlet-api/3.0-alpha-1/servlet-api-3.0-alpha-1.jar")
  {
    var md := Metadata(older + ["3.0-alpha-1"], None, None, []);
    var a := Artifact("javax.servlet", "servlet-api", Some("latest"), None, "jar", None);
    var r := Default();
    DefaultBase();
    ServingFetch(r, r.LatestMetadataUrl(a), md);
    assert LatestListed(md) == Some("3.0-alpha-1");
    ResolveLatest(r, a, Serving(md), md);
    var b := a.WithResolvedVersion(Some("3.0-alpha-1"));
    assert r.Resolve(a, Serving(md)) == Success(b);
    ServletApiUri(b);
  }

  /** The integration test's coordinate `javax.servlet:servlet-api:latest`
      parses to the artifact above. */
  lemma ServletApiParse()
    ensures Parse("javax.servlet" + ":" + "servlet-api" + ":" + "latest") ==
      Success(Some(Artifact("javax.servlet", "servlet-api", Some("latest"), None, "jar", None)))
  {
    var g, x, v := "javax.servlet", "servlet-api", "latest";
    assert ':' !in g;
    assert ':' !in x;
    assert ':' !in v;
    JoinThree(g, x, v);
    SplitKnown(g + ":" + x + ":" + v, [g, x, v]);
  }

  lemma ServletApiUri(b: Artifact)
    requires b == Artifact("javax.servlet", "servlet-api", Some("latest"), None, "jar", Some("3.0-alpha-1"))
    ensures b.Uri(CENTRAL) ==
      Success("https://repo1.maven.org/maven2/javax/servlet/servlet-api/3.0-alpha-1/servlet-api-3.0-alpha-1.jar")
  {
    var c := b.WithVersion(b.resolvedVersion).WithResolvedVersion(None);
    UriOfResolvedLatest(b, CENTRAL);
    UriOfConcrete(c, CENTRAL);
    ServletGroupPath(c);
    ServletApiUrlText();
  }

  lemma ServletApiUrlText()
    ensures var v, x := "3.0-alpha-1", "servlet-api";
      CENTRAL + "/" + "javax/servlet" + "/" + x + "/" + v + "/" + x + "-" + v + "" + "." + "jar"
        == "https://repo1.maven.org/maven2/javax/servlet/servlet-api/3.0-alpha-1/servlet-api-3.0-alpha-1.jar"
  {
    var v, x := "3.0-alpha-1", "servlet-api";
    ServletApiDirText();
    var s3 := CENTRAL + "/" + "javax/servlet" + "/" + x + "/" + v;
    var s4 := s3 + "/" + x;
    assert s4 == "https://repo1.maven.org/maven2/javax/servlet/servlet-api/3.0-alpha-1/servlet-api";
    var s5 := s4 + "-" + v;
    assert s5 == "https://repo1.maven.org/maven2/javax/servlet/servlet-api/3.0-alpha-1/servlet-api-3.0-alpha-1";
  }

  /** The directory part of the servlet-api URL. */
  lemma ServletApiDirText()
    ensures CENTRAL + "/" + "javax/servlet" + "/" + "servlet-api" + "/" + "3.0-alpha-1"
      == "https://repo1.maven.org/maven2/javax/servlet/servlet-api/3.0-alpha-1"
  {
    var s1 := CENTRAL + "/" + "javax/servlet";
    assert s1 == "https://repo1.maven.org/maven2/javax/servlet";
    var s2 := s1 + "/" + "servlet-api";
    assert s2 == "https://repo1.maven.org/maven2/javax/servlet/servlet-api";
  }

  lemma ServletGroupPath(a: Artifact)
    requires a.groupId == "javax.servlet"
    ensures a.GroupPath() == "javax/servlet"
  {
    var r := a.GroupPath();
    assert |r| == 13;
    forall i | 0 <= i < 13 ensures r[i] == "javax/servlet"[i] {
    }
  }
}
