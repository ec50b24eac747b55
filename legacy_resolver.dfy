/** The resolver of maven/resolver.py. Its selection rules are those of
    the current resolver, but `resolve` returns `artifact.with_version(v)`
    (the version field itself is replaced) and `uri_for_artifact` hands the
    resolved version to the ORIGINAL artifact's `uri`, which uses it for
    snapshots only. Fetches go through the older requestor, which routes
    only HTTPError and URLError to `onFail` and calls `onSuccess` outside
    its `try`. */
module LegacyResolver {
  import opened Wrappers
  import opened Exceptions
  import opened Strings
  import opened RepositoryMetadata
  import opened LegacyArtifact
  import Requestor
  import MavenArtifact
  import MavenResolver

  /** The metadata transport; its headers belong to maven/Requestor.py,
      which is not part of this model. */
  type Send = string -> Requestor.Transport<MetadataDocument>

  datatype Resolver = Resolver(base: string)
  {
    /** `requestor.request(url, self._onFail, lambda r: etree.fromstring(r.content))`
        with the older requestor. */
    function Fetch(url: string, send: Send): (r: Result<Metadata, Error>)
      ensures var sent := send(url);
        && (sent.Delivered? ==> r == ParseDocument(sent.response))
        && (sent.Failed? && (sent.cause.HttpError? || sent.cause.UrlError?) ==>
              r == Failure(RequestException(MavenResolver.FailureMessage(url, sent.cause))))
        && (sent.Failed? && !sent.cause.HttpError? && !sent.cause.UrlError? ==> r == Failure(sent.cause))
    {
      match send(url)
      case Delivered(document) => ParseDocument(document)
      case Failed(e) =>
        if e.HttpError? || e.UrlError? then MavenResolver.OnFail(url, e) else Failure(e)
    }

    /** `_find_latest_version_available(artifact)` */
    function FindLatestVersionAvailable(a: Artifact, send: Send): (r: Result<Option<string>, Error>)
      ensures var fetched := Fetch(base + "/" + a.Path(false).value + MavenResolver.METADATA_FILE, send);
        && (fetched.Failure? ==> r == Failure(fetched.error))
        && (fetched.Success? ==> r == Success(LatestListed(fetched.value)))
    {
      match Fetch(base + "/" + a.Path(false).value + MavenResolver.METADATA_FILE, send)
      case Failure(e) => Failure(e)
      case Success(md) => Success(LatestListed(md))
    }

    /** `_find_latest_snapshot_version(artifact)`; building the URL of an
        artifact without a version raises TypeError (snapshots always have
        one). */
    function FindLatestSnapshotVersion(a: Artifact, send: Send): (r: Result<string, Error>)
      ensures a.version.None? ==> r == Failure(TypeError(CONCAT_NONE))
      ensures a.version.Some? ==>
        var fetched := Fetch(base + "/" + a.Path(true).value + MavenResolver.METADATA_FILE, send);
        && (fetched.Failure? ==> r == Failure(fetched.error))
        && (fetched.Success? ==> r == SnapshotValue(fetched.value))
    {
      match a.Path(true)
      case Failure(e) => Failure(e)
      case Success(p) =>
        match Fetch(base + "/" + p + MavenResolver.METADATA_FILE, send)
        case Failure(e) => Failure(e)
        case Success(md) => SnapshotValue(md)
    }

    /** The version `resolve` settles on. */
    function ResolveVersion(a: Artifact, send: Send): Result<Option<string>, Error>
    {
      if !Truthy(a.version) || a.version == Some(MavenArtifact.LATEST) then
        FindLatestVersionAvailable(a, send)
      else if a.IsSnapshot() then
        match FindLatestSnapshotVersion(a, send)
        case Success(v) => Success(Some(v))
        case Failure(e) => Failure(e)
      else
        Success(a.version)
    }

    /** `resolve(artifact)`: the artifact with its version replaced. */
    function Resolve(a: Artifact, send: Send): (r: Result<Artifact, Error>)
      ensures r.Success? ==> r.value == a.WithVersion(r.value.version)
      ensures ResolveVersion(a, send).Success? <==> r.Success?
      ensures r.Success? ==> r.value.version == ResolveVersion(a, send).value
      ensures ResolveVersion(a, send).Failure? ==> r == Failure(ResolveVersion(a, send).error)
    {
      match ResolveVersion(a, send)
      case Failure(e) => Failure(e)
      case Success(version) => Success(a.WithVersion(version))
    }

    /** `uri_for_artifact(artifact)`: `artifact.uri(base, resolved.version)`. */
    function UriForArtifact(a: Artifact, send: Send): (r: Result<string, Error>)
      ensures Resolve(a, send).Failure? ==> r == Failure(Resolve(a, send).error)
      ensures Resolve(a, send).Success? ==> r == a.Uri(base, Resolve(a, send).value.version)
    {
      match Resolve(a, send)
      case Failure(e) => Failure(e)
      case Success(resolved) => a.Uri(base, resolved.version)
    }
  }

  /** `Resolver(base, requestor)`: every trailing `/` is dropped, exactly as
      the current resolver does. */
  function New(base: string): (r: Resolver)
    ensures r.base == MavenResolver.New(base, Requestor.Default()).base
    ensures !EndsWith(r.base, "/")
  {
    var b := if EndsWith(base, "/") then RStrip(base, '/') else base;
    Resolver(b)
  }

  /** An HTTPError or URLError on the latest-version metadata makes
      `resolve` fail with `_onFail`'s RequestException, which names the URL;
      it is never ignored. */
  lemma ResolveLatestFetchFails(r: Resolver, a: Artifact, send: Send)
    requires !Truthy(a.version) || a.version == Some(MavenArtifact.LATEST)
    requires var sent := send(r.base + "/" + a.Path(false).value + MavenResolver.METADATA_FILE);
      sent.Failed? && (sent.cause.HttpError? || sent.cause.UrlError?)
    ensures var url := r.base + "/" + a.Path(false).value + MavenResolver.METADATA_FILE;
      && r.Resolve(a, send) == Failure(RequestException(MavenResolver.FailureMessage(url, send(url).cause)))
      && Contains(r.Resolve(a, send).error.msg, url)
  {
    var url := r.base + "/" + a.Path(false).value + MavenResolver.METADATA_FILE;
    var prefix, suffix := "Failed to download maven-metadata.xml from ", " due to " + Describe(send(url).cause);
    ContainsInfix(prefix, url, suffix);
    assert MavenResolver.FailureMessage(url, send(url).cause) == prefix + url + suffix;
  }

  /** A concrete version comes back unchanged, whatever the transport. */
  lemma ResolveConcrete(r: Resolver, a: Artifact, send: Send)
    requires Truthy(a.version) && a.version != Some(MavenArtifact.LATEST) && !a.IsSnapshot()
    ensures r.Resolve(a, send) == Success(a)
  {
  }

  /** `latest` (or no version) becomes the last listed release, or `None`. */
  lemma ResolveLatest(r: Resolver, a: Artifact, send: Send, md: Metadata)
    requires !Truthy(a.version) || a.version == Some(MavenArtifact.LATEST)
    requires r.Fetch(r.base + "/" + a.Path(false).value + MavenResolver.METADATA_FILE, send) == Success(md)
    ensures r.Resolve(a, send) == Success(a.WithVersion(LatestListed(md)))
  {
  }

  /** A snapshot becomes its unique snapshot version, in the version field. */
  lemma ResolveSnapshot(r: Resolver, a: Artifact, send: Send, md: Metadata)
    requires a.IsSnapshot()
    requires r.Fetch(r.base + "/" + a.Path(true).value + MavenResolver.METADATA_FILE, send) == Success(md)
    requires SnapshotValue(md).Success?
    ensures r.Resolve(a, send) == Success(a.WithVersion(Some(SnapshotValue(md).value)))
  {
    assert a.version != Some(MavenArtifact.LATEST);
  }

  /** For anything but a snapshot the metadata only decides whether the
      call fails: a successful `uri_for_artifact` is the artifact's own
      `uri`, so a `latest` artifact gets a URL that says `latest`. */
  lemma UriForReleaseIgnoresMetadata(r: Resolver, a: Artifact, send: Send)
    requires !a.IsSnapshot() && r.Resolve(a, send).Success?
    ensures r.UriForArtifact(a, send) == a.Uri(r.base, None)
    ensures a.version == Some(MavenArtifact.LATEST) ==> r.UriForArtifact(a, send) == Success(
      r.base + "/" + a.GroupPath() + "/" + a.artifactId + "/" + MavenArtifact.LATEST + "/" + a.artifactId + "-" + MavenArtifact.LATEST
      + (if Truthy(a.classifier) then "-" + a.classifier.value else "") + "." + a.extension)
  {
    UriIgnoresResolvedForRelease(a, r.base, r.Resolve(a, send).value.version, None);
    if a.version == Some(MavenArtifact.LATEST) {
      LatestUriSaysLatest(a, r.base, None);
    }
  }

  /** An artifact without a version resolves, but its URI raises TypeError. */
  lemma UriForMissingVersion(r: Resolver, a: Artifact, send: Send)
    requires a.version.None? && r.Resolve(a, send).Success?
    ensures r.UriForArtifact(a, send) == Failure(TypeError(CONCAT_NONE))
  {
  }

  /** For a snapshot whose unique version is not itself a snapshot, both
      generations fetch the same metadata and build the same URL. */
  lemma SnapshotUriAgreesWithCurrent(lr: Resolver, cr: MavenResolver.Resolver, a: Artifact,
                                     send: Send, csend: MavenResolver.Send, md: Metadata)
    requires lr.base == cr.base
    requires a.IsSnapshot()
    requires lr.Fetch(lr.base + "/" + a.Path(true).value + MavenResolver.METADATA_FILE, send) == Success(md)
    requires cr.Fetch(cr.SnapshotMetadataUrl(a.Current()), csend) == Success(md)
    requires SnapshotValue(md).Success? && !EndsWith(SnapshotValue(md).value, MavenArtifact.SNAPSHOT_SUFFIX)
    ensures lr.UriForArtifact(a, send) == cr.UriForArtifact(a.Current(), csend)
  {
    var rv := SnapshotValue(md).value;
    var c := a.Current();
    assert c.version != Some(MavenArtifact.LATEST);
    MavenResolver.ResolveSnapshot(cr, c, csend, md);
    ResolveSnapshot(lr, a, send, md);
    SnapshotValueNonEmpty(md);
    var resolved := c.WithResolvedVersion(Some(rv));
    assert resolved.Path(true) == a.Path(true).value;
    assert resolved.FileVersion() == rv;
  }
}
