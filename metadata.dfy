/** The parts of `maven-metadata.xml` the resolvers read, already extracted
    by their XPath queries, and the two selection rules both resolvers
    apply to them (src/maven_artifact/resolver.py and maven/resolver.py have
    the same rules). */
module RepositoryMetadata {
  import opened Wrappers
  import opened Exceptions
  import opened Strings

  /** `versions` is `/metadata/versioning/versions/version`, in document
      order; `timestamp` and `buildNumber` are the first text of
      `/metadata/versioning/snapshot/{timestamp,buildNumber}` when there is
      one; `snapshotValues` is `/metadata/versioning/snapshotVersions/snapshotVersion/value`. */
  datatype Metadata = Metadata(
    versions: seq<string>,
    timestamp: Option<string>,
    buildNumber: Option<string>,
    snapshotValues: seq<string>)

  /** The body of a metadata response, as `etree.fromstring` sees it. */
  datatype MetadataDocument = Parsed(metadata: Metadata) | Unparseable(reason: string)

  const INDEX_OUT_OF_RANGE := "list index out of range"

  /** `etree.fromstring(r.content)` */
  function ParseDocument(d: MetadataDocument): (r: Result<Metadata, Error>)
    ensures d.Parsed? <==> r.Success?
    ensures d.Parsed? ==> r.value == d.metadata
    ensures d.Unparseable? ==> r.error == XmlSyntaxError(d.reason)
  {
    match d
    case Parsed(md) => Success(md)
    case Unparseable(reason) => Failure(XmlSyntaxError(reason))
  }

  /** `version[last()]`: the last listed version, `None` for an empty list. */
  function LatestListed(md: Metadata): (r: Option<string>)
    ensures r.Some? <==> |md.versions| > 0
    ensures r.Some? ==> r.value == md.versions[|md.versions| - 1]
  {
    if |md.versions| > 0 then Some(md.versions[|md.versions| - 1]) else None
  }

  /** The search of the loop over `set(versions)`: a value that contains
      `needle`, if there is one. */
  function FindContaining(values: seq<string>, needle: string): (r: Option<string>)
    ensures r.Some? ==> r.value in values && Contains(r.value, needle)
    ensures r.None? ==> forall v :: v in values ==> !Contains(v, needle)
  {
    if values == [] then None
    else if Contains(values[0], needle) then Some(values[0])
    else FindContaining(values[1..], needle)
  }

  /** `f"{timestamp}-{build_number}"`, the unique snapshot version. */
  function MetaVersion(timestamp: string, buildNumber: string): (r: string)
    ensures |r| == |timestamp| + |buildNumber| + 1 && r[|timestamp|] == '-'
    ensures r[..|timestamp|] == timestamp && r[|timestamp| + 1..] == buildNumber
  {
    timestamp + "-" + buildNumber
  }

  /** The snapshot rule: the IndexError of a missing timestamp or build
      number, else a listed value that contains `timestamp-buildNumber`,
      else `timestamp-buildNumber` itself. */
  function SnapshotValue(md: Metadata): (r: Result<string, Error>)
    ensures r.Failure? <==> md.timestamp.None? || md.buildNumber.None?
    ensures r.Failure? ==> r.error == IndexError(INDEX_OUT_OF_RANGE)
    ensures r.Success? ==>
      var meta := MetaVersion(md.timestamp.value, md.buildNumber.value);
      || (r.value in md.snapshotValues && Contains(r.value, meta))
      || (r.value == meta && forall v :: v in md.snapshotValues ==> !Contains(v, meta))
  {
    if md.timestamp.None? || md.buildNumber.None? then
      Failure(IndexError(INDEX_OUT_OF_RANGE))
    else
      var meta := MetaVersion(md.timestamp.value, md.buildNumber.value);
      match FindContaining(md.snapshotValues, meta)
      case Some(v) => Success(v)
      case None => Success(meta)
  }

  /** A matching value is preferred whenever one exists. */
  lemma SnapshotValuePrefersMatch(md: Metadata, v: string)
    requires md.timestamp.Some? && md.buildNumber.Some?
    requires v in md.snapshotValues && Contains(v, MetaVersion(md.timestamp.value, md.buildNumber.value))
    ensures SnapshotValue(md).Success?
    ensures SnapshotValue(md).value in md.snapshotValues
  {
  }

  /** The snapshot version is never empty: it contains `timestamp-buildNumber`. */
  lemma SnapshotValueNonEmpty(md: Metadata)
    requires SnapshotValue(md).Success?
    ensures SnapshotValue(md).value != ""
    ensures Contains(SnapshotValue(md).value, MetaVersion(md.timestamp.value, md.buildNumber.value))
  {
    var meta := MetaVersion(md.timestamp.value, md.buildNumber.value);
    var r := SnapshotValue(md).value;
    if r == meta {
      assert StartsWith(r, meta);
    }
    ContainsLength(r, meta);
  }
}
