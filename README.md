# maven-artifact in Dafny

This project models the core of `maven-artifact`, a tool that turns a Maven
coordinate such as `javax.servlet:servlet-api:latest` into the URL of a file
in a Maven repository. The model covers four parts:

- **The coordinate** (`MavenArtifact`, from `src/maven_artifact/artifact.py`).
  It holds group, artifact id, version, classifier, extension and the
  resolved version. The model covers construction, `parse` with its unusual
  arity rules, `path`, `uri`, the `with_*` copies, the file name, `__str__`
  and `__eq__`.
- **The resolver** (`MavenResolver`, from `src/maven_artifact/resolver.py`).
  It reads repository metadata to turn `latest` or a missing version into
  the last listed release. It turns a `-SNAPSHOT` version into the unique
  snapshot version `timestamp-buildNumber`, or into a listed value that
  contains it.
- **The request helper** (`Requestor`, from `src/maven_artifact/requestor.py`).
  It covers the choice of the Authorization header and the
  success/failure dispatch of `request`.
- **`Utils.is_base64`** (`Utils`, from `src/maven_artifact/utils.py`). The
  model builds it on an RFC 4648 section 4 encoder and decoder (`Base64`).

The repository also holds an older generation of the coordinate and
resolver (`maven/artifact.py`, `maven/resolver.py`). It is modelled
separately as `LegacyArtifact` and `LegacyResolver`, because it differs in
observable ways:

- `resolve` replaces the version field.
- `uri_for_artifact` builds the URL from the original artifact, so a
  `latest` artifact gets a URL that says `latest`.
- A missing version raises TypeError, where the current code prints `None`.

Everything is pure: datatypes, functions and lemmas. There are no classes,
because each source file either builds a value once or computes one. Every
`with_*` copies the object and sets one field on the copy. `Resolver` sets
`self.base` once. `Requestor.request` fills a local dictionary, which is
modelled as a function that returns the map.

Outside inputs are parameters:

- The HTTP call is `send(url, headers)`. It returns `Delivered(document)`
  or `Failed(exception)`.
- The XML document is already reduced to what the XPath queries pick out
  (`RepositoryMetadata.Metadata`). A body that does not parse is
  `Unparseable`.
- `os.path.isdir` is a boolean parameter.

Python's `None` is `Option.None`, and "truthy" is `Strings.Truthy`.
`f"{None}"` renders as `None` (`Strings.Show`). So the quirks the code really
has are part of the model rather than excluded by preconditions. One
example: for an artifact with no version, the current `path()` contains
`/None`.

Where the code and its tests disagree, the model follows the code.
`tests/integration/maven_artifact/test_resolver.py:10` expects
`resolved.version == "3.0-alpha-1"`, but `src/maven_artifact/resolver.py:53`
returns the original artifact, so the version stays `latest`.
`MavenResolver.ServletApiExample` proves this version. It also proves the
URL the test expects on line 12. `tests/unit/maven_artifact/test_artifact.py:17`
calls `with_version(_version=...)`. That is the keyword of
`maven/artifact.py:38`; the current `with_version` at
`src/maven_artifact/artifact.py:48` names its parameter `version`. So, read
as written, the test raises TypeError before it reaches its last assertion.
`MavenArtifact.SnapshotExamples` states what the test means to check.

## Model

| member | source | states |
|---|---|---|
| `MavenArtifact.New` | src/maven_artifact/artifact.py:7-25 | ValueError "group_id must be set" / "artifact_id must be set" exactly when group or artifact id is empty; otherwise the fields as given, extension defaulting to `jar` when None or empty, no resolved version |
| `MavenArtifact.Artifact.IsSnapshot` | src/maven_artifact/artifact.py:27-28 | true iff the version is present and ends with the exact suffix `-SNAPSHOT` |
| `MavenArtifact.SnapshotExamples` | tests/unit/maven_artifact/test_artifact.py:10-19 | `0.0.1` is not a snapshot, `0.0.1-SNAPSHOT` is, a missing version is not |
| `Strings.Replace` | src/maven_artifact/artifact.py:31 | same length as the group, and every `.` (and only it) becomes `/` |
| `MavenArtifact.Artifact.Path` | src/maven_artifact/artifact.py:30-33 | group path + `/` + artifact id; with the version, `/` + the version, or the resolved version when the version is `latest` |
| `MavenArtifact.Artifact.Uri` | src/maven_artifact/artifact.py:35-46 | fails with ValueError exactly for a snapshot with no (truthy) resolved version; otherwise `base/path()/artifactId-V[-classifier].extension`, V the resolved version if set, else the version |
| `MavenArtifact.UriOfConcrete` | src/maven_artifact/artifact.py:35-46 | for a concrete unresolved version the URI is `base/groupPath/artifactId/version/artifactId-version[-classifier].extension` |
| `MavenArtifact.UriOfResolvedLatest` | src/maven_artifact/artifact.py:30-46 | a `latest` artifact whose resolved version r is concrete has the same URI as the unresolved artifact of version r |
| `MavenArtifact.Artifact.WithVersion` | src/maven_artifact/artifact.py:48-51 | the copy has the new version and every other field of the receiver |
| `MavenArtifact.Artifact.WithClassifier` | src/maven_artifact/artifact.py:53-56 | the copy has the new classifier and every other field of the receiver |
| `MavenArtifact.Artifact.WithResolvedVersion` | src/maven_artifact/artifact.py:58-61 | the copy has the new resolved version and every other field of the receiver |
| `MavenArtifact.WithKeepsValid` | src/maven_artifact/artifact.py:48-61 | every `with_*` copy of a constructed artifact still has non-empty group, artifact id and extension |
| `MavenArtifact.EqualsIgnoresResolvedVersion` | src/maven_artifact/artifact.py:83-91 | specifies `Artifact.Equals` (`__eq__`): it holds iff the records agree once the resolved version is cleared; `a.with_resolved_version(x) == a` |
| `MavenArtifact.UriNamesGeneratedFile` | src/maven_artifact/artifact.py:63-66 | specifies `Artifact.GenerateFilename` (`_generate_filename`): it is `artifactId` followed by the rest of the file name `uri` points to, which there carries `-V` after the artifact id, V the version the URI uses |
| `MavenArtifact.Artifact.GetFilename` | src/maven_artifact/artifact.py:63-73 | the generated `artifactId[-classifier].extension` when no name is given, joined under the name when it is a directory, the name verbatim otherwise |
| `MavenArtifact.PathJoin` | src/maven_artifact/artifact.py:72 | POSIX `os.path.join` of two parts: an absolute second part wins, no `/` is doubled |
| `MavenArtifact.Parse` | src/maven_artifact/artifact.py:93-109 | fewer than 3 `:`-parts give None; an empty group raises the ValueError "group_id must be set", else an empty artifact "artifact_id must be set"; else group = part 0, artifact = part 1, version = last part, extension part 2 for 4 or 5 parts (default `jar`), classifier part 3 for 5 parts only |
| `MavenArtifact.ParseThreeParts` | src/maven_artifact/artifact.py:95-107 | `g:a:v` gives version v, extension `jar`, no classifier |
| `MavenArtifact.ParseFourParts` | src/maven_artifact/artifact.py:102-103 | `g:a:war:3.5.0` gives extension `war` and no classifier |
| `MavenArtifact.ParseFiveParts` | src/maven_artifact/artifact.py:104-106 | `g:a:war:doc:3.5.0` gives extension `war` and classifier `doc` |
| `MavenArtifact.ParseSixParts` | src/maven_artifact/artifact.py:96-107 | six parts keep group, artifact and the last part as version, with extension `jar` and no classifier |
| `MavenArtifact.ParseRejectsShort` | src/maven_artifact/artifact.py:96-109 | `only:two` has two parts and gives None |
| `MavenArtifact.ParseRejectsEmptyGroup` | src/maven_artifact/artifact.py:15-16 | `:a:v` raises the ValueError "group_id must be set" |
| `MavenArtifact.ToStringIsJoin` | src/maven_artifact/artifact.py:75-81 | specifies `Artifact.ToString` (`__str__`): `str(a)` is the `:`-join of group, artifact id, extension (unless it is `jar` and there is no classifier), classifier (if truthy) and version |
| `MavenArtifact.ParseOfToString` | src/maven_artifact/artifact.py:75-109 | `parse(str(a))` is `a` without its resolved version (hence equal to `a`) when no field contains `:`, the version is present and the classifier is None or non-empty |
| `Strings.Split` | src/maven_artifact/artifact.py:95 | at least one part, no part contains the separator |
| `Strings.JoinOfSplit` | src/maven_artifact/artifact.py:95 | joining the parts of `s.split(sep)` with `sep` gives `s` |
| `Strings.SplitOfJoin` | src/maven_artifact/artifact.py:95 | splitting a join of separator-free parts gives the parts back |
| `LegacyArtifact.New` | maven/artifact.py:4-17 | the same ValueErrors and `jar` default as the current constructor |
| `LegacyArtifact.Artifact.IsSnapshot` | maven/artifact.py:19-20 | true iff the version is present and ends with `-SNAPSHOT` |
| `LegacyArtifact.Artifact.Path` | maven/artifact.py:22-27 | with the version always appends the version itself (no `latest` case) and raises TypeError when it is missing |
| `LegacyArtifact.Artifact.Uri` | maven/artifact.py:29-36 | ValueError for a snapshot without a truthy resolved version; TypeError for a missing version; otherwise `base/path()/artifactId-V[-classifier].extension` with V the argument for snapshots and the version for everything else |
| `LegacyArtifact.UriIgnoresResolvedForRelease` | maven/artifact.py:32-33 | for a non-snapshot the resolved-version argument makes no difference |
| `LegacyArtifact.LatestUriSaysLatest` | maven/artifact.py:22-36 | a `latest` artifact's URI is `base/groupPath/artifactId/latest/artifactId-latest[-classifier].extension` |
| `LegacyArtifact.Artifact.WithVersion` | maven/artifact.py:38-44 | a new artifact with the given version and the receiver's group, artifact id, classifier and extension |
| `LegacyArtifact.WithVersionKeepsValid` | maven/artifact.py:38-44 | the copy is still valid and setting the old version back gives the receiver |
| `LegacyArtifact.Artifact.GetFilename` | maven/artifact.py:46-57 | the three-way file name rule of the current module |
| `LegacyArtifact.Parse` | maven/artifact.py:67-83 | the arity rules of the current parse, including "6+ parts keep the first two and the last" and "fewer than 3 give None", and the same two ValueErrors for an empty group or artifact |
| `LegacyArtifact.AgreesWithCurrent` | maven/artifact.py:46-83 | parse, `__str__`, `_generate_filename`, `get_filename` and the snapshot test agree with the current module on every input |
| `LegacyArtifact.ToStringIsJoin` | maven/artifact.py:59-65 | specifies `Artifact.ToString` (`__str__`): the `:`-join of the same fields as the current `__str__` |
| `LegacyArtifact.UriNamesGeneratedFile` | maven/artifact.py:46-50 | specifies `Artifact.GenerateFilename` (`_generate_filename`): it starts with `artifactId`, and the file `uri` points to is the generated name with `-V` after the artifact id, V the resolved version for a snapshot and the version otherwise |
| `LegacyArtifact.ParseOfToString` | maven/artifact.py:59-83 | `parse(str(a)) == a` under the same conditions as for the current module |
| `MavenResolver.New` | src/maven_artifact/resolver.py:9-13 | the base has no trailing `/`; it is the input with only `/` characters removed from its end |
| `Strings.RStrip` | src/maven_artifact/resolver.py:12 | the longest prefix not ending in the character; everything cut off is that character |
| `MavenResolver.NewIsIdempotent` | src/maven_artifact/resolver.py:11-13 | normalising a normalised base changes nothing |
| `MavenResolver.OnFail` | src/maven_artifact/resolver.py:38-39 | always raises RequestException "Failed to download maven-metadata.xml from {url} due to {e}" |
| `MavenResolver.Resolver.Fetch` | src/maven_artifact/resolver.py:21 | parsed metadata on success; a transport failure or an unparseable body becomes the RequestException of `_onFail` for that URL |
| `MavenResolver.FetchFailureNamesUrl` | src/maven_artifact/resolver.py:38-39 | every fetch failure is a RequestException whose message contains the URL |
| `MavenResolver.MetadataUrls` | src/maven_artifact/resolver.py:20-26 | `base/groupPath/artifactId/maven-metadata.xml` for latest, `base/groupPath/artifactId/version/maven-metadata.xml` for snapshots |
| `MavenResolver.Resolver.FindLatestVersionAvailable` | src/maven_artifact/resolver.py:19-23 | the fetch error, or the last listed version (None for an empty list) of the metadata at the latest URL |
| `MavenResolver.Resolver.FindLatestSnapshotVersion` | src/maven_artifact/resolver.py:25-36 | the fetch error, or the snapshot rule applied to the metadata at the version's URL |
| `MavenResolver.Resolver.Resolve` | src/maven_artifact/resolver.py:41-53 | a success differs from the input in version and resolved version only; the version changes only to a snapshot; a resolved snapshot always has a truthy resolved version; a failed version lookup, or a failed re-resolution of a snapshot, is the result's error, never ignored |
| `MavenResolver.ResolveLatestFetchFails` | src/maven_artifact/resolver.py:38-44 | for `latest` or no version, a failed fetch of the latest metadata makes `resolve` fail with the RequestException that names that URL |
| `MavenResolver.ResolveSnapshotFetchFails` | src/maven_artifact/resolver.py:38-46 | for a snapshot, a failed fetch of its metadata makes `resolve` fail with the RequestException that names that URL |
| `MavenResolver.Resolver.SnapshotResolvedIsTruthy` | src/maven_artifact/resolver.py:30-36 | a resolved snapshot version is never empty |
| `MavenResolver.ResolveConcrete` | src/maven_artifact/resolver.py:41-53 | a concrete non-snapshot version resolves to itself in the resolved version, independently of the transport (no fetch) |
| `MavenResolver.ResolveLatest` | src/maven_artifact/resolver.py:43-53 | `latest` or no version gets the last listed release (or None, no error) as resolved version; the version field is unchanged |
| `MavenResolver.ResolveLatestToSnapshot` | src/maven_artifact/resolver.py:48-52 | a latest release ending in `-SNAPSHOT` becomes the version and is resolved again from its own metadata |
| `MavenResolver.ResolveSnapshot` | src/maven_artifact/resolver.py:45-53 | a snapshot keeps its version, gets the snapshot rule's value as resolved version, and stays equal to the input |
| `MavenResolver.ResolveKeepsEquality` | src/maven_artifact/resolver.py:41-53 | every successful result is equal to the input, or it is a snapshot whose version differs from the input's (obtained by re-resolution) |
| `MavenResolver.Resolver.UriForArtifact` | src/maven_artifact/resolver.py:55-57 | `resolve(a).uri(base)`; it fails only when resolution fails |
| `MavenResolver.DefaultBase` | src/maven_artifact/resolver.py:15-17 | specifies `Default()` (`Resolver.default()`): its base is `https://repo1.maven.org/maven2` and its requestor is `Requestor()` |
| `MavenResolver.ServletApiParse` | tests/integration/maven_artifact/test_resolver.py:8 | the test's coordinate `javax.servlet:servlet-api:latest` parses to the artifact `ServletApiExample` resolves |
| `MavenResolver.ServletApiExample` | tests/integration/maven_artifact/test_resolver.py:5-12 | `javax.servlet:servlet-api:latest` with last release `3.0-alpha-1` resolves with version still `latest` and yields `https://repo1.maven.org/maven2/javax/servlet/servlet-api/3.0-alpha-1/servlet-api-3.0-alpha-1.jar` |
| `MavenResolver.ServletApiUri` | tests/integration/maven_artifact/test_resolver.py:11-12 | the URI of the resolved servlet-api artifact is the URL the test expects |
| `MavenResolver.ServletGroupPath` | src/maven_artifact/artifact.py:31 | `javax.servlet` becomes `javax/servlet` |
| `RepositoryMetadata.ParseDocument` | src/maven_artifact/resolver.py:21 | a parsed document yields its metadata, an unparseable one an XMLSyntaxError |
| `RepositoryMetadata.LatestListed` | src/maven_artifact/resolver.py:22-23 | the last entry of the versions list, None iff the list is empty |
| `RepositoryMetadata.FindContaining` | src/maven_artifact/resolver.py:33-35 | a listed value containing the needle, or None only when no listed value contains it |
| `RepositoryMetadata.MetaVersion` | src/maven_artifact/resolver.py:30 | `timestamp-buildNumber`: the timestamp, a `-`, the build number |
| `RepositoryMetadata.SnapshotValue` | src/maven_artifact/resolver.py:28-36 | IndexError iff timestamp or build number is missing; else a listed value containing `timestamp-buildNumber`, or that string itself when none does |
| `RepositoryMetadata.SnapshotValuePrefersMatch` | src/maven_artifact/resolver.py:32-35 | when some listed value matches, the result is a listed value |
| `RepositoryMetadata.SnapshotValueNonEmpty` | src/maven_artifact/resolver.py:30-36 | the snapshot version contains `timestamp-buildNumber`, so it is never empty |
| `Strings.ContainsLength` | src/maven_artifact/resolver.py:34 | a string containing `sub` is at least as long as `sub` |
| `Strings.ContainsInfix` | src/maven_artifact/resolver.py:39 | the middle part of a concatenation is contained in it |
| `LegacyResolver.New` | maven/resolver.py:6-10 | the same trailing-`/` normalisation as the current resolver |
| `LegacyResolver.Resolver.Fetch` | maven/resolver.py:14 | parsed metadata; HTTPError/URLError become the RequestException of `_onFail` (maven/resolver.py:34-35); other exceptions and XML errors propagate unchanged |
| `LegacyResolver.Resolver.FindLatestVersionAvailable` | maven/resolver.py:12-17 | the fetch error, or the last listed version, None when there is none |
| `LegacyResolver.Resolver.FindLatestSnapshotVersion` | maven/resolver.py:19-32 | TypeError without a version; else the fetch error or the snapshot rule on the version's metadata |
| `LegacyResolver.Resolver.Resolve` | maven/resolver.py:37-43 | `artifact.with_version(v)` with v the resolved version; fails exactly when the lookup fails, and then with the lookup's own error |
| `LegacyResolver.ResolveLatestFetchFails` | maven/resolver.py:34-40 | for `latest` or no version, an HTTPError or URLError on the latest metadata makes `resolve` fail with `_onFail`'s RequestException, whose message names that URL |
| `LegacyResolver.ResolveConcrete` | maven/resolver.py:37-43 | a concrete non-snapshot artifact comes back unchanged |
| `LegacyResolver.ResolveLatest` | maven/resolver.py:39-40 | `latest` or no version becomes the last listed release (or None) in the version field |
| `LegacyResolver.ResolveSnapshot` | maven/resolver.py:41-43 | a snapshot's version field becomes the snapshot rule's value |
| `LegacyResolver.Resolver.UriForArtifact` | maven/resolver.py:45-47 | the original artifact's `uri(base, resolved.version)`, or the resolution error |
| `LegacyResolver.UriForReleaseIgnoresMetadata` | maven/resolver.py:45-47 | for a non-snapshot the URL does not depend on the metadata, and a `latest` artifact's URL says `latest` |
| `LegacyResolver.UriForMissingVersion` | maven/resolver.py:45-47 | an artifact without a version resolves but its URL raises TypeError |
| `LegacyResolver.SnapshotUriAgreesWithCurrent` | maven/resolver.py:45-47 | for a snapshot both generations build the same URL from the same metadata |
| `Bytes.AsciiEncode` | src/maven_artifact/utils.py:10 | `bytes(s, "ascii")`: fails iff some character is not ASCII, else the character codes |
| `Bytes.AsciiText` | src/maven_artifact/requestor.py:24 | `.decode()` of the encoder's ASCII output: one character per byte with the same code |
| `Bytes.AsciiRoundTrip` | src/maven_artifact/requestor.py:24-25 | ASCII bytes read as text encode back to the same bytes |
| `Bytes.Utf8Char` | src/maven_artifact/requestor.py:24 | the UTF-8 form of one character (section 3 of RFC 3629): one byte with the same code for ASCII; otherwise a lead byte in C2-DF, E0-EF or F0-F4 by the code point's range, followed by continuation bytes 80-BF; and it decodes back to the code point |
| `Bytes.Utf8Encode` | src/maven_artifact/requestor.py:24 | `str.encode()`: at least one and at most four bytes per character |
| `Bytes.Utf8EncodeChar` | src/maven_artifact/requestor.py:24 | a one-character text is encoded as `Utf8Char` of that character (RFC 3629 ranges, decodable back) |
| `Bytes.Utf8EncodeAppend` | src/maven_artifact/requestor.py:24 | the encoding of `s + t` is the encoding of `s` followed by that of `t`, so every character is encoded by `Utf8Char` in its place |
| `Bytes.Utf8EncodeAscii` | src/maven_artifact/requestor.py:24 | on ASCII text the UTF-8 encoding is exactly the ASCII encoding |
| `Base64.SymbolValue` | src/maven_artifact/utils.py:15 | the value of an alphabet symbol of RFC 4648 Table 1: a value in 0..63 whose table symbol is the given byte |
| `Base64.Encode` | src/maven_artifact/utils.py:15 | `b64encode`: 4 symbols for every 3 bytes or part of them |
| `Base64.Vectors` | src/maven_artifact/utils.py:15 | the RFC 4648 section 10 vectors: `f`, `fo`, `foo` encode to `Zg==`, `Zm8=`, `Zm9v` |
| `Base64.EncodeFinalGroup` | src/maven_artifact/utils.py:15 | `==` ends an encoding exactly when one byte is left over and `=` when two are, and the unused low bits before the padding are zero |
| `Base64.DecodeEncode` | src/maven_artifact/utils.py:15 | decoding an encoding gives back the bytes |
| `Base64.EncodeWellPadded` | src/maven_artifact/utils.py:15 | every encoding is a multiple of 4 long, has only alphabet symbols, and has `=` only as at most two trailing characters |
| `Utils.IsBase64` | src/maven_artifact/utils.py:6-17 | False for an argument that is neither str nor bytes, and for a str with a non-ASCII character |
| `Utils.ReEncodesIffEncoded` | src/maven_artifact/utils.py:15 | `b64encode(b64decode(b)) == b` holds iff b is the encoding of some bytes |
| `Utils.IsBase64IffEncoded` | src/maven_artifact/utils.py:8-17 | `is_base64(v)` iff v is a str or bytes whose bytes are some encoder output |
| `Utils.EncodedIsBase64` | src/maven_artifact/utils.py:15 | every encoder output is accepted, as bytes and as text |
| `Utils.EmptyIsBase64` | src/maven_artifact/utils.py:15 | the empty string and the empty byte string are accepted |
| `Utils.RejectsNonCanonical` | src/maven_artifact/utils.py:15 | `Zh==` decodes like `Zg==` but re-encodes as `Zg==`, so it is rejected, while `Zg==` is accepted |
| `Utils.AcceptedHasZeroPadBits` | src/maven_artifact/utils.py:15 | an accepted input ending in `==` has a multiple of 16 in the symbol before it, one ending in a single `=` a multiple of 4 |
| `Utils.AcceptedIsWellPadded` | src/maven_artifact/utils.py:15 | an accepted input is a multiple of 4 long, uses only `A-Za-z0-9+/`, and has `=` only as at most two trailing characters |
| `Requestor.Requestor.Headers` | src/maven_artifact/requestor.py:20-28 | User-Agent is always the configured agent; at most one Authorization header: Basic base64(user:password) when both are non-empty, else Basic password when it passes is_base64, else Bearer base64(token) for a non-empty token, else none |
| `Requestor.AuthorizationIsBase64` | src/maven_artifact/requestor.py:22-28 | whichever Authorization header is chosen, its credential after `Basic ` or `Bearer ` passes is_base64 |
| `Requestor.EmptyPasswordWins` | src/maven_artifact/requestor.py:25-26 | an empty password yields `Basic ` whatever the username and ahead of any token: it is not truthy, but it passes `is_base64` |
| `Requestor.DefaultSendsNoAuthorization` | src/maven_artifact/requestor.py:13-20 | specifies `Default()` (`Requestor()`): no username, password or token, so it sends only `User-Agent: Maven Artifact Downloader/1.0` |
| `Requestor.Requestor.Request` | src/maven_artifact/requestor.py:19-39 | with r the transport's answer to the URL and exactly the headers above: the bare response without onSuccess, onSuccess's value when it succeeds, onFail's value or exception after a failed call, the failure itself without onFail; a bare response only ever comes from a delivered call without onSuccess; a failure without onFail is the call's or onSuccess's exception; when onSuccess raises on a delivered response, that exception goes to onFail as a failed call's would (re-raised without onFail) |
| `Requestor.Dispatch` | src/maven_artifact/requestor.py:30-39 | onSuccess(response) if given, else the response; an exception from the call or from onSuccess goes to onFail(url, ex) if given, else is re-raised; a bare response is returned only without onSuccess |
| `Requestor.OnException` | src/maven_artifact/requestor.py:36-39 | re-raise without onFail, else onFail's value or the exception it raises |

## Left out

- src/maven_artifact/downloader.py and maven/downloader.py are not part of this model. They cover the file-exists and hash check, hashing, streaming writes and progress output, all of which are I/O with floating-point progress.
- src/maven_artifact/main.py is not part of this model. It is command-line parsing, help formatting and exit codes.
- maven/Requestor.py is not part of this model. It is a Python 2 urllib2 wrapper. Only the fact that it routes nothing but HTTPError and URLError to `onFail`, and calls `onSuccess` outside its `try`, is reflected in `LegacyResolver.Resolver.Fetch`. The legacy transport `send` takes no headers.
- HTTP itself (`requests`, `raise_for_status`, the `method` and `**kwargs` of `request`) is the `send` parameter. XML parsing and XPath evaluation are replaced by the `Metadata` and `MetadataDocument` datatypes.
- `os.path.isdir` is the `isDir` parameter of `GetFilename`.
- `Requestor.Requestor.Headers`: a Python `str` can hold a lone surrogate, and a Dafny `char` cannot. For such a username, password or token, `.encode()` at src/maven_artifact/requestor.py:24 and 28 raises UnicodeEncodeError before the `try` at line 30, so `onFail` never sees it. The model's `Headers` is total and has no such failure.
- `RepositoryMetadata.FindContaining`: Python iterates over `set(versions)`, whose order is hash-dependent. The model searches the list in order. Every contract about the snapshot value therefore states only what holds in any order: some matching value if one exists, otherwise `timestamp-buildNumber`.
- `Utils.ReEncodesIffEncoded`: `base64.b64decode` by default discards characters outside the alphabet, while `Base64.Decode` is strict. The composite test is the same for both decoders, because it can only hold on an encoder output, and there both decoders agree. The lemma proves that characterisation.
- `MavenArtifact.Artifact.IsSnapshot`: Python returns `None`, `""` or a bool. The model returns the boolean truth value.
- `MavenArtifact.Artifact.Equals`: the `isinstance(other, Artifact)` check is not modelled. The other operand is always an artifact.
- Group and artifact ids are strings. A `None` id is treated like the empty string, which it equals in truthiness.
- `LegacyArtifact.Artifact.Path`: the TypeError text is taken from Python 3. The legacy package mixes Python 2 syntax (maven/Requestor.py) with f-strings (maven/resolver.py).
- The imports are not modelled. maven/resolver.py imports `.requestor`, while the file is `maven/Requestor.py`.
- The network-dependent integration tests appear only as the concrete example `MavenResolver.ServletApiExample`.
