/** The release resolver: from the configured repository URLs and what the
    upstream API reports about each repository, the manifests to write.
    Network queries, the body hash of a download and URL parsing are not
    modelled; they reach the model as the functions of an `Upstream` value. */
module GenFontManifests {
  import opened Wrappers
  import opened JsString
  import opened ManifestTypes
  import FontManifest
  import Seqs

  /** One configured font repository. */
  datatype RepoIds = RepoIds(user_name: string, repository_name: string)

  // ---------------------------------------------------------------------
  // The repository list.

  const GITHUB := "https://github.com/"

  const TARGET_REPOS: seq<string> := [
    "https://github.com/yuru7/HackGen",
    "https://github.com/yuru7/PlemolJP",
    "https://github.com/miiton/Cica",
    "https://github.com/yuru7/udev-gothic",
    "https://github.com/yuru7/moralerspace",
    "https://github.com/yuru7/bizin-gothic",
    "https://github.com/yuru7/NOTONOTO",
    "https://github.com/yuru7/guguru-sans-code",
    "https://github.com/yuru7/Firge",
    "https://github.com/yuru7/BIZTER",
    "https://github.com/yuru7/mint-mono",
    "https://github.com/yuru7/Explex",
    "https://github.com/yuru7/juisee",
    "https://github.com/yuru7/pending-mono"
  ]

  /** The only accepted user names, guarding against a mistyped URL. */
  const ALLOWED_USERS: seq<string> := ["yuru7", "miiton"]

  /** The `/`-separated segments of a configured URL, after the GitHub prefix when it has one. */
  function UrlSegments(url: string): (segments: seq<string>)
    ensures |segments| >= 1
  {
    if StartsWith(url, GITHUB) then Split(url[|GITHUB|..], '/') else Split(url, '/')
  }

  /** The repository named by the first two segments. */
  function RepoOf(segments: seq<string>): RepoIds
    requires |segments| >= 1
  {
    RepoIds(segments[0], if |segments| > 1 then segments[1] else "")
  }

  /** Whether a URL names a repository of an allowed user. */
  predicate Accepted(url: string) {
    UrlSegments(url)[0] in ALLOWED_USERS
  }

  /** What one configured URL contributes: its repository when the user is allowed. */
  function ParseRepo(url: string): (repos: seq<RepoIds>)
    ensures |repos| <= 1
    ensures forall k :: 0 <= k < |repos| ==> repos[k].user_name in ALLOWED_USERS
  {
    if Accepted(url) then [RepoOf(UrlSegments(url))] else []
  }

  /** The configured URLs turned into repositories, dropping those of other users. */
  function ParseRepos(urls: seq<string>): (repos: seq<RepoIds>)
    ensures |repos| <= |urls|
    ensures forall k :: 0 <= k < |repos| ==> repos[k].user_name in ALLOWED_USERS
  {
    if |urls| == 0 then [] else ParseRepo(urls[0]) + ParseRepos(urls[1..])
  }

  /** The repositories the generator processes. */
  function GetRepos(): seq<RepoIds> {
    ParseRepos(TARGET_REPOS)
  }

  /** Parsing is applied URL by URL, so the input order is kept. */
  lemma {:induction false} ParseReposAppend(a: seq<string>, b: seq<string>)
    ensures ParseRepos(a + b) == ParseRepos(a) + ParseRepos(b)
    decreases |a|
  {
    if |a| == 0 {
      assert a + b == b;
    } else {
      assert (a + b)[0] == a[0];
      assert (a + b)[1..] == a[1..] + b;
      ParseReposAppend(a[1..], b);
    }
  }

  /** A repository is kept exactly when its URL belongs to an allowed user. */
  lemma {:induction false} ParseReposMembers(urls: seq<string>, repo: RepoIds)
    ensures repo in ParseRepos(urls)
        <==> exists k :: 0 <= k < |urls| && Accepted(urls[k]) && RepoOf(UrlSegments(urls[k])) == repo
    decreases |urls|
  {
    if |urls| > 0 {
      ParseReposMembers(urls[1..], repo);
      if exists k :: 0 <= k < |urls| && Accepted(urls[k]) && RepoOf(UrlSegments(urls[k])) == repo {
        var k :| 0 <= k < |urls| && Accepted(urls[k]) && RepoOf(UrlSegments(urls[k])) == repo;
        if k > 0 {
          assert urls[1..][k - 1] == urls[k];
        }
      }
      if repo in ParseRepos(urls[1..]) {
        var k :| 0 <= k < |urls[1..]| && Accepted(urls[1..][k]) && RepoOf(UrlSegments(urls[1..][k])) == repo;
        assert urls[k + 1] == urls[1..][k];
      }
    }
  }

  /** A GitHub URL `https://github.com/<user>/<name>` gives `(user, name)`. */
  lemma RepoOfGithubUrl(user: string, name: string)
    requires '/' !in user && '/' !in name
    ensures RepoOf(UrlSegments(GITHUB + user + "/" + name)) == RepoIds(user, name)
  {
    var url := GITHUB + user + "/" + name;
    assert url[..|GITHUB|] == GITHUB;
    assert url[|GITHUB|..] == user + ['/'] + name;
    SplitAt(user, name, '/');
    SplitNone(name, '/');
  }

  lemma HackGenRepo()
    ensures ParseRepos(["https://github.com/yuru7/HackGen"]) == [RepoIds("yuru7", "HackGen")]
  {
    assert "https://github.com/yuru7/HackGen" == GITHUB + "yuru7" + "/" + "HackGen";
    RepoOfGithubUrl("yuru7", "HackGen");
    assert ["https://github.com/yuru7/HackGen"][1..] == [];
  }

  // ---------------------------------------------------------------------
  // License resolution.

  /** Licenses for repositories whose upstream metadata has none. */
  const LICENSE_MAP: map<string, string> := map[
    "Cica" := "OFL-1.1",
    "HackGen" := "OFL-1.1",
    "PlemolJP" := "OFL-1.1",
    "udev-gothic" := "OFL-1.1",
    "Firge" := "OFL-1.1",
    "BIZTER" := "OFL-1.1"
  ]

  /** Whether the upstream SPDX id asserts no license. */
  predicate Unasserted(spdxId: string) {
    |spdxId| == 0 || spdxId == "NOASSERTION"
  }

  /** The upstream SPDX id unless it asserts nothing, then the table's entry
      for the repository, and otherwise the upstream value unchanged (the
      source only logs that there is no license). */
  function ResolveLicense(spdxId: string, repositoryName: string, licenseMap: map<string, string>): (license: string)
    ensures !Unasserted(spdxId) ==> license == spdxId
    ensures Unasserted(spdxId) && repositoryName in licenseMap ==> license == licenseMap[repositoryName]
    ensures Unasserted(spdxId) && repositoryName !in licenseMap ==> license == spdxId
  {
    if |spdxId| == 0 || spdxId == "NOASSERTION" then
      if repositoryName in licenseMap then licenseMap[repositoryName] else spdxId
    else spdxId
  }

  /** With the built-in table, a manifest gets a real license exactly when
      upstream asserts one or the repository is in the table. */
  lemma ResolvedLicenseAsserted(spdxId: string, repositoryName: string)
    ensures !Unasserted(ResolveLicense(spdxId, repositoryName, LICENSE_MAP))
        <==> !Unasserted(spdxId) || repositoryName in LICENSE_MAP
  {
    if Unasserted(spdxId) && repositoryName in LICENSE_MAP {
      assert LICENSE_MAP[repositoryName] == "OFL-1.1";
      assert "OFL-1.1" != "NOASSERTION";
    }
  }

  // ---------------------------------------------------------------------
  // Filter string and asset selection.

  /** The repository name without hyphens: selects assets and narrows the
      scripts' file enumeration. */
  function FilterStr(name: string): string {
    ReplaceAll(name, "-", "")
  }

  /** Every hyphen is removed and every other character kept, in order. */
  lemma FilterStrRemovesHyphens(name: string)
    ensures FilterStr(name) == RemoveChar(name, '-')
    ensures '-' !in FilterStr(name)
  {
    ReplaceAllRemovesChar(name, '-');
  }

  /** A name with one hyphen gives the two parts joined. */
  lemma FilterStrOneHyphen(pre: string, post: string)
    requires '-' !in pre && '-' !in post
    ensures FilterStr(pre + "-" + post) == pre + post
  {
    NotContainsFirstChar(post, "-");
    ReplaceAllOnce(pre, "-", post, "");
    assert pre + "" + post == pre + post;
  }

  lemma FilterStrUdevGothic(name: string)
    requires name == "udev-gothic"
    ensures FilterStr(name) == "udevgothic"
  {
    var pre, post := "udev", "gothic";
    assert name == pre + "-" + post;
    FilterStrOneHyphen(pre, post);
    assert pre + post == "udevgothic";
  }

  /** One downloadable file of a release. */
  datatype Asset = Asset(name: string, downloadUrl: string, contentType: string, size: int, digest: Option<string>)

  /** A release: its tag and its asset nodes, any of which may be null. */
  datatype Release = Release(tagName: string, assets: seq<Option<Asset>>)

  /** What the main query reports about a repository. `spdxId` is `None`
      when the license information or its SPDX id is null. */
  datatype Repository = Repository(name: string, description: string, spdxId: Option<string>, latestRelease: Option<Release>)

  /** An asset is relevant when its name contains the filter, ignoring case. */
  predicate Matches(asset: Asset, filter: string) {
    Contains(ToUpper(asset.name), ToUpper(filter))
  }

  /** The non-null assets whose name matches the filter, in order. */
  function SelectAssets(nodes: seq<Option<Asset>>, filter: string): (assets: seq<Asset>)
    ensures |assets| <= |nodes|
    ensures forall k :: 0 <= k < |assets| ==> Matches(assets[k], filter)
  {
    if |nodes| == 0 then []
    else
      (match nodes[0]
       case None => []
       case Some(a) => if Matches(a, filter) then [a] else [])
      + SelectAssets(nodes[1..], filter)
  }

  /** Selection is applied node by node, so the input order is kept. */
  lemma {:induction false} SelectAssetsAppend(a: seq<Option<Asset>>, b: seq<Option<Asset>>, filter: string)
    ensures SelectAssets(a + b, filter) == SelectAssets(a, filter) + SelectAssets(b, filter)
    decreases |a|
  {
    if |a| == 0 {
      assert a + b == b;
    } else {
      assert (a + b)[0] == a[0];
      assert (a + b)[1..] == a[1..] + b;
      SelectAssetsAppend(a[1..], b, filter);
    }
  }

  /** An asset is selected exactly when it is a non-null node matching the filter. */
  lemma {:induction false} SelectAssetsMembers(nodes: seq<Option<Asset>>, filter: string, asset: Asset)
    ensures asset in SelectAssets(nodes, filter) <==> Some(asset) in nodes && Matches(asset, filter)
    decreases |nodes|
  {
    if |nodes| > 0 {
      SelectAssetsMembers(nodes[1..], filter, asset);
      assert nodes == [nodes[0]] + nodes[1..];
    }
  }

  /** Matching ignores the case of the filter. */
  lemma SelectAssetsIgnoresCase(nodes: seq<Option<Asset>>, filter: string)
    ensures SelectAssets(nodes, ToUpper(filter)) == SelectAssets(nodes, filter)
  {
    ToUpperIdempotent(filter);
  }

  // ---------------------------------------------------------------------
  // Per-asset derivations.

  const DIGEST_PREFIX := "sha256:"

  /** The digest without its algorithm prefix. */
  function FormatDigest(digest: string): (hash: string)
    ensures StartsWith(digest, DIGEST_PREFIX) ==> DIGEST_PREFIX + hash == digest
    ensures !StartsWith(digest, DIGEST_PREFIX) ==> hash == digest
  {
    if StartsWith(digest, DIGEST_PREFIX) then digest[7..] else digest
  }

  /** Prefixing a hash and formatting it gives the hash back. */
  lemma FormatDigestPrefixed(hash: string)
    ensures FormatDigest(DIGEST_PREFIX + hash) == hash
  {
    assert (DIGEST_PREFIX + hash)[..|DIGEST_PREFIX|] == DIGEST_PREFIX;
    assert (DIGEST_PREFIX + hash)[7..] == hash;
  }

  /** The hash of an asset: its own digest when it carries one, otherwise the
      hash of the downloaded body. */
  function AssetHash(asset: Asset, bodyHash: string -> string): string {
    match asset.digest
    case Some(d) => FormatDigest(d)
    case None => bodyHash(asset.downloadUrl)
  }

  /** An asset with a digest needs no download: its hash does not depend on
      the body hash at all. */
  lemma AssetHashWithDigest(asset: Asset, h1: string -> string, h2: string -> string)
    requires asset.digest.Some?
    ensures AssetHash(asset, h1) == AssetHash(asset, h2) == FormatDigest(asset.digest.value)
  {
  }

  /** Without a digest the body hash is used. */
  lemma AssetHashWithoutDigest(asset: Asset, bodyHash: string -> string)
    requires asset.digest.None?
    ensures AssetHash(asset, bodyHash) == bodyHash(asset.downloadUrl)
  {
  }

  lemma AssetHashDeadbeef(asset: Asset, bodyHash: string -> string)
    requires asset.digest == Some("sha256:deadbeef")
    ensures AssetHash(asset, bodyHash) == "deadbeef"
  {
    FormatDigestPrefixed("deadbeef");
  }

  /** The version of a release: its tag with the first `v` removed. */
  function VersionOf(tagName: string): string {
    ReplaceFirst(tagName, "v", "")
  }

  /** A leading `v` is dropped, a tag in which `v` does not occur is the
      version itself, and otherwise exactly one character goes. */
  lemma VersionOfTag(tagName: string)
    ensures StartsWith(tagName, "v") ==> VersionOf(tagName) == tagName[1..]
    ensures !Contains(tagName, "v") ==> VersionOf(tagName) == tagName
    ensures Contains(tagName, "v") ==> |VersionOf(tagName)| == |tagName| - 1
  {
    if Contains(tagName, "v") {
      ReplaceFirstLength(tagName, "v", "");
    } else {
      ReplaceFirstAbsent(tagName, "v", "");
    }
  }

  /** Only the first `v` goes, wherever it is: the text before it is kept and
      so is everything after it, including any later `v`. */
  lemma VersionOfFirstV(a: string, b: string)
    requires 'v' !in a
    ensures VersionOf(a + "v" + b) == a + b
  {
    NotContainsBeforeShort(a, "v"[..0], "v");
    ReplaceFirstAt(a, "v", b, "");
    assert a + "" + b == a + b;
  }

  /** The download URL names the tag `v<version>`: that is the release's own
      tag exactly when the tag starts with `v`. */
  lemma TagOfVersion(tagName: string)
    ensures "v" + VersionOf(tagName) == tagName <==> StartsWith(tagName, "v")
  {
    VersionOfTag(tagName);
    if StartsWith(tagName, "v") {
      assert tagName == [tagName[0]] + tagName[1..];
    }
  }

  lemma VersionExamples()
    ensures VersionOf("v2.0.0") == "2.0.0"
    ensures VersionOf("v") == ""
    ensures VersionOf("release-v1") == "release-1"
  {
    assert StartsWith("v2.0.0", "v");
    assert StartsWith("v", "v");
    assert "release-v1" == "release-" + "v" + "1";
    VersionOfFirstV("release-", "1");
  }

  /** The manifest's name: the asset name without `_v<version>`,
      `v<version>` and `<version>` (each removed everywhere, in this order)
      and without one trailing `.zip`. It is never longer than the asset name. */
  function GetManifestName(assetName: string, version: string): (name: string)
    ensures |name| <= |assetName|
  {
    var stripped := ReplaceAll(ReplaceAll(ReplaceAll(assetName, "_v" + version, ""), "v" + version, ""), version, "");
    ReplaceAllShrinks(assetName, "_v" + version, "");
    ReplaceAllShrinks(ReplaceAll(assetName, "_v" + version, ""), "v" + version, "");
    ReplaceAllShrinks(ReplaceAll(ReplaceAll(assetName, "_v" + version, ""), "v" + version, ""), version, "");
    if EndsWith(stripped, ".zip") then stripped[..|stripped| - 4] else stripped
  }

  /** When the version does not occur in the asset name only a trailing `.zip` is removed. */
  lemma GetManifestNameWithoutVersion(assetName: string, version: string)
    requires version != "" && !Contains(assetName, version)
    ensures GetManifestName(assetName, version)
         == if EndsWith(assetName, ".zip") then assetName[..|assetName| - 4] else assetName
  {
    if Contains(assetName, "_v" + version) {
      ContainsSuffix(assetName, "_v", version);
    }
    if Contains(assetName, "v" + version) {
      ContainsSuffix(assetName, "v", version);
    }
    ReplaceAllAbsent(assetName, "_v" + version, "");
    ReplaceAllAbsent(assetName, "v" + version, "");
    ReplaceAllAbsent(assetName, version, "");
  }

  /** An asset `<stem>_v<version>.zip` is written as `<stem>` when no
      occurrence of `_v<version>` starts inside `<stem>` (`HackGen_NF` is
      allowed) and the version occurs nowhere else. */
  lemma GetManifestNameTagged(stem: string, version: string)
    requires version != "" && !Contains(stem + ("_v" + version)[..|version| + 1], "_v" + version)
    requires !Contains(stem + ".zip", version)
    ensures GetManifestName(stem + "_v" + version + ".zip", version) == stem
  {
    var rest := stem + ".zip";
    TaggedStripsTag(stem, version);
    VersionAbsentKept(rest, version);
    assert EndsWith(rest, ".zip") && rest[..|rest| - 4] == stem;
  }

  /** The first pass removes the `_v<version>` after the stem and nothing else. */
  lemma TaggedStripsTag(stem: string, version: string)
    requires version != "" && !Contains(stem + ("_v" + version)[..|version| + 1], "_v" + version)
    ensures ReplaceAll(stem + "_v" + version + ".zip", "_v" + version, "") == stem + ".zip"
  {
    var pat := "_v" + version;
    Regroup(stem, "_v", version, ".zip");
    assert pat[0] == '_';
    RemoveAt(stem, pat, ".zip");
  }

  /** Text without the version passes the second and third passes unchanged. */
  lemma VersionAbsentKept(rest: string, version: string)
    requires version != "" && !Contains(rest, version)
    ensures ReplaceAll(ReplaceAll(rest, "v" + version, ""), version, "") == rest
  {
    if Contains(rest, "v" + version) {
      ContainsSuffix(rest, "v", version);
    }
    ReplaceAllAbsent(rest, "v" + version, "");
    ReplaceAllAbsent(rest, version, "");
  }

  /** The asset `UdevGothic_v2.0.0.zip` of release 2.0.0 gives the manifest `UdevGothic`. */
  lemma GetManifestNameUdevGothic(assetName: string, version: string)
    requires assetName == "UdevGothic_v2.0.0.zip" && version == "2.0.0"
    ensures GetManifestName(assetName, version) == "UdevGothic"
  {
    var stem := "UdevGothic";
    assert assetName == stem + "_v" + version + ".zip";
    var pat := "_v" + version;
    NotContainsBeforeShort(stem, pat[..|version| + 1], pat);
    NotContainsFirstChar(stem + ".zip", version);
    GetManifestNameTagged(stem, version);
  }

  /** Deriving the name is not idempotent: removing the version can create a
      new occurrence of it. */
  lemma GetManifestNameNotIdempotent(assetName: string, version: string)
    requires assetName == "aabb" && version == "ab"
    ensures GetManifestName(assetName, version) == "ab"
    ensures GetManifestName(GetManifestName(assetName, version), version) == ""
  {
    var p1, p2 := "_v" + version, "v" + version;
    NotContainsFirstChar(assetName, p1);
    ReplaceAllAbsent(assetName, p1, "");
    NotContainsFirstChar(assetName, p2);
    ReplaceAllAbsent(assetName, p2, "");
    // "aabb": no match at 0, the match at 1 is removed, "b" remains after it.
    assert !StartsWith(assetName, version) by {
      assert assetName[1] != version[1];
    }
    assert assetName[1..] == version + "b";
    ReplaceAllFront(version, "b", "");
    NotContainsFirstChar("b", version);
    ReplaceAllAbsent("b", version, "");
    assert ReplaceAll(assetName, version, "") == "ab";
    // "ab": the whole of it is the version.
    NotContainsFirstChar(version, p1);
    ReplaceAllAbsent(version, p1, "");
    NotContainsFirstChar(version, p2);
    ReplaceAllAbsent(version, p2, "");
    assert version == version + "";
    ReplaceAllFront(version, "", "");
  }

  /** One trailing `.zip` is removed per call. */
  lemma GetManifestNameOneZip(assetName: string, version: string)
    requires assetName == "x.zip.zip" && version == "1.0"
    ensures GetManifestName(assetName, version) == "x.zip"
  {
    NotContainsFirstChar(assetName, version);
    GetManifestNameWithoutVersion(assetName, version);
    assert assetName[|assetName| - 4..] == ".zip";
  }

  /** The last segment of a URL's path. */
  function GetFileName(pathname: string): (fileName: string)
    ensures '/' !in fileName
    ensures EndsWith(pathname, fileName)
    ensures |fileName| < |pathname| ==> pathname[|pathname| - |fileName| - 1] == '/'
    ensures '/' !in pathname ==> fileName == pathname
  {
    var i := LastIndexOf(pathname, '/');
    if i < 0 then pathname else pathname[i + 1..]
  }

  /** The file name as an autoupdate template: the version replaced by the
      literal placeholder `$version`. */
  function AutoupdateFileName(fileName: string, version: string): string {
    ReplaceAll(fileName, version, "$version")
  }

  /** A version occurring once in the file name becomes the placeholder, and
      the rest of the name is kept: no occurrence starts inside `pre` (so the
      one after `pre` is the leftmost) and `post` holds none. */
  lemma AutoupdateFileNameSingle(pre: string, version: string, post: string)
    requires version != ""
    requires !Contains(pre + version[..|version| - 1], version) && !Contains(post, version)
    ensures AutoupdateFileName(pre + version + post, version) == pre + "$version" + post
  {
    ReplaceAllAt(pre, version, post, "$version");
  }

  /** For `UdevGothic_v2.0.0.zip` of release 2.0.0 the template is `UdevGothic_v$version.zip`. */
  lemma AutoupdateFileNameUdevGothic(fileName: string, version: string)
    requires fileName == "UdevGothic_v2.0.0.zip" && version == "2.0.0"
    ensures AutoupdateFileName(fileName, version) == "UdevGothic_v$version.zip"
  {
    var pre, post := "UdevGothic_v", ".zip";
    assert fileName == pre + version + post;
    assert version[..|version| - 1] == "2.0." && version[0] == '2';
    NotContainsBeforeShort(pre, version[..|version| - 1], version);
    NotContainsFirstChar(post, version);
    AutoupdateFileNameSingle(pre, version, post);
    UdevGothicTemplate();
  }

  lemma UdevGothicTemplate()
    ensures "UdevGothic_v" + "$version" + ".zip" == "UdevGothic_v$version.zip"
  {
  }

  /** A tag `v` gives the empty version, and then the placeholder is inserted
      before every character and at the end: character `i` of the file name
      is preceded by the `i + 1`-th placeholder, nine characters per step. */
  lemma AutoupdateFileNameEmptyVersion(fileName: string)
    ensures var r := AutoupdateFileName(fileName, "");
      && |r| == 9 * |fileName| + 8
      && (forall i :: 0 <= i < |fileName| ==> r[9 * i..9 * i + 8] == "$version" && r[9 * i + 8] == fileName[i])
      && EndsWith(r, "$version")
  {
    var p := "$version";
    assert |p| == 8;
    ReplaceAllEmptyLength(fileName, p);
    forall i | 0 <= i < |fileName|
      ensures AutoupdateFileName(fileName, "")[9 * i..9 * i + 8] == p
      ensures AutoupdateFileName(fileName, "")[9 * i + 8] == fileName[i]
    {
      EmptyVersionAt(fileName, i);
    }
    ReplaceAllEmptyEnd(fileName, p);
  }

  /** Character `i` of the file name, preceded by its placeholder. */
  lemma EmptyVersionAt(fileName: string, i: nat)
    requires i < |fileName|
    ensures 9 * i + 9 <= |AutoupdateFileName(fileName, "")|
    ensures AutoupdateFileName(fileName, "")[9 * i..9 * i + 8] == "$version"
    ensures AutoupdateFileName(fileName, "")[9 * i + 8] == fileName[i]
  {
    var p := "$version";
    assert |p| == 8;
    ReplaceAllEmptyAt(fileName, p, i, 9 * i);
  }

  // ---------------------------------------------------------------------
  // One repository.

  /** The system around the model: the two upstream queries (`None` when the
      query fails), the body hash of a download URL and the pathname of a URL. */
  datatype Upstream = Upstream(
    repository: RepoIds -> Option<Repository>,
    lastReleases: RepoIds -> Option<seq<Release>>,
    bodyHash: string -> string,
    pathname: string -> string
  )

  /** The latest release, or else the first node of the most-recent-release
      query; `None` when there is neither. */
  function ChooseRelease(latest: Option<Release>, lastReleases: Option<seq<Release>>): (release: Option<Release>)
    ensures latest.Some? ==> release == latest
    ensures latest.None? ==> (release.Some? <==> lastReleases.Some? && |lastReleases.value| > 0)
    ensures latest.None? && release.Some? ==> release.value == lastReleases.value[0]
  {
    match latest
    case Some(r) => Some(r)
    case None =>
      match lastReleases
      case Some(nodes) => if |nodes| > 0 then Some(nodes[0]) else None
      case None => None
  }

  /** What the per-asset loop needs to know about one repository. */
  datatype RepoContext = RepoContext(
    repo: RepoIds,
    description: string,
    license: string,
    filterStr: string,
    version: string,
    assets: seq<Asset>
  )

  /** Everything resolved for one repository before its assets are processed;
      `None` when the repository's run stops with an error. */
  function ResolveRepo(repo: RepoIds, up: Upstream): (ctx: Option<RepoContext>)
    // The run stops only when the main query fails, the license information
    // is null or there is no release; a missing license is not a failure.
    ensures ctx.Some? <==> (up.repository(repo).Some? && up.repository(repo).value.spdxId.Some?
      && ChooseRelease(up.repository(repo).value.latestRelease, up.lastReleases(repo)).Some?)
    ensures ctx.Some? ==> ctx.value.repo == repo
    ensures ctx.Some? ==> forall k :: 0 <= k < |ctx.value.assets| ==> Matches(ctx.value.assets[k], ctx.value.filterStr)
    ensures ctx.Some? ==>
      var data := up.repository(repo).value;
      var release := ChooseRelease(data.latestRelease, up.lastReleases(repo)).value;
      && ctx.value.description == data.description
      && ctx.value.license == ResolveLicense(data.spdxId.value, repo.repository_name, LICENSE_MAP)
      && ctx.value.filterStr == FilterStr(data.name)
      && ctx.value.version == VersionOf(release.tagName)
      && ctx.value.assets == SelectAssets(release.assets, FilterStr(data.name))
  {
    match up.repository(repo)
    case None => None
    case Some(data) =>
      match data.spdxId
      case None => None
      case Some(spdxId) =>
        var license := ResolveLicense(spdxId, repo.repository_name, LICENSE_MAP);
        var filterStr := FilterStr(data.name);
        match ChooseRelease(data.latestRelease, up.lastReleases(repo))
        case None => None
        case Some(release) =>
          Some(RepoContext(repo, data.description, license, filterStr,
                           VersionOf(release.tagName), SelectAssets(release.assets, filterStr)))
  }

  /** The parameters of one asset's manifest. */
  function AssetParams(ctx: RepoContext, asset: Asset, up: Upstream): FontManifestParams {
    var fileName := GetFileName(up.pathname(asset.downloadUrl));
    FontManifestParams(
      version := ctx.version,
      description := ctx.description,
      user_name := ctx.repo.user_name,
      repository_name := ctx.repo.repository_name,
      license := ctx.license,
      file_name := fileName,
      hash := AssetHash(asset, up.bodyHash),
      filter_str := ctx.filterStr,
      autoupdate_file_name := AutoupdateFileName(fileName, ctx.version)
    )
  }

  /** One manifest file to write: its name (without `.json`) and the
      parameters its content is built from. */
  datatype Entry = Entry(name: string, params: FontManifestParams) {
    /** The manifest written to the file. */
    function Content(): Manifest {
      FontManifest.CreateFontManifest(params)
    }
  }

  /** The entry of one asset: the manifest name derived from the asset name,
      and parameters taken from the repository, the release and the asset. */
  function AssetEntry(ctx: RepoContext, asset: Asset, up: Upstream): (e: Entry)
    ensures e.name == GetManifestName(asset.name, ctx.version)
    ensures e.params.user_name == ctx.repo.user_name && e.params.repository_name == ctx.repo.repository_name
    ensures e.params.version == ctx.version && e.params.license == ctx.license
    ensures e.params.description == ctx.description && e.params.filter_str == ctx.filterStr
    ensures e.params.file_name == GetFileName(up.pathname(asset.downloadUrl))
    ensures e.params.hash == AssetHash(asset, up.bodyHash)
    ensures e.params.autoupdate_file_name == AutoupdateFileName(e.params.file_name, ctx.version)
  {
    Entry(GetManifestName(asset.name, ctx.version), AssetParams(ctx, asset, up))
  }

  /** The manifest written for one asset: it downloads the asset's file from
      the release of the repository, carries the asset's hash and installs
      the fonts matching the repository's filter. */
  lemma AssetManifest(ctx: RepoContext, asset: Asset, up: Upstream)
    ensures var m := AssetEntry(ctx, asset, up).Content();
      && m.homepage == "https://github.com/" + ctx.repo.user_name + "/" + ctx.repo.repository_name
      && m.url == Some(m.homepage + "/releases/download/v" + ctx.version + "/" + GetFileName(up.pathname(asset.downloadUrl)))
      && m.hash == Some(AssetHash(asset, up.bodyHash))
      && m.version == ctx.version && m.license == ctx.license
      && m.installer == Some(ScriptBlock(Some(FontManifest.InstallerScript(ctx.filterStr))))
  {
  }

  /** The entries of a repository's selected assets, in order. */
  function ContextEntries(ctx: RepoContext, up: Upstream): seq<Entry> {
    seq(|ctx.assets|, k requires 0 <= k < |ctx.assets| => AssetEntry(ctx, ctx.assets[k], up))
  }

  /** The loop over a repository's selected assets. */
  method AssetEntries(ctx: RepoContext, up: Upstream) returns (entries: seq<Entry>)
    ensures entries == ContextEntries(ctx, up)
  {
    entries := [];
    for k := 0 to |ctx.assets|
      invariant |entries| == k
      invariant forall j :: 0 <= j < k ==> entries[j] == AssetEntry(ctx, ctx.assets[j], up)
    {
      entries := entries + [AssetEntry(ctx, ctx.assets[k], up)];
    }
  }

  /** The entries of one repository; none when its run stops with an error. */
  function RepoEntries(repo: RepoIds, up: Upstream): seq<Entry> {
    match ResolveRepo(repo, up)
    case None => []
    case Some(ctx) => ContextEntries(ctx, up)
  }

  // ---------------------------------------------------------------------
  // All repositories.

  /** The entries of one repository's run all carry that repository's names. */
  lemma RepoEntriesBelong(repo: RepoIds, up: Upstream, i: nat)
    requires i < |RepoEntries(repo, up)|
    ensures RepoEntries(repo, up)[i].params.user_name == repo.user_name
    ensures RepoEntries(repo, up)[i].params.repository_name == repo.repository_name
  {
    var ctx := ResolveRepo(repo, up).value;
    assert RepoEntries(repo, up)[i] == AssetEntry(ctx, ctx.assets[i], up);
  }

  /** The entries of every repository, repository by repository. */
  function RunEntries(repos: seq<RepoIds>, up: Upstream): seq<Entry> {
    Seqs.ConcatMap(repos, (repo: RepoIds) => RepoEntries(repo, up))
  }

  /** Repositories are processed independently of each other. */
  lemma RunEntriesAppend(a: seq<RepoIds>, b: seq<RepoIds>, up: Upstream)
    ensures RunEntries(a + b, up) == RunEntries(a, up) + RunEntries(b, up)
  {
    Seqs.ConcatMapAppend(a, b, (repo: RepoIds) => RepoEntries(repo, up));
  }

  /** A repository whose run fails contributes nothing and does not stop the others. */
  lemma FailedRepoIsSkipped(a: seq<RepoIds>, repo: RepoIds, b: seq<RepoIds>, up: Upstream)
    requires ResolveRepo(repo, up).None?
    ensures RunEntries(a + [repo] + b, up) == RunEntries(a + b, up)
  {
    RunEntriesAppend(a + [repo], b, up);
    RunEntriesAppend(a, [repo], up);
    RunEntriesAppend(a, b, up);
    Seqs.ConcatMapSingle(repo, (repo: RepoIds) => RepoEntries(repo, up));
  }

  /** Every entry belongs to one of the processed repositories, so the
      homepage of its manifest is that repository's. */
  lemma RunEntriesRepos(repos: seq<RepoIds>, up: Upstream, k: nat)
    requires k < |RunEntries(repos, up)|
    ensures exists j :: (0 <= j < |repos|
      && RunEntries(repos, up)[k].params.user_name == repos[j].user_name
      && RunEntries(repos, up)[k].params.repository_name == repos[j].repository_name)
  {
    var f := (repo: RepoIds) => RepoEntries(repo, up);
    Seqs.ConcatMapOrigin(repos, f, k);
    var j, i :| 0 <= j < |repos| && 0 <= i < |f(repos[j])| && RunEntries(repos, up)[k] == f(repos[j])[i];
    RepoEntriesBelong(repos[j], up, i);
  }

  /** The loop over the repositories: each is resolved and its assets
      processed; a repository whose run fails is skipped. */
  method Generate(repos: seq<RepoIds>, up: Upstream) returns (entries: seq<Entry>)
    ensures entries == RunEntries(repos, up)
  {
    entries := [];
    for i := 0 to |repos|
      invariant entries == RunEntries(repos[..i], up)
    {
      var ctx := ResolveRepo(repos[i], up);
      if ctx.Some? {
        var more := AssetEntries(ctx.value, up);
        entries := entries + more;
      }
      RunEntriesAppend(repos[..i], [repos[i]], up);
      Seqs.ConcatMapSingle(repos[i], (repo: RepoIds) => RepoEntries(repo, up));
      assert repos[..i + 1] == repos[..i] + [repos[i]];
    }
    assert repos[..|repos|] == repos;
  }

  // ---------------------------------------------------------------------
  // The bucket directory.

  /** A file of the bucket directory: one that was there before the run,
      whose content the model does not look into, or one the run wrote. */
  datatype BucketFile = Earlier(text: string) | Written(params: FontManifestParams)

  /** The manifest files present after writing the entries in order into a
      directory holding `before`: writing a name that already exists
      replaces that file, and every other file stays. */
  function Bucket(before: map<string, BucketFile>, entries: seq<Entry>): map<string, BucketFile> {
    if |entries| == 0 then before
    else Bucket(before, entries[..|entries| - 1])[entries[|entries| - 1].name := Written(entries[|entries| - 1].params)]
  }

  /** A file is present exactly when it was there before or some entry has its name. */
  lemma {:induction false} BucketNames(before: map<string, BucketFile>, entries: seq<Entry>, name: string)
    ensures name in Bucket(before, entries)
        <==> name in before || exists k :: 0 <= k < |entries| && entries[k].name == name
    decreases |entries|
  {
    if |entries| > 0 {
      var init := entries[..|entries| - 1];
      BucketNames(before, init, name);
      if exists k :: 0 <= k < |init| && init[k].name == name {
        var k :| 0 <= k < |init| && init[k].name == name;
        assert entries[k] == init[k];
      }
      if exists k :: 0 <= k < |entries| && entries[k].name == name {
        var k :| 0 <= k < |entries| && entries[k].name == name;
        if k < |init| {
          assert init[k] == entries[k];
        }
      }
    }
  }

  /** The last entry written under a name is the one the file holds. */
  lemma {:induction false} BucketLastWriteWins(before: map<string, BucketFile>, entries: seq<Entry>, k: nat)
    requires k < |entries|
    requires forall k' :: k < k' < |entries| ==> entries[k'].name != entries[k].name
    ensures entries[k].name in Bucket(before, entries)
    ensures Bucket(before, entries)[entries[k].name] == Written(entries[k].params)
    decreases |entries|
  {
    if k < |entries| - 1 {
      var init := entries[..|entries| - 1];
      assert init[k] == entries[k];
      forall k' | k < k' < |init|
        ensures init[k'].name != init[k].name
      {
        assert init[k'] == entries[k'];
      }
      BucketLastWriteWins(before, init, k);
    }
  }

  /** A name no entry has keeps what the directory held before: an earlier
      manifest stays, and no file appears. */
  lemma {:induction false} BucketKeepsUnwritten(before: map<string, BucketFile>, entries: seq<Entry>, name: string)
    requires forall k :: 0 <= k < |entries| ==> entries[k].name != name
    ensures name in Bucket(before, entries) <==> name in before
    ensures name in before ==> Bucket(before, entries)[name] == before[name]
    decreases |entries|
  {
    if |entries| > 0 {
      var init := entries[..|entries| - 1];
      forall k | 0 <= k < |init|
        ensures init[k].name != name
      {
        assert init[k] == entries[k];
      }
      BucketKeepsUnwritten(before, init, name);
    }
  }
}
