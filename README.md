# Font bucket manifest generator, modelled in Dafny

The generator keeps a package-manager bucket of font manifests up to date. For
every configured GitHub font repository it:

- looks up the latest release;
- picks the release assets whose name contains the repository's name without
  hyphens;
- works out, for each asset:
  - a hash (the asset's own `sha256:` digest, or a computed hash of the download);
  - a download file name;
  - an autoupdate template;
  - a manifest name;
- writes one JSON manifest per asset.

Each manifest carries:

- the homepage, download and autoupdate URLs;
- the license, falling back to a built-in table when upstream asserts none;
- three PowerShell scripts (installer, pre-uninstall check and uninstaller);
  each enumerates the unpacked font files through one `Get-ChildItem` line
  narrowed to the filter string.

The model has six modules:

- `Wrappers`: `Option`.
- `JsString`: the JavaScript string built-ins the generator relies on, with JavaScript semantics.
  - `replaceAll` is non-overlapping and left to right; an empty pattern inserts the replacement at every position.
  - `replace` with a string pattern replaces only the first occurrence.
  - `split`, `join`, `lastIndexOf`, `startsWith`/`endsWith`/`includes` and ASCII `toUpperCase`.
  - Lemmas about these built-ins.
- `Seqs`: concatenation of per-element results.
- `ManifestTypes`: the parameter and manifest records (`scripts/tool/font_manifest.ts:3-13`, `scripts/tool/manifest.ts:13-40`).
- `FontManifest`: the manifest builder of `scripts/tool/font_manifest.ts`.
  - Functions and lemmas only, as in the source.
  - The script lines are constants, with the enumeration line spliced in.
- `GenFontManifests`: the release resolver of `scripts/tool/gen_font_manifests.ts`.
  - Pure helpers are functions.
  - The two `for` loops of `main` are methods. Each is proved equal to a specification function, whose properties are lemmas.

Network queries, hashing of downloaded bodies and URL parsing reach the model
as the functions of an `Upstream` value.

A written manifest is represented by its file name. It also carries the
`FontManifestParams` its content is built from, and `Entry.Content()` is that
content. `Bucket` gives the files of the bucket directory after the writes: the
files that were there before the run, with those whose name is written replaced.

Four properties of the code are easy to miss:

- Only the pre-uninstall check enumerates without ` -Recurse` (`scripts/tool/font_manifest.ts:73`); the installer (`scripts/tool/font_manifest.ts:31`) and the uninstaller (`scripts/tool/font_manifest.ts:104`) are recursive. `FontManifest.ScriptRecursion` states this.
- Manifest-name derivation is not idempotent (`scripts/tool/gen_font_manifests.ts:218-227`).
  - Removing the version can create a new occurrence of it.
  - `GenFontManifests.GetManifestNameNotIdempotent` exhibits version `ab` on `aabb`.
  - `GenFontManifests.GetManifestNameOneZip` shows that only one `.zip` goes per call.
- A failure inside the asset loop abandons the rest of that repository (`scripts/tool/gen_font_manifests.ts:129-214`): the `try` encloses the whole loop (see "Left out").
- A repository whose SPDX id is empty or `NOASSERTION` and that has no table entry still gets its manifests: `scripts/tool/gen_font_manifests.ts:140-141` only logs. `GenFontManifests.ResolveRepo` states when a repository's run stops.

## Model

| member | source | states |
|---|---|---|
| FontManifest.ExtListLiteral | scripts/tool/font_manifest.ts:19 | the extension list is `".ttf", ".otf", ".ttc"`: each extension quoted, joined by `, ` |
| FontManifest.GetFilesLine | scripts/tool/font_manifest.ts:21-26 | defined as the two branches of the source, with the recursion flag appended; its properties are stated by the five `GetFilesLine…` lemmas below |
| FontManifest.GetFilesLineParts | scripts/tool/font_manifest.ts:21-26 | the enumeration line is `Get-ChildItem $dir -File`, then the filter clause, then ` -Recurse` exactly when recursive |
| FontManifest.GetFilesLineFilter | scripts/tool/font_manifest.ts:21-26 | an empty filter gives the plain command plus the recursion flag; a non-empty filter `f` inserts ` -Filter '*f*'` before the flag |
| FontManifest.GetFilesLineMentionsFilter | scripts/tool/font_manifest.ts:23-25 | the enumeration line contains the filter string |
| FontManifest.GetFilesLineRecursive | scripts/tool/font_manifest.ts:22 | the line ends with ` -Recurse` if and only if the enumeration is recursive |
| FontManifest.GetFilesLineInjective | scripts/tool/font_manifest.ts:21-26 | two equal enumeration lines have equal filters and equal recursion flags |
| FontManifest.InstallerScript | scripts/tool/font_manifest.ts:30-70 | the installer has 36 lines whatever the filter; line 30 is the recursive enumeration followed by the extension filter and the loop |
| FontManifest.EnumTailKeepsFontFiles | scripts/tool/font_manifest.ts:63 | after the enumeration the installer keeps only `.ttf`, `.otf` and `.ttc` files before looping |
| FontManifest.InstallerKeepsFontFiles | scripts/tool/font_manifest.ts:63 | installer line 30 is the enumeration followed by `Where-Object { @(".ttf", ".otf", ".ttc") -contains $_.Extension }` and the loop |
| FontManifest.InstallerFilterLine | scripts/tool/font_manifest.ts:32-69 | all installer lines but line 30 are the same for any two filters; two installers are equal exactly when their filters are |
| FontManifest.PreUninstallerScript | scripts/tool/font_manifest.ts:72-101 | the pre-uninstall check has 25 lines; line 1 is the non-recursive enumeration followed by the loop |
| FontManifest.PreUninstallerFilterLine | scripts/tool/font_manifest.ts:74-100 | all pre-uninstall lines but line 1 are the same for any two filters; two checks are equal exactly when their filters are |
| FontManifest.UninstallerScript | scripts/tool/font_manifest.ts:103-118 | the uninstaller has 11 lines; line 3 is the recursive enumeration followed by the loop |
| FontManifest.UninstallerFilterLine | scripts/tool/font_manifest.ts:105-117 | all uninstaller lines but line 3 are the same for any two filters; two uninstallers are equal exactly when their filters are |
| FontManifest.ScriptRecursion | scripts/tool/font_manifest.ts:73 | installer and uninstaller enumerate with ` -Recurse`, the pre-uninstall check without it |
| FontManifest.CreateFontManifest | scripts/tool/font_manifest.ts:120-142 | manifest fields as built from the parameters: the version, description, license and hash are copied; homepage `https://github.com/<user>/<repo>`; url `<homepage>/releases/download/v<version>/<file>`; autoupdate url `<homepage>/releases/download/v$version/<template>` with `$version` literal; checkver `github`; no architecture; the three scripts built from the filter |
| FontManifest.AutoupdateIgnoresVersion | scripts/tool/font_manifest.ts:130-133 | the autoupdate URL is the same whatever the version |
| FontManifest.FilterOnlyAffectsScripts | scripts/tool/font_manifest.ts:134-140 | changing the filter changes nothing but the three scripts, and two manifests differing only in the filter are equal exactly when the filters are |
| GenFontManifests.ParseRepo | scripts/tool/gen_font_manifests.ts:32-46 | one configured URL contributes at most one repository, and only one of an allowed user |
| GenFontManifests.ParseRepos | scripts/tool/gen_font_manifests.ts:32-46 | no more repositories than configured URLs, and every one belongs to `yuru7` or `miiton` |
| GenFontManifests.GetRepos | scripts/tool/gen_font_manifests.ts:15-49 | defined as `ParseRepos` of the 14 configured URLs; its properties are those of `ParseRepos`, `ParseReposAppend` and `ParseReposMembers` |
| GenFontManifests.ParseReposAppend | scripts/tool/gen_font_manifests.ts:32-46 | URLs are parsed one by one, so the configured order is kept |
| GenFontManifests.ParseReposMembers | scripts/tool/gen_font_manifests.ts:38-46 | a repository is in the list exactly when some configured URL of an allowed user names it |
| GenFontManifests.RepoOfGithubUrl | scripts/tool/gen_font_manifests.ts:33-34 | `https://github.com/<user>/<name>` gives user `user` and repository `name` |
| GenFontManifests.HackGenRepo | scripts/tool/gen_font_manifests.ts:18 | `https://github.com/yuru7/HackGen` gives `(yuru7, HackGen)` |
| GenFontManifests.ResolveLicense | scripts/tool/gen_font_manifests.ts:137-145 | a non-empty SPDX id other than `NOASSERTION` is kept; otherwise the table entry when there is one, and otherwise the upstream value unchanged |
| GenFontManifests.ResolvedLicenseAsserted | scripts/tool/gen_font_manifests.ts:51-60 | with the built-in table a manifest gets an asserted license exactly when upstream asserts one or the repository is in the table |
| GenFontManifests.FilterStr | scripts/tool/gen_font_manifests.ts:147 | defined as `replaceAll("-", "")` on the upstream name; `FilterStrRemovesHyphens` relates it to the reference definition `RemoveChar` |
| GenFontManifests.FilterStrRemovesHyphens | scripts/tool/gen_font_manifests.ts:147 | the filter string is the repository name with every hyphen deleted and nothing else changed |
| GenFontManifests.FilterStrOneHyphen | scripts/tool/gen_font_manifests.ts:147 | a name with one hyphen gives its two parts joined |
| GenFontManifests.FilterStrUdevGothic | scripts/tool/gen_font_manifests.ts:147 | `udev-gothic` gives `udevgothic` |
| GenFontManifests.SelectAssets | scripts/tool/gen_font_manifests.ts:163-169 | no more assets than nodes, and every selected asset's upper-cased name contains the upper-cased filter |
| GenFontManifests.SelectAssetsAppend | scripts/tool/gen_font_manifests.ts:163-169 | selection works node by node, so the selected assets keep their release order |
| GenFontManifests.SelectAssetsMembers | scripts/tool/gen_font_manifests.ts:163-169 | an asset is selected exactly when it is a non-null node whose name matches the filter |
| GenFontManifests.SelectAssetsIgnoresCase | scripts/tool/gen_font_manifests.ts:168 | upper-casing the filter first selects the same assets |
| GenFontManifests.FormatDigest | scripts/tool/gen_font_manifests.ts:244-250 | a digest starting with `sha256:` loses exactly that prefix; any other digest is returned unchanged |
| GenFontManifests.FormatDigestPrefixed | scripts/tool/gen_font_manifests.ts:244-250 | prefixing a hash with `sha256:` and formatting it gives the hash back |
| GenFontManifests.AssetHash | scripts/tool/gen_font_manifests.ts:175-177 | defined as the formatted digest when the asset has one, else the body hash of the download URL; the two cases are the lemmas below |
| GenFontManifests.AssetHashWithDigest | scripts/tool/gen_font_manifests.ts:175-177 | an asset carrying a digest gets the formatted digest, whatever the downloaded body would hash to |
| GenFontManifests.AssetHashWithoutDigest | scripts/tool/gen_font_manifests.ts:175-177 | an asset without a digest gets the hash of its download URL's body |
| GenFontManifests.AssetHashDeadbeef | scripts/tool/gen_font_manifests.ts:175-176 | digest `sha256:deadbeef` gives hash `deadbeef` |
| GenFontManifests.VersionOf | scripts/tool/gen_font_manifests.ts:161 | defined as `replace("v", "")` on the tag, which replaces the first `v` only; its properties are the three lemmas below |
| GenFontManifests.VersionOfTag | scripts/tool/gen_font_manifests.ts:161 | a leading `v` is dropped; a tag without `v` is its own version; otherwise exactly one character is removed |
| GenFontManifests.VersionOfFirstV | scripts/tool/gen_font_manifests.ts:161 | for every tag `a + "v" + b` with no `v` in `a`, the version is `a + b`: the first `v` is the one removed, wherever it is, and later ones stay |
| GenFontManifests.TagOfVersion | scripts/tool/gen_font_manifests.ts:161 | `v` followed by the version is the release's tag exactly when the tag starts with `v`, so only then do the manifest's URLs name the release's own tag |
| GenFontManifests.VersionExamples | scripts/tool/gen_font_manifests.ts:161 | `v2.0.0` gives `2.0.0`, `v` gives the empty version and `release-v1` gives `release-1` |
| GenFontManifests.GetManifestName | scripts/tool/gen_font_manifests.ts:218-227 | the manifest name is never longer than the asset name |
| GenFontManifests.GetManifestNameWithoutVersion | scripts/tool/gen_font_manifests.ts:219-226 | with a non-empty version that does not occur in the asset name, only a trailing `.zip` is removed |
| GenFontManifests.GetManifestNameTagged | scripts/tool/gen_font_manifests.ts:218-227 | an asset `<stem>_v<version>.zip` is written as `<stem>` when no occurrence of `_v<version>` starts inside `<stem>` and the version occurs nowhere else in `<stem>.zip` |
| GenFontManifests.GetManifestNameUdevGothic | scripts/tool/gen_font_manifests.ts:218-227 | `UdevGothic_v2.0.0.zip` of version `2.0.0` is written as `UdevGothic` |
| GenFontManifests.GetManifestNameNotIdempotent | scripts/tool/gen_font_manifests.ts:219-220 | version `ab` turns `aabb` into `ab`, and applying the derivation again gives the empty name |
| GenFontManifests.GetManifestNameOneZip | scripts/tool/gen_font_manifests.ts:222-223 | `x.zip.zip` loses only its last `.zip` |
| GenFontManifests.GetFileName | scripts/tool/gen_font_manifests.ts:229-233 | the file name has no `/`, is a suffix of the path, is preceded there by a `/` unless it is the whole path, and is the whole path when the path has no `/` |
| GenFontManifests.AutoupdateFileName | scripts/tool/gen_font_manifests.ts:180 | defined as `replaceAll(version, "$version")` on the file name; its properties are the three lemmas below |
| GenFontManifests.AutoupdateFileNameSingle | scripts/tool/gen_font_manifests.ts:180 | for a file name `pre + version + post` in which no occurrence of the version starts inside `pre` and none lies in `post`, the template is `pre + "$version" + post` |
| GenFontManifests.AutoupdateFileNameUdevGothic | scripts/tool/gen_font_manifests.ts:180 | `UdevGothic_v2.0.0.zip` of version `2.0.0` gives the template `UdevGothic_v$version.zip` |
| GenFontManifests.AutoupdateFileNameEmptyVersion | scripts/tool/gen_font_manifests.ts:180 | with the empty version (tag `v`) the template has length `9n + 8` for a name of `n` characters; for every `i < n`, positions `9i` to `9i + 7` hold `$version` and position `9i + 8` holds character `i`; and the template ends with `$version` |
| GenFontManifests.ChooseRelease | scripts/tool/gen_font_manifests.ts:149-156 | the latest release when there is one; otherwise the first node of the most-recent-release query; none when that query fails or is empty |
| GenFontManifests.ResolveRepo | scripts/tool/gen_font_manifests.ts:129-169 | a repository's run goes on exactly when the main query answers, its license information has an SPDX id and `ChooseRelease` finds a release, so an empty or `NOASSERTION` SPDX id is not a failure (null license information is); the context then has the repository's names and description, the license from `ResolveLicense` with the built-in table, the filter string `FilterStr` of the upstream name, the version `VersionOf` of the chosen release's tag, and exactly `SelectAssets` of that release's nodes, every one of which matches the filter |
| GenFontManifests.AssetEntry | scripts/tool/gen_font_manifests.ts:173-196 | one asset's entry: the derived manifest name and the parameters taken from the repository, the release and the asset |
| GenFontManifests.AssetManifest | scripts/tool/gen_font_manifests.ts:182-194 | the manifest written for an asset has: that repository's homepage; the URL `<homepage>/releases/download/v<version>/<file>` of the asset's file; the asset's hash, version and license; the installer for the repository's filter |
| GenFontManifests.AssetEntries | scripts/tool/gen_font_manifests.ts:173-207 | the asset loop produces one entry per selected asset, in order |
| GenFontManifests.RepoEntries | scripts/tool/gen_font_manifests.ts:129-214 | defined as no entries when `ResolveRepo` fails, else one `AssetEntry` per selected asset; `RepoEntriesBelong` and `AssetEntries` state its properties |
| GenFontManifests.RepoEntriesBelong | scripts/tool/gen_font_manifests.ts:182-186 | every entry of a repository's run carries that repository's user and repository names |
| GenFontManifests.RunEntries | scripts/tool/gen_font_manifests.ts:128-215 | defined as the concatenation of `RepoEntries` over the repositories, in order; `Generate` is proved equal to it and the three lemmas below state its properties |
| GenFontManifests.RunEntriesAppend | scripts/tool/gen_font_manifests.ts:128-215 | repositories are processed independently: the run over two lists is the concatenation of the runs |
| GenFontManifests.FailedRepoIsSkipped | scripts/tool/gen_font_manifests.ts:211-214 | a repository whose run fails contributes no manifest and does not affect the others |
| GenFontManifests.RunEntriesRepos | scripts/tool/gen_font_manifests.ts:128-133 | every entry of the run belongs to one of the processed repositories |
| GenFontManifests.Generate | scripts/tool/gen_font_manifests.ts:128-215 | the repository loop produces the entries of every repository in order, none for a failed one |
| GenFontManifests.Bucket | scripts/tool/gen_font_manifests.ts:196-206 | defined as the entries written in order into the directory's earlier files, keyed by file name, a write replacing any file of that name; its properties are the three lemmas below |
| GenFontManifests.BucketNames | scripts/tool/gen_font_manifests.ts:196-206 | a manifest file exists after the run exactly when it existed before or some entry has its name |
| GenFontManifests.BucketLastWriteWins | scripts/tool/gen_font_manifests.ts:199-206 | a file holds the last entry written under its name |
| GenFontManifests.BucketKeepsUnwritten | scripts/tool/gen_font_manifests.ts:197-206 | a name no entry has is left as it was: an earlier file keeps its content, and no file of that name appears |

## Left out

- GraphQL queries, the access token and the fallback query are not modelled. Their answers are the functions `repository` and `lastReleases` of `Upstream`, with `None` for a query that throws.
- The body hash from `scripts/tool/ufh.ts` is not modelled. It is the parameter function `bodyHash`. As written, `scripts/tool/ufh.ts:12` neither exports `calc_url_body_hash` nor returns a value from it. The import at `scripts/tool/gen_font_manifests.ts:3` therefore cannot resolve. The model does not capture this.
- `new URL(...).pathname` is not modelled. `GetFileName` works on the already extracted pathname, given by `Upstream.pathname`.
- File system effects, `JSON.stringify` formatting and the trailing CRLF are left out. The directory is modelled by `Bucket`, keyed by manifest name; a file that was there before the run is kept as opaque text.
- Console logging (the per-repository summary, `no license for …`, errors) is left out.
- `scripts/tool/gen_manifest.ts` is an abandoned duplicate of the repository-list parsing whose result is discarded. It is not part of this model.
- Matches: upper-casing is ASCII only; Unicode case mapping is not modelled.
- Strings are sequences of Unicode scalar values (`char`), while JavaScript counts UTF-16 code units. The two agree on the ASCII names, tags and URLs the generator handles. For text outside the Basic Multilingual Plane, `slice` and `length` positions (in `GetFileName`, `FormatDigest` and `GetManifestName`) differ from the source's.
- RepoOf: a configured URL with no second path segment yields `undefined` as repository name in the source. The model uses the empty string.
- ResolveRepo: a null repository description is copied into the manifest as `null` in the source. The model's description is always a string. A null node in the fallback release list is not modelled.
- AssetEntries: a failure inside the asset loop (a download hash or a write that throws) stops the rest of that repository after some files are written. The model's per-asset steps are total.
- AssetManifest: the download and autoupdate URLs name the tag `v<version>`. For a release tag without a leading `v` (such as `2.0.0`, or `release-v1`, which gives `vrelease-1`) that tag is not the release's. The model states the URL the code builds, and `TagOfVersion` states when the tag is the release's.
- GetRepos: no lemma evaluates the concrete list of 14 configured URLs. Its properties are those of `ParseRepos`.
