/** The records exchanged by the manifest builder. Field names follow the
    JSON keys of the emitted manifest; `Option` marks the keys the manifest
    type declares optional (`key?: T`). */
module ManifestTypes {
  import opened Wrappers

  /** The fully resolved input of the manifest builder. */
  datatype FontManifestParams = FontManifestParams(
    version: string,
    description: string,
    user_name: string,
    repository_name: string,
    license: string,
    file_name: string,
    hash: string,
    filter_str: string,
    autoupdate_file_name: string
  )

  /** The three architecture keys a manifest may carry. */
  datatype ArchType = Bit32 | Bit64 | Arm64

  /** `installer` and `uninstaller` objects: an optional script. */
  datatype ScriptBlock = ScriptBlock(script: Option<seq<string>>)

  /** The `autoupdate` object: an optional URL template. */
  datatype AutoUpdate = AutoUpdate(url: Option<string>)

  /** A package manifest as written to the bucket directory. */
  datatype Manifest = Manifest(
    version: string,
    description: string,
    homepage: string,
    license: string,
    url: Option<string>,
    hash: Option<string>,
    architecture: Option<map<ArchType, map<string, string>>>,
    installer: Option<ScriptBlock>,
    uninstaller: Option<ScriptBlock>,
    pre_uninstall: Option<seq<string>>,
    checkver: Option<string>,
    autoupdate: Option<AutoUpdate>
  )
}
