/** The manifest builder: the three PowerShell scripts a font manifest
    carries, each a fixed sequence of lines of which exactly one, the file
    enumeration, depends on the filter string; and the manifest record built
    from the resolved parameters. */
module FontManifest {
  import opened Wrappers
  import opened JsString
  import opened ManifestTypes

  const GITHUB_URL := "https://github.com/"

  /** The update-checking strategy of every manifest. */
  const CHECKVER := "github"

  /** The font file extensions the installer registers. */
  const FONT_EXTENSIONS: seq<string> := [".ttf", ".otf", ".ttc"]

  /** `"<ext>"`: one extension as a PowerShell string literal. */
  function Quote(ext: string): string {
    "\"" + ext + "\""
  }

  /** The quoted extensions joined by ", ", as they appear in the installer's
      `Where-Object` array. */
  const EXT_LIST := Join(QuoteAll(FONT_EXTENSIONS), ", ")

  /** Every extension quoted, in order. */
  function QuoteAll(exts: seq<string>): seq<string> {
    if |exts| == 0 then [] else [Quote(exts[0])] + QuoteAll(exts[1..])
  }

  lemma ExtListLiteral()
    ensures EXT_LIST == "\".ttf\", \".otf\", \".ttc\""
  {
    var e := FONT_EXTENSIONS;
    assert e[1..] == [".otf", ".ttc"] && e[2..] == [".ttc"] && e[2..][1..] == [];
    assert Quote(".ttf") == "\".ttf\"" && Quote(".otf") == "\".otf\"" && Quote(".ttc") == "\".ttc\"";
    assert QuoteAll(e[2..]) == [Quote(".ttc")] + QuoteAll([]);
    assert QuoteAll(e[1..]) == [Quote(".otf")] + QuoteAll(e[2..]);
    assert QuoteAll(e) == [Quote(".ttf")] + QuoteAll(e[1..]);
    var q := QuoteAll(e);
    assert q == ["\".ttf\"", "\".otf\"", "\".ttc\""];
    assert q[1..] == ["\".otf\"", "\".ttc\""] && q[1..][1..] == ["\".ttc\""];
    assert Join(q[1..], ", ") == "\".otf\"" + ", " + "\".ttc\"";
    assert Join(q, ", ") == "\".ttf\"" + ", " + ("\".otf\"" + ", " + "\".ttc\"");
  }

  // ---------------------------------------------------------------------
  // The file enumeration line.

  const GET_FILES := "Get-ChildItem $dir -File"
  const RECURSE_FLAG := " -Recurse"

  /** The `Get-ChildItem` line enumerating the unpacked font files: narrowed to
      names containing `filter` unless it is empty, and descending into
      sub-directories when `recursive`. */
  function GetFilesLine(filter: string, recursive: bool): string {
    var recursiveStr := if recursive then RECURSE_FLAG else "";
    if filter == "" then GET_FILES + recursiveStr
    else GET_FILES + " -Filter '*" + filter + "*'" + recursiveStr
  }

  /** The part of the enumeration line that the filter contributes. */
  function FilterClause(filter: string): string {
    if filter == "" then "" else " -Filter '*" + filter + "*'"
  }

  /** The line is the fixed command, then the filter clause, then the flag. */
  lemma GetFilesLineParts(filter: string, recursive: bool)
    ensures GetFilesLine(filter, recursive)
         == GET_FILES + FilterClause(filter) + (if recursive then RECURSE_FLAG else "")
  {
    if filter != "" {
      assert GET_FILES + " -Filter '*" + filter + "*'" == GET_FILES + FilterClause(filter);
    }
  }

  /** An empty filter gives the plain enumeration; a non-empty one inserts the
      `-Filter '*<filter>*'` clause before the recursion flag. */
  lemma GetFilesLineFilter(filter: string, recursive: bool)
    ensures filter == "" ==> GetFilesLine(filter, recursive)
                             == "Get-ChildItem $dir -File" + (if recursive then " -Recurse" else "")
    ensures filter != "" ==> GetFilesLine(filter, recursive)
                             == "Get-ChildItem $dir -File" + " -Filter '*" + filter + "*'" + (if recursive then " -Recurse" else "")
  {
  }

  /** The enumeration line mentions the filter. */
  lemma GetFilesLineMentionsFilter(filter: string, recursive: bool)
    ensures Contains(GetFilesLine(filter, recursive), filter)
  {
    var line := GetFilesLine(filter, recursive);
    if filter != "" {
      var pre := GET_FILES + " -Filter '*";
      var rest := filter + "*'" + (if recursive then RECURSE_FLAG else "");
      assert line == pre + rest;
      assert line[|pre|..] == rest;
      assert rest[..|filter|] == filter;
      ContainsAt(line, |pre|, filter);
    } else {
      assert StartsWith(line, filter);
    }
  }

  /** The enumeration is recursive exactly when the line ends with ` -Recurse`. */
  lemma GetFilesLineRecursive(filter: string, recursive: bool)
    ensures EndsWith(GetFilesLine(filter, recursive), RECURSE_FLAG) <==> recursive
  {
    GetFilesLineParts(filter, recursive);
    var head := GET_FILES + FilterClause(filter);
    var line := GetFilesLine(filter, recursive);
    if recursive {
      assert line == head + RECURSE_FLAG;
      assert line[|line| - |RECURSE_FLAG|..] == RECURSE_FLAG;
    } else {
      assert line == head;
      if filter == "" {
        assert line[|line| - 2] == 'l';
      } else {
        assert line == (GET_FILES + " -Filter '*" + filter) + "*'";
        assert line[|line| - 2] == '*';
      }
      assert RECURSE_FLAG[7] == 's';
    }
  }

  lemma PrefixCancel(a: string, b: string, c: string)
    requires a + b == a + c
    ensures b == c
  {
    assert b == (a + b)[|a|..];
    assert c == (a + c)[|a|..];
  }

  lemma SuffixCancel(b: string, c: string, z: string)
    requires b + z == c + z
    ensures b == c
  {
    assert |b| == |c|;
    assert b == (b + z)[..|b|];
    assert c == (c + z)[..|c|];
  }

  /** The enumeration line determines both the filter and the recursion flag. */
  lemma GetFilesLineInjective(f: string, r: bool, g: string, s: bool)
    requires GetFilesLine(f, r) == GetFilesLine(g, s)
    ensures f == g && r == s
  {
    GetFilesLineRecursive(f, r);
    GetFilesLineRecursive(g, s);
    assert r == s;
    GetFilesLineParts(f, r);
    GetFilesLineParts(g, s);
    var flag := if r then RECURSE_FLAG else "";
    assert (GET_FILES + FilterClause(f)) + flag == (GET_FILES + FilterClause(g)) + flag;
    SuffixCancel(GET_FILES + FilterClause(f), GET_FILES + FilterClause(g), flag);
    PrefixCancel(GET_FILES, FilterClause(f), FilterClause(g));
    FilterClauseInjective(f, g);
  }

  /** The filter clause determines the filter. */
  lemma FilterClauseInjective(f: string, g: string)
    requires FilterClause(f) == FilterClause(g)
    ensures f == g
  {
    if f != "" && g != "" {
      var c, e := " -Filter '*", "*'";
      assert c + f + e == c + g + e;
      SuffixCancel(c + f, c + g, e);
      PrefixCancel(c, f, g);
    }
  }

  // ---------------------------------------------------------------------
  // Lines shared by the scripts.

  const FONT_INSTALL_DIR_LINE := "$fontInstallDir = if ($global) { \"$env:windir\\Fonts\" } else { \"$env:LOCALAPPDATA\\Microsoft\\Windows\\Fonts\" }"
  const REGISTRY_ROOT_LINE := "$registryRoot = if ($global) { \"HKLM\" } else { \"HKCU\" }"
  const REGISTRY_KEY_LINE := "$registryKey = \"${registryRoot}:\\SOFTWARE\\Microsoft\\Windows NT\\CurrentVersion\\Fonts\""
  const FONT_TYPE_DEF_LINE := "    $fontType = if ($_.Extension -eq '.otf') { ' (OpenType)' } else { ' (TrueType)' }"

  // ---------------------------------------------------------------------
  // The installer script.

  /** The 30 installer lines before the enumeration: the per-user font support
      check, the font directory and its access rules, and the registry key. */
  const INSTALLER_PRELUDE: seq<string> := [
    "$currentBuildNumber = [int] (Get-ItemProperty \"HKLM:\\SOFTWARE\\Microsoft\\Windows NT\\CurrentVersion\").CurrentBuildNumber",
    "$windows10Version1809BuildNumber = 17763",
    "$isPerUserFontInstallationSupported = $currentBuildNumber -ge $windows10Version1809BuildNumber",
    "if (!$isPerUserFontInstallationSupported -and !$global) {",
    "    scoop uninstall $app",
    "    Write-Host \"\"",
    "    Write-Host \"For Windows version before Windows 10 Version 1809 (OS Build 17763),\" -Foreground DarkRed",
    "    Write-Host \"Font can only be installed for all users.\" -Foreground DarkRed",
    "    Write-Host \"\"",
    "    Write-Host \"Please use following commands to install '$app' Font for all users.\" -Foreground DarkRed",
    "    Write-Host \"\"",
    "    Write-Host \"        scoop install sudo\"",
    "    Write-Host \"        sudo scoop install -g $app\"",
    "    Write-Host \"\"",
    "    exit 1",
    "}",
    FONT_INSTALL_DIR_LINE,
    "if (-not $global) {",
    "    # Ensure user font install directory exists and has correct permission settings",
    "    # See https://github.com/matthewjberger/scoop-nerd-fonts/issues/198#issuecomment-1488996737",
    "    New-Item $fontInstallDir -ItemType Directory -ErrorAction SilentlyContinue | Out-Null",
    "    $accessControlList = Get-Acl $fontInstallDir",
    "    $allApplicationPackagesAccessRule = New-Object System.Security.AccessControl.FileSystemAccessRule([System.Security.Principal.SecurityIdentifier]::new(\"S-1-15-2-1\"), \"ReadAndExecute\", \"ContainerInherit,ObjectInherit\", \"None\", \"Allow\")",
    "    $allRestrictedApplicationPackagesAccessRule = New-Object System.Security.AccessControl.FileSystemAccessRule([System.Security.Principal.SecurityIdentifier]::new(\"S-1-15-2-2\"), \"ReadAndExecute\", \"ContainerInherit,ObjectInherit\", \"None\", \"Allow\")",
    "    $accessControlList.SetAccessRule($allApplicationPackagesAccessRule)",
    "    $accessControlList.SetAccessRule($allRestrictedApplicationPackagesAccessRule)",
    "    Set-Acl -AclObject $accessControlList $fontInstallDir",
    "}",
    REGISTRY_ROOT_LINE,
    REGISTRY_KEY_LINE
  ]

  /** What follows the enumeration on the installer's line 30: keep only font
      files and loop over them. */
  const INSTALLER_ENUM_TAIL := " | Where-Object { @(" + EXT_LIST + ") -contains $_.Extension } | ForEach-Object {"

  /** The 5 installer lines after the enumeration: register and copy each font. */
  const INSTALLER_LOOP_BODY: seq<string> := [
    "    $value = if ($global) { $_.Name } else { \"$fontInstallDir\\$($_.Name)\" }",
    FONT_TYPE_DEF_LINE,
    "    New-ItemProperty -Path $registryKey -Name $_.Name.Replace($_.Extension, $fontType) -Value $value -Force | Out-Null",
    "    Copy-Item -LiteralPath $_.FullName -Destination $fontInstallDir",
    "}"
  ]

  /** The installer script: 36 lines, line 30 the recursive enumeration. */
  function InstallerScript(filter: string): (script: seq<string>)
    ensures |script| == 36
    ensures script[30] == GetFilesLine(filter, true) + INSTALLER_ENUM_TAIL
  {
    INSTALLER_PRELUDE + [GetFilesLine(filter, true) + INSTALLER_ENUM_TAIL] + INSTALLER_LOOP_BODY
  }

  /** The enumeration tail keeps only `.ttf`, `.otf` and `.ttc` files. */
  lemma EnumTailKeepsFontFiles()
    ensures INSTALLER_ENUM_TAIL
         == " | Where-Object { @(" + "\".ttf\", \".otf\", \".ttc\"" + ") -contains $_.Extension } | ForEach-Object {"
  {
    ExtListLiteral();
  }

  /** The installer's enumeration keeps only `.ttf`, `.otf` and `.ttc` files. */
  lemma InstallerKeepsFontFiles(filter: string)
    ensures InstallerScript(filter)[30]
         == GetFilesLine(filter, true)
            + (" | Where-Object { @(" + "\".ttf\", \".otf\", \".ttc\"" + ") -contains $_.Extension } | ForEach-Object {")
  {
    EnumTailKeepsFontFiles();
  }

  /** Only line 30 of the installer depends on the filter, and it determines the filter. */
  lemma InstallerFilterLine(f: string, g: string)
    ensures forall i :: 0 <= i < 36 && i != 30 ==> InstallerScript(f)[i] == InstallerScript(g)[i]
    ensures InstallerScript(f) == InstallerScript(g) <==> f == g
  {
    if InstallerScript(f) == InstallerScript(g) {
      assert InstallerScript(f)[30] == InstallerScript(g)[30];
      SuffixCancel(GetFilesLine(f, true), GetFilesLine(g, true), INSTALLER_ENUM_TAIL);
      GetFilesLineInjective(f, true, g, true);
    }
  }

  // ---------------------------------------------------------------------
  // The pre-uninstall script.

  const ENUM_LOOP_TAIL := " | ForEach-Object {"

  /** The 23 pre-uninstall lines after the enumeration: try to rename every
      installed copy and stop with an explanation when a font is in use. */
  const PRE_UNINSTALL_BODY: seq<string> := [
    "    Get-ChildItem $fontInstallDir -Filter $_.Name | ForEach-Object {",
    "        try {",
    "            Rename-Item $_.FullName $_.FullName -ErrorVariable LockError -ErrorAction Stop",
    "        } catch {",
    "            Write-Host \"\"",
    "            Write-Host \" Error \" -Background DarkRed -Foreground White -NoNewline",
    "            Write-Host \"\"",
    "            Write-Host \" Cannot uninstall '$app' font.\" -Foreground DarkRed",
    "            Write-Host \"\"",
    "            Write-Host \" Reason \" -Background DarkCyan -Foreground White -NoNewline",
    "            Write-Host \"\"",
    "            Write-Host \" The '$app' font is currently being used by another application,\" -Foreground DarkCyan",
    "            Write-Host \" so it cannot be deleted.\" -Foreground DarkCyan",
    "            Write-Host \"\"",
    "            Write-Host \" Suggestion \" -Background Magenta -Foreground White -NoNewline",
    "            Write-Host \"\"",
    "            Write-Host \" Close all applications that are using '$app' font (e.g. vscode),\" -Foreground Magenta",
    "            Write-Host \" and then try again.\" -Foreground Magenta",
    "            Write-Host \"\"",
    "            exit 1",
    "        }",
    "    }",
    "}"
  ]

  /** The pre-uninstall script: 25 lines, line 1 the non-recursive enumeration. */
  function PreUninstallerScript(filter: string): (script: seq<string>)
    ensures |script| == 25
    ensures script[1] == GetFilesLine(filter, false) + ENUM_LOOP_TAIL
  {
    [FONT_INSTALL_DIR_LINE, GetFilesLine(filter, false) + ENUM_LOOP_TAIL] + PRE_UNINSTALL_BODY
  }

  /** Only line 1 of the pre-uninstall script depends on the filter, and it determines the filter. */
  lemma PreUninstallerFilterLine(f: string, g: string)
    ensures forall i :: 0 <= i < 25 && i != 1 ==> PreUninstallerScript(f)[i] == PreUninstallerScript(g)[i]
    ensures PreUninstallerScript(f) == PreUninstallerScript(g) <==> f == g
  {
    if PreUninstallerScript(f) == PreUninstallerScript(g) {
      assert PreUninstallerScript(f)[1] == PreUninstallerScript(g)[1];
      SuffixCancel(GetFilesLine(f, false), GetFilesLine(g, false), ENUM_LOOP_TAIL);
      GetFilesLineInjective(f, false, g, false);
    }
  }

  // ---------------------------------------------------------------------
  // The uninstaller script.

  /** The 7 uninstaller lines after the enumeration: unregister and delete
      each font, then tell the user. */
  const UNINSTALLER_BODY: seq<string> := [
    FONT_TYPE_DEF_LINE,
    "    Remove-ItemProperty -Path $registryKey -Name $_.Name.Replace($_.Extension, $fontType) -Force -ErrorAction SilentlyContinue",
    "    Remove-Item \"$fontInstallDir\\$($_.Name)\" -Force -ErrorAction SilentlyContinue",
    "}",
    "if ($cmd -eq \"uninstall\") {",
    "    Write-Host \"The '$app' Font family has been uninstalled and will not be present after restarting your computer.\" -Foreground Magenta",
    "}"
  ]

  /** The uninstaller script: 11 lines, line 3 the recursive enumeration. */
  function UninstallerScript(filter: string): (script: seq<string>)
    ensures |script| == 11
    ensures script[3] == GetFilesLine(filter, true) + ENUM_LOOP_TAIL
  {
    [FONT_INSTALL_DIR_LINE, REGISTRY_ROOT_LINE, REGISTRY_KEY_LINE, GetFilesLine(filter, true) + ENUM_LOOP_TAIL]
    + UNINSTALLER_BODY
  }

  /** Only line 3 of the uninstaller depends on the filter, and it determines the filter. */
  lemma UninstallerFilterLine(f: string, g: string)
    ensures forall i :: 0 <= i < 11 && i != 3 ==> UninstallerScript(f)[i] == UninstallerScript(g)[i]
    ensures UninstallerScript(f) == UninstallerScript(g) <==> f == g
  {
    if UninstallerScript(f) == UninstallerScript(g) {
      assert UninstallerScript(f)[3] == UninstallerScript(g)[3];
      SuffixCancel(GetFilesLine(f, true), GetFilesLine(g, true), ENUM_LOOP_TAIL);
      GetFilesLineInjective(f, true, g, true);
    }
  }

  /** The installer and the uninstaller descend into sub-directories, the
      pre-uninstall check does not. */
  lemma ScriptRecursion(filter: string)
    ensures EndsWith(GetFilesLine(filter, true), RECURSE_FLAG)
         && InstallerScript(filter)[30] == GetFilesLine(filter, true) + INSTALLER_ENUM_TAIL
         && UninstallerScript(filter)[3] == GetFilesLine(filter, true) + ENUM_LOOP_TAIL
    ensures !EndsWith(GetFilesLine(filter, false), RECURSE_FLAG)
         && PreUninstallerScript(filter)[1] == GetFilesLine(filter, false) + ENUM_LOOP_TAIL
  {
    GetFilesLineRecursive(filter, true);
    GetFilesLineRecursive(filter, false);
  }

  // ---------------------------------------------------------------------
  // The manifest.

  /** The manifest of one release asset: homepage and download URLs are built
      from the user, repository, version and file names; the autoupdate URL
      keeps `$version` as literal text for the package manager to fill in. */
  function CreateFontManifest(params: FontManifestParams): (m: Manifest)
    ensures m.version == params.version && m.description == params.description
    ensures m.license == params.license && m.hash == Some(params.hash)
    ensures m.homepage == "https://github.com/" + params.user_name + "/" + params.repository_name
    ensures m.url == Some(m.homepage + "/releases/download/v" + params.version + "/" + params.file_name)
    ensures m.autoupdate == Some(AutoUpdate(Some(m.homepage + "/releases/download/v$version/" + params.autoupdate_file_name)))
    ensures m.checkver == Some("github") && m.architecture == None
    ensures m.installer == Some(ScriptBlock(Some(InstallerScript(params.filter_str))))
    ensures m.uninstaller == Some(ScriptBlock(Some(UninstallerScript(params.filter_str))))
    ensures m.pre_uninstall == Some(PreUninstallerScript(params.filter_str))
  {
    Manifest(
      version := params.version,
      description := params.description,
      homepage := GITHUB_URL + params.user_name + "/" + params.repository_name,
      license := params.license,
      url := Some(GITHUB_URL + params.user_name + "/" + params.repository_name
                  + "/releases/download/v" + params.version + "/" + params.file_name),
      hash := Some(params.hash),
      architecture := None,
      installer := Some(ScriptBlock(Some(InstallerScript(params.filter_str)))),
      uninstaller := Some(ScriptBlock(Some(UninstallerScript(params.filter_str)))),
      pre_uninstall := Some(PreUninstallerScript(params.filter_str)),
      checkver := Some(CHECKVER),
      autoupdate := Some(AutoUpdate(Some(GITHUB_URL + params.user_name + "/" + params.repository_name
                                          + "/releases/download/v$version/" + params.autoupdate_file_name)))
    )
  }

  /** The autoupdate URL does not depend on the version. */
  lemma AutoupdateIgnoresVersion(params: FontManifestParams, version: string)
    ensures CreateFontManifest(params.(version := version)).autoupdate == CreateFontManifest(params).autoupdate
  {
  }

  /** The filter string reaches the manifest only through its three scripts,
      and different filters give different manifests. */
  lemma FilterOnlyAffectsScripts(params: FontManifestParams, filter: string)
    ensures CreateFontManifest(params).(installer := None, uninstaller := None, pre_uninstall := None)
         == CreateFontManifest(params.(filter_str := filter)).(installer := None, uninstaller := None, pre_uninstall := None)
    ensures CreateFontManifest(params) == CreateFontManifest(params.(filter_str := filter))
        <==> params.filter_str == filter
  {
    var m, n := CreateFontManifest(params), CreateFontManifest(params.(filter_str := filter));
    if m == n {
      assert m.installer.value.script.value == n.installer.value.script.value;
      InstallerFilterLine(params.filter_str, filter);
    }
  }
}
