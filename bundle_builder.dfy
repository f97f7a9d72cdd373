/** CustomCharacterBundleBuilder: which files of a character's folder go into
    its asset bundle, how the folder and the bundle are named, and when a
    build is refused. Paths are strings; the directory listing is given. */
module BundleBuilder {
  import opened Engine

  // ---------------------------------------------------------------------
  // Path.GetExtension and Path.GetFileName
  // ---------------------------------------------------------------------

  /** The directory separators of a Windows editor: '\' and '/'. */
  predicate IsDirectorySeparator(c: char) {
    c == '/' || c == '\\'
  }

  /** The extension found by scanning `path[..i]` from its end: stop with ""
      at a directory separator, and at a '.' return everything from it to the
      end of the path, unless that dot is the path's last character. */
  function ExtensionScan(path: string, i: nat): string
    requires i <= |path|
    decreases i
  {
    if i == 0 then ""
    else if path[i - 1] == '.' then (if i != |path| then path[i - 1..] else "")
    else if IsDirectorySeparator(path[i - 1]) then ""
    else ExtensionScan(path, i - 1)
  }

  /** Path.GetExtension: the extension of the final path component,
      including its dot, or "" when it has none. */
  function GetExtension(path: string): (ext: string)
    ensures ext == "" || (|ext| >= 2 && ext[0] == '.' && |ext| <= |path| && ext == path[|path| - |ext|..])
  {
    ExtensionScanShape(path, |path|);
    ExtensionScan(path, |path|)
  }

  lemma {:induction false} ExtensionScanShape(path: string, i: nat)
    requires i <= |path|
    ensures var ext := ExtensionScan(path, i);
            ext == "" || (|ext| >= 2 && ext[0] == '.' && |ext| <= |path| && ext == path[|path| - |ext|..])
    decreases i
  {
    if i > 0 && path[i - 1] != '.' && !IsDirectorySeparator(path[i - 1]) {
      ExtensionScanShape(path, i - 1);
    }
  }

  /** Index k holds the dot that starts the extension: it is not the last
      character, and after it come neither dots nor directory separators. */
  ghost predicate ExtensionDotAt(path: string, k: int) {
    && 0 <= k < |path| - 1 && path[k] == '.'
    && forall j | k < j < |path| :: path[j] != '.' && !IsDirectorySeparator(path[j])
  }

  /** The scan agrees with the reference definition on every prefix that
      ends at the path's end or just before a dot or separator. */
  lemma {:induction false} ExtensionScanCharacterized(path: string, i: nat)
    requires i <= |path|
    requires forall j | i <= j < |path| :: path[j] != '.' && !IsDirectorySeparator(path[j])
    ensures ExtensionScan(path, i) != "" <==> exists k :: k < i && ExtensionDotAt(path, k)
    ensures forall k | k < i && ExtensionDotAt(path, k) :: ExtensionScan(path, i) == path[k..]
    decreases i
  {
    if i == 0 {
    } else if path[i - 1] == '.' {
      if i != |path| {
        assert ExtensionDotAt(path, i - 1);
        forall k | k < i && ExtensionDotAt(path, k)
          ensures k == i - 1
        {
        }
      } else {
        forall k | k < i && ExtensionDotAt(path, k)
          ensures false
        {
        }
      }
    } else if IsDirectorySeparator(path[i - 1]) {
      forall k | k < i && ExtensionDotAt(path, k)
        ensures false
      {
      }
    } else {
      ExtensionScanCharacterized(path, i - 1);
      forall k | k < i && ExtensionDotAt(path, k)
        ensures k < i - 1
      {
      }
    }
  }

  /** GetExtension finds the extension exactly when the final path
      component has a dot that is not its last character, and then returns
      the path from the component's last dot on. */
  lemma GetExtensionCharacterized(path: string)
    ensures GetExtension(path) != "" <==> exists k :: ExtensionDotAt(path, k)
    ensures forall k | ExtensionDotAt(path, k) :: GetExtension(path) == path[k..]
  {
    ExtensionScanCharacterized(path, |path|);
  }

  /** The length of the final path component of `path[..i]`. */
  function FileNameLength(path: string, i: nat): (n: nat)
    requires i <= |path|
    ensures n <= i
    decreases i
  {
    if i == 0 || IsDirectorySeparator(path[i - 1]) then 0 else FileNameLength(path, i - 1) + 1
  }

  /** Path.GetFileName: the characters after the last directory separator,
      or the whole path when it has none. */
  function GetFileName(path: string): (name: string)
    ensures |name| <= |path| && name == path[|path| - |name|..]
    ensures forall j | 0 <= j < |name| :: !IsDirectorySeparator(name[j])
    ensures |name| < |path| ==> IsDirectorySeparator(path[|path| - |name| - 1])
  {
    FileNameLengthCharacterized(path, |path|);
    path[|path| - FileNameLength(path, |path|)..]
  }

  lemma {:induction false} FileNameLengthCharacterized(path: string, i: nat)
    requires i <= |path|
    ensures forall j | i - FileNameLength(path, i) <= j < i :: !IsDirectorySeparator(path[j])
    ensures FileNameLength(path, i) < i ==> IsDirectorySeparator(path[i - FileNameLength(path, i) - 1])
    decreases i
  {
    if i > 0 && !IsDirectorySeparator(path[i - 1]) {
      FileNameLengthCharacterized(path, i - 1);
    }
  }

  // ---------------------------------------------------------------------
  // BuildBundle: folder path and bundle name (lines 34-38)
  // ---------------------------------------------------------------------

  /** Lines 36-38: the asset path with its file name removed from the end.
      The folder and the file name split the asset path: the folder is a
      prefix that is empty or ends in a separator. */
  function FolderPath(pathToAsset: string): (folder: string)
    ensures folder + GetFileName(pathToAsset) == pathToAsset
    ensures folder <= pathToAsset
    ensures folder == "" || IsDirectorySeparator(folder[|folder| - 1])
  {
    var k := |pathToAsset| - |GetFileName(pathToAsset)|;
    assert pathToAsset[..k] + pathToAsset[k..] == pathToAsset;
    pathToAsset[..k]
  }

  /** Line 34: the bundle is named after the character and the character it
      replaces, joined by '_'; an unset name prints as nothing. */
  function BundleName(characterName: Option<string>, characterToReplace: string): (name: string)
    ensures |name| == |characterName.GetOr("")| + 1 + |characterToReplace|
    ensures name[..|characterName.GetOr("")|] == characterName.GetOr("")
    ensures name[|characterName.GetOr("")|] == '_'
    ensures name[|characterName.GetOr("")| + 1..] == characterToReplace
  {
    characterName.GetOr("") + "_" + characterToReplace
  }

  /** Two characters with the same replacement target and different names
      request different bundle names. This concerns the requested
      assetBundleName string only: Unity lowercases bundle names when it
      builds them, so names that differ only in letter case still collide. */
  lemma BundleNamesDistinguishCharacters(a: string, b: string, replace: string)
    requires a != b
    ensures BundleName(Some(a), replace) != BundleName(Some(b), replace)
  {
    if |a| == |b| {
      assert BundleName(Some(a), replace)[..|a|] == a;
      assert BundleName(Some(b), replace)[..|b|] == b;
    } else {
      assert |BundleName(Some(a), replace)| != |BundleName(Some(b), replace)|;
    }
  }

  // ---------------------------------------------------------------------
  // RecursiveGetAllAssetsInDirectory (lines 66-79)
  // ---------------------------------------------------------------------

  /** A file goes into the bundle unless it is Unity metadata, a script or a
      scene; the extension is compared exactly, so ".CS" is kept. */
  predicate IsBundleAsset(file: string) {
    var ext := GetExtension(file);
    ext != ".meta" && ext != ".cs" && ext != ".unity"
  }

  /** A file is left out exactly when the text from the last dot of its
      final path component is ".meta", ".cs" or ".unity"; a file without
      an extension is kept. */
  lemma IsBundleAssetCharacterized(file: string)
    ensures IsBundleAsset(file) <==>
              forall k | ExtensionDotAt(file, k) :: file[k..] != ".meta" && file[k..] != ".cs" && file[k..] != ".unity"
  {
    GetExtensionCharacterized(file);
  }

  /** The bundle assets among `files`, in their order: everything listed is
      a bundle asset. */
  function AssetsIn(files: seq<string>): (assets: seq<string>)
    ensures |assets| <= |files|
    ensures forall i | 0 <= i < |assets| :: IsBundleAsset(assets[i])
  {
    if files == [] then []
    else (if IsBundleAsset(files[0]) then [files[0]] else []) + AssetsIn(files[1..])
  }

  /** The files from index i on are filtered by deciding file i and then
      filtering the rest. */
  lemma AssetsInStep(files: seq<string>, i: nat)
    requires i < |files|
    ensures AssetsIn(files[i..]) == (if IsBundleAsset(files[i]) then [files[i]] else []) + AssetsIn(files[i + 1..])
  {
    assert files[i..][1..] == files[i + 1..];
  }

  /** The asset list of the directory whose files are listed in `files`
      (Directory.EnumerateFiles is not modelled; its result is the input). */
  method RecursiveGetAllAssetsInDirectory(files: seq<string>) returns (assets: seq<string>)
    ensures assets == AssetsIn(files)
  {
    assets := [];
    for i := 0 to |files|
      invariant assets + AssetsIn(files[i..]) == AssetsIn(files)
    {
      AssetsInStep(files, i);
      var ext := GetExtension(files[i]);
      if ext != ".meta" && ext != ".cs" && ext != ".unity" {
        assets := assets + [files[i]];
      }
    }
    assert files[|files|..] == [];
  }

  /** A path is listed exactly when it is a listed file and a bundle asset. */
  lemma {:induction false} AssetsInMembership(files: seq<string>, f: string)
    ensures f in AssetsIn(files) <==> f in files && IsBundleAsset(f)
  {
    if files != [] {
      AssetsInMembership(files[1..], f);
      assert files == [files[0]] + files[1..];
    }
  }

  /** Each bundle asset is listed once per occurrence among the files, and
      nothing else is listed. */
  lemma {:induction false} AssetsInCounts(files: seq<string>, f: string)
    ensures multiset(AssetsIn(files))[f] == if IsBundleAsset(f) then multiset(files)[f] else 0
  {
    if files != [] {
      AssetsInCounts(files[1..], f);
      assert files == [files[0]] + files[1..];
      assert multiset(files) == multiset([files[0]]) + multiset(files[1..]);
    }
  }

  /** `a` can be obtained from `b` by deleting elements. */
  predicate IsSubsequence<T(==)>(a: seq<T>, b: seq<T>)
    decreases |b|
  {
    if a == [] then true
    else if b == [] then false
    else if a[0] == b[0] then IsSubsequence(a[1..], b[1..])
    else IsSubsequence(a, b[1..])
  }

  /** The asset list keeps the order of the files. */
  lemma {:induction false} AssetsInIsSubsequence(files: seq<string>)
    ensures IsSubsequence(AssetsIn(files), files)
  {
    if files != [] {
      AssetsInIsSubsequence(files[1..]);
      var rest := AssetsIn(files[1..]);
      if IsBundleAsset(files[0]) {
        assert AssetsIn(files)[1..] == rest;
      } else {
        assert AssetsIn(files) == rest;
        if rest != [] {
          AssetsInMembership(files[1..], rest[0]);
          assert rest[0] != files[0];
        }
      }
    }
  }

  /** Files that are already all bundle assets pass through unchanged. */
  lemma {:induction false} AssetsInKeepsAssets(files: seq<string>)
    requires forall i | 0 <= i < |files| :: IsBundleAsset(files[i])
    ensures AssetsIn(files) == files
  {
    if files != [] {
      AssetsInKeepsAssets(files[1..]);
    }
  }

  /** Filtering twice is filtering once. */
  lemma AssetsInIdempotent(files: seq<string>)
    ensures AssetsIn(AssetsIn(files)) == AssetsIn(files)
  {
    AssetsInKeepsAssets(AssetsIn(files));
  }

  // ---------------------------------------------------------------------
  // BuildBundle: the guards and the build it requests (lines 12-41)
  // ---------------------------------------------------------------------

  /** The CharacterDefinition fields the bundle name is built from;
      `characterToReplace` is the printed name of the replaced character. */
  datatype CharacterInfo = CharacterInfo(characterName: Option<string>, characterToReplace: string)

  /** A prefab as BuildBundle sees it: whether it is an asset on disk, its
      asset path, and its CharacterDefinition component if it has one. */
  datatype Prefab = Prefab(persistent: bool, assetPath: string, definition: Option<CharacterInfo>)

  /** Why a build was refused. */
  datatype Rejection = NotOnDisk | NotACharacterDefinition

  /** The AssetBundleBuild handed to the build pipeline. */
  datatype BundleBuild = BundleBuild(assetBundleName: string, assetNames: seq<string>)

  datatype Outcome = Rejected(reason: Rejection) | Requested(build: BundleBuild)

  /** Lines 12-41: refuse a prefab that is not on disk, then one without a
      CharacterDefinition; otherwise request one bundle named after the
      character holding the bundle assets of the prefab's folder. `listing`
      stands for Directory.EnumerateFiles over all subdirectories. */
  method BuildBundle(prefab: Prefab, listing: string -> seq<string>) returns (outcome: Outcome)
    ensures !prefab.persistent ==> outcome == Rejected(NotOnDisk)
    ensures prefab.persistent && prefab.definition.None? ==> outcome == Rejected(NotACharacterDefinition)
    ensures outcome.Requested? <==> prefab.persistent && prefab.definition.Some?
    ensures outcome.Requested? ==>
              && outcome.build.assetBundleName
                   == BundleName(prefab.definition.value.characterName, prefab.definition.value.characterToReplace)
              && outcome.build.assetNames == AssetsIn(listing(FolderPath(prefab.assetPath)))
  {
    if !prefab.persistent {
      return Rejected(NotOnDisk);
    }
    if prefab.definition.None? {
      return Rejected(NotACharacterDefinition);
    }
    var definition := prefab.definition.value;
    var name := definition.characterName.GetOr("") + "_" + definition.characterToReplace;
    var pathToAsset := prefab.assetPath;
    var fileName := GetFileName(pathToAsset);
    var folderPath := pathToAsset[..|pathToAsset| - |fileName|];
    var assets := RecursiveGetAllAssetsInDirectory(listing(folderPath));
    return Requested(BundleBuild(name, assets));
  }
}
