/**
 The download utility of the Android app: a catalog of (id, url) assets the
 app needs, the check for which of them are missing from the app's private
 files directory, the gate that asks before a large download over a
 non-wifi network, and the dispatch of one download request per missing
 asset.

 The platform services are inputs: whether wifi is the active network is a
 boolean, whether a file exists is a function from paths to booleans, and the
 download service is the queue of `Transfer.DownloadManager`.
 */
module Downloads {
  import opened Text
  import opened Transfer

  datatype Option<T> = None | Some(value: T)

  // ---------------------------------------------------------------------------
  // Wifi dialog
  // ---------------------------------------------------------------------------

  /** Result codes of the wifi dialog. */
  const CONTINUE: int := 0
  const TURN_ON_WIFI: int := 1
  const CANCEL: int := 2

  /** The three buttons of the dialog shown when wifi is off. */
  datatype DialogButton = Positive | Negative | Neutral

  /**
   The code the dialog resumes its caller with: the positive ("download
   anyway") button continues, the negative one asks to turn on wifi, the
   neutral one cancels.
   */
  function WifiChoiceResult(button: DialogButton): (code: int)
    ensures code == CONTINUE <==> button == Positive
    ensures code == TURN_ON_WIFI <==> button == Negative
    ensures code == CANCEL <==> button == Neutral
  {
    match button
    case Positive => CONTINUE
    case Negative => TURN_ON_WIFI
    case Neutral => CANCEL
  }

  /** The button that produces a result code, if any. */
  function ButtonForResult(code: int): Option<DialogButton>
  {
    if code == CONTINUE then Some(Positive)
    else if code == TURN_ON_WIFI then Some(Negative)
    else if code == CANCEL then Some(Neutral)
    else None
  }

  /** The three codes differ, so the caller can always tell which button was pressed. */
  lemma WifiChoiceResultInvertible(button: DialogButton, code: int)
    ensures ButtonForResult(WifiChoiceResult(button)) == Some(button)
    ensures ButtonForResult(code) == Some(button) ==> WifiChoiceResult(button) == code
    ensures CONTINUE != TURN_ON_WIFI && TURN_ON_WIFI != CANCEL && CONTINUE != CANCEL
  {
  }

  // ---------------------------------------------------------------------------
  // Asset catalog
  // ---------------------------------------------------------------------------

  /** One required file: an id `"namespace:leaf"` and the url it is fetched from. */
  datatype Asset = Asset(id: string, url: string)

  /** Separator between the namespace (a subdirectory) and the file name in an id. */
  const IdSeparator: char := ':'

  /** The id `"ns:leaf"` of the file `leaf` stored in subdirectory `ns`. */
  function AssetId(ns: string, leaf: string): string
  {
    ns + [IdSeparator] + leaf
  }

  /** Storage bucket every asset is fetched from. */
  const Bucket: string := "https://s3-us-west-2.amazonaws.com/tech.ula.us.west.oregon/"

  /** Assets every install needs. */
  const SupportAssets: seq<Asset> := [
    Asset(AssetId("support", "proot"), Bucket + "mainSupport/arm/proot"),
    Asset(AssetId("support", "busybox"), Bucket + "mainSupport/arm/busybox"),
    Asset(AssetId("support", "libtalloc.so.2"), Bucket + "mainSupport/arm/libtalloc.so.2"),
    Asset(AssetId("support", "execInProot.sh"), Bucket + "mainSupport/main/execInProot.sh"),
    Asset(AssetId("support", "killProcTree.sh"), Bucket + "mainSupport/main/killProcTree.sh"),
    Asset(AssetId("support", "isServerInProcTree.sh"), Bucket + "mainSupport/main/isServerInProcTree.sh")
  ]

  /** Assets a Debian filesystem needs in addition; the last one is the root filesystem archive. */
  const DebianAssets: seq<Asset> := [
    Asset(AssetId("debian", "startSSHServer.sh"), Bucket + "debianSupport/main/startSSHServer.sh"),
    Asset(AssetId("debian", "extractFilesystem.sh"), Bucket + "debianSupport/main/extractFilesystem.sh"),
    Asset(AssetId("debian", "busybox"), Bucket + "debianSupport/arm/busybox"),
    Asset(AssetId("debian", "libdisableselinux.so"), Bucket + "debianSupport/arm/libdisableselinux.so"),
    Asset(AssetId("debian", "ld.so.preload"), Bucket + "debianSupport/main/ld.so.preload"),
    Asset(AssetId("debian", "rootfs.tar.gz"), Bucket + "debianSupport/arm/rootfs.tar.gz")
  ]

  /** Position `k` of `id` holds the separator and no other position does. */
  predicate SeparatorAt(id: string, k: int)
  {
    0 <= k < |id| && id[k] == IdSeparator && IdSeparator !in id[..k] && IdSeparator !in id[k + 1..]
  }

  /** An id with exactly one separator, so it splits into a namespace and a file name. */
  predicate IsAssetId(id: string)
  {
    exists k :: 0 <= k < |id| && SeparatorAt(id, k)
  }

  /** Every id of a catalog is well formed. */
  predicate WellFormedCatalog(assets: seq<Asset>)
  {
    forall i :: 0 <= i < |assets| ==> IsAssetId(assets[i].id)
  }

  /** A separator-free namespace and file name make a well-formed id, separated at the namespace's end. */
  lemma AssetIdOf(ns: string, leaf: string)
    requires IdSeparator !in ns && IdSeparator !in leaf
    ensures SeparatorAt(AssetId(ns, leaf), |ns|) && IsAssetId(AssetId(ns, leaf))
  {
    var id := AssetId(ns, leaf);
    assert id[..|ns|] == ns && id[|ns| + 1..] == leaf;
    assert SeparatorAt(id, |ns|);
  }

  /** A well-formed id splits at its separator into exactly the namespace and the file name. */
  lemma SplitAssetId(id: string, k: int)
    requires SeparatorAt(id, k)
    ensures Split(id, IdSeparator) == [id[..k], id[k + 1..]]
  {
    assert id == id[..k] + [IdSeparator] + id[k + 1..];
    SplitPair(id[..k], id[k + 1..], IdSeparator);
  }

  /** Neither the separator nor the letter `f` occurs in the namespaces or file names of the support assets. */
  lemma SupportNamesWithout(c: char)
    requires c == IdSeparator || c == 'f'
    ensures c !in "support" && c !in "proot" && c !in "busybox" && c !in "libtalloc.so.2"
    ensures c !in "execInProot.sh" && c !in "killProcTree.sh" && c !in "isServerInProcTree.sh"
  {
  }

  /** Neither the separator nor `f` occurs in the Debian namespace or its file names before the archive. */
  lemma DebianNamesWithout(c: char)
    requires c == IdSeparator || c == 'f'
    ensures c !in "debian" && c !in "startSSHServer.sh" && c !in "extractFilesystem.sh" && c !in "busybox"
    ensures c !in "libdisableselinux.so" && c !in "ld.so.preload"
    ensures c == IdSeparator ==> c !in "rootfs.tar.gz"
  {
  }

  /** Every support asset id has exactly one separator. */
  lemma SupportAssetsWellFormed()
    ensures WellFormedCatalog(SupportAssets)
  {
    SupportNamesWithout(IdSeparator);
    AssetIdOf("support", "proot");
    AssetIdOf("support", "busybox");
    AssetIdOf("support", "libtalloc.so.2");
    AssetIdOf("support", "execInProot.sh");
    AssetIdOf("support", "killProcTree.sh");
    AssetIdOf("support", "isServerInProcTree.sh");
  }

  /** Every Debian asset id has exactly one separator. */
  lemma DebianAssetsWellFormed()
    ensures WellFormedCatalog(DebianAssets)
  {
    DebianNamesWithout(IdSeparator);
    AssetIdOf("debian", "startSSHServer.sh");
    AssetIdOf("debian", "extractFilesystem.sh");
    AssetIdOf("debian", "busybox");
    AssetIdOf("debian", "libdisableselinux.so");
    AssetIdOf("debian", "ld.so.preload");
    AssetIdOf("debian", "rootfs.tar.gz");
  }

  /** Appending a well-formed catalog to a well-formed catalog keeps it well formed. */
  lemma WellFormedAppend(xs: seq<Asset>, ys: seq<Asset>)
    requires WellFormedCatalog(xs) && WellFormedCatalog(ys)
    ensures WellFormedCatalog(xs + ys)
  {
    forall i | 0 <= i < |xs + ys|
      ensures IsAssetId((xs + ys)[i].id)
    {
      if i >= |xs| {
        assert (xs + ys)[i] == ys[i - |xs|];
      }
    }
  }

  // ---------------------------------------------------------------------------
  // Staleness check
  // ---------------------------------------------------------------------------

  /**
   The local path of an asset: the id is split at the separator and the first
   two pieces name the subdirectory of `filesDir` and the file. An id without
   a separator has no second piece; in the app that destructuring throws,
   here it is `None`. Pieces after the second are ignored, as in the app.
   */
  function AssetPath(filesDir: string, id: string): (path: Option<string>)
    ensures path.None? <==> IdSeparator !in id
  {
    var parts := Split(id, IdSeparator);
    if |parts| < 2 then None
    else Some(filesDir + "/" + parts[0] + "/" + parts[1])
  }

  /**
   Whether the asset must be downloaded: exactly when no file exists at its
   local path. Presence alone counts; there is no version check. `None` is the
   exception thrown for an id without a separator.
   */
  function NeedsUpdate(fileExists: string -> bool, filesDir: string, id: string): (r: Option<bool>)
    ensures r.None? <==> IdSeparator !in id
  {
    match AssetPath(filesDir, id)
    case None => None
    case Some(path) => Some(!fileExists(path))
  }

  /** For `"ns:leaf"` the check asks the file system about `filesDir/ns/leaf` and nothing else. */
  lemma NeedsUpdateOfId(fileExists: string -> bool, filesDir: string, ns: string, leaf: string)
    requires IdSeparator !in ns && IdSeparator !in leaf
    ensures NeedsUpdate(fileExists, filesDir, AssetId(ns, leaf))
         == Some(!fileExists(filesDir + "/" + ns + "/" + leaf))
  {
    SplitPair(ns, leaf, IdSeparator);
  }

  /** Only the first two pieces matter: `"ns:leaf:more"` is checked at the same path as `"ns:leaf"`. */
  lemma NeedsUpdateIgnoresExtraPieces(fileExists: string -> bool, filesDir: string, ns: string, leaf: string, more: string)
    requires IdSeparator !in ns && IdSeparator !in leaf
    ensures NeedsUpdate(fileExists, filesDir, ns + [IdSeparator] + leaf + [IdSeparator] + more)
         == NeedsUpdate(fileExists, filesDir, AssetId(ns, leaf))
  {
    var d := IdSeparator;
    assert ns + [d] + leaf + [d] + more == ns + [d] + (leaf + [d] + more);
    SplitAfterPrefix(ns, leaf + [d] + more, d);
    SplitAfterPrefix(leaf, more, d);
    NeedsUpdateOfId(fileExists, filesDir, ns, leaf);
  }

  /** The asset with this id is missing locally. */
  predicate Stale(fileExists: string -> bool, filesDir: string, id: string)
  {
    NeedsUpdate(fileExists, filesDir, id) == Some(true)
  }

  /** A well-formed id can always be checked, and it is stale exactly when the check says so. */
  lemma StaleOfAssetId(fileExists: string -> bool, filesDir: string, id: string)
    requires IsAssetId(id)
    ensures NeedsUpdate(fileExists, filesDir, id).Some?
    ensures Stale(fileExists, filesDir, id) == NeedsUpdate(fileExists, filesDir, id).value
  {
    var k :| 0 <= k < |id| && SeparatorAt(id, k);
    assert id[k] == IdSeparator;
  }

  /** Kotlin's `filter` on a list of assets: those that satisfy `keep`, in their original order. */
  function Filter(assets: seq<Asset>, keep: Asset -> bool): (r: seq<Asset>)
    ensures |r| <= |assets|
  {
    if assets == [] then []
    else (if keep(assets[0]) then [assets[0]] else []) + Filter(assets[1..], keep)
  }

  /** An asset survives the filter exactly when it is in the list and satisfies `keep`. */
  lemma {:induction false} FilterMembers(assets: seq<Asset>, keep: Asset -> bool, a: Asset)
    ensures a in Filter(assets, keep) <==> a in assets && keep(a)
  {
    if assets != [] {
      FilterMembers(assets[1..], keep, a);
      assert assets == [assets[0]] + assets[1..];
    }
  }

  /** Filtering keeps order: the result for a concatenation is the result for each part, in turn. */
  lemma {:induction false} FilterAppend(xs: seq<Asset>, ys: seq<Asset>, keep: Asset -> bool)
    ensures Filter(xs + ys, keep) == Filter(xs, keep) + Filter(ys, keep)
  {
    if xs != [] {
      assert (xs + ys)[0] == xs[0] && (xs + ys)[1..] == xs[1..] + ys;
      FilterAppend(xs[1..], ys, keep);
    } else {
      assert xs + ys == ys;
    }
  }

  /** Nothing survives when no element satisfies `keep`. */
  lemma {:induction false} FilterNone(assets: seq<Asset>, keep: Asset -> bool)
    requires forall i :: 0 <= i < |assets| ==> !keep(assets[i])
    ensures Filter(assets, keep) == []
  {
    if assets != [] {
      assert forall i :: 0 <= i < |assets[1..]| ==> assets[1..][i] == assets[i + 1];
      FilterNone(assets[1..], keep);
    }
  }

  /** Everything survives, in order, when every element satisfies `keep`. */
  lemma {:induction false} FilterAll(assets: seq<Asset>, keep: Asset -> bool)
    requires forall i :: 0 <= i < |assets| ==> keep(assets[i])
    ensures Filter(assets, keep) == assets
  {
    if assets != [] {
      assert forall i :: 0 <= i < |assets[1..]| ==> assets[1..][i] == assets[i + 1];
      FilterAll(assets[1..], keep);
      assert [assets[0]] + assets[1..] == assets;
    }
  }

  /** The test dispatching filters the catalog by: the asset's local copy is absent. */
  function StaleOf(fileExists: string -> bool, filesDir: string): Asset -> bool
  {
    (a: Asset) => Stale(fileExists, filesDir, a.id)
  }

  /**
   The assets of the catalog that must be downloaded, in catalog order: the
   `filter` step of dispatching.
   */
  function Missing(assets: seq<Asset>, fileExists: string -> bool, filesDir: string): (r: seq<Asset>)
    ensures |r| <= |assets|
  {
    Filter(assets, StaleOf(fileExists, filesDir))
  }

  /** An asset is among the missing ones exactly when it is in the catalog and stale. */
  lemma MissingMembers(assets: seq<Asset>, fileExists: string -> bool, filesDir: string, a: Asset)
    ensures a in Missing(assets, fileExists, filesDir) <==> a in assets && Stale(fileExists, filesDir, a.id)
  {
    FilterMembers(assets, StaleOf(fileExists, filesDir), a);
  }

  /** A one-asset catalog is missing that asset exactly when it is stale. */
  lemma MissingOne(a: Asset, fileExists: string -> bool, filesDir: string)
    ensures Missing([a], fileExists, filesDir) == if Stale(fileExists, filesDir, a.id) then [a] else []
  {
    assert [a][1..] == [];
  }

  /** The missing assets of a concatenation are those of each part, in turn. */
  lemma MissingAppend(xs: seq<Asset>, ys: seq<Asset>, fileExists: string -> bool, filesDir: string)
    ensures Missing(xs + ys, fileExists, filesDir)
         == Missing(xs, fileExists, filesDir) + Missing(ys, fileExists, filesDir)
  {
    FilterAppend(xs, ys, StaleOf(fileExists, filesDir));
  }

  /** Appending one asset to the catalog appends it to the missing ones exactly when it is stale. */
  lemma MissingSnoc(xs: seq<Asset>, a: Asset, fileExists: string -> bool, filesDir: string)
    ensures Missing(xs + [a], fileExists, filesDir)
         == Missing(xs, fileExists, filesDir) + if Stale(fileExists, filesDir, a.id) then [a] else []
  {
    MissingAppend(xs, [a], fileExists, filesDir);
    MissingOne(a, fileExists, filesDir);
  }

  /** When every catalog entry is present locally nothing is missing. */
  lemma MissingWhenAllPresent(assets: seq<Asset>, fileExists: string -> bool, filesDir: string)
    requires forall i :: 0 <= i < |assets| ==> !Stale(fileExists, filesDir, assets[i].id)
    ensures Missing(assets, fileExists, filesDir) == []
  {
    FilterNone(assets, StaleOf(fileExists, filesDir));
  }

  /** When no file exists every asset of a well-formed catalog is missing, in the same order. */
  lemma MissingWhenNonePresent(assets: seq<Asset>, filesDir: string)
    requires WellFormedCatalog(assets)
    ensures Missing(assets, _ => false, filesDir) == assets
  {
    forall i | 0 <= i < |assets|
      ensures StaleOf(_ => false, filesDir)(assets[i])
    {
      StaleOfAssetId(_ => false, filesDir, assets[i].id);
    }
    FilterAll(assets, StaleOf(_ => false, filesDir));
  }

  // ---------------------------------------------------------------------------
  // Large-download gate
  // ---------------------------------------------------------------------------

  /** An asset is large when its id mentions the root filesystem archive. */
  predicate IsLarge(a: Asset): (r: bool)
    ensures r <==> exists i :: OccursAt(a.id, "rootfs", i)
  {
    ContainsAt(a.id, "rootfs");
    Contains(a.id, "rootfs")
  }

  /**
   The user must be asked before downloading: wifi is not the active network
   and some large asset of the catalog is missing.
   */
  predicate LargeRequirement(assets: seq<Asset>, wifiEnabled: bool, fileExists: string -> bool, filesDir: string)
  {
    !wifiEnabled &&
    exists i :: 0 <= i < |assets| && IsLarge(assets[i]) && Stale(fileExists, filesDir, assets[i].id)
  }

  /** The gate is a property of the required set: it holds iff wifi is off and a missing asset is large. */
  lemma LargeRequirementOfMissing(assets: seq<Asset>, wifiEnabled: bool, fileExists: string -> bool, filesDir: string)
    ensures LargeRequirement(assets, wifiEnabled, fileExists, filesDir)
        <==> !wifiEnabled && exists a :: a in Missing(assets, fileExists, filesDir) && IsLarge(a)
    ensures wifiEnabled ==> !LargeRequirement(assets, wifiEnabled, fileExists, filesDir)
  {
    var r := Missing(assets, fileExists, filesDir);
    if LargeRequirement(assets, wifiEnabled, fileExists, filesDir) {
      var i :| 0 <= i < |assets| && IsLarge(assets[i]) && Stale(fileExists, filesDir, assets[i].id);
      MissingMembers(assets, fileExists, filesDir, assets[i]);
    }
    if !wifiEnabled && exists a :: a in r && IsLarge(a) {
      var a :| a in r && IsLarge(a);
      MissingMembers(assets, fileExists, filesDir, a);
      var i :| 0 <= i < |assets| && assets[i] == a;
      assert IsLarge(assets[i]) && Stale(fileExists, filesDir, assets[i].id);
    }
  }

  /** An element satisfying `p` occurs in a concatenation iff it occurs in one of the parts. */
  lemma SomeAppend(xs: seq<Asset>, ys: seq<Asset>, p: Asset -> bool)
    ensures (exists i :: 0 <= i < |xs + ys| && p((xs + ys)[i]))
        <==> (exists i :: 0 <= i < |xs| && p(xs[i])) || (exists i :: 0 <= i < |ys| && p(ys[i]))
  {
    var c := xs + ys;
    if exists i :: 0 <= i < |c| && p(c[i]) {
      var i :| 0 <= i < |c| && p(c[i]);
      if i >= |xs| {
        assert c[i] == ys[i - |xs|];
      }
    }
    if exists i :: 0 <= i < |ys| && p(ys[i]) {
      var i :| 0 <= i < |ys| && p(ys[i]);
      assert c[|xs| + i] == ys[i];
      assert p(c[|xs| + i]);
    }
    if exists i :: 0 <= i < |xs| && p(xs[i]) {
      var i :| 0 <= i < |xs| && p(xs[i]);
      assert c[i] == xs[i];
    }
  }

  /** A catalog entry that makes the dialog necessary: large and stale. */
  function GatesOf(fileExists: string -> bool, filesDir: string): Asset -> bool
  {
    (a: Asset) => IsLarge(a) && Stale(fileExists, filesDir, a.id)
  }

  /** The gate over a concatenation holds iff it holds over one of the parts. */
  lemma LargeRequirementAppend(xs: seq<Asset>, ys: seq<Asset>, wifiEnabled: bool, fileExists: string -> bool, filesDir: string)
    ensures LargeRequirement(xs + ys, wifiEnabled, fileExists, filesDir)
        <==> LargeRequirement(xs, wifiEnabled, fileExists, filesDir) || LargeRequirement(ys, wifiEnabled, fileExists, filesDir)
  {
    SomeAppend(xs, ys, GatesOf(fileExists, filesDir));
  }

  /** An id without the letter `f` cannot mention `rootfs`. */
  lemma NotLargeWithoutF(a: Asset)
    requires 'f' !in a.id
    ensures !IsLarge(a)
  {
    if IsLarge(a) {
      ContainsChar(a.id, "rootfs", 'f');
    }
  }

  /** No support asset id, and no Debian asset id before the archive, contains the letter `f`. */
  lemma ListedIdsWithoutF()
    ensures forall i :: 0 <= i < |SupportAssets| ==> 'f' !in SupportAssets[i].id
    ensures forall i :: 0 <= i < |DebianAssets| - 1 ==> 'f' !in DebianAssets[i].id
  {
    SupportNamesWithout('f');
    DebianNamesWithout('f');
  }

  /** A catalog none of whose ids contains `f` never triggers the dialog. */
  lemma NoGateWithoutF(assets: seq<Asset>, wifiEnabled: bool, fileExists: string -> bool, filesDir: string)
    requires forall i :: 0 <= i < |assets| ==> 'f' !in assets[i].id
    ensures !LargeRequirement(assets, wifiEnabled, fileExists, filesDir)
  {
    forall i | 0 <= i < |assets| ensures !IsLarge(assets[i]) {
      NotLargeWithoutF(assets[i]);
    }
  }

  /** None of the support assets is large, so the base catalog alone never triggers the dialog. */
  lemma SupportCatalogNeverGates(wifiEnabled: bool, fileExists: string -> bool, filesDir: string)
    ensures !LargeRequirement(SupportAssets, wifiEnabled, fileExists, filesDir)
  {
    ListedIdsWithoutF();
    NoGateWithoutF(SupportAssets, wifiEnabled, fileExists, filesDir);
  }

  /** A single large asset `ns:leaf` triggers the dialog exactly when wifi is off and `filesDir/ns/leaf` is absent. */
  lemma SingleLargeAssetGate(a: Asset, ns: string, leaf: string, wifiEnabled: bool, fileExists: string -> bool, filesDir: string)
    requires a.id == AssetId(ns, leaf) && IdSeparator !in ns && IdSeparator !in leaf
    requires IsLarge(a)
    ensures LargeRequirement([a], wifiEnabled, fileExists, filesDir)
        <==> !wifiEnabled && !fileExists(filesDir + "/" + ns + "/" + leaf)
  {
    NeedsUpdateOfId(fileExists, filesDir, ns, leaf);
    assert [a][0] == a;
  }

  /** The root filesystem archive is the large Debian asset. */
  lemma RootfsIsLarge()
    ensures IsLarge(DebianAssets[5])
  {
    var id := DebianAssets[5].id;
    assert OccursAt(id, "rootfs", 7);
    ContainsAt(id, "rootfs");
  }

  /** The root filesystem archive alone triggers the dialog exactly when wifi is off and the archive is absent. */
  lemma RootfsGate(wifiEnabled: bool, fileExists: string -> bool, filesDir: string)
    ensures LargeRequirement([DebianAssets[5]], wifiEnabled, fileExists, filesDir)
        <==> !wifiEnabled && !fileExists(filesDir + "/debian/rootfs.tar.gz")
  {
    RootfsIsLarge();
    DebianNamesWithout(IdSeparator);
    SingleLargeAssetGate(DebianAssets[5], "debian", "rootfs.tar.gz", wifiEnabled, fileExists, filesDir);
    RootfsPath(filesDir);
  }

  /** The local path of the archive, spelled as one literal. */
  lemma RootfsPath(filesDir: string)
    ensures filesDir + "/" + "debian" + "/" + "rootfs.tar.gz" == filesDir + "/debian/rootfs.tar.gz"
  {
    assert "/" + "debian" + "/" + "rootfs.tar.gz" == "/debian/rootfs.tar.gz";
  }

  /**
   With the Debian assets added, the dialog is needed exactly when wifi is off
   and the root filesystem archive is not yet in `filesDir/debian`.
   */
  lemma DebianCatalogGate(wifiEnabled: bool, fileExists: string -> bool, filesDir: string)
    ensures LargeRequirement(SupportAssets + DebianAssets, wifiEnabled, fileExists, filesDir)
        <==> !wifiEnabled && !fileExists(filesDir + "/debian/rootfs.tar.gz")
  {
    var small := DebianAssets[..5];
    ListedIdsWithoutF();
    NoGateWithoutF(SupportAssets, wifiEnabled, fileExists, filesDir);
    NoGateWithoutF(small, wifiEnabled, fileExists, filesDir);
    RootfsGate(wifiEnabled, fileExists, filesDir);
    assert DebianAssets == small + [DebianAssets[5]];
    LargeRequirementAppend(small, [DebianAssets[5]], wifiEnabled, fileExists, filesDir);
    LargeRequirementAppend(SupportAssets, DebianAssets, wifiEnabled, fileExists, filesDir);
  }

  /** A fresh Debian install needs all twelve assets. */
  lemma FreshDebianInstallNeedsEverything(filesDir: string)
    ensures Missing(SupportAssets + DebianAssets, _ => false, filesDir) == SupportAssets + DebianAssets
    ensures |Missing(SupportAssets + DebianAssets, _ => false, filesDir)| == 12
  {
    SupportAssetsWellFormed();
    DebianAssetsWellFormed();
    WellFormedAppend(SupportAssets, DebianAssets);
    MissingWhenNonePresent(SupportAssets + DebianAssets, filesDir);
  }

  // ---------------------------------------------------------------------------
  // Download requests
  // ---------------------------------------------------------------------------

  /** Prefix of the file name every download is stored under. */
  const DestinationPrefix: string := "UserLAnd:"

  /**
   The request submitted for one asset: never over a metered or roaming
   connection, with a visible notification, described by the asset id and
   stored in the public downloads directory under a name made from the id.
   */
  function DownloadRequest(id: string, url: string): (r: Request)
    ensures r.uri == url
    ensures !r.allowedOverMetered && !r.allowedOverRoaming
  {
    Request(
      uri := url,
      allowedNetworkTypes := {Wifi, Mobile},
      allowedOverMetered := false,
      allowedOverRoaming := false,
      description := "Downloading " + id + ".",
      notificationVisibility := Visible,
      destinationDirectory := Downloads,
      destinationName := DestinationPrefix + id)
  }

  /** The requests for a list of assets, one per asset, in order. */
  function Requests(assets: seq<Asset>): (rs: seq<Request>)
    ensures |rs| == |assets|
  {
    if assets == [] then []
    else [RequestFor(assets[0])] + Requests(assets[1..])
  }

  /** The request for one asset. */
  function RequestFor(a: Asset): Request
  {
    DownloadRequest(a.id, a.url)
  }

  /** The `k`-th request is the request for the `k`-th asset. */
  lemma {:induction false} RequestsAt(assets: seq<Asset>, k: int)
    requires 0 <= k < |assets|
    ensures Requests(assets)[k] == RequestFor(assets[k])
  {
    if k > 0 {
      RequestsAt(assets[1..], k - 1);
    }
  }

  /** A queue that holds `queued` followed by the request of each asset in turn is `queued + Requests(assets)`. */
  lemma QueueOfRequests(assets: seq<Asset>, queue: seq<Request>, queued: seq<Request>)
    requires |queue| == |queued| + |assets| && queue[..|queued|] == queued
    requires forall k :: 0 <= k < |assets| ==> queue[|queued| + k] == RequestFor(assets[k])
    ensures queue == queued + Requests(assets)
  {
    forall k | 0 <= k < |queue| ensures queue[k] == (queued + Requests(assets))[k] {
      if k < |queued| {
        assert queue[k] == queue[..|queued|][k];
      } else {
        RequestsAt(assets, k - |queued|);
      }
    }
  }

  /** The asset id a stored download belongs to, read back from its file name. */
  function AssetIdOfDestination(name: string): Option<string>
  {
    if StartsWith(name, DestinationPrefix) then Some(name[|DestinationPrefix|..]) else None
  }

  /**
   The destination name identifies the asset: it reads back as the id, so
   distinct ids never share a destination; the same holds for descriptions.
   */
  lemma DestinationIdentifiesAsset(id: string, url: string, id': string, url': string)
    ensures AssetIdOfDestination(DownloadRequest(id, url).destinationName) == Some(id)
    ensures DownloadRequest(id, url).destinationName == DownloadRequest(id', url').destinationName ==> id == id'
    ensures DownloadRequest(id, url).description == DownloadRequest(id', url').description ==> id == id'
  {
    var name := DownloadRequest(id, url).destinationName;
    assert name[..|DestinationPrefix|] == DestinationPrefix;
    assert name[|DestinationPrefix|..] == id;
    var name' := DownloadRequest(id', url').destinationName;
    assert name'[|DestinationPrefix|..] == id';
    var desc := DownloadRequest(id, url).description;
    var desc' := DownloadRequest(id', url').description;
    if desc == desc' {
      assert |id| == |id'|;
      assert desc[12..12 + |id|] == id;
      assert desc'[12..12 + |id'|] == id';
    }
  }

  // ---------------------------------------------------------------------------
  // The utility object
  // ---------------------------------------------------------------------------

  /** Ids of the requests a dispatch submits: consecutive from the queue length it started at. */
  predicate ConsecutiveIds(ids: seq<DownloadId>, start: nat)
  {
    forall k :: 0 <= k < |ids| ==> ids[k] == start + k
  }

  class DownloadUtility {
    /** Root of the app's private files. */
    const filesDir: string
    /** The system download service. */
    const downloadManager: DownloadManager
    /** The catalog; it starts with the support assets and only ever grows. */
    var assets: seq<Asset>

    ghost predicate Valid()
      reads this
    {
      WellFormedCatalog(assets)
    }

    constructor (filesDir: string, downloadManager: DownloadManager)
      ensures Valid()
      ensures this.filesDir == filesDir && this.downloadManager == downloadManager
      ensures assets == SupportAssets
    {
      this.filesDir := filesDir;
      this.downloadManager := downloadManager;
      assets := SupportAssets;
      SupportAssetsWellFormed();
    }

    /**
     Adds the assets of a filesystem type: `"debian"` appends the Debian
     assets after the current ones; any other type changes nothing.
     */
    method AddRequirements(filesystemType: string)
      requires Valid()
      modifies this
      ensures Valid()
      ensures filesystemType == "debian" ==> assets == old(assets) + DebianAssets
      ensures filesystemType != "debian" ==> assets == old(assets)
      ensures old(assets) <= assets
    {
      if filesystemType == "debian" {
        DebianAssetsWellFormed();
        WellFormedAppend(assets, DebianAssets);
        assets := assets + DebianAssets;
      }
    }

    /**
     Whether to show the wifi dialog: wifi is off and some asset whose id
     mentions `rootfs` is missing. Scans the catalog and stops at the first
     such asset.
     */
    method CheckIfLargeRequirement(wifiEnabled: bool, fileExists: string -> bool) returns (large: bool)
      requires Valid()
      ensures large == LargeRequirement(assets, wifiEnabled, fileExists, filesDir)
    {
      if !wifiEnabled {
        var i := 0;
        while i < |assets|
          invariant 0 <= i <= |assets|
          invariant forall j :: 0 <= j < i ==> !(IsLarge(assets[j]) && Stale(fileExists, filesDir, assets[j].id))
        {
          if Contains(assets[i].id, "rootfs") {
            var needed := NeedsUpdate(fileExists, filesDir, assets[i].id);
            assert needed.Some?;
            if needed.value {
              return true;
            }
          }
          i := i + 1;
        }
      }
      return false;
    }

    /** Submits the request for one asset and returns the id the download service gives it. */
    method Download(id: string, url: string) returns (handle: DownloadId)
      modifies downloadManager
      ensures downloadManager.queue == old(downloadManager.queue) + [DownloadRequest(id, url)]
      ensures handle == |old(downloadManager.queue)|
    {
      var request := DownloadRequest(id, url);
      handle := downloadManager.Enqueue(request);
    }

    /** The `filter` step of dispatching: the missing assets, in catalog order. */
    method RequiredAssets(fileExists: string -> bool) returns (required: seq<Asset>)
      requires Valid()
      ensures required == Missing(assets, fileExists, filesDir)
    {
      required := [];
      var i := 0;
      while i < |assets|
        invariant 0 <= i <= |assets|
        invariant required == Missing(assets[..i], fileExists, filesDir)
      {
        var needed := NeedsUpdate(fileExists, filesDir, assets[i].id);
        StaleOfAssetId(fileExists, filesDir, assets[i].id);
        MissingSnoc(assets[..i], assets[i], fileExists, filesDir);
        assert assets[..i + 1] == assets[..i] + [assets[i]];
        if needed.value {
          required := required + [assets[i]];
        }
        i := i + 1;
      }
      assert assets[..i] == assets;
    }

    /** The `map` step of dispatching: one request per asset, in order, with the ids handed back. */
    method DownloadAll(required: seq<Asset>) returns (handles: seq<DownloadId>)
      modifies downloadManager
      ensures downloadManager.queue == old(downloadManager.queue) + Requests(required)
      ensures |handles| == |required| && ConsecutiveIds(handles, |old(downloadManager.queue)|)
    {
      ghost var queued := downloadManager.queue;
      handles := [];
      var j := 0;
      while j < |required|
        invariant 0 <= j <= |required|
        invariant |downloadManager.queue| == |queued| + j
        invariant downloadManager.queue[..|queued|] == queued
        invariant forall k :: 0 <= k < j ==> downloadManager.queue[|queued| + k] == RequestFor(required[k])
        invariant |handles| == j && ConsecutiveIds(handles, |queued|)
      {
        var handle := Download(required[j].id, required[j].url);
        handles := handles + [handle];
        j := j + 1;
      }
      QueueOfRequests(required, downloadManager.queue, queued);
    }

    /**
     Filters the catalog to the missing assets, then submits one request per
     missing asset in catalog order and returns their ids in the same order.
     Nothing already queued is consulted, so a repeated call submits the same
     requests again.
     */
    method DownloadRequirements(fileExists: string -> bool) returns (handles: seq<DownloadId>)
      requires Valid()
      modifies downloadManager
      ensures downloadManager.queue
           == old(downloadManager.queue) + Requests(Missing(assets, fileExists, filesDir))
      ensures |handles| == |Missing(assets, fileExists, filesDir)|
      ensures ConsecutiveIds(handles, |old(downloadManager.queue)|)
    {
      var required := RequiredAssets(fileExists);
      handles := DownloadAll(required);
    }
  }

  /**
   Dispatching twice without any file appearing in between submits every
   missing asset twice: the utility does not deduplicate.
   */
  method DownloadRequirementsTwice(utility: DownloadUtility, fileExists: string -> bool)
    returns (first: seq<DownloadId>, second: seq<DownloadId>)
    requires utility.Valid()
    modifies utility.downloadManager
    ensures var batch := Requests(Missing(utility.assets, fileExists, utility.filesDir));
      utility.downloadManager.queue == old(utility.downloadManager.queue) + batch + batch
    ensures |first| == |second| && forall k :: 0 <= k < |first| ==> first[k] != second[k]
  {
    first := utility.DownloadRequirements(fileExists);
    second := utility.DownloadRequirements(fileExists);
  }
}
