# UserLAnd download utility, modelled in Dafny

The Android app UserLAnd downloads the support files and the root filesystem
it needs to run a Linux distribution. Its `DownloadUtility` class:

- keeps a catalog of `(id, url)` assets. An id is `"namespace:file"`. The catalog starts with six `support:` assets, and `addRequirements("debian")` appends six `debian:` assets.
- decides that an asset must be downloaded when no file exists at `filesDir/namespace/file`.
- before downloading, checks whether wifi is off while a missing asset's id contains `rootfs`. If so, the caller shows a three-button dialog whose buttons resume with `CONTINUE`, `TURN_ON_WIFI` or `CANCEL`.
- filters the catalog to the missing assets and submits one download request per missing asset to the system download service. It returns the service's ids in catalog order.

The model has three modules:

- `Text` (`text.dfy`) holds Kotlin's `split` and `contains`, with the facts the utility needs: split and join are inverse, and `"ns:leaf"` splits into `[ns, leaf]`.
- `Transfer` (`transfer.dfy`) is the system download service. It is a request record and a queue whose `Enqueue` appends a request and returns its position as the id.
- `Downloads` (`download_utility.dfy`) holds the catalog constants and the specification functions (`NeedsUpdate`, `Missing`, `LargeRequirement`, `DownloadRequest`, `Requests`). It also holds the class `DownloadUtility`: its `assets` field is a `seq` that `AddRequirements` reassigns. `CheckIfLargeRequirement` is the early-return loop, and `DownloadRequirements` is the filter loop followed by the submitting loop. Each method is proved against the specification functions.

The platform services are parameters:

- whether wifi is the active network is a `bool`.
- whether a file exists is a function `string -> bool`.
- the download service is a `Transfer.DownloadManager` object.

## Model

| member | source | states |
|---|---|---|
| `Text.Split` | app/src/main/java/tech/ula/utils/DownloadUtility.kt:107 | `split(":")` yields one more piece than there are separators, and no piece contains the separator |
| `Text.JoinSplit` | app/src/main/java/tech/ula/utils/DownloadUtility.kt:107 | joining the pieces of a split with the separator gives back the original id |
| `Text.SplitJoin` | app/src/main/java/tech/ula/utils/DownloadUtility.kt:107 | splitting a join of separator-free pieces gives back exactly those pieces |
| `Text.SplitPair` | app/src/main/java/tech/ula/utils/DownloadUtility.kt:107 | `"ns:leaf".split(":")` is `[ns, leaf]` when neither part contains `:` |
| `Text.Contains` | app/src/main/java/tech/ula/utils/DownloadUtility.kt:57 | Kotlin's `contains`: a text that holds `t` is at least as long as `t`, and every text contains the empty string |
| `Text.ContainsAt` | app/src/main/java/tech/ula/utils/DownloadUtility.kt:57 | `contains("rootfs")` holds iff the text occurs at some position of the id |
| `Downloads.WifiChoiceResult` | app/src/main/java/tech/ula/utils/DownloadUtility.kt:70-84 | positive button gives `CONTINUE`, negative gives `TURN_ON_WIFI`, neutral gives `CANCEL`, each as an if-and-only-if |
| `Downloads.WifiChoiceResultInvertible` | app/src/main/java/tech/ula/utils/DownloadUtility.kt:21-25 | the three codes 0, 1, 2 are pairwise distinct, and the button can be recovered from the code |
| `Downloads.AssetIdOf` | app/src/main/java/tech/ula/utils/DownloadUtility.kt:28-44 | an id built as namespace, `:`, file name has exactly one separator, at the end of the namespace |
| `Downloads.SupportAssetsWellFormed` | app/src/main/java/tech/ula/utils/DownloadUtility.kt:28-35 | every support id has exactly one `:` |
| `Downloads.DebianAssetsWellFormed` | app/src/main/java/tech/ula/utils/DownloadUtility.kt:37-44 | every Debian id has exactly one `:` |
| `Downloads.SplitAssetId` | app/src/main/java/tech/ula/utils/DownloadUtility.kt:107 | an id with exactly one `:` splits into the text before it and the text after it |
| `Downloads.AssetPath` | app/src/main/java/tech/ula/utils/DownloadUtility.kt:107-108 | the id has no local path (the destructuring throws) exactly when it contains no `:` |
| `Downloads.NeedsUpdate` | app/src/main/java/tech/ula/utils/DownloadUtility.kt:106-111 | the check fails (throws) exactly for ids without `:` |
| `Downloads.NeedsUpdateOfId` | app/src/main/java/tech/ula/utils/DownloadUtility.kt:106-111 | for `ns:leaf` the result is "update needed" iff `filesDir/ns/leaf` does not exist; no other signal is consulted |
| `Downloads.NeedsUpdateIgnoresExtraPieces` | app/src/main/java/tech/ula/utils/DownloadUtility.kt:107 | pieces after the second are ignored: `ns:leaf:more` is checked at the same path as `ns:leaf` |
| `Downloads.StaleOfAssetId` | app/src/main/java/tech/ula/utils/DownloadUtility.kt:106-111 | a well-formed id never throws in the check |
| `Downloads.Filter` | app/src/main/java/tech/ula/utils/DownloadUtility.kt:115 | Kotlin's `filter` never yields more elements than its input has |
| `Downloads.FilterMembers` | app/src/main/java/tech/ula/utils/DownloadUtility.kt:115 | an element is in the filtered list iff it is in the input and satisfies the predicate |
| `Downloads.FilterAppend` | app/src/main/java/tech/ula/utils/DownloadUtility.kt:115 | filtering keeps order: the result for `xs + ys` is the result for `xs` followed by the result for `ys` |
| `Downloads.FilterNone` | app/src/main/java/tech/ula/utils/DownloadUtility.kt:115 | when no element satisfies the predicate the result is empty |
| `Downloads.FilterAll` | app/src/main/java/tech/ula/utils/DownloadUtility.kt:115 | when every element satisfies the predicate the result is the whole input, in order |
| `Downloads.Missing` | app/src/main/java/tech/ula/utils/DownloadUtility.kt:114-118 | the filter never yields more assets than the catalog has |
| `Downloads.MissingMembers` | app/src/main/java/tech/ula/utils/DownloadUtility.kt:114-118 | an asset is in the filtered list iff it is in the catalog and needs updating |
| `Downloads.MissingOne` | app/src/main/java/tech/ula/utils/DownloadUtility.kt:115-118 | a single asset passes the filter exactly when it needs updating |
| `Downloads.MissingAppend` | app/src/main/java/tech/ula/utils/DownloadUtility.kt:114-118 | the filter keeps catalog order: the result for `xs + ys` is the result for `xs` followed by the result for `ys` |
| `Downloads.MissingSnoc` | app/src/main/java/tech/ula/utils/DownloadUtility.kt:114-118 | appending one asset to the catalog appends it to the missing assets exactly when it needs updating |
| `Downloads.MissingWhenAllPresent` | app/src/main/java/tech/ula/utils/DownloadUtility.kt:113-123 | when every catalog entry is present locally nothing is missing, so nothing is submitted |
| `Downloads.MissingWhenNonePresent` | app/src/main/java/tech/ula/utils/DownloadUtility.kt:113-118 | when no file exists every asset of a well-formed catalog is missing, in catalog order |
| `Downloads.FreshDebianInstallNeedsEverything` | app/src/main/java/tech/ula/utils/DownloadUtility.kt:28-48 | on a fresh install with the Debian assets added, all twelve assets (six support, six Debian) are missing |
| `Downloads.IsLarge` | app/src/main/java/tech/ula/utils/DownloadUtility.kt:57 | an asset is large iff `rootfs` occurs at some position of its whole id (namespace included, not only the file name) |
| `Downloads.LargeRequirementOfMissing` | app/src/main/java/tech/ula/utils/DownloadUtility.kt:53-63 | the gate holds iff wifi is off and some missing asset's id contains `rootfs`; with wifi on it never holds |
| `Downloads.SomeAppend` | app/src/main/java/tech/ula/utils/DownloadUtility.kt:55-60 | an element satisfying a test occurs in `xs + ys` iff it occurs in `xs` or in `ys` |
| `Downloads.LargeRequirementAppend` | app/src/main/java/tech/ula/utils/DownloadUtility.kt:55-60 | the scan over a concatenated catalog succeeds iff it succeeds over one of the parts |
| `Downloads.NotLargeWithoutF` | app/src/main/java/tech/ula/utils/DownloadUtility.kt:57 | an id without the letter `f` never contains `rootfs` |
| `Downloads.NoGateWithoutF` | app/src/main/java/tech/ula/utils/DownloadUtility.kt:53-63 | a catalog whose ids lack `f` never triggers the dialog |
| `Downloads.SupportCatalogNeverGates` | app/src/main/java/tech/ula/utils/DownloadUtility.kt:28-35 | the support catalog alone never triggers the dialog, whatever the network and files |
| `Downloads.RootfsIsLarge` | app/src/main/java/tech/ula/utils/DownloadUtility.kt:43 | `debian:rootfs.tar.gz` contains `rootfs` |
| `Downloads.SingleLargeAssetGate` | app/src/main/java/tech/ula/utils/DownloadUtility.kt:53-63 | a one-asset catalog holding a large `ns:leaf` gates iff wifi is off and `filesDir/ns/leaf` is absent |
| `Downloads.RootfsGate` | app/src/main/java/tech/ula/utils/DownloadUtility.kt:43 | the archive entry gates iff wifi is off and `filesDir/debian/rootfs.tar.gz` is absent |
| `Downloads.DebianCatalogGate` | app/src/main/java/tech/ula/utils/DownloadUtility.kt:53-63 | with the Debian assets added, the dialog is needed iff wifi is off and `filesDir/debian/rootfs.tar.gz` is absent |
| `Downloads.DownloadRequest` | app/src/main/java/tech/ula/utils/DownloadUtility.kt:91-101 | every request fetches the asset's url and is barred from metered and roaming networks |
| `Downloads.DestinationIdentifiesAsset` | app/src/main/java/tech/ula/utils/DownloadUtility.kt:99-101 | the destination name `UserLAnd:<id>` reads back as the id, so distinct ids get distinct destinations and distinct descriptions |
| `Downloads.Requests` | app/src/main/java/tech/ula/utils/DownloadUtility.kt:119-122 | the map step yields exactly one request per asset |
| `Downloads.RequestsAt` | app/src/main/java/tech/ula/utils/DownloadUtility.kt:119-122 | the k-th request is the request for the k-th asset |
| `Downloads.QueueOfRequests` | app/src/main/java/tech/ula/utils/DownloadUtility.kt:119-122 | a queue holding the old requests followed by each asset's request, in order, is the old queue plus `Requests` |
| `Transfer.DownloadManager.Enqueue` | app/src/main/java/tech/ula/utils/DownloadUtility.kt:103 | the service appends the request and returns a fresh id; earlier requests are untouched |
| `Downloads.DownloadUtility.constructor` | app/src/main/java/tech/ula/utils/DownloadUtility.kt:15-35 | a new utility's catalog is exactly `SupportAssets`, the six support assets, in order, and is well formed |
| `Downloads.DownloadUtility.AddRequirements` | app/src/main/java/tech/ula/utils/DownloadUtility.kt:46-51 | `"debian"` appends `DebianAssets`, the six Debian assets, after the unchanged old catalog; any other type leaves it unchanged; the catalog never shrinks and stays well formed |
| `Downloads.DownloadUtility.CheckIfLargeRequirement` | app/src/main/java/tech/ula/utils/DownloadUtility.kt:53-63 | the early-return scan returns exactly `LargeRequirement`: wifi off and some `rootfs` asset missing |
| `Downloads.DownloadUtility.Download` | app/src/main/java/tech/ula/utils/DownloadUtility.kt:91-104 | submits exactly the fixed-policy request for the asset and returns its id |
| `Downloads.DownloadUtility.RequiredAssets` | app/src/main/java/tech/ula/utils/DownloadUtility.kt:114-118 | the filter loop computes `Missing` of the catalog |
| `Downloads.DownloadUtility.DownloadAll` | app/src/main/java/tech/ula/utils/DownloadUtility.kt:119-122 | the map loop appends one request per asset, in order, and returns consecutive fresh ids, one per request |
| `Downloads.DownloadUtility.DownloadRequirements` | app/src/main/java/tech/ula/utils/DownloadUtility.kt:113-123 | the queue grows by exactly the requests for the missing assets, in catalog order; one id is returned per submitted request, in the same order |
| `Downloads.DownloadRequirementsTwice` | app/src/main/java/tech/ula/utils/DownloadUtility.kt:113-123 | two calls with the same files submit the same batch twice, under different ids; nothing is deduplicated |

## Left out

- Connectivity: `isWifiEnabled` queries the platform's connectivity service. It is a boolean parameter here. The crash when there is no active network is platform behaviour and is not modelled.
- File system: `File.exists` and `filesDir` are an existence function over path strings and a string. No caching or timing is modelled.
- Download service: the OS service, `Uri.parse` and `Environment` are a queue of request records. URLs are opaque strings. The `Downloads` directory is an enumeration value. The id of a request is its position in the queue, where the real service hands out its own numbers. The transfer itself is not modelled.
- Wifi dialog: building the dialog, showing it and suspending the coroutine until a button resumes it are UI and coroutine plumbing. Only the button-to-code mapping is modelled. The dialog can also be dismissed without pressing a button, because it is cancelable and has no cancel listener; the coroutine is then never resumed. This is not modelled: the model assumes a button is pressed.
- Version checks: there are none in the source. An existing file counts as up to date, and the model invents nothing more.
- `Downloads.Missing`: an id without `:` makes the source's filter throw, but `Missing` counts such an asset as not missing. The class invariant `Valid()` requires every catalog id to have exactly one `:`, so the methods never reach that case. `NeedsUpdate` models the throw itself as `None`.
- Caller flow: the callers decide what to do with the dialog's code, for example not dispatching after `CANCEL`. They are outside this class and are not modelled.
- Failure reporting: the source has no error reporting for a failed submission and no guard against calling `addRequirements("debian")` twice. A second call appends the Debian assets again, as `AddRequirements` states.
