# Extension discovery of the prayer-times host app, in Dafny

This project models the extension discovery in `ExtensionManager`. Other
installed packages extend the host by requesting the permission
`com.i906.mpt.permission.MPT_EXTENSION`. Each one ships an XML manifest under
the metadata key `com.i906.mpt.extension.ExtensionInfo`. Discovery has two parts:

- **The manifest parser** (`parseExtensionInfo`) is a state machine over the
  events of an XML pull parser. The root tag `mpt-extension` supplies the
  extension's `name` and `author`. Each `screen` start tag buffers `name` and
  `view`. Each `screen` end tag appends a `Screen` whose `apk` is the package
  being scanned. A null parser gives null. So does any exception while the
  stream is being read.
- **The scan** (`getExtensions`) walks the installed packages in order. It
  keeps those whose requested permissions exist and contain the extension
  permission. It parses each kept package's manifest and collects the
  results that are not null.

Modules:

- `Options`: `Option`, standing in for a nullable reference.
- `PullParser`: the parser as a sequence of `Event`s. `ParseError` marks the
  point where the parser throws. A sequence that runs out counts as the end
  of the document.
- `Extensions`: `Screen` and `ExtensionInfo`.
- `PackageManager`: an installed package's name, its optional requested
  permissions and its metadata resources.
- `ExtensionManager`: the code itself. `Step` is one loop iteration and `Run`
  is the loop. `ParseExtensionInfo` is the parser and `Discover` handles one
  package. `DiscoveredExtensions` is the scan as a fold, and `GetExtensions`
  is the scan as the loop the source writes.
- `ManifestSpec`: a stateless reference for the parser's output, and the
  proof that the loop computes it. The reference has no state. A screen end
  tag yields a screen built from the most recent screen start tag before it,
  or from nothing. The root attributes come from the last root start tag. The
  module also proves the corollaries: fail-soft, counts, order, unclosed
  screens and ignored tags.
- `DiscoverySpec`: order, composition, origin and completeness of the scan,
  and the binding of every screen to the package whose manifest produced it.

Two behaviours of the code are worth stating plainly, because the model keeps them:

- Every `mpt-extension` start tag overwrites `name` and `author`, with null
  when an attribute is missing, so the last root tag wins
  (ExtensionManager.java:94-96).
- The screen buffer is never cleared (ExtensionManager.java:88-89 and
  :104-107). A `screen` end tag with no new start tag repeats the previous
  screen's name and view, or gives null ones if no screen tag has opened yet.

## Model

| member | source | states |
|---|---|---|
| ManifestSpec.ParseCharacterised | app/src/main/java/com/i906/mpt/extension/ExtensionManager.java:80-119 | The parser returns null exactly when the parser is null or an exception occurs before the end of the document. Otherwise it returns the reference description of the events before the end of the document. |
| ManifestSpec.RunCharacterised | app/src/main/java/com/i906/mpt/extension/ExtensionManager.java:85-116 | Start the loop in the state the reference predicts for any prefix. It ends with null if a parse error comes before END_DOCUMENT. Otherwise it ends with the reference description of that prefix followed by the live events. |
| ManifestSpec.StepAgreesWithSpec | app/src/main/java/com/i906/mpt/extension/ExtensionManager.java:92-110 | One loop iteration moves the predicted state after a prefix to the predicted state after that prefix plus one event. |
| ManifestSpec.Live | app/src/main/java/com/i906/mpt/extension/ExtensionManager.java:91 | The result is exactly the events before the first END_DOCUMENT, or the whole stream if there is none. The loop reads these events up to the first exception; once an exception occurs the result is null, so later events never matter. |
| ManifestSpec.FailSoft | app/src/main/java/com/i906/mpt/extension/ExtensionManager.java:81-118 | The result is null if and only if the parser is null or throws before the end of the document. A partial description is never returned. |
| ManifestSpec.ScreensMatchCloseTags | app/src/main/java/com/i906/mpt/extension/ExtensionManager.java:102-109 | The number of screens equals the number of `screen` END_TAG events before END_DOCUMENT. Every screen's `apk` is the scanned package name, whatever the manifest says. |
| ManifestSpec.ExpectedScreensIndexed | app/src/main/java/com/i906/mpt/extension/ExtensionManager.java:98-109 | The screen end tag at position j produces the screen at index "number of screen end tags before j". That screen is built from the latest screen start tag before j. |
| ManifestSpec.ScreensInCloseOrder | app/src/main/java/com/i906/mpt/extension/ExtensionManager.java:88-109 | In a parsed manifest, screens appear in the document order of their end tags and duplicates are kept. Each screen carries the buffer of the latest screen start tag, which is never cleared. With no start tag before it, the name and view are null. |
| ManifestSpec.UnclosedScreenContributesNothing | app/src/main/java/com/i906/mpt/extension/ExtensionManager.java:98-111 | A `screen` start tag with no `screen` end tag after it before the end of the document adds no screen, whatever follows the end of the document. |
| ManifestSpec.RootAttributesLastWins | app/src/main/java/com/i906/mpt/extension/ExtensionManager.java:92-97 | `name` and `author` are the attributes of the last `mpt-extension` start tag. With no such tag they stay null. |
| ManifestSpec.InertEventIgnored | app/src/main/java/com/i906/mpt/extension/ExtensionManager.java:92-110 | Inserting an event anywhere leaves the result unchanged when that event is one of: a start tag other than `mpt-extension` or `screen`, an end tag other than `screen`, text, or a start of document. |
| ManifestSpec.ManifestExample | app/src/main/java/com/i906/mpt/extension/ExtensionManager.java:81-118 | A root tag (Foo, Bar) with screens (A, x.A) and (B, x.B) parses to exactly that description. Both screens are bound to the scanned package, in order. |
| ManifestSpec.StickyBufferExample | app/src/main/java/com/i906/mpt/extension/ExtensionManager.java:88-108 | A concrete stream: an end tag before any start tag gives a screen with null name and view. A repeated end tag repeats the last screen. A second root tag overwrites `name` and `author`. |
| ExtensionManager.DiscoveredExtensions | app/src/main/java/com/i906/mpt/extension/ExtensionManager.java:45-55 | The scan reports at most one extension per installed package. |
| ExtensionManager.GetExtensions | app/src/main/java/com/i906/mpt/extension/ExtensionManager.java:38-58 | The loop starts from an empty list on every call and returns exactly `DiscoveredExtensions` of the packages. So repeated calls on the same packages give equal results, and the lemmas about the fold apply to the loop. |
| DiscoverySpec.DiscoverCharacterised | app/src/main/java/com/i906/mpt/extension/ExtensionManager.java:46-53 | A package contributes if and only if three things hold: it requests the extension permission (non-null list containing it), it has the metadata resource, and its manifest parses. What it contributes is the reference description bound to its own package name. |
| DiscoverySpec.DiscoveredAppend | app/src/main/java/com/i906/mpt/extension/ExtensionManager.java:45-55 | Scanning two runs of packages gives the first run's extensions followed by the second's. Package order is kept. |
| DiscoverySpec.FailureIsIsolated | app/src/main/java/com/i906/mpt/extension/ExtensionManager.java:48-53 | A package that contributes nothing removes only itself from the result. This covers a missing permission, missing metadata or a broken manifest. |
| DiscoverySpec.DiscoveredOrigin | app/src/main/java/com/i906/mpt/extension/ExtensionManager.java:45-55 | Every reported extension is the parse result of some installed package. |
| DiscoverySpec.DiscoveredComplete | app/src/main/java/com/i906/mpt/extension/ExtensionManager.java:45-55 | Every package whose discovery succeeds has its extension in the result. |
| DiscoverySpec.ScreensBoundToOrigin | app/src/main/java/com/i906/mpt/extension/ExtensionManager.java:48-53 | Every extension in the scan result comes from one installed package that requested the extension permission, and every screen of that extension names that same package as its `apk`. A manifest cannot bind a screen to another package. |

## Left out

- `getPrayerView` (ExtensionManager.java:60-78) is not modelled. It loads a class by reflection through a `PathClassLoader` and a restricted package context. These are platform calls with no counterpart here.
- `PrayerManager.java` is not modelled. It is a reactive pipeline with schedulers, an atomic loading flag, floating-point distances and a network client.
- `ExtensionInfo.java` is not part of this model. The fields of `ExtensionInfo` and `Screen` are inferred from their use at ExtensionManager.java:95-108, and a new `ExtensionInfo` is taken to start with null name and author and an empty screen list.
- Android I/O becomes input: `getInstalledPackages` becomes the package sequence, and `loadXmlMetaData` becomes a lookup in each package's metadata map.
- Attribute namespaces are not modelled. Attributes are a map from local name to value, matching `getAttributeValue(null, key)` on manifests without namespaced duplicates.
- Event kinds other than start and end of document, start tag, end tag and failure are not told apart. They are all `Text`, which the loop ignores.
- An exception raised outside the parse, for instance by `loadXmlMetaData` or a null `applicationInfo` in `getExtensions`, would escape the scan. It is not modelled, because the package records here are total.
- Null entries in the requested-permission array are not modelled. They can never equal the permission, so they do not change the filter.
- The `mExtensionList` field, which also keeps the last result, plus the `printStackTrace` logging and the dependency-injection annotations are not modelled. Only the returned value is.
