/**
  The description of one extension package, as assembled from its manifest.
  A null `name`, `author`, `Screen.name` or `Screen.view` is `None`.
 */
module Extensions {
  import opened Options

  /** One loadable screen: `apk` is the package that was being scanned, never manifest content. */
  datatype Screen = Screen(apk: string, name: Option<string>, view: Option<string>)

  datatype ExtensionInfo = ExtensionInfo(name: Option<string>, author: Option<string>, screens: seq<Screen>)

  /** A freshly constructed description: no name, no author, no screens. */
  const Empty: ExtensionInfo := ExtensionInfo(None, None, [])
}
