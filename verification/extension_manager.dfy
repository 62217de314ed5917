/**
  Extension discovery: the manifest parser, a state machine driven by pull
  parser events, and the scan that filters the installed packages by the
  extension permission and collects the manifests that parse.
 */
module ExtensionManager {
  import opened Options
  import opened PullParser
  import opened Extensions
  import opened PackageManager

  const ExtensionPermission: string := "com.i906.mpt.permission.MPT_EXTENSION"
  const ExtensionMetadata: string := "com.i906.mpt.extension.ExtensionInfo"

  /** The manifest's root tag and its repeatable child tag. */
  const RootTag: string := "mpt-extension"
  const ScreenTag: string := "screen"

  const NameAttribute: string := "name"
  const AuthorAttribute: string := "author"
  const ViewAttribute: string := "view"

  /**
    What the parser carries from one event to the next: the description built
    so far and the attributes buffered from the latest screen start tag.
   */
  datatype ParseState = ParseState(info: ExtensionInfo, screenName: Option<string>, screenView: Option<string>)

  const InitialState: ParseState := ParseState(Empty, None, None)

  /** One iteration of the parse loop, for an event that neither ends the document nor fails. */
  function Step(packageName: string, st: ParseState, e: Event): ParseState
  {
    match e
    case StartTag(tag, attributes) =>
      var afterRoot :=
        if tag == RootTag then
          st.(info := st.info.(name := AttributeValue(attributes, NameAttribute),
                               author := AttributeValue(attributes, AuthorAttribute)))
        else st;
      if tag == ScreenTag then
        afterRoot.(screenName := AttributeValue(attributes, NameAttribute),
                   screenView := AttributeValue(attributes, ViewAttribute))
      else afterRoot
    case EndTag(tag) =>
      if tag == ScreenTag then
        st.(info := st.info.(screens := st.info.screens + [Screen(packageName, st.screenName, st.screenView)]))
      else st
    case _ => st
  }

  /** The parse loop: consume events until the end of the document; an exception discards everything. */
  function Run(packageName: string, events: seq<Event>, st: ParseState): Option<ExtensionInfo>
    decreases |events|
  {
    if |events| == 0 then Some(st.info)
    else
      match events[0]
      case EndDocument => Some(st.info)
      case ParseError => None
      case _ => Run(packageName, events[1..], Step(packageName, st, events[0]))
  }

  /** The description of package `packageName` read from its metadata parser, or null. */
  function ParseExtensionInfo(packageName: string, parser: Option<seq<Event>>): Option<ExtensionInfo>
  {
    match parser
    case None => None
    case Some(events) => Run(packageName, events, InitialState)
  }

  predicate RequestsExtensionPermission(info: PackageInfo)
  {
    info.requestedPermissions.Some? && ExtensionPermission in info.requestedPermissions.value
  }

  /** What one installed package contributes to the scan, if anything. */
  function Discover(info: PackageInfo): Option<ExtensionInfo>
  {
    if RequestsExtensionPermission(info) then
      ParseExtensionInfo(info.packageName, LoadXmlMetaData(info, ExtensionMetadata))
    else None
  }

  /** Reference definition of the scan: the contributions of the packages, in package order. */
  function DiscoveredExtensions(packages: seq<PackageInfo>): (r: seq<ExtensionInfo>)
    ensures |r| <= |packages|
  {
    if |packages| == 0 then []
    else
      var earlier := DiscoveredExtensions(packages[..|packages| - 1]);
      match Discover(packages[|packages| - 1])
      case Some(ei) => earlier + [ei]
      case None => earlier
  }

  /** The scan over the installed packages; the list starts empty on every call. */
  method GetExtensions(packages: seq<PackageInfo>) returns (list: seq<ExtensionInfo>)
    ensures list == DiscoveredExtensions(packages)
  {
    list := [];
    for i := 0 to |packages|
      invariant list == DiscoveredExtensions(packages[..i])
    {
      var info := packages[i];
      var perms := info.requestedPermissions;
      if perms.Some? && ExtensionPermission in perms.value {
        var parser := LoadXmlMetaData(info, ExtensionMetadata);
        var ei := ParseExtensionInfo(info.packageName, parser);
        if ei.Some? {
          list := list + [ei.value];
        }
      }
      assert packages[..i + 1][..i] == packages[..i];
    }
    assert packages[..|packages|] == packages;
  }
}
