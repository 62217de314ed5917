/**
  The part of Android's package manager that the scan reads: the installed
  packages, each with the permissions it requests and its XML metadata
  resources keyed by metadata name.
 */
module PackageManager {
  import opened Options
  import opened PullParser

  datatype PackageInfo = PackageInfo(
    packageName: string,
    /** Null when the package requests no permissions at all. */
    requestedPermissions: Option<seq<string>>,
    metaData: map<string, seq<Event>>)

  /** A parser over the metadata resource registered under `key`, or null when there is none. */
  function LoadXmlMetaData(info: PackageInfo, key: string): Option<seq<Event>>
  {
    if key in info.metaData then Some(info.metaData[key]) else None
  }
}
