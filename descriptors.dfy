/**
 * The records that flow from scan_directory through classify_file to
 * organize_files. Python passes them as dictionaries
 * whose keys may be missing, so every field is optional here.
 */
module Descriptors {
  import opened Wrappers
  import opened Dicts
  import opened FileSystem

  /** extract_version_info's four-field record. */
  datatype VersionInfo = VersionInfo(
    isVersion: bool,
    versionNumber: Option<string>,
    isDraft: bool,
    isFinal: bool)

  /**
   * A file descriptor, as analyze_file builds it. Dates are the raw timestamps
   * that getmtime/getctime return.
   */
  datatype FileInfo = FileInfo(
    path: Option<Path>,
    name: Option<string>,
    extension: Option<string>,
    size: Option<int>,
    modifiedDate: Option<int>,
    creationDate: Option<int>,
    mimeType: Option<string>,
    versionInfo: Option<VersionInfo>,
    keywords: Option<seq<string>>)

  /** Category key to the descriptors filed under it, in dictionary order. */
  type Buckets = Dict<seq<FileInfo>>
}
