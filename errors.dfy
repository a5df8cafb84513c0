/**
 * The exceptions the catalog raises and the tools catch. `APIError` and the
 * validation errors are declared in modules that are not part of this model
 * (search.py, homemanager.py, nuschtos.py); only the fields the tools read are
 * kept, together with their message where it is not built from those fields.
 */
module Errors {
  import opened Strings

  datatype Error =
    | ApiError(message: string)
    | PackageNotFound(name: string)
    | VersionNotFound(name: string, version: string, available: seq<string>)
    | InvalidChannel(channel: string, available: seq<string>, text: string)
    | InvalidRelease(release: string, available: seq<string>, text: string)
    | InvalidProject(project: string, available: seq<string>, text: string)
    | InvalidLimit(text: string)

  /** `str(e)`: the message each exception was constructed with. */
  function Message(e: Error): (r: string)
    ensures e.PackageNotFound? ==> StartsWith(r, "Package '")
    ensures e.VersionNotFound? ==> StartsWith(r, "Version '")
    ensures e.PackageNotFound? ==> r == "Package '" + e.name + "' not found"
    ensures e.VersionNotFound? ==> r == "Version '" + e.version + "' not found for '" + e.name + "'"
  {
    match e
    case ApiError(m) => m
    case PackageNotFound(name) => "Package '" + name + "' not found"
    case VersionNotFound(name, version, _) => "Version '" + version + "' not found for '" + name + "'"
    case InvalidChannel(_, _, t) => t
    case InvalidRelease(_, _, t) => t
    case InvalidProject(_, _, t) => t
    case InvalidLimit(t) => t
  }
}
