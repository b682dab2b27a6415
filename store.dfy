/** The remote blob container as the client sees it: a flat map from blob
    names to contents, the error kinds the service reports, and what a
    single delete request does to the map. */
module Store {
  import opened Wrappers
  import opened Text

  newtype byte = b: int | 0 <= b < 256

  type Blobs = map<string, seq<byte>>

  /** The error kinds the client tells apart: `ResourceNotFoundError`,
      `ResourceExistsError`, an `HttpResponseError` whose code is
      "DirectoryNotEmpty", and every other error (`code` names it). */
  datatype StoreError = NotFound | Exists | DirectoryNotEmpty | Other(code: string)

  /** The error an upload of `name` reports. Uploading into a missing
      container is refused as not found; with `overwrite` off an existing
      blob is refused as already existing. */
  function UploadError(containerExists: bool, blobs: Blobs, name: string, overwrite: bool): (r: Option<StoreError>)
    ensures r.None? <==> containerExists && (overwrite || name !in blobs)
  {
    if !containerExists then Some(NotFound)
    else if !overwrite && name in blobs then Some(Exists)
    else None
  }

  /** The error a delete of `name` reports: not found when the blob is
      absent, otherwise the failure `faults` records for it, if any. */
  function DeleteError(blobs: Blobs, faults: map<string, StoreError>, name: string): (r: Option<StoreError>)
    ensures r.None? <==> name in blobs && name !in faults
  {
    if name !in blobs then Some(NotFound)
    else if name in faults then Some(faults[name])
    else None
  }

  /** The blobs after a delete of `name`: it is gone unless the service
      refused the request. */
  function AfterDelete(blobs: Blobs, faults: map<string, StoreError>, name: string): (r: Blobs)
    ensures r.Keys == if name in faults then blobs.Keys else blobs.Keys - {name}
    ensures forall n :: n in r ==> r[n] == blobs[n]
  {
    if name in blobs && name !in faults then blobs - {name} else blobs
  }

  /** `names` lists, each once, exactly the blobs whose names start with
      `start`. */
  predicate IsListing(names: seq<string>, blobs: Blobs, start: string) {
    && (forall i :: 0 <= i < |names| ==> names[i] in blobs && StartsWith(names[i], start))
    && (forall n :: n in blobs && StartsWith(n, start) ==> n in names)
    && (forall i, j :: 0 <= i < j < |names| ==> names[i] != names[j])
  }
}
