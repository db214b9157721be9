/**
 * The cloud-storage client (`YandexDiskAPIClient` in main.py): it makes
 * sure the remote folder `storage` exists and uploads photos listed in the
 * manifest until the requested number have gone up. Every remote reply is
 * an input: the status of the existence check and of the folder creation,
 * and, per manifest entry, the status of the upload-URL request and of the
 * PUT of the file's bytes.
 */
module CloudStorage {
  import opened Wrappers
  import PhotoSource

  /** The name a manifest record without `file_name` is uploaded under. */
  const DefaultFileName := "_.jpg"

  /** The remote folder, and the prefix of every upload path. */
  const Folder := "storage"

  predicate IsClientError(status: int) { 400 <= status < 500 }

  // ---------------------------------------------------------------------------
  // The remote folder

  /** What `__create_folder` did: whether it sent the create request, and the status it returns. */
  datatype FolderStep = FolderStep(createRequested: bool, statusCode: int)

  /**
   * The folder is created only when the existence check answers with a
   * 4xx status; the step then returns the creation's status, and 0 when
   * no creation was requested.
   */
  function CreateFolder(existsStatus: int, createStatus: int): (r: FolderStep)
    ensures r.createRequested <==> IsClientError(existsStatus)
    ensures r.createRequested ==> r.statusCode == createStatus
    ensures !r.createRequested ==> r.statusCode == 0
  {
    if IsClientError(existsStatus) then FolderStep(true, createStatus) else FolderStep(false, 0)
  }

  /**
   * `uploading_photos` reports a new folder exactly when the existence
   * check said 4xx and the creation said 2xx; an existing folder (2xx)
   * or an ambiguous answer (3xx, 5xx) is left alone.
   */
  lemma FolderCreatedReport(existsStatus: int, createStatus: int)
    ensures PhotoSource.Is2xx(CreateFolder(existsStatus, createStatus).statusCode)
        <==> IsClientError(existsStatus) && PhotoSource.Is2xx(createStatus)
    ensures PhotoSource.Is2xx(existsStatus) ==> !CreateFolder(existsStatus, createStatus).createRequested
  {
  }

  // ---------------------------------------------------------------------------
  // Upload requests

  /** The upload-URL request `__create_file` sends: the remote path and the overwrite flag. */
  datatype UploadRequest = UploadRequest(path: string, overwrite: bool)

  /** The request for one file: path `storage/<fileName>`, overwriting what is there. */
  function CreateFileRequest(fileName: string): (r: UploadRequest)
    ensures r.overwrite
    ensures |r.path| == |Folder| + 1 + |fileName|
    ensures r.path[..|Folder| + 1] == Folder + "/"
    ensures r.path[|Folder| + 1..] == fileName
  {
    UploadRequest(Folder + "/" + fileName, true)
  }

  /** Distinct file names go to distinct remote paths. */
  lemma CreateFileRequestInjective(a: string, b: string)
    ensures CreateFileRequest(a) == CreateFileRequest(b) <==> a == b
  {
    if CreateFileRequest(a) == CreateFileRequest(b) {
      assert a == CreateFileRequest(a).path[|Folder| + 1..];
    }
  }

  /** A record of `photo_info.json` as read back: its `file_name`, if present. */
  datatype StoredPhoto = StoredPhoto(fileName: Option<string>)

  /** The name a record is uploaded under: its `file_name`, or "_.jpg". */
  function EntryName(e: StoredPhoto): (name: string)
    ensures e.fileName.Some? ==> name == e.fileName.value
    ensures e.fileName.None? ==> name == DefaultFileName
  {
    e.fileName.GetOr(DefaultFileName)
  }

  /** The manifest as the upload pass reads it back: every record has its `file_name`. */
  function Stored(manifest: seq<PhotoSource.SavedPhoto>): (entries: seq<StoredPhoto>)
    ensures |entries| == |manifest|
    ensures forall k :: 0 <= k < |manifest| ==> EntryName(entries[k]) == manifest[k].fileName
  {
    seq(|manifest|, k requires 0 <= k < |manifest| => StoredPhoto(Some(manifest[k].fileName)))
  }

  // ---------------------------------------------------------------------------
  // The upload loop

  /** How many of the first `n` entries went up: both the upload-URL request and the PUT were 2xx. */
  function Successes(urlStatus: seq<int>, putStatus: seq<int>, n: nat): (c: nat)
    requires n <= |urlStatus| && n <= |putStatus|
    ensures c <= n
  {
    if n == 0 then 0
    else Successes(urlStatus, putStatus, n - 1) + (if PhotoSource.Is2xx(urlStatus[n - 1]) && PhotoSource.Is2xx(putStatus[n - 1]) then 1 else 0)
  }

  /** The upload-URL requests for the first `n` entries, in manifest order. */
  function RequestsUpTo(entries: seq<StoredPhoto>, n: nat): (rs: seq<UploadRequest>)
    requires n <= |entries|
    ensures |rs| == n
    ensures forall k :: 0 <= k < n ==> rs[k] == CreateFileRequest(EntryName(entries[k]))
  {
    if n == 0 then [] else RequestsUpTo(entries, n - 1) + [CreateFileRequest(EntryName(entries[n - 1]))]
  }

  /** The files PUT for the first `n` entries: those whose upload-URL request was 2xx. */
  function PutsUpTo(entries: seq<StoredPhoto>, urlStatus: seq<int>, n: nat): (ps: seq<string>)
    requires n <= |entries| && n <= |urlStatus|
    ensures |ps| <= n
  {
    if n == 0 then []
    else PutsUpTo(entries, urlStatus, n - 1) + (if PhotoSource.Is2xx(urlStatus[n - 1]) then [EntryName(entries[n - 1])] else [])
  }

  /** A success needs a 2xx upload URL, so there are never more successes than PUTs. */
  lemma {:induction false} SuccessesAtMostPuts(entries: seq<StoredPhoto>, urlStatus: seq<int>, putStatus: seq<int>, n: nat)
    requires n <= |entries| && n <= |urlStatus| && n <= |putStatus|
    ensures Successes(urlStatus, putStatus, n) <= |PutsUpTo(entries, urlStatus, n)|
  {
    if n > 0 {
      SuccessesAtMostPuts(entries, urlStatus, putStatus, n - 1);
    }
  }

  /**
   * A count that starts at 0, grows by at most one per entry and is not
   * `cap` before entry `n` is at most `cap` after it: the loop never
   * overshoots a non-negative cap.
   */
  lemma {:induction false} NeverPastCap(urlStatus: seq<int>, putStatus: seq<int>, cap: int, n: nat)
    requires n <= |urlStatus| && n <= |putStatus| && cap >= 0
    requires forall a :: 0 <= a < n ==> Successes(urlStatus, putStatus, a) != cap
    ensures Successes(urlStatus, putStatus, n) <= cap
  {
    if n > 0 {
      NeverPastCap(urlStatus, putStatus, cap, n - 1);
    }
  }

  /**
   * `uploading_photos`: ensure the folder, then walk the manifest in order
   * with a success counter, and stop before the next entry once the counter
   * equals `numberPhotos`. A negative `numberPhotos` never equals the
   * counter, so every entry is tried. `urlStatus[k]` and `putStatus[k]`
   * are the replies for entry `k`; `requests` are the upload-URL requests
   * sent, `puts` the files sent, `uploaded` the reported count.
   */
  method UploadPhotos(entries: seq<StoredPhoto>, numberPhotos: int, existsStatus: int, createStatus: int,
                      urlStatus: seq<int>, putStatus: seq<int>)
    returns (folder: FolderStep, uploaded: nat, requests: seq<UploadRequest>, puts: seq<string>)
    requires |urlStatus| == |entries| && |putStatus| == |entries|
    ensures folder == CreateFolder(existsStatus, createStatus)
    ensures |requests| <= |entries| && requests == RequestsUpTo(entries, |requests|)
    ensures puts == PutsUpTo(entries, urlStatus, |requests|)
    ensures uploaded == Successes(urlStatus, putStatus, |requests|)
    ensures forall a :: 0 <= a < |requests| ==> Successes(urlStatus, putStatus, a) != numberPhotos
    ensures |requests| < |entries| ==> uploaded == numberPhotos
    ensures numberPhotos >= 0 ==> uploaded <= numberPhotos
    ensures numberPhotos < 0 ==> |requests| == |entries|
    ensures uploaded <= |puts| <= |requests|
  {
    folder := CreateFolder(existsStatus, createStatus);
    var counter := 0;
    requests, puts := [], [];
    var i := 0;
    while i < |entries|
      invariant 0 <= i <= |entries|
      invariant counter == Successes(urlStatus, putStatus, i)
      invariant requests == RequestsUpTo(entries, i)
      invariant puts == PutsUpTo(entries, urlStatus, i)
      invariant forall a :: 0 <= a < i ==> Successes(urlStatus, putStatus, a) != numberPhotos
    {
      if numberPhotos == counter {
        break;
      }
      var fileName := EntryName(entries[i]);
      requests := requests + [CreateFileRequest(fileName)];
      if PhotoSource.Is2xx(urlStatus[i]) {
        puts := puts + [fileName];
        if PhotoSource.Is2xx(putStatus[i]) {
          counter := counter + 1;
        }
      }
      i := i + 1;
    }
    uploaded := counter;
    if numberPhotos >= 0 {
      NeverPastCap(urlStatus, putStatus, numberPhotos, i);
    }
    SuccessesAtMostPuts(entries, urlStatus, putStatus, i);
  }

  /**
   * Uploading a manifest the download pass wrote: entry `k` goes to
   * `storage/<name of record k>`, and when those names are pairwise
   * distinct no two requests target the same remote path.
   */
  lemma StoredPaths(manifest: seq<PhotoSource.SavedPhoto>, n: nat)
    requires n <= |manifest|
    requires forall k, l :: 0 <= k < l < |manifest| ==> manifest[k].fileName != manifest[l].fileName
    ensures var rs := RequestsUpTo(Stored(manifest), n);
      && (forall k :: 0 <= k < n ==> rs[k].path == Folder + "/" + manifest[k].fileName)
      && (forall k, l :: 0 <= k < l < n ==> rs[k].path != rs[l].path)
  {
    var rs := RequestsUpTo(Stored(manifest), n);
    forall k, l | 0 <= k < l < n
      ensures rs[k].path != rs[l].path
    {
      CreateFileRequestInjective(manifest[k].fileName, manifest[l].fileName);
    }
  }
}
