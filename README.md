# VK photo backup — a Dafny model

The program copies the photos of a VK album to Yandex Disk in two passes.

The download pass (`VKAPIClient` in `main.py`) does four things:

- It asks VK for an album listing and routes the reply.
- It names every photo after its like count. A like count already seen earlier in the listing gets the photo's UTC capture time appended, as `" (YYYY-MM-DD HH_MM)"`.
- It keeps the last size variant whose type is `w` or `z`.
- It fetches each kept image into `storage/` and writes the manifest `photo_info.json`: one `{file_name, size}` record per kept photo.

The upload pass (`YandexDiskAPIClient`) does three things:

- It makes sure the remote folder `storage` exists.
- It reads the manifest back.
- It uploads entries in order to `storage/<file_name>` until the requested number of uploads have succeeded.

The model keeps the program's control flow and data. Every reply of VK or of Yandex Disk is an input: the listing, the status codes, and per-entry upload statuses given as sequences. Every effect is a returned value: the outcome, the downloads performed, the requests sent and the files PUT. Python integers are unbounded, so `int` models them exactly.

Modules:

- `Wrappers`: `Option`.
- `Decimal`: Python's `str` of an integer and zero-padded fixed-width fields, with their parsers and round trips.
- `Civil`: the proleptic Gregorian calendar from 1970 on. A day number is walked into a date and counted back.
- `Timestamp`: the `strftime(' (%Y-%m-%d %H_%M)')` suffix of `datetime.utcfromtimestamp(t)`.
- `PhotoSource`: `__download_file` and `photos_download`.
- `CloudStorage`: `__create_folder`, `__create_file` and `uploading_photos`.

The loops of the source stay loops:

- `PhotoSource.DownloadFiles` is the walk over the items, with the set of like counts and the growing manifest.
- `PhotoSource.SelectSize` is the inner walk over `sizes`.
- `CloudStorage.UploadPhotos` is the counted upload loop with its `break`.

Each of these is proved against a recursive specification function. That function's properties are proved as lemmas: `PassUpTo` with `PassIndexed` and `ManifestNameCollision`, `LastLargeIndex`, and `Successes`/`RequestsUpTo` with `NeverPastCap`.

## Model

| member | source | states |
|---|---|---|
| Decimal.Str | main.py:43 | the name stem `str(likes)` is non-empty, consists of digits and `-`, and starts with a digit exactly when the count is non-negative |
| Decimal.StrRoundTrip | main.py:43 | parsing `str(n)` gives back `n`, so the stem determines the like count |
| Decimal.StrInjective | main.py:43 | distinct like counts have distinct stems, and equal counts have equal stems |
| Decimal.FixedDigits | main.py:46 | a `%Y`, `%m`, `%d`, `%H` or `%M` field is exactly its width of decimal digits |
| Decimal.FixedDigitsRoundTrip | main.py:46 | a number below 10^w reads back from its zero-padded w-digit field |
| Decimal.FixedDigitsInjective | main.py:46 | two numbers below 10^w have the same padded field exactly when they are equal |
| Civil.CivilFromDays | main.py:45 | the date of day number `z` after 1970-01-01 is a valid Gregorian date whose day number is `z` |
| Civil.DaysFromCivilInjective | main.py:45 | two valid dates have the same day number exactly when they are the same date |
| Civil.CivilOfDaysFromCivil | main.py:45 | every valid date from 1970 on is the date of its own day number, so the walk and the count are inverse |
| Timestamp.UtcDate | main.py:45 | the UTC date of timestamp `t` is a valid date and is day `t / 86400` after the epoch |
| Timestamp.UtcHour | main.py:45 | the UTC hour is below 24 |
| Timestamp.UtcMinute | main.py:45 | the UTC minute is below 60 |
| Timestamp.Layout | main.py:46 | the suffix layout is 19 characters, with ` (`, `-`, `-`, ` `, `_`, `)` at fixed places and the five fields in their slots |
| Timestamp.Suffix | main.py:45-46 | the suffix of a representable timestamp has the ` (YYYY-MM-DD HH_MM)` shape |
| Timestamp.LayoutFields | main.py:46 | each field of the layout reads back as the number rendered into it |
| Timestamp.SuffixFields | main.py:45-46 | the suffix's fields read back as the UTC year, month, day, hour and minute of `t` |
| Timestamp.SameMinuteFields | main.py:45-46 | two timestamps are in the same minute exactly when they share the UTC day, hour and minute |
| Timestamp.SuffixInjective | main.py:45-46 | two timestamps get the same suffix exactly when they fall in the same UTC minute; seconds are lost |
| PhotoSource.FileName | main.py:43-49 | the name is `str(likes)`, then the 19-character UTC suffix when an earlier item had that count, then `.jpg`; it is defined only where formatting the date does not raise |
| PhotoSource.FileNameShape | main.py:42-49 | a name is the bare `<likes>.jpg` exactly when no earlier item had that like count; otherwise it is `<likes> (<UTC time>).jpg` |
| PhotoSource.BareIsNotSuffixed | main.py:43-49 | a bare name never equals a suffixed one |
| PhotoSource.SuffixedNamesEqual | main.py:43-49 | two suffixed names are equal exactly when the like counts and the suffixes are |
| PhotoSource.FileNameCollision | main.py:42-49 | items `i < j` get the same name exactly when item `i` already carried a suffix and both share the like count and the UTC minute |
| PhotoSource.NameItem | main.py:42-49 | the naming step returns the name exactly when it can be formatted; the set of counts then gains this item's count |
| PhotoSource.LastLargeIndex | main.py:52-58 | the chosen variant is a `w` or `z` entry with no `w` or `z` entry after it; there is none exactly when no entry is `w` or `z` |
| PhotoSource.LastMatchWins | main.py:52-58 | the choice follows list order: `[w, z]` and `[z, w]` both keep the second entry |
| PhotoSource.SelectSize | main.py:50-58 | the loop yields the type and URL of the last `w`/`z` entry, or `("", "")` when there is none |
| PhotoSource.PassUpTo | main.py:59-63 | the manifest and the downloads have one entry per kept item, pair up by file name, and each record's size is `w` or `z` |
| PhotoSource.KeptIndices | main.py:59 | every kept index is in range and has a `w`/`z` variant |
| PhotoSource.KeptIndicesOrdered | main.py:41-63 | the kept items appear in listing order, and no item with a `w`/`z` variant is missed |
| PhotoSource.PassIndexed | main.py:41-63 | record `k` and download `k` come from the `k`-th kept item: its name, its last `w`/`z` type, and that entry's URL |
| PhotoSource.ManifestNameCollision | main.py:41-63 | two manifest records share a file name exactly when their items share the like count and the UTC minute and the earlier one was already a repeat |
| PhotoSource.ManifestNamesDistinct | main.py:41-63 | items that never share both like count and UTC minute give a manifest with pairwise distinct file names |
| PhotoSource.SeenStep | main.py:44-48 | an item's count is in the set exactly when an earlier item had it, and each step adds the item's count |
| PhotoSource.ItemPass | main.py:50-63 | an item adds one record and one download exactly when it has a `w`/`z` variant, and they carry its name, that variant's type and its URL |
| PhotoSource.KeepItem | main.py:50-66 | the size and fetch step fails exactly when the kept variant has no URL; otherwise it adds what `ItemPass` says, extending `PassUpTo` by one item |
| PhotoSource.Failure | main.py:44-64 | a walk that raises at an item reports the date error when its name cannot be formatted, and the missing URL otherwise |
| PhotoSource.VisitItem | main.py:42-66 | one loop body fails exactly when the item does not complete, with that item's failure; otherwise it advances the set of like counts and the walk by one item |
| PhotoSource.DownloadFiles | main.py:33-71 | when every item can be named and fetched, the result is the manifest and downloads of `PassUpTo`; otherwise the walk stops at the first failing item, reports its failure, and keeps the downloads made before it |
| PhotoSource.Dispatch | main.py:75-82 | a reply proceeds exactly when it is 2xx with error code 0 (or none); a 2xx reply with a non-zero code fails with that code; any other reply fails with its status |
| PhotoSource.PhotosDownload | main.py:73-83 | a failed reply downloads nothing and reports its code or status; a good one gives what `DownloadFiles` gives (the manifest, or the first item's failure with the downloads before it), with one download per manifest record |
| CloudStorage.CreateFolder | main.py:104-112 | the folder is created exactly when the existence check answered 4xx; the step returns the creation status then, and 0 otherwise |
| CloudStorage.FolderCreatedReport | main.py:130-132 | the pass reports a new folder exactly when the check said 4xx and the creation said 2xx; an existing folder is never recreated |
| CloudStorage.CreateFileRequest | main.py:114-121 | the upload request targets `storage/<file_name>` with overwrite on |
| CloudStorage.CreateFileRequestInjective | main.py:114-118 | distinct file names give distinct requests |
| CloudStorage.EntryName | main.py:140 | an entry uploads under its `file_name`, or `_.jpg` when the key is absent |
| CloudStorage.Stored | main.py:134-135 | a manifest read back yields one entry per record, named as the record |
| CloudStorage.Successes | main.py:136-146 | the success count over `n` entries is at most `n` |
| CloudStorage.RequestsUpTo | main.py:137-141 | the `k`-th upload request is the one for entry `k` |
| CloudStorage.PutsUpTo | main.py:141-144 | a file is PUT only for an entry whose upload request was 2xx, so there are at most as many PUTs as entries |
| CloudStorage.SuccessesAtMostPuts | main.py:141-146 | an upload counts only after a PUT, so successes never exceed PUTs |
| CloudStorage.NeverPastCap | main.py:136-146 | a counter that grows by at most one per entry and is checked before each entry never passes a non-negative cap |
| CloudStorage.UploadPhotos | main.py:129-150 | the loop sends the requests for a prefix of the manifest and stops early only at `number_photos` successes; a non-negative cap is never exceeded; a negative cap tries every entry; successes ≤ PUTs ≤ requests |
| CloudStorage.StoredPaths | main.py:137-141 | uploading a manifest sends entry `k` to `storage/<name k>`, and distinct manifest names never target the same remote path |

## Left out

- HTTP I/O is not modelled. That covers `__get_photos`, `__directory_exists`, the image GETs and `__uploading_files`. Their replies are inputs and their requests are outputs.
- Local I/O is not modelled: the local `storage` directory check and `os.mkdir` (main.py:34-38), the file writes, and the JSON dump and load of `photo_info.json`.
- Not modelled either: the printed progress lines, the returned summary strings, `__get_params` and `__get_headers` (tokens, API version), and `backup_photos` with its configuration reading.
- JSON decoding is assumed to have happened before the model. Missing `likes.count`, `date`, `sizes`, `type` and `url` read with the source's defaults (0, 0, [], "", ""). Non-integer JSON values for these keys are not modelled.
- PhotoSource.Item: the date is a non-negative timestamp. `utcfromtimestamp` of a negative (pre-1970) or fractional timestamp is not modelled.
- Timestamp.Representable: `utcfromtimestamp` raising for a year above 9999 is modelled. Platform limits of the C `gmtime` that raise earlier are not.
- PhotoSource.DownloadFiles: the source raises out of `photos_download` in two modelled cases: a date cannot be formatted (main.py:45), or the kept variant has no `url`, so `requests.get('')` raises (main.py:55, 64). The model returns the `DateOutOfRange` or `MissingImageUrl` outcome with the downloads made so far, and no manifest is written.
- PhotoSource.DownloadFiles: every other image GET is assumed to return. In the source, a GET that raises (a network failure, or a non-empty URL that `requests` rejects) also stops the walk with no manifest; the model does not capture that.
- CloudStorage.UploadPhotos: a 2xx upload-URL reply whose body is not JSON, or has no `href`, is not modelled. Neither is a manifest name with no local file behind it. The source raises in both cases, and the model takes the PUT status as given.
- PhotoSource.SelectSize: the model follows the code. The last `w` or `z` entry in list order wins. An explicit "`w` before `z`" priority is a design suggestion that the code does not implement, and `LastMatchWins` shows the difference.
- CloudStorage.UploadPhotos: failed uploads do not count towards `number_photos`, so the loop can try more than `min(number_photos, manifest length)` entries. The model follows the code. What it bounds is the success count, by `number_photos` (`NeverPastCap`).
