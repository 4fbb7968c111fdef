# Photo upload service: quota store, upload helpers and lightbox

This project models the core of a small photo-sharing service in Dafny. The
service is a Flask back end, `app.py`, plus a browser script, `gallery.js`.

- **Records and the store.** (`records.dfy`, `quota.dfy`)
  - `photos.json` is modelled as a `Document`: missing, blank, an array of
    records, or malformed text.
  - `_read_photos_unlocked` never fails. The locked read inside
    `_append_photo_locked_with_quota` does fail on malformed text, and the
    model gives that failure the outcome `Raised`.
  - `_uploads_today_count` is a loop method proved against a counting
    function.
  - The critical section of the locked append is a function, `LockedAppend`.
    It also appears as the method `PhotoStore.AppendWithQuota` on a class
    whose `doc` field it updates.
  - The per-client daily quota is proved to hold over any sequence of
    serialised appends in which each entry can only count for the client and
    day it was checked against. The code as written breaks that condition at
    midnight (see Findings); with the day key taken from the entry's own
    timestamp (`LockedAppendAtEntryDay`, `EntryDayQuotaKept`), each corrected
    append keeps the bound.
- **Upload helpers.** (`uploads.dfy`)
  - `allowed_file`.
  - The extension an original is stored under, which needs POSIX
    `os.path.splitext`.
  - `_client_ip`.
- **Read routes.** (`listing.dfy`)
  - `/photos`: the records newest first.
  - `/download/<id>`: the recorded extension first, then a fixed probe order.
- **Lightbox.** (`gallery.dfy`)
  - The script's `currentIndex` and the modal's visibility are the fields of
    a `Lightbox` class.
  - Its methods are the script's handlers.
  - Index arithmetic uses JavaScript's truncating `%`.
- **Shared pieces.** (`text.dfy`, `wrappers.dfy`)
  - Python's `str.strip`, `str.lower` (ASCII letters), `<=` on strings, and
    first and last index search.
  - An `Option` type.

Clock readings, generated ids, `secure_filename` results, request headers and
the set of files in the originals directory are all parameters.

## Model

| member | source | states |
|---|---|---|
| `Uploads.AllowedFile` | app.py:36-37 | `allowed_file`: a dot in the name and the lower-cased text after the last dot on the allow-list; its meaning is stated by the two lemmas below |
| `Uploads.AllowedFileAtLastDot` | app.py:36-37 | a name whose last dot is at position `k` is allowed iff the text after `k`, lower-cased, is one of the seven allowed extensions |
| `Uploads.NoDotNotAllowed` | app.py:37 | a name without a dot is never allowed |
| `Text.Lower` | app.py:37 | `str.lower()` on ASCII letters: same length, each capital mapped to its small letter and every other character kept |
| `Text.LastIndexOf` | app.py:37 | the position of the last occurrence of a character, or -1 when there is none |
| `Uploads.AllowedFileIgnoresCase` | app.py:36-37 | for `stem.ext` with a dot-free `ext`, allowance depends only on `ext` lower-cased |
| `Uploads.SplitExtension` | app.py:161 | the `splitext` extension is empty or a suffix of the path that starts with its only dot and holds no slash |
| `Uploads.SplitExtensionOfSuffix` | app.py:161 | for `base.suffix` where the last component of `base` holds a non-dot, the extension is exactly `.suffix` |
| `Uploads.OriginalExtension` | app.py:161 | the stored extension is the lower-cased `splitext` extension, or `.jpg` when that is empty; it always starts with its only dot |
| `Uploads.AllowedNameKeepsExtension` | app.py:156-161 | when the raw name passes `allowed_file` and the sanitised name keeps its last extension after a stem that is not all dots, the original is stored under `.` plus that allowed extension, lower-cased |
| `Uploads.DotFreeNameStoredAsDefault` | app.py:161 | a sanitised name without a dot is stored under `.jpg` |
| `Uploads.AllowedRawNameStoredAsDefault` | app.py:156-161 | the raw name `日本.png` passes `allowed_file`, while its sanitised form `png` is stored under `.jpg` |
| `Uploads.FirstField` | app.py:121 | `split(",")[0]` is the longest comma-free prefix of the header |
| `Uploads.ClientIp` | app.py:114-124 | the stripped first header field when that is non-empty, else the remote address when non-empty, else `0.0.0.0`; never empty |
| `Uploads.ProxyHopsIgnored` | app.py:121 | text after the first comma of the header never changes the address |
| `Uploads.ClientIpOfPlainAddress` | app.py:118-123 | a header holding one comma-free address without surrounding whitespace yields exactly that address |
| `Uploads.ClientIpFromHeaderIsClean` | app.py:121-123 | an address taken from the header has no comma and no leading or trailing whitespace |
| `Text.Strip` | app.py:121 | the result is a slice of the input with no whitespace at either end, everything cut off is whitespace, and it is empty iff the input is all whitespace |
| `Records.LockedRead` | app.py:71-73 | a missing or blank file reads as no records, an array as its records, and malformed text raises (`None`) |
| `Records.ReadPhotosUnlocked` | app.py:39-47 | only a document holding records yields any; absence, blank text and parse failure yield `[]` |
| `Records.UnlockedReadDegradesLockedRead` | app.py:39-47 | the unlocked read equals the locked read, with the parse failure mapped to `[]` |
| `Records.UploadedAt` | app.py:57 | `p.get("uploaded_at", "")`: the timestamp, a missing one read as `""`; it is also the `/photos` sort key (app.py:225) |
| `Records.DayKey` | app.py:67 | the day key is the first ten characters of the timestamp |
| `Records.MakeEntry` | app.py:195-208 | the entry's url, download url, stripped mission fields, `has_mission` (iff the description has a non-space), timestamp and client are as recorded |
| `Quota.Matches` | app.py:56-58 | a record counts when its `client_ip` is the client's and its `uploaded_at` (missing read as `""`) starts with the day key; the counting lemmas below are stated with it |
| `Quota.TodayCount` | app.py:49-60 | the count of records for a client and day never exceeds the number of records |
| `Quota.TodayCountCountsMatches` | app.py:49-60 | the count equals the number of positions whose record has the client's ip and a timestamp starting with the day key |
| `Quota.TodayCountExtremes` | app.py:49-60 | the count is 0 iff no record matches, and equals the length iff every record matches |
| `Quota.TodayCountAppend` | app.py:77 | appending a record adds one to the count iff that record matches |
| `Quota.TodayCountConcat` | app.py:55-59 | the count of a concatenation is the sum of the counts |
| `Quota.UploadsTodayCount` | app.py:49-60 | the loop returns the number of matching records |
| `Quota.LockedAppend` | app.py:67-83 | raises iff the document is malformed; appends iff it is readable and the count is below the limit, leaving exactly the old records plus the entry; otherwise the records are unchanged |
| `Quota.PreCheckAllows` | app.py:139-141 | the unlocked pre-check of the upload route: the count over the unlocked read is below the limit; `PreCheckAgreesWithLock` relates it to the locked re-check |
| `Quota.PreCheckAgreesWithLock` | app.py:139-141 | on a readable document the unlocked pre-check passes iff the locked append appends; the lock never accepts what the pre-check refused |
| `Quota.LockedAppendKeepsQuota` | app.py:75-77 | one append keeps a client's count for a day within the limit when the entry can only count for the client and day it was checked against |
| `Quota.QuotaNeverExceeded` | app.py:62-83 | under that condition, no sequence of appends takes the count above the limit |
| `Quota.Run` | app.py:62-83 | a sequence of serialised locked appends, each on the document the previous one left, with the number that appended; the three lemmas around it state its properties |
| `Quota.AppendUsesRoom` | app.py:75-83 | an append by the client on its day succeeds iff the quota has room, and then adds one to the count and takes one from the room |
| `Quota.SuccessesFillRemainingQuota` | app.py:62-83 | of any number of appends by one client on one day, attempts succeed while the quota has room; the number of successes is the smaller of the number of attempts and the room left |
| `Quota.RunCountsSuccesses` | app.py:62-83 | over such a run, the client's count for the day grows by exactly the number of successes |
| `Quota.RecordMatchesItsDay` | app.py:56-58 | a record stamped `now` for a client counts for it on the day of `now` and on no other ten-character day |
| `Quota.EntryMatchesItsDay` | app.py:195-207 | an entry built by the upload route counts for its client on its own day and no other ten-character day |
| `Quota.MidnightBreachAsWritten` | app.py:67 | two concurrent uploads stamped before midnight, with the second re-checked after it, leave two records for one day under a limit of one |
| `Quota.LockedAppendAtEntryDay` | app.py:67-83 | the corrected append checks the entry's own day: it appends iff that day's count is below the limit, and otherwise keeps the records |
| `Quota.EntryDayQuotaKept` | app.py:62-83 | with the corrected day key, one append keeps every client's count for every day within the limit |
| `Quota.PhotoStore.AppendWithQuota` | app.py:62-85 | the outcome and the new document are those of `LockedAppend`; the records are unchanged or gain exactly the entry; called with the entry's timestamp it is the corrected append |
| `Listing.Insert` | app.py:225 | insertion into the sorted list keeps the same records plus the new one |
| `Listing.InsertKeepsSorted` | app.py:225 | inserting into a list sorted newest first keeps it sorted |
| `Text.LexLe` | app.py:225 | Python's `<=` on strings, the comparison behind the sort key: lexicographic by code point, a prefix first |
| `Text.LexLeTotal` | app.py:225 | any two keys are ordered one way or the other |
| `Text.LexLeTransitive` | app.py:225 | the key order is transitive |
| `Listing.SortNewestFirst` | app.py:225 | the result is a permutation of the records with `uploaded_at` non-increasing (missing read as `""`) |
| `Listing.ListPhotos` | app.py:222-226 | `/photos` returns a permutation of the unlocked read, newest first |
| `Listing.SortKeepsSorted` | app.py:225 | sorting a list already newest first changes nothing |
| `Listing.InsertBelowAll` | app.py:225 | a record older than every listed one goes last |
| `Listing.ListsInReverseUploadOrder` | app.py:225 | records with strictly increasing timestamps are listed in reverse order |
| `Listing.ProbeCoversAllowed` | app.py:32 | every allowed extension, prefixed with a dot, is in the probe order |
| `Listing.FirstWithId` | app.py:231 | the position of the first record with the id, or -1 when none has it |
| `Listing.RecordedFile` | app.py:233 | the candidate name: the id followed by the recorded `original_ext`, or by nothing when it is missing; `DownloadOriginal` states where it is used |
| `Listing.DownloadName` | app.py:235 | the recorded `name` when it is present and non-empty, else the file's own name |
| `Listing.Probe` | app.py:238-242 | 404 iff no probed name exists; otherwise the first existing name in probe order, sent under its own name |
| `Listing.DownloadOriginal` | app.py:228-242 | a first matching record whose recorded file exists is served under its name (or the file name); otherwise the probe order decides, and 404 only when nothing exists |
| `Listing.UnknownIdNotFound` | app.py:231-242 | an id no record carries and no probed file matches gives 404 |
| `Gallery.JsRem` | gallery.js:24 | JavaScript `%` with a positive divisor: the mathematical remainder for a non-negative dividend |
| `Gallery.NextIndex` | gallery.js:30 | `(currentIndex + 1) % images.length`, the index unchanged when there are no images; the step lemmas below state its values |
| `Gallery.PrevIndex` | gallery.js:24 | `(currentIndex - 1 + images.length) % images.length`, the index unchanged when there are no images; the step lemmas below state its values |
| `Gallery.StepsOnValidIndex` | gallery.js:22-32 | on a valid index, next is one on or back to 0, and previous is one back or on to the last |
| `Gallery.NextOnValidIndex` | gallery.js:30 | on a valid index, next is one on, or 0 at the last |
| `Gallery.PrevOnValidIndex` | gallery.js:24 | on a valid index, previous is one back, or the last at 0 |
| `Gallery.StepsStayInRange` | gallery.js:22-32 | a valid index stays valid under both steps |
| `Gallery.StepsStayNonNegative` | gallery.js:22-32 | a non-negative index stays non-negative, whatever the number of images |
| `Gallery.NextPrevInverse` | gallery.js:22-32 | next then previous, and previous then next, restore the index |
| `Gallery.WrapAround` | gallery.js:22-32 | next at `n-1` gives 0 and previous at 0 gives `n-1` |
| `Gallery.NextTimesAdvances` | gallery.js:30 | up to `n` presses of next advance a valid index by that many, wrapping once |
| `Gallery.FullCycleReturns` | gallery.js:30 | `n` presses of next return to the start |
| `Gallery.FindIndex` | gallery.js:84 | `findIndex` gives the first position with the id, or -1 when none has it |
| `Gallery.Lightbox.constructor` | gallery.js:7 | the index starts at 0 with the modal hidden |
| `Gallery.Lightbox.OpenModal` | gallery.js:9-16 | the index becomes the given one and the modal is shown |
| `Gallery.Lightbox.CloseModal` | gallery.js:18-20 | the modal is hidden and the index is kept |
| `Gallery.Lightbox.ShowPrev` | gallery.js:22-26 | the index steps back with wrap-around; unchanged when there are no images; over a non-empty gallery it always names an image |
| `Gallery.Lightbox.ShowNext` | gallery.js:28-32 | the index steps on with wrap-around; unchanged when there are no images; over a non-empty gallery it always names an image |
| `Gallery.Lightbox.ClickModal` | gallery.js:46-48 | only a click on the backdrop itself hides the modal |
| `Gallery.Lightbox.KeyDown` | gallery.js:51-59 | Escape hides a shown modal; otherwise the arrows step the index even when hidden; anything else changes nothing |
| `Gallery.Lightbox.ClickImage` | gallery.js:83-86 | the modal opens at the first image with the id, or nothing changes when none has it |

## Left out

- **File locking and I/O.** `fcntl.flock`, `open`, `seek`, `truncate`, `fsync` and the JSON text are not modelled. Appends are serialised steps on an abstract document, so races between processes are covered only as far as the lock makes appends sequential.
- **JSON content.** A field the service reads back with `p.get` (`id`, `name`, `original_ext`, `uploaded_at`, `client_ip`) is a string or missing; a non-string value there is not modelled. JSON that is valid but not an array is not modelled.
- **Array elements that are not objects.** A `photos.json` array holding `1` or `null` makes `p.get` raise in `_uploads_today_count` (app.py:56), in the `/photos` sort key (app.py:225) and in `/download` (app.py:231). A `Document` holds only records, so these raises are not modelled.
- **Image processing.** `_resize_to_720p_box` and `_save_webp` are left out: they need floating-point scaling, and EXIF, alpha and WebP handling are Pillow calls.
- **Image validation.** Decoding the image and the 100x100 minimum are Pillow work and are left out.
- **Library results as parameters.** `secure_filename`, `uuid.uuid4` and `datetime.now` are not modelled; their results are parameters. `Uploads.AllowedNameKeepsExtension` assumes a slash-free sanitised name, as `secure_filename` produces.
- `Uploads.AllowedNameKeepsExtension`: assumes that sanitising keeps the raw name's last extension after a stem that is not all dots. `secure_filename` does not always do so: when it drops every character of the stem, an allowed upload is stored under `.jpg` (`Uploads.AllowedRawNameStoredAsDefault`).
- **Upload route glue.** The 20 MB size check, the missing-file checks, Flask routing, `jsonify`, `send_file`, HTTP status codes and cleanup with `os.remove` are left out. Of the upload route, only the pre-check, the entry and the locked append are modelled.
- **Case mapping.** `Text.Lower` lower-cases ASCII letters only. Python's full Unicode case mapping is not modelled. Allow-list membership does not depend on the difference.
- `Listing.SortNewestFirst`: does not state stability among equal timestamps, although the insertion it uses keeps earlier records first.
- `Gallery.JsRem`: JavaScript numbers are doubles; indices are modelled as unbounded integers.
- **Gallery DOM.** Image source, alt text, captions, `humanFileSize`, `updateModalContent` and the building of gallery items are left out. Of the image click handler, only the index lookup is modelled.
- **Images array.** The script reads `images` from elsewhere and `removeImage` is not part of this model, so `Lightbox.images` is fixed when the lightbox is created.
- **Initial visibility.** The modal starts hidden because of the page markup; the constructor assumes that.
- **Build configuration.** `tailwind.config.js` has no behaviour and is left out.

## Findings

| source | as written | input that shows it | evidently intended | confidence | as-written member | corrected member |
|---|---|---|---|---|---|---|
| app.py:67 | the locked re-check computes today's key from a new clock reading, while the entry's `uploaded_at` comes from an earlier reading (app.py:195) | with a limit of 1 and an empty store, two uploads from one client pass the pre-check before midnight and are stamped 2025-06-01T23:59:58 and 23:59:59; the first is re-checked before midnight, the second reads its day key at 2025-06-02T00:00:00 and so is counted against 2025-06-02; both are kept, so 2025-06-01 ends with 2 records | at most `daily_limit` records per client and day, which holds when the day key is taken from the entry's own timestamp | not executed | `Quota.MidnightBreachAsWritten` | `Quota.LockedAppendAtEntryDay` |
