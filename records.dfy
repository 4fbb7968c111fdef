/**
 * Upload records and the document `photos.json` that holds them (app.py).
 *
 * A record is a JSON object. The fields the service reads back with
 * `p.get(...)` may be missing from an object found in the file, so they are
 * optional; the others are only ever written.
 */
module Records {
  import opened Wrappers
  import opened Text

  datatype Record = Record(
    id: Option<string>,
    url: string,
    downloadUrl: string,
    name: Option<string>,
    originalExt: Option<string>,
    missionNumber: string,
    missionDesc: string,
    hasMission: bool,
    uploadedAt: Option<string>,
    clientIp: Option<string>)

  /** `p.get("uploaded_at", "")`: the timestamp, a missing one read as the empty string. */
  function UploadedAt(r: Record): string {
    r.uploadedAt.GetOr("")
  }

  /**
   * What reading `photos.json` finds: no file, a file whose stripped text is
   * empty, a JSON array of records, or text that `json.loads` rejects.
   */
  datatype Document = Missing | Blank | Records(items: seq<Record>) | Malformed

  /**
   * The read done under the lock (app.py:71-73): a missing file is created
   * empty by `open(..., "a+")` and reads as no records, like blank text;
   * malformed text makes `json.loads` raise, which is `None` here.
   */
  function LockedRead(d: Document): (r: Option<seq<Record>>)
    ensures r.None? <==> d == Malformed
    ensures d.Records? ==> r == Some(d.items)
    ensures d == Missing || d == Blank ==> r == Some([])
  {
    match d
    case Missing => Some([])
    case Blank => Some([])
    case Records(items) => Some(items)
    case Malformed => None
  }

  /**
   * `_read_photos_unlocked`: never raises. Only a document holding records
   * yields any; absence, blank text and a parse failure all yield `[]`.
   */
  function ReadPhotosUnlocked(d: Document): (r: seq<Record>)
    ensures d.Records? ==> r == d.items
    ensures !d.Records? ==> r == []
  {
    match LockedRead(d)
    case Some(items) => items
    case None => []
  }

  /** The unlocked read is the locked read with the parse failure mapped to the empty list. */
  lemma UnlockedReadDegradesLockedRead(d: Document)
    ensures LockedRead(d).Some? ==> ReadPhotosUnlocked(d) == LockedRead(d).value
    ensures LockedRead(d).None? ==> ReadPhotosUnlocked(d) == []
  {
  }

  /** `isoformat(timespec="seconds")[:10]`: the first ten characters, the 'YYYY-MM-DD' part. */
  function DayKey(timestamp: string): (k: string)
    ensures |k| == if |timestamp| < 10 then |timestamp| else 10
    ensures k <= timestamp
  {
    if |timestamp| < 10 then timestamp else timestamp[..10]
  }

  /**
   * The record built for an accepted upload (app.py:151-152, 195-208). The
   * form fields are stripped, a missing one read as empty; `now` is the
   * caller's clock reading and `photoId` the generated identifier.
   */
  function MakeEntry(photoId: string, originalName: string, origExt: string,
                     missionNumberField: Option<string>, missionDescField: Option<string>,
                     now: string, clientIp: string): (r: Record)
    ensures r.id == Some(photoId) && r.name == Some(originalName) && r.originalExt == Some(origExt)
    ensures r.url == "/static/uploads/" + photoId + ".webp"
    ensures r.downloadUrl == "/download/" + photoId
    ensures r.missionDesc == Strip(missionDescField.GetOr(""))
    ensures r.missionNumber == Strip(missionNumberField.GetOr(""))
    ensures r.hasMission <==> exists k :: 0 <= k < |missionDescField.GetOr("")| && !IsSpace(missionDescField.GetOr("")[k])
    ensures r.uploadedAt == Some(now) && r.clientIp == Some(clientIp)
  {
    var missionNumber := Strip(missionNumberField.GetOr(""));
    var missionDesc := Strip(missionDescField.GetOr(""));
    Record(Some(photoId), "/static/uploads/" + photoId + ".webp", "/download/" + photoId,
           Some(originalName), Some(origExt), missionNumber, missionDesc, missionDesc != "",
           Some(now), Some(clientIp))
  }
}
