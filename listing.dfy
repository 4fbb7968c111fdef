/**
 * The two read-only routes of app.py: `/photos`, which lists the records
 * newest first (app.py:222-226), and `/download/<photo_id>`, which picks the
 * original file to send (app.py:228-242).
 */
module Listing {
  import opened Wrappers
  import opened Text
  import opened Records
  import Uploads

  /** `x` may be listed before `y`: its sort key `uploaded_at` is not below that of `y`. */
  predicate Precedes(x: Record, y: Record) {
    LexLe(UploadedAt(y), UploadedAt(x))
  }

  /** Non-increasing by key, compared as Python compares strings. */
  ghost predicate SortedNewestFirst(s: seq<Record>) {
    forall i, j :: 0 <= i < j < |s| ==> Precedes(s[i], s[j])
  }

  /**
   * Puts `x` before the first record of `s` whose key is not above its own,
   * that is before records with an equal key: of records with equal keys the
   * earlier one stays first, as Python's stable sort keeps them.
   */
  function Insert(x: Record, s: seq<Record>): (r: seq<Record>)
    ensures multiset(r) == multiset(s) + multiset{x}
    ensures |r| == |s| + 1
  {
    if s == [] || Precedes(x, s[0]) then [x] + s
    else
      assert s == [s[0]] + s[1..];
      [s[0]] + Insert(x, s[1..])
  }

  lemma SortedTail(s: seq<Record>)
    requires s != [] && SortedNewestFirst(s)
    ensures SortedNewestFirst(s[1..])
  {
    var t := s[1..];
    forall i, j | 0 <= i < j < |t| ensures Precedes(t[i], t[j]) {
      assert t[i] == s[i + 1] && t[j] == s[j + 1];
    }
  }

  lemma SortedCons(x: Record, s: seq<Record>)
    requires SortedNewestFirst(s)
    requires forall k :: 0 <= k < |s| ==> Precedes(x, s[k])
    ensures SortedNewestFirst([x] + s)
  {
    var r := [x] + s;
    forall i, j | 0 <= i < j < |r| ensures Precedes(r[i], r[j]) {
      assert r[j] == s[j - 1];
      if i > 0 { assert r[i] == s[i - 1]; }
    }
  }

  /** A record that may precede the head of a sorted list may precede all of it. */
  lemma PrecedesHeadPrecedesAll(x: Record, s: seq<Record>)
    requires s != [] && SortedNewestFirst(s) && Precedes(x, s[0])
    ensures forall k :: 0 <= k < |s| ==> Precedes(x, s[k])
  {
    forall k | 0 < k < |s| ensures Precedes(x, s[k]) {
      LexLeTransitive(UploadedAt(s[k]), UploadedAt(s[0]), UploadedAt(x));
    }
  }

  /** Inserting into a list sorted newest first keeps it sorted. */
  lemma {:induction false} InsertKeepsSorted(x: Record, s: seq<Record>)
    requires SortedNewestFirst(s)
    ensures SortedNewestFirst(Insert(x, s))
  {
    if s == [] {
      SortedCons(x, s);
    } else if Precedes(x, s[0]) {
      PrecedesHeadPrecedesAll(x, s);
      SortedCons(x, s);
    } else {
      var tail := s[1..];
      LexLeTotal(UploadedAt(s[0]), UploadedAt(x));
      SortedTail(s);
      InsertKeepsSorted(x, tail);
      var rest := Insert(x, tail);
      forall k | 0 <= k < |rest| ensures Precedes(s[0], rest[k]) {
        var y := rest[k];
        assert y in multiset(rest);
        if y != x {
          assert y in multiset(tail);
          var m :| 0 <= m < |tail| && tail[m] == y;
          assert y == s[m + 1];
        }
      }
      SortedCons(s[0], rest);
    }
  }

  /**
   * `items.sort(key=lambda x: x.get("uploaded_at", ""), reverse=True)`: the
   * same records, newest first.
   */
  function SortNewestFirst(items: seq<Record>): (r: seq<Record>)
    ensures SortedNewestFirst(r)
    ensures multiset(r) == multiset(items)
    ensures |r| == |items|
  {
    if items == [] then []
    else
      assert items == [items[0]] + items[1..];
      var rest := SortNewestFirst(items[1..]);
      InsertKeepsSorted(items[0], rest);
      Insert(items[0], rest)
  }

  /** The body of `/photos`: the unlocked read, sorted newest first. */
  function ListPhotos(d: Document): (r: seq<Record>)
    ensures multiset(r) == multiset(ReadPhotosUnlocked(d))
    ensures SortedNewestFirst(r)
  {
    SortNewestFirst(ReadPhotosUnlocked(d))
  }

  /** Sorting an already sorted list changes nothing. */
  lemma {:induction false} SortKeepsSorted(items: seq<Record>)
    requires SortedNewestFirst(items)
    ensures SortNewestFirst(items) == items
  {
    if items != [] {
      var rest := items[1..];
      SortedTail(items);
      SortKeepsSorted(rest);
      if rest != [] {
        assert Precedes(items[0], rest[0]) by { assert rest[0] == items[1]; }
      }
      assert Insert(items[0], rest) == [items[0]] + rest;
      assert items == [items[0]] + rest;
    }
  }

  /** The reference reversal that `ListsInReverseUploadOrder` compares the listing against. */
  function Reverse(s: seq<Record>): (r: seq<Record>)
    ensures |r| == |s|
    ensures forall k :: 0 <= k < |s| ==> r[k] == s[|s| - 1 - k]
  {
    if s == [] then [] else Reverse(s[1..]) + [s[0]]
  }

  /** A record whose key is below every key of `s` is placed after all of them. */
  lemma {:induction false} InsertBelowAll(x: Record, s: seq<Record>)
    requires forall k :: 0 <= k < |s| ==> !Precedes(x, s[k])
    ensures Insert(x, s) == s + [x]
  {
    if s != [] {
      InsertBelowAll(x, s[1..]);
      assert s == [s[0]] + s[1..];
    }
  }

  /** Strictly increasing by key: every record is newer than all before it. */
  ghost predicate StrictlyOldestFirst(s: seq<Record>) {
    forall i, j :: 0 <= i < j < |s| ==> !Precedes(s[i], s[j])
  }

  lemma StrictlyOldestFirstTail(s: seq<Record>)
    requires s != [] && StrictlyOldestFirst(s)
    ensures StrictlyOldestFirst(s[1..])
  {
    var t := s[1..];
    forall i, j | 0 <= i < j < |t| ensures !Precedes(t[i], t[j]) {
      assert t[i] == s[i + 1] && t[j] == s[j + 1];
    }
  }

  /**
   * Records uploaded at strictly increasing times are listed in reverse upload
   * order: uploads at T1 < T2 < T3 come back as T3, T2, T1.
   */
  lemma {:induction false} ListsInReverseUploadOrder(items: seq<Record>)
    requires StrictlyOldestFirst(items)
    ensures SortNewestFirst(items) == Reverse(items)
  {
    if items != [] {
      var rest := items[1..];
      StrictlyOldestFirstTail(items);
      ListsInReverseUploadOrder(rest);
      HeadBelowReversedTail(items);
      InsertBelowAll(items[0], Reverse(rest));
      SortAndReverseUnfold(items);
    }
  }

  /** In a strictly increasing list the head is older than every record after it. */
  lemma HeadBelowReversedTail(items: seq<Record>)
    requires items != [] && StrictlyOldestFirst(items)
    ensures var rev := Reverse(items[1..]);
            forall k :: 0 <= k < |rev| ==> !Precedes(items[0], rev[k])
  {
    var rest := items[1..];
    var rev := Reverse(rest);
    forall k | 0 <= k < |rev| ensures !Precedes(items[0], rev[k]) {
      assert rev[k] == items[|rest| - k];
    }
  }

  /** One step of both definitions on a non-empty list. */
  lemma SortAndReverseUnfold(items: seq<Record>)
    requires items != []
    ensures SortNewestFirst(items) == Insert(items[0], SortNewestFirst(items[1..]))
    ensures Reverse(items) == Reverse(items[1..]) + [items[0]]
  {
  }

  /** The extensions probed when the recorded one is of no help (app.py:238). */
  const ProbeOrder: seq<string> := [".jpg", ".jpeg", ".png", ".gif", ".webp", ".heic", ".heif"]

  /** Every allow-listed extension is among those probed. */
  lemma ProbeCoversAllowed(e: string)
    requires e in Uploads.AllowedExtensions
    ensures "." + e in ProbeOrder
  {
    if e == "png" { assert "." + e == ProbeOrder[2]; }
    else if e == "jpg" { assert "." + e == ProbeOrder[0]; }
    else if e == "jpeg" { assert "." + e == ProbeOrder[1]; }
    else if e == "gif" { assert "." + e == ProbeOrder[3]; }
    else if e == "webp" { assert "." + e == ProbeOrder[4]; }
    else if e == "heic" { assert "." + e == ProbeOrder[5]; }
    else { assert "." + e == ProbeOrder[6]; }
  }

  /** What `/download` sends: a file of the originals directory under a download name, or 404. */
  datatype Download = Serve(file: string, downloadName: string) | NotFound

  /** The position of the first record with the given id (`next(...)`), or -1. */
  function FirstWithId(photos: seq<Record>, photoId: string): (k: int)
    ensures -1 <= k < |photos|
    ensures k >= 0 ==> photos[k].id == Some(photoId)
    ensures forall j :: 0 <= j < |photos| && (k == -1 || j < k) ==> photos[j].id != Some(photoId)
  {
    if photos == [] then -1
    else if photos[0].id == Some(photoId) then 0
    else var k := FirstWithId(photos[1..], photoId); if k == -1 then -1 else k + 1
  }

  /** The file name the record points at: the id followed by `entry.get('original_ext', '')`. */
  function RecordedFile(entry: Record, photoId: string): string {
    photoId + entry.originalExt.GetOr("")
  }

  /** `entry.get("name") or os.path.basename(cand)`. */
  function DownloadName(entry: Record, file: string): string {
    if entry.name.Some? && entry.name.value != "" then entry.name.value else file
  }

  /** The fallback loop of app.py:238-242 from position `k` of the probe order on. */
  function Probe(photoId: string, originals: set<string>, k: nat): (r: Download)
    requires k <= |ProbeOrder|
    ensures r.NotFound? <==> forall j :: k <= j < |ProbeOrder| ==> photoId + ProbeOrder[j] !in originals
    ensures r.Serve? ==> exists j :: k <= j < |ProbeOrder| && r.file == photoId + ProbeOrder[j]
                           && r.file in originals && r.downloadName == r.file
                           && forall i :: k <= i < j ==> photoId + ProbeOrder[i] !in originals
    decreases |ProbeOrder| - k
  {
    if k == |ProbeOrder| then NotFound
    else
      var p := photoId + ProbeOrder[k];
      if p in originals then Serve(p, p) else Probe(photoId, originals, k + 1)
  }

  /**
   * `/download/<photo_id>` over the document `d` and the set of file names
   * present in the originals directory.
   */
  function DownloadOriginal(d: Document, photoId: string, originals: set<string>): (r: Download)
    ensures r.Serve? ==> r.file in originals
    ensures var photos := ReadPhotosUnlocked(d); var k := FirstWithId(photos, photoId);
            k >= 0 && RecordedFile(photos[k], photoId) in originals
            ==> r == Serve(RecordedFile(photos[k], photoId), DownloadName(photos[k], RecordedFile(photos[k], photoId)))
    ensures var photos := ReadPhotosUnlocked(d); var k := FirstWithId(photos, photoId);
            !(k >= 0 && RecordedFile(photos[k], photoId) in originals) ==>
              (r.NotFound? <==> forall j :: 0 <= j < |ProbeOrder| ==> photoId + ProbeOrder[j] !in originals)
              && (r.Serve? ==> exists j :: 0 <= j < |ProbeOrder| && r.file == photoId + ProbeOrder[j]
                                 && r.downloadName == r.file
                                 && forall i :: 0 <= i < j ==> photoId + ProbeOrder[i] !in originals)
  {
    var photos := ReadPhotosUnlocked(d);
    var k := FirstWithId(photos, photoId);
    if k >= 0 && RecordedFile(photos[k], photoId) in originals then
      var cand := RecordedFile(photos[k], photoId);
      Serve(cand, DownloadName(photos[k], cand))
    else
      Probe(photoId, originals, 0)
  }

  /** An id that no record carries and no probed file matches gives 404. */
  lemma UnknownIdNotFound(d: Document, photoId: string, originals: set<string>)
    requires forall j :: 0 <= j < |ProbeOrder| ==> photoId + ProbeOrder[j] !in originals
    requires forall j :: 0 <= j < |ReadPhotosUnlocked(d)| ==> ReadPhotosUnlocked(d)[j].id != Some(photoId)
    ensures DownloadOriginal(d, photoId, originals) == NotFound
  {
  }
}
