/**
 * The quota-gated append store of app.py: counting a client's uploads for a
 * day (`_uploads_today_count`, app.py:49-60) and the locked re-count and
 * append (`_append_photo_locked_with_quota`, app.py:62-85). The file lock,
 * `seek`/`truncate`/`fsync` and the JSON text are not modelled: the body of
 * the critical section is one sequential step on the store's document.
 */
module Quota {
  import opened Wrappers
  import opened Records

  /** A record counts for `clientIp` on the day `todayPrefix` (app.py:56-58). */
  predicate Matches(r: Record, clientIp: string, todayPrefix: string) {
    r.clientIp == Some(clientIp) && todayPrefix <= UploadedAt(r)
  }

  /** The number of records of `photos` that count for `clientIp` on `todayPrefix`. */
  function TodayCount(photos: seq<Record>, clientIp: string, todayPrefix: string): (n: nat)
    ensures n <= |photos|
  {
    if photos == [] then 0
    else TodayCount(photos[..|photos| - 1], clientIp, todayPrefix)
         + (if Matches(photos[|photos| - 1], clientIp, todayPrefix) then 1 else 0)
  }

  /** The positions of `photos` holding a record that counts. */
  function MatchingIndices(photos: seq<Record>, clientIp: string, todayPrefix: string): set<int> {
    set k | 0 <= k < |photos| && Matches(photos[k], clientIp, todayPrefix)
  }

  /** The count is exactly the number of matching records. */
  lemma {:induction false} TodayCountCountsMatches(photos: seq<Record>, clientIp: string, todayPrefix: string)
    ensures TodayCount(photos, clientIp, todayPrefix) == |MatchingIndices(photos, clientIp, todayPrefix)|
  {
    if photos != [] {
      var n := |photos| - 1;
      var init := photos[..n];
      TodayCountCountsMatches(init, clientIp, todayPrefix);
      var s := MatchingIndices(init, clientIp, todayPrefix);
      if Matches(photos[n], clientIp, todayPrefix) {
        assert MatchingIndices(photos, clientIp, todayPrefix) == s + {n};
      } else {
        assert MatchingIndices(photos, clientIp, todayPrefix) == s;
      }
    }
  }

  /** No record counts exactly when the count is zero; all count exactly when it is `|photos|`. */
  lemma {:induction false} TodayCountExtremes(photos: seq<Record>, clientIp: string, todayPrefix: string)
    ensures TodayCount(photos, clientIp, todayPrefix) == 0
            <==> forall k :: 0 <= k < |photos| ==> !Matches(photos[k], clientIp, todayPrefix)
    ensures TodayCount(photos, clientIp, todayPrefix) == |photos|
            <==> forall k :: 0 <= k < |photos| ==> Matches(photos[k], clientIp, todayPrefix)
  {
    if photos != [] {
      var n := |photos| - 1;
      TodayCountExtremes(photos[..n], clientIp, todayPrefix);
      assert forall k :: 0 <= k < n ==> photos[..n][k] == photos[k];
    }
  }

  /** Appending one record raises the count by one if it counts and leaves it otherwise. */
  lemma TodayCountAppend(photos: seq<Record>, entry: Record, clientIp: string, todayPrefix: string)
    ensures TodayCount(photos + [entry], clientIp, todayPrefix)
            == TodayCount(photos, clientIp, todayPrefix) + (if Matches(entry, clientIp, todayPrefix) then 1 else 0)
  {
    assert (photos + [entry])[..|photos|] == photos;
  }

  /** Counting splits over concatenation. */
  lemma {:induction false} TodayCountConcat(a: seq<Record>, b: seq<Record>, clientIp: string, todayPrefix: string)
    ensures TodayCount(a + b, clientIp, todayPrefix)
            == TodayCount(a, clientIp, todayPrefix) + TodayCount(b, clientIp, todayPrefix)
  {
    if b == [] {
      assert a + b == a;
    } else {
      var init := b[..|b| - 1];
      var last := b[|b| - 1];
      assert b == init + [last];
      assert a + b == (a + init) + [last];
      TodayCountConcat(a, init, clientIp, todayPrefix);
      TodayCountAppend(a + init, last, clientIp, todayPrefix);
      TodayCountAppend(init, last, clientIp, todayPrefix);
    }
  }

  /** `_uploads_today_count`: one pass over the records, incrementing the count on each match. */
  method UploadsTodayCount(photos: seq<Record>, clientIp: string, todayPrefix: string) returns (cnt: nat)
    ensures cnt == TodayCount(photos, clientIp, todayPrefix)
    ensures cnt == |MatchingIndices(photos, clientIp, todayPrefix)|
  {
    cnt := 0;
    var i := 0;
    while i < |photos|
      invariant 0 <= i <= |photos|
      invariant cnt == TodayCount(photos[..i], clientIp, todayPrefix)
    {
      var p := photos[i];
      if p.clientIp == Some(clientIp) {
        var ts := UploadedAt(p);
        if todayPrefix <= ts {
          cnt := cnt + 1;
        }
      }
      assert photos[..i + 1][..i] == photos[..i];
      i := i + 1;
    }
    assert photos[..i] == photos;
    TodayCountCountsMatches(photos, clientIp, todayPrefix);
  }

  /** The client's count in what the unlocked read of `d` returns. */
  function Count(d: Document, clientIp: string, todayPrefix: string): nat {
    TodayCount(ReadPhotosUnlocked(d), clientIp, todayPrefix)
  }

  /** How the locked append ends: the entry was appended, the quota refused it, or `json.loads` raised. */
  datatype Outcome = Appended | Refused | Raised

  /** The outcome of one locked append and the document it leaves behind. */
  datatype Commit = Commit(outcome: Outcome, doc: Document)

  /**
   * One execution of the critical section of `_append_photo_locked_with_quota`
   * with the day key `todayPrefix` (app.py:67): read the document, re-count,
   * then refuse or append exactly one entry.
   */
  function LockedAppend(d: Document, entry: Record, clientIp: string, todayPrefix: string, dailyLimit: int): (c: Commit)
    ensures c.outcome == Raised <==> d == Malformed
    ensures c.outcome == Appended <==> d != Malformed && Count(d, clientIp, todayPrefix) < dailyLimit
    ensures c.outcome == Appended ==> c.doc == Records(ReadPhotosUnlocked(d) + [entry])
    ensures c.outcome == Raised ==> c.doc == d
    ensures c.outcome == Refused ==> c.doc == (if d == Missing then Blank else d)
    ensures c.doc != Malformed || d == Malformed
  {
    match LockedRead(d)
    case None => Commit(Raised, d)
    case Some(photos) =>
      var created := if d == Missing then Blank else d;
      if TodayCount(photos, clientIp, todayPrefix) >= dailyLimit then Commit(Refused, created)
      else Commit(Appended, Records(photos + [entry]))
  }

  /** The unlocked pre-check of the upload route lets the request go on (app.py:139-141). */
  predicate PreCheckAllows(d: Document, clientIp: string, todayPrefix: string, dailyLimit: int) {
    TodayCount(ReadPhotosUnlocked(d), clientIp, todayPrefix) < dailyLimit
  }

  /**
   * On an unchanged, readable document the cheap pre-check and the locked
   * re-check agree; on a malformed one the pre-check may pass while the locked
   * read raises. The lock never accepts what the pre-check refused.
   */
  lemma PreCheckAgreesWithLock(d: Document, entry: Record, clientIp: string, todayPrefix: string, dailyLimit: int)
    ensures LockedAppend(d, entry, clientIp, todayPrefix, dailyLimit).outcome == Appended
            ==> PreCheckAllows(d, clientIp, todayPrefix, dailyLimit)
    ensures d != Malformed ==>
              (LockedAppend(d, entry, clientIp, todayPrefix, dailyLimit).outcome == Appended
               <==> PreCheckAllows(d, clientIp, todayPrefix, dailyLimit))
  {
  }

  /** A call to the locked append: the entry, and the client and day key it is checked against. */
  datatype Attempt = Attempt(entry: Record, clientIp: string, todayPrefix: string)

  /** The entry of `a` can only count for (`clientIp`, `todayPrefix`) if `a` is checked against them. */
  predicate Consistent(a: Attempt, clientIp: string, todayPrefix: string) {
    Matches(a.entry, clientIp, todayPrefix) ==> a.clientIp == clientIp && a.todayPrefix == todayPrefix
  }

  datatype RunResult = RunResult(doc: Document, successes: nat)

  /** Locked appends one after another, as the lock serialises them. */
  function Run(d: Document, attempts: seq<Attempt>, dailyLimit: int): RunResult
    decreases |attempts|
  {
    if attempts == [] then RunResult(d, 0)
    else
      var a := attempts[0];
      var c := LockedAppend(d, a.entry, a.clientIp, a.todayPrefix, dailyLimit);
      var rest := Run(c.doc, attempts[1..], dailyLimit);
      RunResult(rest.doc, rest.successes + (if c.outcome == Appended then 1 else 0))
  }

  /** One locked append keeps a client's count for a day within the limit. */
  lemma LockedAppendKeepsQuota(d: Document, a: Attempt, dailyLimit: int, clientIp: string, todayPrefix: string)
    requires Consistent(a, clientIp, todayPrefix)
    requires Count(d, clientIp, todayPrefix) <= dailyLimit
    ensures Count(LockedAppend(d, a.entry, a.clientIp, a.todayPrefix, dailyLimit).doc, clientIp, todayPrefix) <= dailyLimit
  {
    var c := LockedAppend(d, a.entry, a.clientIp, a.todayPrefix, dailyLimit);
    if c.outcome == Appended {
      TodayCountAppend(ReadPhotosUnlocked(d), a.entry, clientIp, todayPrefix);
    }
  }

  /**
   * The quota invariant: if every entry is checked against the client and day
   * it counts for, no sequence of locked appends takes that client's count for
   * that day above the limit.
   */
  lemma {:induction false} QuotaNeverExceeded(d: Document, attempts: seq<Attempt>, dailyLimit: int,
                                               clientIp: string, todayPrefix: string)
    requires forall k :: 0 <= k < |attempts| ==> Consistent(attempts[k], clientIp, todayPrefix)
    requires Count(d, clientIp, todayPrefix) <= dailyLimit
    ensures Count(Run(d, attempts, dailyLimit).doc, clientIp, todayPrefix) <= dailyLimit
    decreases |attempts|
  {
    if attempts != [] {
      var a := attempts[0];
      LockedAppendKeepsQuota(d, a, dailyLimit, clientIp, todayPrefix);
      var c := LockedAppend(d, a.entry, a.clientIp, a.todayPrefix, dailyLimit);
      QuotaNeverExceeded(c.doc, attempts[1..], dailyLimit, clientIp, todayPrefix);
    }
  }

  /** How many more appends the quota admits for `clientIp` on `todayPrefix`. */
  function Room(d: Document, clientIp: string, todayPrefix: string, dailyLimit: int): nat {
    if d == Malformed || dailyLimit < Count(d, clientIp, todayPrefix) then 0
    else dailyLimit - Count(d, clientIp, todayPrefix)
  }

  /** Every attempt is by `clientIp` on `todayPrefix`, with an entry that counts for them. */
  predicate SameClientDay(attempts: seq<Attempt>, clientIp: string, todayPrefix: string) {
    forall k :: 0 <= k < |attempts| ==>
      attempts[k].clientIp == clientIp && attempts[k].todayPrefix == todayPrefix
      && Matches(attempts[k].entry, clientIp, todayPrefix)
  }

  lemma SameClientDayTail(attempts: seq<Attempt>, clientIp: string, todayPrefix: string)
    requires attempts != [] && SameClientDay(attempts, clientIp, todayPrefix)
    ensures SameClientDay(attempts[1..], clientIp, todayPrefix)
  {
    var tail := attempts[1..];
    forall k | 0 <= k < |tail|
      ensures tail[k].clientIp == clientIp && tail[k].todayPrefix == todayPrefix
              && Matches(tail[k].entry, clientIp, todayPrefix)
    {
      assert tail[k] == attempts[k + 1];
    }
  }

  /**
   * Race freedom: of any number of appends by one client on one day, attempts
   * succeed while the quota has room, so the number of successes is the
   * smaller of the number of attempts and the room left.
   */
  lemma {:induction false} SuccessesFillRemainingQuota(d: Document, attempts: seq<Attempt>, dailyLimit: int,
                                                        clientIp: string, todayPrefix: string)
    requires SameClientDay(attempts, clientIp, todayPrefix)
    ensures var room := Room(d, clientIp, todayPrefix, dailyLimit);
            Run(d, attempts, dailyLimit).successes == (if |attempts| < room then |attempts| else room)
    decreases |attempts|
  {
    if attempts != [] {
      var a := attempts[0];
      var c := LockedAppend(d, a.entry, clientIp, todayPrefix, dailyLimit);
      AppendUsesRoom(d, a, dailyLimit, clientIp, todayPrefix);
      SameClientDayTail(attempts, clientIp, todayPrefix);
      SuccessesFillRemainingQuota(c.doc, attempts[1..], dailyLimit, clientIp, todayPrefix);
    }
  }

  /** Each success of a run by one client on one day adds exactly one to that day's count. */
  lemma {:induction false} RunCountsSuccesses(d: Document, attempts: seq<Attempt>, dailyLimit: int,
                                               clientIp: string, todayPrefix: string)
    requires SameClientDay(attempts, clientIp, todayPrefix)
    ensures var r := Run(d, attempts, dailyLimit);
            Count(r.doc, clientIp, todayPrefix) == Count(d, clientIp, todayPrefix) + r.successes
    decreases |attempts|
  {
    if attempts != [] {
      var a := attempts[0];
      var c := LockedAppend(d, a.entry, clientIp, todayPrefix, dailyLimit);
      AppendUsesRoom(d, a, dailyLimit, clientIp, todayPrefix);
      SameClientDayTail(attempts, clientIp, todayPrefix);
      RunCountsSuccesses(c.doc, attempts[1..], dailyLimit, clientIp, todayPrefix);
    }
  }

  /** One append by the client on its day uses up one unit of room, when there is any. */
  lemma AppendUsesRoom(d: Document, a: Attempt, dailyLimit: int, clientIp: string, todayPrefix: string)
    requires a.clientIp == clientIp && a.todayPrefix == todayPrefix && Matches(a.entry, clientIp, todayPrefix)
    ensures var c := LockedAppend(d, a.entry, a.clientIp, a.todayPrefix, dailyLimit);
            var room := Room(d, clientIp, todayPrefix, dailyLimit);
            (c.outcome == Appended <==> room > 0)
            && (c.outcome == Appended ==>
                  Count(c.doc, clientIp, todayPrefix) == Count(d, clientIp, todayPrefix) + 1
                  && Room(c.doc, clientIp, todayPrefix, dailyLimit) == room - 1)
            && (c.outcome != Appended ==>
                  Count(c.doc, clientIp, todayPrefix) == Count(d, clientIp, todayPrefix)
                  && Room(c.doc, clientIp, todayPrefix, dailyLimit) == 0)
  {
    var c := LockedAppend(d, a.entry, a.clientIp, a.todayPrefix, dailyLimit);
    if c.outcome == Appended {
      TodayCountAppend(ReadPhotosUnlocked(d), a.entry, clientIp, todayPrefix);
    } else {
      assert ReadPhotosUnlocked(c.doc) == ReadPhotosUnlocked(d);
    }
  }

  /** An entry built by the upload route counts for its client on the day of its own timestamp. */
  lemma EntryMatchesItsDay(photoId: string, originalName: string, origExt: string,
                           missionNumberField: Option<string>, missionDescField: Option<string>,
                           now: string, clientIp: string)
    ensures var e := MakeEntry(photoId, originalName, origExt, missionNumberField, missionDescField, now, clientIp);
            Matches(e, clientIp, DayKey(now))
            && forall day :: |day| == 10 && Matches(e, clientIp, day) ==> day == DayKey(now)
  {
    var e := MakeEntry(photoId, originalName, origExt, missionNumberField, missionDescField, now, clientIp);
    RecordMatchesItsDay(e, clientIp, now);
  }

  /** A record stamped `now` for `clientIp` counts for it on `DayKey(now)` and no other ten-character day. */
  lemma RecordMatchesItsDay(r: Record, clientIp: string, now: string)
    requires r.clientIp == Some(clientIp) && r.uploadedAt == Some(now)
    ensures Matches(r, clientIp, DayKey(now))
    ensures forall day :: |day| == 10 && Matches(r, clientIp, day) ==> day == DayKey(now)
  {
    assert UploadedAt(r) == now;
    forall day | |day| == 10 && Matches(r, clientIp, day) ensures day == DayKey(now) {
      assert day <= now;
    }
  }

  /**
   * As written, the day key of the locked re-check (app.py:67) and the entry's
   * timestamp (app.py:195) come from two clock readings. Two uploads of one
   * client pass the pre-check before midnight on an empty store; the first
   * is re-checked before midnight, the second is stamped before midnight but
   * reads its day key after it, so it is counted against the new day and both are kept: two
   * records for 2025-06-01 under a limit of one.
   */
  lemma MidnightBreachAsWritten()
    ensures
      var ip := "203.0.113.7";
      var first := MakeEntry("a1", "a.jpg", ".jpg", None, None, "2025-06-01T23:59:58", ip);
      var second := MakeEntry("b2", "b.jpg", ".jpg", None, None, "2025-06-01T23:59:59", ip);
      var start := Records([]);
      var r := Run(start, [Attempt(first, ip, DayKey("2025-06-01T23:59:58")),
                           Attempt(second, ip, DayKey("2025-06-02T00:00:00"))], 1);
      PreCheckAllows(start, ip, "2025-06-01", 1)
      && r.successes == 2 && Count(r.doc, ip, "2025-06-01") == 2
  {
    var ip := "203.0.113.7";
    var first := MakeEntry("a1", "a.jpg", ".jpg", None, None, "2025-06-01T23:59:58", ip);
    var second := MakeEntry("b2", "b.jpg", ".jpg", None, None, "2025-06-01T23:59:59", ip);
    var a1 := Attempt(first, ip, DayKey("2025-06-01T23:59:58"));
    var a2 := Attempt(second, ip, DayKey("2025-06-02T00:00:00"));
    assert a1.todayPrefix == "2025-06-01";
    assert a2.todayPrefix == "2025-06-02";
    assert Matches(first, ip, "2025-06-01");
    assert Matches(second, ip, "2025-06-01");
    assert !Matches(first, ip, "2025-06-02") by {
      assert UploadedAt(first)[9] != "2025-06-02"[9];
    }
    assert TodayCount([first], ip, "2025-06-02") == 0 by {
      TodayCountAppend([], first, ip, "2025-06-02");
      assert [] + [first] == [first];
    }
    var c1 := LockedAppend(Records([]), first, ip, "2025-06-01", 1);
    assert c1 == Commit(Appended, Records([first])) by {
      assert [] + [first] == [first];
    }
    var c2 := LockedAppend(Records([first]), second, ip, "2025-06-02", 1);
    assert c2 == Commit(Appended, Records([first, second])) by {
      assert [first] + [second] == [first, second];
    }
    assert [a1, a2][1..] == [a2];
    assert Run(Records([first]), [a2], 1) == RunResult(Records([first, second]), 1);
    assert Run(Records([]), [a1, a2], 1) == RunResult(Records([first, second]), 2);
    assert TodayCount([first, second], ip, "2025-06-01") == 2 by {
      TodayCountAppend([], first, ip, "2025-06-01");
      TodayCountAppend([first], second, ip, "2025-06-01");
      assert [] + [first] == [first];
      assert [first] + [second] == [first, second];
    }
  }

  /** The corrected locked append: the day key is taken from the entry's own timestamp. */
  function LockedAppendAtEntryDay(d: Document, entry: Record, clientIp: string, dailyLimit: int): (c: Commit)
    ensures c.outcome == Appended <==>
              d != Malformed && Count(d, clientIp, DayKey(UploadedAt(entry))) < dailyLimit
    ensures c.outcome == Appended ==> c.doc == Records(ReadPhotosUnlocked(d) + [entry])
    ensures c.outcome != Appended ==> ReadPhotosUnlocked(c.doc) == ReadPhotosUnlocked(d)
  {
    LockedAppend(d, entry, clientIp, DayKey(UploadedAt(entry)), dailyLimit)
  }

  /**
   * With the day taken from the entry, an append keeps every client's count
   * for every 'YYYY-MM-DD' day within the limit, whatever the clock says.
   */
  lemma EntryDayQuotaKept(d: Document, entry: Record, clientIp: string, dailyLimit: int,
                          otherIp: string, day: string)
    requires entry.clientIp == Some(clientIp)
    requires |day| == 10
    requires Count(d, otherIp, day) <= dailyLimit
    ensures Count(LockedAppendAtEntryDay(d, entry, clientIp, dailyLimit).doc, otherIp, day) <= dailyLimit
  {
    var c := LockedAppendAtEntryDay(d, entry, clientIp, dailyLimit);
    if c.outcome == Appended {
      TodayCountAppend(ReadPhotosUnlocked(d), entry, otherIp, day);
      if Matches(entry, otherIp, day) {
        var ts := UploadedAt(entry);
        assert day == ts[..10];
        assert DayKey(ts) == day;
      }
    }
  }

  /**
   * The store behind `photos.json`. Every mutation goes through
   * `AppendWithQuota`; `Photos` is what an unlocked read returns.
   */
  class PhotoStore {
    var doc: Document

    constructor (initial: Document)
      ensures doc == initial
    {
      doc := initial;
    }

    function Photos(): seq<Record>
      reads this
    {
      ReadPhotosUnlocked(doc)
    }

    /**
     * `_append_photo_locked_with_quota(entry, client_ip, daily_limit)` with the
     * clock reading `now` of app.py:67. Leaves the records as they were or
     * appends exactly `entry`; raises (as `Raised`) on a malformed document.
     * Called with the entry's own timestamp as `now`, it is the corrected
     * `LockedAppendAtEntryDay`.
     */
    method AppendWithQuota(entry: Record, clientIp: string, now: string, dailyLimit: int) returns (outcome: Outcome)
      modifies this
      ensures Commit(outcome, doc) == LockedAppend(old(doc), entry, clientIp, DayKey(now), dailyLimit)
      ensures now == UploadedAt(entry) ==>
                Commit(outcome, doc) == LockedAppendAtEntryDay(old(doc), entry, clientIp, dailyLimit)
      ensures outcome == Raised <==> old(doc) == Malformed
      ensures outcome == Appended <==>
                old(doc) != Malformed && TodayCount(old(Photos()), clientIp, DayKey(now)) < dailyLimit
      ensures outcome == Appended ==> Photos() == old(Photos()) + [entry]
      ensures outcome != Appended ==> Photos() == old(Photos())
      ensures Matches(entry, clientIp, DayKey(now)) && TodayCount(old(Photos()), clientIp, DayKey(now)) <= dailyLimit
              ==> TodayCount(Photos(), clientIp, DayKey(now)) <= dailyLimit
    {
      var todayPrefix := DayKey(now);
      var read := LockedRead(doc);
      if read.None? {
        return Raised;
      }
      var photos := read.value;
      if doc == Missing {
        doc := Blank;
      }
      var cnt := UploadsTodayCount(photos, clientIp, todayPrefix);
      if cnt >= dailyLimit {
        return Refused;
      }
      TodayCountAppend(photos, entry, clientIp, todayPrefix);
      photos := photos + [entry];
      doc := Records(photos);
      return Appended;
    }
  }
}
