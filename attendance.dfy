/**
 * The value-level model of the attendance engine: the records kept in the
 * log, the duplicate-suppression gate, the upsert of one detection into the
 * log, and the effect of a whole sequence of detections. The imperative
 * engine in module Scanner is proved against these definitions.
 */
module AttendanceLog {
  import opened Wrappers

  /** Where a detection came from: a live camera frame or a loaded image. */
  datatype Source = Camera | Image

  /**
   * One attendance record: the first log-in and the latest log-out of one
   * payload on one calendar day. Dates and times are the locale strings the
   * browser produced; the snapshot is an opaque image data URI.
   */
  datatype Entry = Entry(text: string, kind: Source, snapshot: string,
                         date: string, logIn: string, logOut: string)

  /** The record handed to the log: payload text, source and snapshot. */
  datatype Detection = Detection(text: string, kind: Source, snapshot: string)

  /**
   * One reading of the clock: milliseconds since the epoch, and the same
   * instant as a locale date string and a locale time string.
   */
  datatype Clock = Clock(now: int, today: string, timeStr: string)

  /** The last accepted detection: its text and its clock value in ms. */
  datatype Seen = Seen(text: string, time: int)

  /** The whole state of the engine: the dedup reference and the stored log. */
  datatype State = State(lastSeen: Option<Seen>, log: seq<Entry>)

  /** One call of the engine: what was detected and when. */
  datatype Scan = Scan(d: Detection, c: Clock)

  /** The log keeps at most this many records. */
  const Capacity: nat := 200

  /** Repeats of the last accepted text closer than this (ms) are dropped. */
  const Window: int := 2500

  function Min(a: int, b: int): int { if a <= b then a else b }

  /**
   * The duplicate-suppression gate: an empty text is never accepted, and
   * neither is the text of the last accepted detection repeated less than
   * Window milliseconds after it (a negative gap counts as less).
   */
  predicate Accepts(last: Option<Seen>, t: string, now: int)
  {
    t != "" && !(last.Some? && last.value.text == t && now - last.value.time < Window)
  }

  /** An entry is the record of `text` on `date`. */
  predicate Matches(e: Entry, text: string, date: string)
  {
    e.text == text && e.date == date
  }

  /** At most one record per (text, date) pair. */
  ghost predicate UniqueKeys(log: seq<Entry>)
  {
    forall i, j :: 0 <= i < j < |log| ==> !Matches(log[j], log[i].text, log[i].date)
  }

  /** The index of the first record of `text` on `date`, if there is one. */
  function FirstMatch(log: seq<Entry>, text: string, date: string): (r: Option<nat>)
    ensures r.Some? ==> r.value < |log| && Matches(log[r.value], text, date)
    ensures r.Some? ==> forall j :: 0 <= j < r.value ==> !Matches(log[j], text, date)
    ensures r.None? ==> forall j :: 0 <= j < |log| ==> !Matches(log[j], text, date)
  {
    if log == [] then None
    else if Matches(log[0], text, date) then Some(0)
    else match FirstMatch(log[1..], text, date)
      case None => None
      case Some(i) => Some(i + 1)
  }

  /** The first `n` records, or all of them when there are fewer. */
  function Take(log: seq<Entry>, n: nat): (r: seq<Entry>)
    ensures |r| == Min(|log|, n)
    ensures forall j :: 0 <= j < |r| ==> r[j] == log[j]
  {
    if |log| <= n then log else log[..n]
  }

  /** The record created by the first detection of a payload on a day. */
  function NewEntry(d: Detection, today: string, timeStr: string): Entry
  {
    Entry(d.text, d.kind, d.snapshot, today, timeStr, "")
  }

  /**
   * The log after one accepted detection: a new record at the front when
   * none exists for (text, today), otherwise the first such record gets
   * `timeStr` as its log-out; then only the first Capacity records are kept.
   */
  function SaveLog(log: seq<Entry>, d: Detection, today: string, timeStr: string): (r: seq<Entry>)
    ensures |r| <= Capacity
  {
    match FirstMatch(log, d.text, today)
    case None => Take([NewEntry(d, today, timeStr)] + log, Capacity)
    case Some(i) => Take(log[i := log[i].(logOut := timeStr)], Capacity)
  }

  /** The effect of one call of the engine on its state. */
  function Handle(s: State, scan: Scan): State
  {
    if Accepts(s.lastSeen, scan.d.text, scan.c.now) then
      State(Some(Seen(scan.d.text, scan.c.now)), SaveLog(s.log, scan.d, scan.c.today, scan.c.timeStr))
    else s
  }

  /** The effect of a sequence of calls, in order. */
  function Replay(s: State, scans: seq<Scan>): State
    decreases |scans|
  {
    if scans == [] then s else Replay(Handle(s, scans[0]), scans[1..])
  }

  // ---------------------------------------------------------------------
  // The upsert

  /**
   * With no record for (text, today), the new record goes to the front with
   * log-in `timeStr` and an empty log-out, and the older records follow in
   * their order, the oldest dropped once the log is full.
   */
  lemma SaveLogInserts(log: seq<Entry>, d: Detection, today: string, timeStr: string)
    requires forall j :: 0 <= j < |log| ==> !Matches(log[j], d.text, today)
    ensures var r := SaveLog(log, d, today, timeStr);
      && |r| == Min(|log| + 1, Capacity)
      && r[0] == Entry(d.text, d.kind, d.snapshot, today, timeStr, "")
      && forall j :: 1 <= j < |r| ==> r[j] == log[j - 1]
  {
    var grown := [NewEntry(d, today, timeStr)] + log;
    assert forall j :: 1 <= j < |grown| ==> grown[j] == log[j - 1];
  }

  /**
   * With a record for (text, today) at index i (the first one), only its
   * log-out changes: its log-in and every other field stay, every other
   * record stays, and so do the order and the length (up to Capacity).
   */
  lemma SaveLogUpdates(log: seq<Entry>, d: Detection, today: string, timeStr: string, i: nat)
    requires i < |log| && Matches(log[i], d.text, today)
    requires forall j :: 0 <= j < i ==> !Matches(log[j], d.text, today)
    ensures var r := SaveLog(log, d, today, timeStr);
      && |r| == Min(|log|, Capacity)
      && (forall j :: 0 <= j < |r| && j != i ==> r[j] == log[j])
      && (i < |r| ==> r[i] == log[i].(logOut := timeStr))
  {
  }

  /** The upsert never creates a second record for a (text, date) pair. */
  lemma SaveLogKeepsUnique(log: seq<Entry>, d: Detection, today: string, timeStr: string)
    requires UniqueKeys(log)
    ensures UniqueKeys(SaveLog(log, d, today, timeStr))
  {
    var r := SaveLog(log, d, today, timeStr);
    match FirstMatch(log, d.text, today)
    case None =>
      SaveLogInserts(log, d, today, timeStr);
      forall a, b | 0 <= a < b < |r|
        ensures !Matches(r[b], r[a].text, r[a].date)
      {
        if a == 0 {
          assert r[b] == log[b - 1];
        } else {
          assert r[a] == log[a - 1] && r[b] == log[b - 1];
        }
      }
    case Some(i) =>
      SaveLogUpdates(log, d, today, timeStr, i);
      forall a, b | 0 <= a < b < |r|
        ensures !Matches(r[b], r[a].text, r[a].date)
      {
        assert r[a].text == log[a].text && r[a].date == log[a].date;
        assert r[b].text == log[b].text && r[b].date == log[b].date;
      }
  }

  // ---------------------------------------------------------------------
  // The gate and sequences of detections

  /**
   * After a detection of `t` at time T has been accepted, every further
   * detection of `t` before T + Window is dropped, whatever the log holds.
   */
  lemma {:induction false} RepeatsAreDropped(s: State, t: string, time: int, scans: seq<Scan>)
    requires s.lastSeen == Some(Seen(t, time))
    requires forall k :: 0 <= k < |scans| ==> scans[k].d.text == t && scans[k].c.now < time + Window
    ensures Replay(s, scans) == s
    decreases |scans|
  {
    if scans != [] {
      assert Handle(s, scans[0]) == s;
      RepeatsAreDropped(s, t, time, scans[1..]);
    }
  }

  /**
   * A burst of detections of one text, all within Window of the first
   * accepted one, has the effect of its first detection alone: the log gains
   * one record or one update, not more.
   */
  lemma BurstCountsOnce(s: State, scans: seq<Scan>)
    requires |scans| > 0
    requires Accepts(s.lastSeen, scans[0].d.text, scans[0].c.now)
    requires forall k :: 0 <= k < |scans| ==>
      scans[k].d.text == scans[0].d.text && scans[k].c.now < scans[0].c.now + Window
    ensures Replay(s, scans) == Handle(s, scans[0])
  {
    var s1 := Handle(s, scans[0]);
    RepeatsAreDropped(s1, scans[0].d.text, scans[0].c.now, scans[1..]);
  }

  /**
   * Two detections of a payload on the same day, at least Window apart and
   * with no record of it yet: the first creates the record with the first
   * time as log-in and an empty log-out; the second keeps that log-in and
   * sets the log-out to the second time, without adding a record.
   */
  lemma SameDayInThenOut(s: State, d1: Detection, c1: Clock, d2: Detection, c2: Clock)
    requires d1.text != "" && d2.text == d1.text && c2.today == c1.today
    requires Accepts(s.lastSeen, d1.text, c1.now) && c2.now >= c1.now + Window
    requires forall j :: 0 <= j < |s.log| ==> !Matches(s.log[j], d1.text, c1.today)
    ensures var s1 := Handle(s, Scan(d1, c1));
      && |s1.log| == Min(|s.log| + 1, Capacity)
      && s1.log[0] == Entry(d1.text, d1.kind, d1.snapshot, c1.today, c1.timeStr, "")
    ensures var s2 := Replay(s, [Scan(d1, c1), Scan(d2, c2)]);
      && s2.lastSeen == Some(Seen(d1.text, c2.now))
      && |s2.log| == Min(|s.log| + 1, Capacity)
      && s2.log[0] == Entry(d1.text, d1.kind, d1.snapshot, c1.today, c1.timeStr, c2.timeStr)
      && forall j :: 1 <= j < |s2.log| ==> s2.log[j] == s.log[j - 1]
  {
    var s1 := Handle(s, Scan(d1, c1));
    SaveLogInserts(s.log, d1, c1.today, c1.timeStr);
    assert Accepts(s1.lastSeen, d2.text, c2.now);
    SaveLogUpdates(s1.log, d2, c2.today, c2.timeStr, 0);
    var s2 := Handle(s1, Scan(d2, c2));
    assert [Scan(d1, c1), Scan(d2, c2)][1..] == [Scan(d2, c2)];
    assert Replay(s, [Scan(d1, c1), Scan(d2, c2)]) == Replay(s1, [Scan(d2, c2)]);
    assert Replay(s1, [Scan(d2, c2)]) == Replay(s2, []);
  }

  /**
   * Detections of a payload on two different days, each day without a
   * record of it yet: two separate records result, the newer day's first.
   */
  lemma TwoDaysTwoRecords(s: State, d1: Detection, c1: Clock, d2: Detection, c2: Clock)
    requires d1.text != "" && d2.text == d1.text && c2.today != c1.today
    requires Accepts(s.lastSeen, d1.text, c1.now) && c2.now >= c1.now + Window
    requires forall j :: 0 <= j < |s.log| ==> !Matches(s.log[j], d1.text, c1.today)
    requires forall j :: 0 <= j < |s.log| ==> !Matches(s.log[j], d1.text, c2.today)
    ensures var s2 := Handle(Handle(s, Scan(d1, c1)), Scan(d2, c2));
      && |s2.log| >= 2
      && s2.log[0] == Entry(d1.text, d2.kind, d2.snapshot, c2.today, c2.timeStr, "")
      && s2.log[1] == Entry(d1.text, d1.kind, d1.snapshot, c1.today, c1.timeStr, "")
  {
    var s1 := Handle(s, Scan(d1, c1));
    SaveLogInserts(s.log, d1, c1.today, c1.timeStr);
    assert Accepts(s1.lastSeen, d2.text, c2.now);
    forall j | 0 <= j < |s1.log| ensures !Matches(s1.log[j], d2.text, c2.today) {
      if j > 0 { assert s1.log[j] == s.log[j - 1]; }
    }
    SaveLogInserts(s1.log, d2, c2.today, c2.timeStr);
  }

  /**
   * The gate ignores the date: a repeat less than Window ms after an
   * accepted detection is dropped even when the day changed in between
   * (23:59:59 then 00:00:01), so the new day gets no record from it.
   */
  lemma DayChangeInsideWindow(s: State, d1: Detection, c1: Clock, d2: Detection, c2: Clock)
    requires d1.text != "" && d2.text == d1.text && c2.today != c1.today
    requires Accepts(s.lastSeen, d1.text, c1.now) && c2.now < c1.now + Window
    ensures var s1 := Handle(s, Scan(d1, c1));
      Handle(s1, Scan(d2, c2)) == s1
  {
  }

  /**
   * A working day of one badge, from an empty log: scanned at 09:00:00 and
   * again a second later (dropped), at 17:30:00 (log-out), and at 09:05:00
   * the next day (a second record).
   */
  lemma BadgeScenario(kind: Source, snap: string)
    ensures var d := Detection("EMP-42", kind, snap);
      var t0 := 1000000;
      var s1 := Handle(State(None, []), Scan(d, Clock(t0, "1/5/2026", "09:00:00")));
      var s2 := Handle(s1, Scan(d, Clock(t0 + 1000, "1/5/2026", "09:00:01")));
      var s3 := Handle(s2, Scan(d, Clock(t0 + 30600000, "1/5/2026", "17:30:00")));
      var s4 := Handle(s3, Scan(d, Clock(t0 + 86700000, "1/6/2026", "09:05:00")));
      && s2 == s1
      && s1.log == [Entry("EMP-42", kind, snap, "1/5/2026", "09:00:00", "")]
      && s3.log == [Entry("EMP-42", kind, snap, "1/5/2026", "09:00:00", "17:30:00")]
      && s4.log == [Entry("EMP-42", kind, snap, "1/6/2026", "09:05:00", ""),
                    Entry("EMP-42", kind, snap, "1/5/2026", "09:00:00", "17:30:00")]
  {
    var d := Detection("EMP-42", kind, snap);
    var t0 := 1000000;
    var s1 := Handle(State(None, []), Scan(d, Clock(t0, "1/5/2026", "09:00:00")));
    SaveLogInserts([], d, "1/5/2026", "09:00:00");
    var s3 := Handle(s1, Scan(d, Clock(t0 + 30600000, "1/5/2026", "17:30:00")));
    SaveLogUpdates(s1.log, d, "1/5/2026", "17:30:00", 0);
    assert "1/5/2026" != "1/6/2026" by { assert "1/5/2026"[2] != "1/6/2026"[2]; }
    SaveLogInserts(s3.log, d, "1/6/2026", "09:05:00");
  }
}
