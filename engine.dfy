/**
 * The scanner's dedup-and-upsert engine as the page runs it: one object
 * holding the last accepted detection and the stored attendance log, whose
 * methods overwrite those fields. The clock reading of a call and the
 * locale strings derived from it are parameters; the log field stands for
 * the list persisted in local storage.
 */
module Scanner {
  import opened Wrappers
  import opened AttendanceLog

  /**
   * The search for the first record of `text` on `date`, scanning the log
   * from its newest record.
   */
  method FindEntry(log: seq<Entry>, text: string, date: string) returns (found: Option<nat>)
    ensures found.Some? ==> found.value < |log| && Matches(log[found.value], text, date)
    ensures found.Some? ==> forall j :: 0 <= j < found.value ==> !Matches(log[j], text, date)
    ensures found.None? <==> forall j :: 0 <= j < |log| ==> !Matches(log[j], text, date)
    ensures found == FirstMatch(log, text, date)
  {
    var i := 0;
    while i < |log|
      invariant 0 <= i <= |log|
      invariant forall j :: 0 <= j < i ==> !Matches(log[j], text, date)
    {
      if Matches(log[i], text, date) {
        return Some(i);
      }
      i := i + 1;
    }
    return None;
  }

  class Engine {
    /** The last accepted detection; none before the first one. */
    var lastSeen: Option<Seen>
    /** The stored log, newest record first. */
    var log: seq<Entry>

    /**
     * The invariant every method keeps once the log satisfies it: at most
     * Capacity records, one per (text, date). An empty or cleared log does;
     * a stored log with a duplicate keeps it.
     */
    ghost predicate Valid()
      reads this
    {
      |log| <= Capacity && UniqueKeys(log)
    }

    /** The engine at page load: nothing seen yet, the log as stored. */
    constructor (stored: seq<Entry>)
      ensures lastSeen == None && log == stored
    {
      lastSeen := None;
      log := stored;
    }

    /**
     * One decoded payload `t` from a camera frame or an image, arriving at
     * `now` ms. An empty text, or a repeat of the last accepted text less
     * than Window ms after it, changes nothing; anything else becomes the
     * last accepted detection and is saved in the log.
     */
    method HandleResult(t: string, kind: Source, snapshot: string, now: int, today: string, timeStr: string)
      modifies this
      ensures t == "" ==> lastSeen == old(lastSeen) && log == old(log)
      ensures old(lastSeen).Some? && old(lastSeen).value.text == t && now - old(lastSeen).value.time < Window ==>
        lastSeen == old(lastSeen) && log == old(log)
      ensures t != "" && (old(lastSeen).None? || old(lastSeen).value.text != t || now - old(lastSeen).value.time >= Window) ==>
        lastSeen == Some(Seen(t, now)) && log == SaveLog(old(log), Detection(t, kind, snapshot), today, timeStr)
      ensures State(lastSeen, log) ==
        Handle(State(old(lastSeen), old(log)), Scan(Detection(t, kind, snapshot), Clock(now, today, timeStr)))
      ensures old(Valid()) ==> Valid()
    {
      if t == "" {
        return;
      }
      if lastSeen.Some? && lastSeen.value.text == t && now - lastSeen.value.time < Window {
        return;
      }
      lastSeen := Some(Seen(t, now));
      SaveLogItem(Detection(t, kind, snapshot), today, timeStr);
    }

    /**
     * Upserts the record of `d` for `today`: a new record at the front with
     * log-in `timeStr`, or the log-out of the existing one overwritten; then
     * the log is cut to Capacity records.
     */
    method SaveLogItem(d: Detection, today: string, timeStr: string)
      modifies this`log
      ensures log == SaveLog(old(log), d, today, timeStr)
      ensures |log| <= Capacity
      ensures old(UniqueKeys(log)) ==> UniqueKeys(log)
    {
      if UniqueKeys(log) {
        SaveLogKeepsUnique(log, d, today, timeStr);
      }
      var found := FindEntry(log, d.text, today);
      var updated: seq<Entry>;
      match found {
        case None =>
          updated := [NewEntry(d, today, timeStr)] + log;
        case Some(i) =>
          updated := log[i := log[i].(logOut := timeStr)];
      }
      log := Take(updated, Capacity);
    }

    /** Clears the stored log; the dedup reference is kept. */
    method ClearLog()
      modifies this`log
      ensures log == [] && lastSeen == old(lastSeen)
      ensures Valid()
    {
      log := [];
    }
  }
}
