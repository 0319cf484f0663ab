/** The event log of the dashboard. Adding an entry keeps only the five most
    recent earlier entries, so the log never shows more than six lines.
    The entry identifier (a clock reading and a random suffix in the
    dashboard) is taken as a parameter. */
module MissionLog {

  datatype LogEntry = LogEntry(id: string, text: string, kind: string)

  /** How many earlier entries survive an append. */
  const Kept: nat := 5

  function Min(a: nat, b: nat): nat { if a < b then a else b }

  /** The entries shown when the dashboard opens. */
  const InitialLogs: seq<LogEntry> := [
    LogEntry("init-1", "SYSTEM INITIALIZED...", "info"),
    LogEntry("init-2", "CONNECTING TO SATELLITE LINK...", "info"),
    LogEntry("init-3", "CONNECTION ESTABLISHED (PING 450ms)", "success")
  ]

  /** JavaScript's s.slice(-k) for k > 0: the last k elements, or all of s when it is shorter. */
  function SliceFromEnd<T>(s: seq<T>, k: nat): seq<T>
    requires k > 0
  {
    if |s| <= k then s else s[|s| - k..]
  }

  /** The newest m elements of s, oldest first. */
  function Newest<T>(s: seq<T>, m: nat): seq<T>
    requires m <= |s|
  {
    s[|s| - m..]
  }

  /** The log update: keep the five newest earlier entries and append the new one. */
  function AddLog(prev: seq<LogEntry>, id: string, text: string, kind: string): (logs: seq<LogEntry>)
    ensures |logs| == Min(|prev|, Kept) + 1
    ensures logs[|logs| - 1] == LogEntry(id, text, kind)
    ensures forall i :: 0 <= i < |logs| - 1 ==> logs[i] == prev[|prev| - (|logs| - 1) + i]
  {
    SliceFromEnd(prev, Kept) + [LogEntry(id, text, kind)]
  }

  /** Several log updates applied one after the other, oldest first. */
  function AddAll(prev: seq<LogEntry>, entries: seq<LogEntry>): seq<LogEntry>
    decreases |entries|
  {
    if entries == [] then prev
    else AddAll(AddLog(prev, entries[0].id, entries[0].text, entries[0].kind), entries[1..])
  }

  /** One update leaves the six newest entries of the old log plus the new one. */
  lemma AddLogIsNewest(prev: seq<LogEntry>, e: LogEntry)
    ensures AddLog(prev, e.id, e.text, e.kind) == Newest(prev + [e], Min(|prev| + 1, Kept + 1))
  {
    var all := prev + [e];
    if |prev| <= Kept {
      assert all[|all| - (|prev| + 1)..] == all;
    } else {
      assert all[|prev| - Kept..] == prev[|prev| - Kept..] + [e];
    }
  }

  /** Taking the newest elements, appending, and taking the newest again is the
      same as appending first, when the first cut kept enough. */
  lemma NewestAppend<T>(s: seq<T>, t: seq<T>, a: nat, m: nat)
    requires a <= |s| && m <= a + |t|
    ensures Newest(Newest(s, a) + t, m) == Newest(s + t, m)
  {
    assert Newest(s, a) + t == (s + t)[|s| - a..];
  }

  /** After at least one update, the log is exactly the six newest entries ever
      logged (or all of them, when there are fewer). */
  lemma {:induction false} AddAllKeepsNewest(prev: seq<LogEntry>, entries: seq<LogEntry>)
    requires entries != []
    ensures AddAll(prev, entries) == Newest(prev + entries, Min(|prev| + |entries|, Kept + 1))
    decreases |entries|
  {
    var e, rest := entries[0], entries[1..];
    var once := AddLog(prev, e.id, e.text, e.kind);
    AddLogIsNewest(prev, e);
    if rest != [] {
      AddAllKeepsNewest(once, rest);
      NewestAppend(prev + [e], rest, Min(|prev| + 1, Kept + 1), Min(|prev| + |entries|, Kept + 1));
      assert prev + [e] + rest == prev + entries;
    }
  }

  /** Whatever is logged, a log that starts with at most six lines keeps at most six. */
  lemma {:induction false} LogStaysBounded(prev: seq<LogEntry>, entries: seq<LogEntry>)
    requires |prev| <= Kept + 1
    ensures |AddAll(prev, entries)| <= Kept + 1
    ensures |AddAll(prev, entries)| == Min(|prev| + |entries|, Kept + 1)
    decreases |entries|
  {
    if entries != [] {
      var e := entries[0];
      LogStaysBounded(AddLog(prev, e.id, e.text, e.kind), entries[1..]);
    }
  }

  /** The reboot button logs two lines; starting from the initial log, all five lines are shown in order. */
  lemma RebootAfterStart(id1: string, id2: string)
    ensures AddLog(AddLog(InitialLogs, id1, "MANUAL SYSTEM REBOOT INITIATED", "info"),
                   id2, "RESOURCES REPLENISHED", "success")
         == InitialLogs + [LogEntry(id1, "MANUAL SYSTEM REBOOT INITIATED", "info"),
                           LogEntry(id2, "RESOURCES REPLENISHED", "success")]
  {
  }
}
