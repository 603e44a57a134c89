/** The log-file retention step of `NBNProviderScraper.setup_logging`:
    among the directory's `ExtractNBNProviderstoJSON_*.log` files, once
    there are five or more, the one with the least `ctime` is deleted; then the
    run's own stamped log file is opened. */
module LogRetention {
  import opened Naming

  const LogPrefix: string := "ExtractNBNProviderstoJSON_"
  const LogSuffix: string := ".log"
  /** Pruning starts when this many log files are present. */
  const MaxLogFiles: nat := 5

  /** A directory entry: its name and its `os.path.getctime` value (on
      POSIX the last inode status change, not the creation). */
  datatype Entry = Entry(name: string, ctime: int)

  /** `f.startswith(LogPrefix) and f.endswith(LogSuffix)`. */
  predicate IsLogName(n: string) {
    |LogPrefix| <= |n| && n[..|LogPrefix|] == LogPrefix
    && |LogSuffix| <= |n| && n[|n| - |LogSuffix|..] == LogSuffix
  }

  /** The prefix holds no `.`, so prefix and suffix never overlap: a name
      passes the filter exactly when it is the prefix, anything, `.log`. */
  lemma LogNameParts(n: string)
    ensures IsLogName(n) <==> exists m :: n == LogPrefix + m + LogSuffix
  {
    if IsLogName(n) {
      var k := |n| - |LogSuffix|;
      assert n[k] == '.';
      assert '.' !in LogPrefix;
      assert forall i :: 0 <= i < |LogPrefix| ==> n[i] == LogPrefix[i] && n[i] != '.';
      var m := n[|LogPrefix|..k];
      assert n == LogPrefix + m + LogSuffix;
    }
    forall m | n == LogPrefix + m + LogSuffix
      ensures IsLogName(n)
    {
      assert n[..|LogPrefix|] == LogPrefix;
      assert n[|n| - |LogSuffix|..] == LogSuffix;
    }
  }

  /** The log file name of a run started at `dt`. */
  function LogFileName(dt: DateTime): (r: string)
    requires ValidDateTime(dt)
    ensures IsLogName(r) && |r| == |LogPrefix| + 15 + |LogSuffix|
  {
    var r := LogPrefix + FormatTimestamp(dt) + LogSuffix;
    assert r[..|LogPrefix|] == LogPrefix;
    assert r[|r| - |LogSuffix|..] == LogSuffix;
    r
  }

  /** Runs started in different seconds get different log files. */
  lemma LogFileNameInjective(d1: DateTime, d2: DateTime)
    requires ValidDateTime(d1) && ValidDateTime(d2) && LogFileName(d1) == LogFileName(d2)
    ensures d1 == d2
  {
    var n := |LogPrefix|;
    assert LogFileName(d1)[n..n + 15] == FormatTimestamp(d1);
    assert LogFileName(d2)[n..n + 15] == FormatTimestamp(d2);
    TimestampRoundTrip(d1);
    TimestampRoundTrip(d2);
  }

  /** `os.listdir` never lists a name twice. */
  predicate DistinctNames(es: seq<Entry>) {
    forall i, j :: 0 <= i < j < |es| ==> es[i].name != es[j].name
  }

  /** The list comprehension selecting the log files, in listing order. */
  function LogFiles(es: seq<Entry>): (r: seq<Entry>)
    ensures |r| <= |es|
    ensures forall e :: e in r <==> e in es && IsLogName(e.name)
  {
    if es == [] then []
    else
      var last := es[|es| - 1];
      assert forall e :: e in es <==> e in es[..|es| - 1] || e == last;
      LogFiles(es[..|es| - 1]) + (if IsLogName(last.name) then [last] else [])
  }

  lemma {:induction false} LogFilesConcat(a: seq<Entry>, b: seq<Entry>)
    ensures LogFiles(a + b) == LogFiles(a) + LogFiles(b)
  {
    if b == [] {
      assert a + b == a;
    } else {
      assert (a + b)[..|a + b| - 1] == a + b[..|b| - 1];
      LogFilesConcat(a, b[..|b| - 1]);
    }
  }

  /** The selection loop of `setup_logging`. */
  method SelectLogFiles(es: seq<Entry>) returns (logs: seq<Entry>)
    ensures logs == LogFiles(es)
  {
    logs := [];
    for i := 0 to |es|
      invariant logs == LogFiles(es[..i])
    {
      assert es[..i + 1][..i] == es[..i];
      if IsLogName(es[i].name) {
        logs := logs + [es[i]];
      }
    }
    assert es[..|es|] == es;
  }

  predicate SortedByCtime(s: seq<Entry>) {
    forall i, j :: 0 <= i < j < |s| ==> s[i].ctime <= s[j].ctime
  }

  /** Places `x` before the first element that is not older than it. */
  function Insert(x: Entry, s: seq<Entry>): (r: seq<Entry>)
    ensures |r| == |s| + 1 && multiset(r) == multiset(s) + multiset{x}
    ensures r[0] == x || (s != [] && r[0] == s[0])
  {
    if s == [] || x.ctime <= s[0].ctime then [x] + s
    else
      assert s == [s[0]] + s[1..];
      [s[0]] + Insert(x, s[1..])
  }

  /** `list.sort(key=ctime)`: an insertion sort that, like Python's sort,
      is stable (an element is placed before every later element with the
      same key). */
  function SortByCtime(s: seq<Entry>): (r: seq<Entry>)
    ensures |r| == |s| && multiset(r) == multiset(s)
  {
    if s == [] then []
    else
      assert s == [s[0]] + s[1..];
      Insert(s[0], SortByCtime(s[1..]))
  }

  lemma {:induction false} InsertSorted(x: Entry, s: seq<Entry>)
    requires SortedByCtime(s)
    ensures SortedByCtime(Insert(x, s))
  {
    if s != [] && x.ctime > s[0].ctime {
      InsertSorted(x, s[1..]);
      var t := Insert(x, s[1..]);
      assert t[0].ctime >= s[0].ctime;
      forall i, j | 0 <= i < j < |t| + 1 ensures ([s[0]] + t)[i].ctime <= ([s[0]] + t)[j].ctime {
        if i == 0 {
          assert t[j - 1] in multiset(t);
          assert t[j - 1] == x || t[j - 1] in s[1..];
        }
      }
    }
  }

  /** The sorted list is in `ctime` order. */
  lemma {:induction false} SortSorted(s: seq<Entry>)
    ensures SortedByCtime(SortByCtime(s))
  {
    if s != [] {
      SortSorted(s[1..]);
      InsertSorted(s[0], SortByCtime(s[1..]));
    }
  }

  /** `s[k]` is the first-listed entry of least `ctime`. */
  predicate IsFirstOldest(s: seq<Entry>, k: int) {
    0 <= k < |s|
    && (forall j :: 0 <= j < |s| ==> s[k].ctime <= s[j].ctime)
    && (forall j :: 0 <= j < k ==> s[k].ctime < s[j].ctime)
  }

  /** Reference definition: the position of the first-listed entry of
      least `ctime`, found by a scan from the front. */
  function FirstOldest(s: seq<Entry>): (k: nat)
    requires s != []
    ensures IsFirstOldest(s, k)
  {
    if |s| == 1 then 0
    else
      var t := s[1..];
      var k := FirstOldest(t);
      assert forall j :: 1 <= j < |s| ==> s[j] == t[j - 1];
      if s[0].ctime <= t[k].ctime then 0 else k + 1
  }

  /** Element 0 after the stable sort is the oldest file, the first one
      listed when several share the least `ctime`. */
  lemma {:induction false} SortHeadIsFirstOldest(s: seq<Entry>)
    requires s != []
    ensures SortByCtime(s)[0] == s[FirstOldest(s)]
  {
    if |s| > 1 {
      var t := s[1..];
      SortHeadIsFirstOldest(t);
      assert SortByCtime(s) == Insert(s[0], SortByCtime(t));
      assert s[FirstOldest(t) + 1] == t[FirstOldest(t)];
    }
  }

  /** The directory after deleting the file called `n`. */
  function RemoveName(es: seq<Entry>, n: string): (r: seq<Entry>)
    ensures |r| <= |es|
    ensures forall i :: 0 <= i < |r| ==> r[i].name != n
  {
    if es == [] then []
    else
      var last := es[|es| - 1];
      RemoveName(es[..|es| - 1], n) + (if last.name == n then [] else [last])
  }

  lemma {:induction false} RemoveAbsentName(es: seq<Entry>, n: string)
    requires forall i :: 0 <= i < |es| ==> es[i].name != n
    ensures RemoveName(es, n) == es
  {
    if es != [] {
      var init := es[..|es| - 1];
      assert forall i :: 0 <= i < |init| ==> init[i] == es[i];
      RemoveAbsentName(init, n);
      assert es == init + [es[|es| - 1]];
    }
  }

  /** Deleting the file at position `k` removes exactly that entry. */
  lemma {:induction false} RemoveNameAt(es: seq<Entry>, k: nat)
    requires DistinctNames(es) && k < |es|
    ensures RemoveName(es, es[k].name) == es[..k] + es[k + 1..]
  {
    var init := es[..|es| - 1];
    var n := es[k].name;
    if k == |es| - 1 {
      RemoveAbsentName(init, n);
    } else {
      assert forall i :: 0 <= i < |init| ==> init[i] == es[i];
      RemoveNameAt(init, k);
      assert es[..k] == init[..k];
      assert es[k + 1..] == init[k + 1..] + [es[|es| - 1]];
    }
  }

  /** The distinct names survive a deletion. */
  lemma RemoveNameDistinct(es: seq<Entry>, n: string)
    requires DistinctNames(es)
    ensures DistinctNames(RemoveName(es, n))
  {
    if exists i :: 0 <= i < |es| && es[i].name == n {
      var i :| 0 <= i < |es| && es[i].name == n;
      RemoveNameAt(es, i);
      var r := es[..i] + es[i + 1..];
      forall a, b | 0 <= a < b < |r| ensures r[a].name != r[b].name {
        var a' := if a < i then a else a + 1;
        var b' := if b < i then b else b + 1;
        assert r[a] == es[a'] && r[b] == es[b'];
      }
    } else {
      RemoveAbsentName(es, n);
    }
  }

  /** The file the retention step deletes: element 0 of the log files
      sorted by `ctime`. */
  function Victim(es: seq<Entry>): (v: Entry)
    requires |LogFiles(es)| >= MaxLogFiles
    ensures v in es && IsLogName(v.name)
    ensures forall e :: e in LogFiles(es) ==> v.ctime <= e.ctime
  {
    var sorted := SortByCtime(LogFiles(es));
    SortSorted(LogFiles(es));
    assert sorted[0] in multiset(sorted);
    assert forall e :: e in LogFiles(es) ==> e in multiset(sorted);
    sorted[0]
  }

  /** The directory after the retention step when the deletion succeeds. */
  function Pruned(es: seq<Entry>): (r: seq<Entry>)
    ensures |r| <= |es|
    ensures |LogFiles(es)| >= MaxLogFiles ==> !HasName(r, Victim(es).name)
  {
    if |LogFiles(es)| < MaxLogFiles then es else RemoveName(es, Victim(es).name)
  }

  /** With five or more log files, exactly one entry goes: the log file of
      least `ctime` (the first listed among equals); every other
      entry, log file or not, stays in place; one log file fewer remains. */
  lemma OldestLogRemoved(es: seq<Entry>)
    requires DistinctNames(es) && |LogFiles(es)| >= MaxLogFiles
    ensures Victim(es) == LogFiles(es)[FirstOldest(LogFiles(es))]
    ensures IsLogName(Victim(es).name)
    ensures exists k :: 0 <= k < |es| && es[k] == Victim(es) && Pruned(es) == es[..k] + es[k + 1..]
    ensures |LogFiles(Pruned(es))| == |LogFiles(es)| - 1
  {
    var logs := LogFiles(es);
    var v := Victim(es);
    SortHeadIsFirstOldest(logs);
    assert v in logs;
    var k :| 0 <= k < |es| && es[k] == v;
    RemoveNameAt(es, k);
    DropOneLogFile(es, k);
  }

  /** Taking one log file out of a listing leaves one log file fewer. */
  lemma DropOneLogFile(es: seq<Entry>, k: nat)
    requires k < |es| && IsLogName(es[k].name)
    ensures |LogFiles(es[..k] + es[k + 1..])| == |LogFiles(es)| - 1
  {
    assert es == es[..k] + [es[k]] + es[k + 1..];
    LogFilesConcat(es[..k] + [es[k]], es[k + 1..]);
    LogFilesConcat(es[..k], [es[k]]);
    LogFilesConcat(es[..k], es[k + 1..]);
    assert LogFiles([es[k]]) == [es[k]] by {
      assert [es[k]][..0] == [];
    }
  }

  /** Whether some entry is called `n`. */
  predicate HasName(es: seq<Entry>, n: string) {
    exists i :: 0 <= i < |es| && es[i].name == n
  }

  /** Opening the run's log file for appending creates it, listed last,
      unless a file of that name is already there. */
  function Opened(es: seq<Entry>, n: string, now: int): (r: seq<Entry>)
    ensures HasName(r, n) && es <= r && |r| <= |es| + 1
    ensures HasName(es, n) ==> r == es
  {
    if HasName(es, n) then es
    else
      var r := es + [Entry(n, now)];
      assert r[|es|].name == n;
      r
  }

  lemma OpenedDistinct(es: seq<Entry>, n: string, now: int)
    requires DistinctNames(es)
    ensures DistinctNames(Opened(es, n, now)) && HasName(Opened(es, n, now), n)
  {
    if !HasName(es, n) {
      var r := es + [Entry(n, now)];
      assert r[|es|].name == n;
      forall a, b | 0 <= a < b < |r| ensures r[a].name != r[b].name {
        if b == |es| {
          assert r[a] == es[a];
        }
      }
    }
  }

  /** Bounded retention, when the deletion succeeds or none is needed:
      after pruning and opening the new log file there are never more log
      files than before or than five, whichever is larger. */
  lemma RetentionBound(es: seq<Entry>, n: string, now: int)
    requires DistinctNames(es) && IsLogName(n)
    ensures var before := |LogFiles(es)|;
      |LogFiles(Opened(Pruned(es), n, now))| <= if before < MaxLogFiles then MaxLogFiles else before
  {
    var p := Pruned(es);
    if |LogFiles(es)| >= MaxLogFiles {
      OldestLogRemoved(es);
    }
    if !HasName(p, n) {
      LogFilesConcat(p, [Entry(n, now)]);
      assert LogFiles([Entry(n, now)]) == [Entry(n, now)] by {
        assert [Entry(n, now)][..0] == [];
      }
    }
  }

  /** When the deletion fails, the error is only printed and the new log
      file is still opened: the log-file count grows by one, so five can
      become six. */
  lemma FailedDeletionGrows(es: seq<Entry>, n: string, now: int)
    requires IsLogName(n) && !HasName(es, n)
    ensures |LogFiles(Opened(es, n, now))| == |LogFiles(es)| + 1
  {
    LogFilesConcat(es, [Entry(n, now)]);
    assert LogFiles([Entry(n, now)]) == [Entry(n, now)] by {
      assert [Entry(n, now)][..0] == [];
    }
  }

  /** How the retention step ends; a failed deletion is reported, not
      raised. */
  datatype PruneOutcome = NotNeeded | Removed(name: string) | RemoveFailed(name: string)

  /** What the retention step reports for a directory listing. */
  function PruneReport(es: seq<Entry>, removeSucceeds: bool): (o: PruneOutcome)
    ensures o.NotNeeded? <==> |LogFiles(es)| < MaxLogFiles
    ensures o.Removed? <==> |LogFiles(es)| >= MaxLogFiles && removeSucceeds
    ensures !o.NotNeeded? ==> IsLogName(o.name) && o.name == Victim(es).name
  {
    if |LogFiles(es)| < MaxLogFiles then NotNeeded
    else if removeSucceeds then Removed(Victim(es).name)
    else RemoveFailed(Victim(es).name)
  }

  /** The `Logs` directory, as `os.listdir` lists it. */
  class LogDirectory {
    var entries: seq<Entry>

    ghost predicate Valid()
      reads this
    {
      DistinctNames(entries)
    }

    constructor (listing: seq<Entry>)
      requires DistinctNames(listing)
      ensures Valid() && entries == listing
    {
      entries := listing;
    }

    /** The retention block of `setup_logging`; `removeSucceeds` is whether
        `os.remove` succeeds. */
    method PruneOldest(removeSucceeds: bool) returns (outcome: PruneOutcome)
      requires Valid()
      modifies this
      ensures Valid()
      ensures |LogFiles(old(entries))| < MaxLogFiles ==> outcome == NotNeeded && entries == old(entries)
      ensures |LogFiles(old(entries))| >= MaxLogFiles ==>
        var victim := Victim(old(entries));
        if removeSucceeds then outcome == Removed(victim.name) && entries == Pruned(old(entries))
        else outcome == RemoveFailed(victim.name) && entries == old(entries)
    {
      var logs := SelectLogFiles(entries);
      if |logs| >= MaxLogFiles {
        var sorted := SortByCtime(logs);
        var oldest := sorted[0];
        if removeSucceeds {
          RemoveNameDistinct(entries, oldest.name);
          entries := RemoveName(entries, oldest.name);
          outcome := Removed(oldest.name);
        } else {
          outcome := RemoveFailed(oldest.name);
        }
      } else {
        outcome := NotNeeded;
      }
    }

    /** `setup_logging` for a run started at `stamp`, whose log file gets
        `ctime` `now`. */
    method SetupLogging(stamp: DateTime, now: int, removeSucceeds: bool) returns (logName: string, outcome: PruneOutcome)
      requires Valid() && ValidDateTime(stamp)
      modifies this
      ensures Valid()
      ensures logName == LogFileName(stamp) && HasName(entries, logName)
      ensures outcome == PruneReport(old(entries), removeSucceeds)
      ensures removeSucceeds ==> entries == Opened(Pruned(old(entries)), logName, now)
      ensures !removeSucceeds ==> entries == Opened(old(entries), logName, now)
    {
      logName := LogFileName(stamp);
      outcome := PruneOldest(removeSucceeds);
      OpenedDistinct(entries, logName, now);
      entries := Opened(entries, logName, now);
    }
  }
}
