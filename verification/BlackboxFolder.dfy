/**
 The rolling window of blackbox logs: scan the folder, sort the logs by number,
 delete the oldest and renumber the survivors in place.

 The file system refuses to remove or rename a file that is open, and refuses to
 rename onto a name that exists; both refusals leave the folder as it was.
 */
module BlackboxFolder {
  import opened Common
  import opened BlackboxNames
  import N = BlackboxNumbers

  const MAX_TRACKED := 1024

  type Content = seq<byte>

  datatype LogEntry = LogEntry(number: int, name: string)

  /** One directory: its files and the file the firmware holds open in it, if any. */
  datatype Folder = Folder(files: map<string, Content>, open: Option<string>)

  // ---- the file system's two operations ----

  predicate CanRemove(f: Folder, name: string) {
    name in f.files && f.open != Some(name)
  }

  function RemoveFile(f: Folder, name: string): Folder {
    if CanRemove(f, name) then f.(files := f.files - {name}) else f
  }

  predicate CanRename(f: Folder, from: string, to: string) {
    from in f.files && f.open != Some(from) && to !in f.files
  }

  function RenameFile(f: Folder, from: string, to: string): Folder {
    if CanRename(f, from, to) then f.(files := (f.files - {from})[to := f.files[from]]) else f
  }

  // ---- what the scan and the sort compute ----

  /** The log entries of a directory listing, in listing order, at most `limit` of them. */
  function Scan(listing: seq<string>, limit: nat): seq<LogEntry> {
    if listing == [] || limit == 0 then []
    else if IsLogName(listing[0]) then
      [LogEntry(NumberOf(listing[0]), listing[0])] + Scan(listing[1..], limit - 1)
    else Scan(listing[1..], limit)
  }

  /** One round of the insertion sort: `x` goes after the last entry that is not larger. */
  function Insert(s: seq<LogEntry>, x: LogEntry): seq<LogEntry> {
    if s == [] || s[|s| - 1].number <= x.number then s + [x]
    else Insert(s[..|s| - 1], x) + [s[|s| - 1]]
  }

  function Sorted(s: seq<LogEntry>): (r: seq<LogEntry>)
    ensures |r| == |s|
  {
    if s == [] then [] else InsertLength(Sorted(s[..|s| - 1]), s[|s| - 1]); Insert(Sorted(s[..|s| - 1]), s[|s| - 1])
  }

  lemma InsertLength(s: seq<LogEntry>, x: LogEntry)
    ensures |Insert(s, x)| == |s| + 1
  {
  }

  /** Shifting an entry past a smaller key postpones nothing but that entry. */
  lemma InsertShift(low: seq<LogEntry>, high: seq<LogEntry>, key: LogEntry)
    requires low != [] && low[|low| - 1].number > key.number
    ensures Insert(low, key) + high == Insert(low[..|low| - 1], key) + ([low[|low| - 1]] + high)
  {
  }

  lemma InsertStop(low: seq<LogEntry>, key: LogEntry)
    requires low != [] ==> low[|low| - 1].number <= key.number
    ensures Insert(low, key) == low + [key]
  {
  }

  lemma SortedGrows(s: seq<LogEntry>, i: nat)
    requires i < |s|
    ensures Sorted(s[..i + 1]) == Insert(Sorted(s[..i]), s[i])
  {
    assert s[..i + 1][..i] == s[..i];
  }

  function Collected(listing: seq<string>): seq<LogEntry> {
    Sorted(Scan(listing, MAX_TRACKED))
  }

  // ---- what the prune and the renumbering do to the folder ----

  function PruneTo(f: Folder, logs: seq<LogEntry>, i: nat, guard: Option<string>): Folder
    requires i <= |logs|
  {
    if i == 0 then f
    else
      var g := PruneTo(f, logs, i - 1, guard);
      if guard == Some(logs[i - 1].name) then g else RemoveFile(g, logs[i - 1].name)
  }

  /** One entry of the second loop: skipped by the guard, already right, or renamed. */
  function RenumberEntry(g: Folder, e: LogEntry, to: nat, guard: Option<string>): Folder
    requires to < LOG_NUMBER_LIMIT
  {
    if guard == Some(e.name) || e.number == to then g else RenameFile(g, e.name, LogName(to))
  }

  function RenumberTo(f: Folder, logs: seq<LogEntry>, first: nat, i: nat, guard: Option<string>): Folder
    requires first <= i <= |logs| < LOG_NUMBER_LIMIT
  {
    if i == first then f
    else
      RenumberEntry(RenumberTo(f, logs, first, i - 1, guard), logs[i - 1], i - first, guard)
  }

  /** The folder after sitlBlackboxEnforce(), as a function of what the scan collected. */
  function Enforced(f: Folder, logs: seq<LogEntry>, keep: int, guard: Option<string>): Folder
    requires |logs| < LOG_NUMBER_LIMIT
  {
    var first := N.Excess(|logs|, keep);
    RenumberTo(PruneTo(f, logs, first, guard), logs, first, |logs|, guard)
  }

  /** The largest number, or 0. */
  function Highest(logs: seq<LogEntry>): int {
    if logs == [] then 0
    else
      var rest := Highest(logs[..|logs| - 1]);
      if logs[|logs| - 1].number > rest then logs[|logs| - 1].number else rest
  }

  /** The cap handed to the housekeeping: 0 stands for no limit. */
  function Cap(maxLogs: int): int {
    if maxLogs > 0 then maxLogs else -1
  }

  // ---- the code: a folder on disk and the shared scan buffer ----

  class BlackboxDirectory {
    var files: map<string, Content>
    var open: Option<string>
    const scanBuf: array<LogEntry>
    /** gBlackboxNextNumberValue: the number of the last log named, 0 or less if unknown. */
    var nextNumber: int

    constructor (files: map<string, Content>, open: Option<string>)
      ensures View() == Folder(files, open) && Valid() && fresh(scanBuf)
    {
      this.files, this.open, nextNumber := files, open, 0;
      scanBuf := new LogEntry[MAX_TRACKED](_ => LogEntry(0, ""));
    }

    ghost predicate Valid()
      reads this
    {
      scanBuf.Length == MAX_TRACKED
    }

    ghost function View(): Folder
      reads this
    {
      Folder(files, open)
    }

    method Remove(name: string) returns (ok: bool)
      modifies this`files
      ensures ok == CanRemove(old(View()), name)
      ensures View() == RemoveFile(old(View()), name)
    {
      ok := name in files && open != Some(name);
      if ok {
        files := files - {name};
      }
    }

    method Rename(from: string, to: string) returns (ok: bool)
      modifies this`files
      ensures ok == CanRename(old(View()), from, to)
      ensures View() == RenameFile(old(View()), from, to)
    {
      ok := from in files && open != Some(from) && to !in files;
      if ok {
        files := (files - {from})[to := files[from]];
      }
    }

    /** readdir loop: keep the log names, stop when the buffer is full. */
    method ReadEntries(listing: seq<string>, maxLogs: nat) returns (count: nat)
      requires maxLogs <= scanBuf.Length
      modifies scanBuf
      ensures count <= maxLogs
      ensures scanBuf[..count] == Scan(listing, maxLogs)
    {
      count := 0;
      var entry := 0;
      while entry < |listing| && count < maxLogs
        invariant entry <= |listing| && count <= maxLogs
        invariant Scan(listing, maxLogs) == scanBuf[..count] + Scan(listing[entry..], maxLogs - count)
      {
        ghost var before := scanBuf[..count];
        assert listing[entry..][1..] == listing[entry + 1..];
        if IsLogName(listing[entry]) {
          scanBuf[count] := LogEntry(NumberOf(listing[entry]), listing[entry]);
          assert scanBuf[..count] == before;
          assert scanBuf[..count + 1] == before + [scanBuf[count]];
          count := count + 1;
        }
        entry := entry + 1;
      }
    }

    /** The inner loop of the insertion sort: shift larger entries up, drop the key in. */
    method InsertKey(i: nat)
      requires i < scanBuf.Length
      modifies scanBuf
      ensures scanBuf[..i + 1] == Insert(old(scanBuf[..i]), old(scanBuf[i]))
      ensures forall k :: i < k < scanBuf.Length ==> scanBuf[k] == old(scanBuf[k])
    {
      hide *;
      ghost var p, low, high := scanBuf[..i], scanBuf[..i], [];
      var key := scanBuf[i];
      var j := i - 1;
      while j >= 0 && scanBuf[j].number > key.number
        invariant -1 <= j < i && |low| == j + 1 && |high| == i - 1 - j
        invariant forall k :: 0 <= k <= j ==> scanBuf[k] == low[k]
        invariant forall k :: j + 1 < k <= i ==> scanBuf[k] == high[k - j - 2]
        invariant forall k :: i < k < scanBuf.Length ==> scanBuf[k] == old(scanBuf[k])
        invariant Insert(p, key) == Insert(low, key) + high
      {
        InsertShift(low, high, key);
        low, high := low[..j], [low[j]] + high;
        scanBuf[j + 1] := scanBuf[j];
        j := j - 1;
      }
      InsertStop(low, key);
      scanBuf[j + 1] := key;
      assert scanBuf[..i + 1] == low + [key] + high;
    }

    /** List the logs, sorted by number (sitlBlackboxCollect). */
    method Collect(listing: seq<string>) returns (count: nat)
      requires Valid()
      modifies scanBuf
      ensures count <= scanBuf.Length
      ensures scanBuf[..count] == Collected(listing)
    {
      count := ReadEntries(listing, MAX_TRACKED);
      SortEntries(count);
    }

    /** The outer loop of the insertion sort. */
    method SortEntries(count: nat)
      requires count <= scanBuf.Length
      modifies scanBuf
      ensures scanBuf[..count] == Sorted(old(scanBuf[..count]))
    {
      ghost var scanned := scanBuf[..count];
      if count == 0 {
        return;
      }
      assert Sorted(scanned[..1]) == scanned[..1] by {
        SortedGrows(scanned, 0);
      }
      hide *;
      var i := 1;
      while i < count
        invariant 1 <= i <= count
        invariant scanBuf[..i] == Sorted(scanned[..i])
        invariant forall k :: i <= k < count ==> scanBuf[k] == scanned[k]
      {
        InsertKey(i);
        SortedGrows(scanned, i);
        i := i + 1;
      }
      assert scanned[..count] == scanned;
    }

    /** First loop of the housekeeping: remove the logs beyond the cap, oldest first. */
    method RemoveOldest(first: nat, openLogName: Option<string>)
      requires first <= scanBuf.Length
      modifies this`files
      ensures View() == PruneTo(old(View()), scanBuf[..first], first, openLogName)
    {
      ghost var before, logs := View(), scanBuf[..first];
      for i := 0 to first
        invariant View() == PruneTo(before, logs, i, openLogName)
      {
        assert logs[i] == scanBuf[i];
        if openLogName != Some(scanBuf[i].name) {
          var _ := Remove(scanBuf[i].name);
        }
      }
    }

    /** Second loop: give the survivors the numbers 1, 2, ... in ascending order. */
    method RenumberSurvivors(first: nat, count: nat, openLogName: Option<string>)
      requires first <= count <= scanBuf.Length < LOG_NUMBER_LIMIT
      modifies this`files
      ensures View() == RenumberTo(old(View()), scanBuf[..count], first, count, openLogName)
    {
      ghost var before, logs := View(), scanBuf[..count];
      for i := first to count
        invariant View() == RenumberTo(before, logs, first, i, openLogName)
      {
        assert logs[i] == scanBuf[i];
        var target := i - first + 1;
        if openLogName != Some(scanBuf[i].name) && scanBuf[i].number != target {
          var _ := Rename(scanBuf[i].name, LogName(target));
        }
      }
    }

    /** Prune to the cap and renumber the survivors (sitlBlackboxEnforce). */
    method Enforce(listing: seq<string>, keep: int, openLogName: Option<string>) returns (kept: nat)
      requires Valid()
      modifies this`files, scanBuf
      ensures |Collected(listing)| <= MAX_TRACKED
      ensures View() == Enforced(old(View()), Collected(listing), keep, openLogName)
      ensures kept == if keep < 0 then |Collected(listing)| else Min(|Collected(listing)|, keep)
    {
      ghost var before := View();
      var count := Collect(listing);
      var first := 0;
      if keep >= 0 && count > keep {
        first := count - keep;
        RemoveOldest(first, openLogName);
        PrunePrefix(before, scanBuf[..count], first, openLogName);
        assert scanBuf[..count][..first] == scanBuf[..first];
      }
      RenumberSurvivors(first, count, openLogName);
      kept := count - first;
    }

    /** The counter becomes the largest number in the folder (sitlBlackboxSeedFromDisk). */
    method SeedFromDisk(listing: seq<string>)
      requires Valid()
      modifies this`nextNumber, scanBuf
      ensures nextNumber == Highest(Collected(listing))
    {
      var count := Collect(listing);
      ghost var logs := scanBuf[..count];
      var highest := 0;
      for i := 0 to count
        invariant highest == Highest(logs[..i])
      {
        assert logs[..i + 1][..i] == logs[..i] && logs[i] == scanBuf[i];
        if scanBuf[i].number > highest {
          highest := scanBuf[i].number;
        }
      }
      assert logs[..count] == logs;
      nextNumber := highest;
    }

    /** The number of the next log (sitlBlackboxNextNumber). */
    method NextNumber(listing: seq<string>) returns (number: int)
      requires Valid()
      modifies this`nextNumber, scanBuf
      ensures number == nextNumber
      ensures nextNumber == 1 + if old(nextNumber) <= 0 then Highest(Collected(listing)) else old(nextNumber)
    {
      if nextNumber <= 0 {
        SeedFromDisk(listing);
      }
      nextNumber := nextNumber + 1;
      number := nextNumber;
    }

    /** The housekeeping at boot and after a change of directory; 0 logs to keep means no limit. */
    method VirtualOpen(listing: seq<string>, maxLogs: int)
      requires Valid()
      modifies this`files, this`nextNumber, scanBuf
      ensures |Collected(listing)| <= MAX_TRACKED
      ensures View() == Enforced(old(View()), Collected(listing), Cap(maxLogs), None)
      ensures nextNumber == if maxLogs <= 0 then |Collected(listing)| else Min(|Collected(listing)|, maxLogs)
    {
      nextNumber := Enforce(listing, Cap(maxLogs), None);
    }
  }

  lemma PrunePrefix(f: Folder, logs: seq<LogEntry>, i: nat, guard: Option<string>)
    requires i <= |logs|
    ensures PruneTo(f, logs[..i], i, guard) == PruneTo(f, logs, i, guard)
  {
    PruneDependsOnPrefix(f, logs[..i], logs, i, guard);
  }

  lemma {:induction false} PruneDependsOnPrefix(f: Folder, a: seq<LogEntry>, b: seq<LogEntry>, i: nat, guard: Option<string>)
    requires i <= |a| && i <= |b| && a[..i] == b[..i]
    ensures PruneTo(f, a, i, guard) == PruneTo(f, b, i, guard)
  {
    if i > 0 {
      assert a[i - 1] == a[..i][i - 1] == b[..i][i - 1] == b[i - 1];
      assert a[..i - 1] == a[..i][..i - 1] == b[..i][..i - 1] == b[..i - 1];
      PruneDependsOnPrefix(f, a, b, i - 1, guard);
    }
  }
}
