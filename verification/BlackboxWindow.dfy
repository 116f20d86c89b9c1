/**
 What the housekeeping achieves on a real folder: the logs become a rolling window of
 the newest ones, numbered from 1 in age order, and whatever the file names are, no
 content is lost except by the prune.
 */
module BlackboxWindow {
  import opened Common
  import opened BlackboxNames
  import opened BlackboxFolder
  import N = BlackboxNumbers

  // ---- a folder, described without the scan and without the sort ----

  ghost function Logs(files: map<string, Content>): set<string> {
    set name | name in files && IsLogName(name)
  }

  /** A name this layer could have written, with a positive number. */
  ghost predicate Canonical(name: string)
    requires IsLogName(name)
  {
    1 <= NumberOf(name) < LOG_NUMBER_LIMIT && name == LogName(NumberOf(name))
  }

  ghost predicate Tidy(files: map<string, Content>) {
    forall name | name in files && IsLogName(name) :: Canonical(name)
  }

  ghost predicate Distinct<T>(s: seq<T>) {
    forall i, j | 0 <= i < j < |s| :: s[i] != s[j]
  }

  /** A directory listing shows every file once, in any order. */
  ghost predicate Lists(listing: seq<string>, files: map<string, Content>) {
    && Distinct(listing)
    && (forall name :: name in listing <==> name in files)
  }

  /** The logs of a folder by number. */
  ghost function ByNumber(f: Folder): N.Numbered<Content> {
    N.Numbered(LogsByNumber(f.files), OpenNumber(f.open))
  }

  ghost function LogsByNumber(files: map<string, Content>): map<nat, Content> {
    map n: nat | n < LOG_NUMBER_LIMIT && LogName(n) in files :: files[LogName(n)]
  }

  ghost function OpenNumber(open: Option<string>): Option<nat> {
    if exists n: nat :: n < LOG_NUMBER_LIMIT && open == Some(LogName(n))
    then var n: nat :| n < LOG_NUMBER_LIMIT && open == Some(LogName(n)); Some(n)
    else None
  }

  ghost predicate SameOtherFiles(f: Folder, g: Folder) {
    forall name | !IsLogName(name) ::
      (name in g.files <==> name in f.files) && (name in f.files ==> g.files[name] == f.files[name])
  }

  /** The name guard can only ever match the log that is open. */
  ghost predicate GuardIsSafe(f: Folder, guard: Option<string>) {
    guard.Some? && IsLogName(guard.value) ==> f.open == guard
  }

  /**
   The string sitlBlackboxFopen() stores is a full path, which no log name equals: the
   comparison in the two loops never skips an entry. What protects the open log is the
   file system's refusal.
   */
  lemma FullPathGuardHasNoEffect(f: Folder, logs: seq<LogEntry>, keep: int, dir: string, openName: string)
    requires |logs| < LOG_NUMBER_LIMIT
    requires IsLogName(openName) && forall e | e in logs :: IsLogName(e.name)
    ensures GuardIsSafe(f, Some(dir + "\\" + openName))
    ensures Enforced(f, logs, keep, Some(dir + "\\" + openName)) == Enforced(f, logs, keep, None)
  {
    var path, first := dir + "\\" + openName, N.Excess(|logs|, keep);
    forall e | e in logs
      ensures e.name != path
    {
      assert |e.name| == 12 < |path|;
    }
    SkippingNothing(f, logs, first, path);
    SkippingNoRename(PruneTo(f, logs, first, None), logs, first, |logs|, path);
  }

  lemma {:induction false} SkippingNothing(f: Folder, logs: seq<LogEntry>, i: nat, path: string)
    requires i <= |logs| && forall e | e in logs :: e.name != path
    ensures PruneTo(f, logs, i, Some(path)) == PruneTo(f, logs, i, None)
  {
    if i > 0 {
      SkippingNothing(f, logs, i - 1, path);
      assert logs[i - 1] in logs;
    }
  }

  lemma {:induction false} SkippingNoRename(f: Folder, logs: seq<LogEntry>, first: nat, i: nat, path: string)
    requires first <= i <= |logs| < LOG_NUMBER_LIMIT && forall e | e in logs :: e.name != path
    ensures RenumberTo(f, logs, first, i, Some(path)) == RenumberTo(f, logs, first, i, None)
  {
    hide LogName;
    if i > first {
      SkippingNoRename(f, logs, first, i - 1, path);
      assert logs[i - 1] in logs;
    }
  }

  // ---- the scan and the sort, against that description ----

  ghost function LogsIn(listing: seq<string>): set<string> {
    set name | name in listing && IsLogName(name)
  }

  /** With enough room the scan finds exactly the log names of the listing... */
  lemma {:induction false} ScanFindsAll(listing: seq<string>, limit: nat, e: LogEntry)
    requires Distinct(listing)
    requires |LogsIn(listing)| <= limit
    ensures e in Scan(listing, limit) <==> (e.name in LogsIn(listing) && e.number == NumberOf(e.name))
  {
    hide *;
    if listing == [] {
      EmptyScan(limit);
    } else {
      var head, rest := listing[0], listing[1..];
      HeadAndTail(listing);
      DistinctTail(head, rest);
      LogsInGrows(head, rest);
      ScanStep(head, rest, limit);
      if IsLogName(head) {
        NotInRest(head, rest);
        assert |LogsIn(rest)| == |LogsIn(listing)| - 1;
        ScanFindsAll(rest, limit - 1, e);
        EntryOf(e, head, Scan(rest, limit - 1));
      } else if limit > 0 {
        ScanFindsAll(rest, limit, e);
      } else {
        assert LogsIn(listing) == {};
      }
    }
  }

  lemma EmptyScan(limit: nat)
    ensures Scan([], limit) == [] && LogsIn([]) == {}
  {
  }

  lemma EntryOf(e: LogEntry, name: string, others: seq<LogEntry>)
    requires IsLogName(name)
    ensures e in [LogEntry(NumberOf(name), name)] + others
       <==> (e.name == name && e.number == NumberOf(e.name)) || e in others
  {
    hide IsLogName, NumberOf;
  }

  lemma DistinctTail<T>(head: T, rest: seq<T>)
    requires Distinct([head] + rest)
    ensures head !in rest && Distinct(rest)
  {
    assert ([head] + rest)[1..] == rest;
    forall k | 0 <= k < |rest|
      ensures rest[k] != head
    {
      assert ([head] + rest)[k + 1] != ([head] + rest)[0];
    }
    forall i, j | 0 <= i < j < |rest|
      ensures rest[i] != rest[j]
    {
      assert ([head] + rest)[i + 1] != ([head] + rest)[j + 1];
    }
  }

  lemma ScanStep(head: string, rest: seq<string>, limit: nat)
    ensures Scan([head] + rest, limit)
         == if limit == 0 then []
            else if IsLogName(head) then [LogEntry(NumberOf(head), head)] + Scan(rest, limit - 1)
            else Scan(rest, limit)
  {
    assert ([head] + rest)[1..] == rest;
  }

  lemma NotInRest(head: string, rest: seq<string>)
    requires head !in rest
    ensures head !in LogsIn(rest)
  {
  }

  lemma LogsInGrows(head: string, rest: seq<string>)
    ensures LogsIn([head] + rest) == if IsLogName(head) then LogsIn(rest) + {head} else LogsIn(rest)
  {
    hide IsLogName;
  }

  /** Without enough room it is cut off: what it finds are the first `limit` of the listing's logs, in listing order. */
  lemma {:induction false} ScanIsCut(listing: seq<string>, limit: nat)
    ensures var all := Scan(listing, |listing|);
            Scan(listing, limit) == if |all| <= limit then all else all[..limit]
  {
    hide IsLogName, NumberOf;
    if listing != [] {
      var rest := listing[1..];
      ScanIsCut(rest, limit);
      ScanIsCut(rest, |listing|);
      ScanBounded(rest, |rest|);
      if limit > 0 {
        ScanIsCut(rest, limit - 1);
      }
    }
  }

  /** ... and lists each of them once. */
  lemma {:induction false} ScanIsDistinct(listing: seq<string>, limit: nat)
    requires Distinct(listing)
    ensures forall e | e in Scan(listing, limit) :: e.name in listing
    ensures Distinct(Scan(listing, limit))
  {
    hide IsLogName, NumberOf;
    if listing != [] && limit > 0 {
      var head, rest := listing[0], listing[1..];
      HeadAndTail(listing);
      DistinctTail(head, rest);
      if IsLogName(head) {
        ScanIsDistinct(rest, limit - 1);
        assert LogEntry(NumberOf(head), head) !in Scan(rest, limit - 1);
      } else {
        ScanIsDistinct(rest, limit);
      }
    }
  }

  ghost predicate Ordered(s: seq<LogEntry>) {
    forall i, j | 0 <= i < j < |s| :: s[i].number <= s[j].number
  }

  lemma {:induction false} InsertAddsOne(s: seq<LogEntry>, x: LogEntry)
    ensures multiset(Insert(s, x)) == multiset(s) + multiset{x}
  {
    if s != [] && s[|s| - 1].number > x.number {
      InsertAddsOne(s[..|s| - 1], x);
      assert s == s[..|s| - 1] + [s[|s| - 1]];
    }
  }

  lemma {:induction false} InsertKeepsOrder(s: seq<LogEntry>, x: LogEntry)
    requires Ordered(s)
    ensures Ordered(Insert(s, x))
  {
    if s != [] && s[|s| - 1].number > x.number {
      var init, last := s[..|s| - 1], s[|s| - 1];
      InsertKeepsOrder(init, x);
      InsertAddsOne(init, x);
      forall i | 0 <= i < |Insert(init, x)|
        ensures Insert(init, x)[i].number <= last.number
      {
        assert Insert(init, x)[i] in multiset(init) + multiset{x};
      }
    }
  }

  /** The in-place sort orders by number and loses or invents no entry. */
  lemma {:induction false} SortedIsOrderedPermutation(s: seq<LogEntry>)
    ensures Ordered(Sorted(s))
    ensures multiset(Sorted(s)) == multiset(s)
  {
    if s != [] {
      var init, last := s[..|s| - 1], s[|s| - 1];
      SortedIsOrderedPermutation(init);
      InsertKeepsOrder(Sorted(init), last);
      InsertAddsOne(Sorted(init), last);
      assert s == init + [last];
    }
  }

  lemma {:induction false} DistinctMeansCountedOnce<T>(s: seq<T>)
    requires Distinct(s)
    ensures forall x :: multiset(s)[x] <= 1
  {
    if s != [] {
      var init, last := s[..|s| - 1], s[|s| - 1];
      DistinctMeansCountedOnce(init);
      assert s == init + [last];
      assert last !in init;
    }
  }

  lemma TwiceMeansCountedTwice<T>(s: seq<T>, i: nat, j: nat)
    requires i < j < |s| && s[i] == s[j]
    ensures multiset(s)[s[i]] >= 2
  {
    assert s == s[..j] + [s[j]] + s[j + 1..];
    assert s[..j][i] == s[j];
  }

  ghost function NumbersOf(logs: seq<LogEntry>): (ns: seq<nat>)
    requires forall e | e in logs :: e.number >= 0
    ensures |ns| == |logs| && forall i | 0 <= i < |logs| :: ns[i] == logs[i].number
  {
    if logs == [] then [] else [logs[0].number as nat] + NumbersOf(logs[1..])
  }

  /** Each entry names its own number. */
  ghost predicate Named(logs: seq<LogEntry>) {
    forall e | e in logs :: 1 <= e.number < LOG_NUMBER_LIMIT && e.name == LogName(e.number)
  }

  lemma CollectedEnumerates(listing: seq<string>, f: Folder)
    requires Lists(listing, f.files) && Tidy(f.files) && |Logs(f.files)| <= 1024
    ensures Named(Collected(listing))
    ensures N.Enumerates(NumbersOf(Collected(listing)), ByNumber(f).logs)
  {
    var scanned, logs := Scan(listing, MAX_TRACKED), Collected(listing);
    assert LogsIn(listing) == Logs(f.files);
    ScanIsDistinct(listing, MAX_TRACKED);
    SortedIsOrderedPermutation(scanned);
    DistinctMeansCountedOnce(scanned);
    forall e
      ensures e in logs <==> e.name in Logs(f.files) && e.number == NumberOf(e.name)
    {
      ScanFindsAll(listing, MAX_TRACKED, e);
      assert e in multiset(logs) <==> e in multiset(scanned);
    }
    EntriesEnumerate(logs, f);
  }

  lemma EntriesEnumerate(logs: seq<LogEntry>, f: Folder)
    requires Tidy(f.files) && Ordered(logs) && forall x :: multiset(logs)[x] <= 1
    requires forall e :: e in logs <==> e.name in Logs(f.files) && e.number == NumberOf(e.name)
    ensures Named(logs)
    ensures N.Enumerates(NumbersOf(logs), ByNumber(f).logs)
  {
    forall e | e in logs
      ensures 1 <= e.number < LOG_NUMBER_LIMIT && e.name == LogName(e.number)
    {
      assert Canonical(e.name);
    }
    var ns := NumbersOf(logs);
    forall i, j | 0 <= i < j < |ns|
      ensures ns[i] < ns[j]
    {
      if logs[i].number == logs[j].number {
        assert logs[i] in logs && logs[j] in logs;
        TwiceMeansCountedTwice(logs, i, j);
      }
    }
    var byNumber := ByNumber(f).logs;
    forall n | n in ns
      ensures n in byNumber
    {
      var k :| 0 <= k < |ns| && ns[k] == n;
      assert logs[k] in logs;
    }
    forall n | n in byNumber
      ensures n in ns
    {
      LogNameRoundTrip(n);
      assert LogEntry(n, LogName(n)) in logs;
      var k :| 0 <= k < |logs| && logs[k] == LogEntry(n, LogName(n));
      assert ns[k] == n;
    }
  }

  // ---- each file operation is the operation on numbers ----

  lemma OpenByNumber(open: Option<string>, n: nat)
    requires n < LOG_NUMBER_LIMIT
    ensures open == Some(LogName(n)) <==> OpenNumber(open) == Some(n)
  {
    hide LogName;
    if open == Some(LogName(n)) {
      assert exists m: nat :: m < LOG_NUMBER_LIMIT && open == Some(LogName(m));
      var m := OpenNumber(open).value;
      assert m < LOG_NUMBER_LIMIT && open == Some(LogName(m));
      if m != n {
        LogNamesDistinct(m, n);
      }
    }
  }

  lemma LogsWithout(files: map<string, Content>, n: nat)
    requires n < LOG_NUMBER_LIMIT
    ensures LogsByNumber(files - {LogName(n)}) == LogsByNumber(files) - {n}
  {
    hide LogName;
    forall m: nat | m < LOG_NUMBER_LIMIT && m != n
      ensures LogName(m) != LogName(n)
    {
      LogNamesDistinct(m, n);
    }
  }

  lemma LogsWith(files: map<string, Content>, n: nat, content: Content)
    requires n < LOG_NUMBER_LIMIT
    ensures LogsByNumber(files[LogName(n) := content]) == LogsByNumber(files)[n := content]
  {
    hide LogName;
    forall m: nat | m < LOG_NUMBER_LIMIT && m != n
      ensures LogName(m) != LogName(n)
    {
      LogNamesDistinct(m, n);
    }
  }

  lemma RemoveByNumber(f: Folder, n: nat)
    requires Tidy(f.files) && n < LOG_NUMBER_LIMIT
    ensures var g := RemoveFile(f, LogName(n));
            Tidy(g.files) && SameOtherFiles(f, g) && ByNumber(g) == N.RemoveNumber(ByNumber(f), n)
  {
    LogNameRoundTrip(n);
    hide LogName, NumberOf, IsLogName, OpenNumber;
    OpenByNumber(f.open, n);
    LogsWithout(f.files, n);
    hide Tidy;
    assert Tidy(f.files - {LogName(n)}) by {
      RemovingKeepsTidy(f.files, LogName(n));
    }
    assert SameOtherFiles(f, RemoveFile(f, LogName(n)));
    hide SameOtherFiles;
  }

  lemma RemovingKeepsTidy(files: map<string, Content>, name: string)
    requires Tidy(files)
    ensures Tidy(files - {name})
  {
    hide IsLogName, Canonical;
  }

  lemma AddingKeepsTidy(files: map<string, Content>, n: nat, content: Content)
    requires Tidy(files) && 1 <= n < LOG_NUMBER_LIMIT
    ensures Tidy(files[LogName(n) := content])
  {
    LogNameRoundTrip(n);
    assert Canonical(LogName(n));
    hide IsLogName, Canonical, LogName;
  }

  lemma RenameKeepsOthers(f: Folder, from: string, to: string)
    requires IsLogName(from) && IsLogName(to)
    ensures SameOtherFiles(f, RenameFile(f, from, to))
  {
    hide IsLogName;
  }

  lemma RenameByNumber(f: Folder, from: nat, to: nat)
    requires Tidy(f.files) && from < LOG_NUMBER_LIMIT && 1 <= to < LOG_NUMBER_LIMIT
    ensures var g := RenameFile(f, LogName(from), LogName(to));
            Tidy(g.files) && SameOtherFiles(f, g) && ByNumber(g) == N.RenumberOne(ByNumber(f), from, to)
  {
    LogNameRoundTrip(from);
    LogNameRoundTrip(to);
    RenameKeepsOthers(f, LogName(from), LogName(to));
    hide LogName, NumberOf, IsLogName, OpenNumber, Tidy, SameOtherFiles;
    OpenByNumber(f.open, from);
    LogsWithout(f.files, from);
    RemovingKeepsTidy(f.files, LogName(from));
    if CanRename(f, LogName(from), LogName(to)) {
      var content := f.files[LogName(from)];
      LogsWith(f.files - {LogName(from)}, to, content);
      AddingKeepsTidy(f.files - {LogName(from)}, to, content);
    }
  }

  /** `g` is what is left of `f` when its logs have become `logs`. */
  ghost predicate Reached(f: Folder, g: Folder, logs: N.Numbered<Content>) {
    Tidy(g.files) && SameOtherFiles(f, g) && g.open == f.open && ByNumber(g) == logs
  }

  lemma GuardSkipsOpen(f: Folder, g: Folder, guard: Option<string>, e: LogEntry)
    requires GuardIsSafe(f, guard) && g.open == f.open
    requires 1 <= e.number < LOG_NUMBER_LIMIT && e.name == LogName(e.number)
    ensures guard == Some(e.name) ==> g.open == Some(e.name) && ByNumber(g).open == Some(e.number)
  {
    LogNameRoundTrip(e.number);
    hide LogName, NumberOf, IsLogName, OpenNumber;
    OpenByNumber(g.open, e.number);
  }

  lemma {:induction false} PruneByNumber(f: Folder, logs: seq<LogEntry>, i: nat, guard: Option<string>)
    requires Tidy(f.files) && Named(logs) && GuardIsSafe(f, guard) && i <= |logs|
    ensures Reached(f, PruneTo(f, logs, i, guard), N.PruneNumbers(ByNumber(f), NumbersOf(logs), i))
  {
    hide LogName, NumberOf, IsLogName, Tidy, ByNumber, GuardIsSafe;
    if i > 0 {
      PruneByNumber(f, logs, i - 1, guard);
      var g, e := PruneTo(f, logs, i - 1, guard), logs[i - 1];
      assert e in logs;
      GuardSkipsOpen(f, g, guard, e);
      RemoveByNumber(g, e.number);
    }
  }

  lemma EntryByNumber(f: Folder, g: Folder, logs: N.Numbered<Content>, e: LogEntry, to: nat, guard: Option<string>)
    requires GuardIsSafe(f, guard) && Reached(f, g, logs)
    requires 1 <= e.number < LOG_NUMBER_LIMIT && e.name == LogName(e.number) && 1 <= to < LOG_NUMBER_LIMIT
    ensures Reached(f, RenumberEntry(g, e, to, guard), N.RenumberStep(logs, e.number, to))
  {
    hide LogName, NumberOf, IsLogName, Tidy, ByNumber, GuardIsSafe, SameOtherFiles;
    GuardSkipsOpen(f, g, guard, e);
    if guard != Some(e.name) && e.number != to {
      RenameByNumber(g, e.number, to);
      SameOtherFilesTransitive(f, g, RenameFile(g, e.name, LogName(to)));
    }
  }

  lemma {:induction false} RenumberByNumber(f: Folder, logs: seq<LogEntry>, first: nat, i: nat, guard: Option<string>)
    requires Tidy(f.files) && Named(logs) && GuardIsSafe(f, guard) && first <= i <= |logs| < LOG_NUMBER_LIMIT
    ensures Reached(f, RenumberTo(f, logs, first, i, guard),
                    N.RenumberNumbers(ByNumber(f), NumbersOf(logs), first, i))
  {
    hide LogName, NumberOf, IsLogName, Tidy, ByNumber, GuardIsSafe, Reached, RenumberEntry, N.RenumberStep;
    if i > first {
      NamedEntry(logs, i - 1);
      RenumberByNumber(f, logs, first, i - 1, guard);
      EntryByNumber(f, RenumberTo(f, logs, first, i - 1, guard),
                    N.RenumberNumbers(ByNumber(f), NumbersOf(logs), first, i - 1), logs[i - 1], i - first, guard);
    } else {
      ReachedAtOnce(f);
    }
  }

  lemma NamedEntry(logs: seq<LogEntry>, k: nat)
    requires Named(logs) && k < |logs|
    ensures 1 <= logs[k].number < LOG_NUMBER_LIMIT && logs[k].name == LogName(logs[k].number)
  {
    hide LogName;
    assert logs[k] in logs;
  }

  lemma ReachedAtOnce(f: Folder)
    requires Tidy(f.files)
    ensures Reached(f, f, ByNumber(f))
  {
    hide Tidy, ByNumber;
  }

  lemma ZeroIsNoLog(f: Folder)
    requires Tidy(f.files)
    ensures N.Positive(ByNumber(f).logs)
  {
    hide LogName, NumberOf, IsLogName;
    forall n | n in ByNumber(f).logs
      ensures n >= 1
    {
      LogNameRoundTrip(n);
      assert Canonical(LogName(n));
    }
  }

  lemma {:induction false} ScanBounded(listing: seq<string>, limit: nat)
    ensures |Scan(listing, limit)| <= limit
  {
    if listing != [] && limit > 0 {
      ScanBounded(listing[1..], if IsLogName(listing[0]) then limit - 1 else limit);
    }
  }

  /** On a folder of well-formed names the housekeeping is the housekeeping on numbers. */
  lemma HousekeepingByNumber(f: Folder, listing: seq<string>, keep: int, guard: Option<string>)
    requires Tidy(f.files) && Lists(listing, f.files) && |Logs(f.files)| <= 1024
    requires N.OpenIsNewest(ByNumber(f)) && GuardIsSafe(f, guard)
    ensures |Collected(listing)| == |ByNumber(f).logs| <= 1024
    ensures Named(Collected(listing)) && N.Ready(ByNumber(f), NumbersOf(Collected(listing)))
    ensures var g, first := Enforced(f, Collected(listing), keep, guard), N.Excess(|ByNumber(f).logs|, keep);
            && Tidy(g.files) && SameOtherFiles(f, g)
            && ByNumber(g) == N.WindowOf(ByNumber(f), NumbersOf(Collected(listing)), first)
  {
    hide LogName, NumberOf, IsLogName, Tidy, ByNumber, GuardIsSafe, Lists, SameOtherFiles;
    var logs := Collected(listing);
    CollectedEnumerates(listing, f);
    var ns, first := NumbersOf(logs), N.Excess(|logs|, keep);
    N.EnumerationSize(ns, ByNumber(f).logs);
    ScanBounded(listing, MAX_TRACKED);
    var pruned := PruneTo(f, logs, first, guard);
    PruneByNumber(f, logs, first, guard);
    SameGuard(f, pruned, guard);
    RenumberByNumber(pruned, logs, first, |logs|, guard);
    SameOtherFilesTransitive(f, pruned, RenumberTo(pruned, logs, first, |logs|, guard));
    ZeroIsNoLog(f);
  }

  /** How many of n logs are to be left; a negative cap means all of them. */
  ghost function Allowed(n: nat, keep: int): nat {
    if keep < 0 then n else Min(n, keep)
  }

  /**
   Prune and renumber: the folder afterwards is the window of the newest logs described
   by N.IsWindow, as many as the cap allows, its names are still canonical and no other
   file is touched.
   */
  lemma HousekeepingIsRollingWindow(f: Folder, listing: seq<string>, keep: int, guard: Option<string>)
    requires Tidy(f.files) && Lists(listing, f.files) && |Logs(f.files)| <= 1024
    requires N.OpenIsNewest(ByNumber(f)) && GuardIsSafe(f, guard)
    ensures |Collected(listing)| == |ByNumber(f).logs| <= 1024
    ensures var g := Enforced(f, Collected(listing), keep, guard);
            && Tidy(g.files) && SameOtherFiles(f, g)
            && var n := |ByNumber(f).logs|;
               N.IsWindow(ByNumber(f), n - Allowed(n, keep), ByNumber(g))
  {
    hide *;
    HousekeepingByNumber(f, listing, keep, guard);
    ExcessIsLess(|ByNumber(f).logs|, keep);
    N.RollingWindow(ByNumber(f), NumbersOf(Collected(listing)), N.Excess(|ByNumber(f).logs|, keep));
  }

  lemma ExcessIsLess(count: nat, keep: int)
    ensures N.Excess(count, keep) == count - Allowed(count, keep)
  {
  }

  /**
   With no log open: a cap of `keep` leaves exactly the `keep` newest logs, or all if there are
   fewer, numbered 1, 2, ... by age; a negative cap leaves every log.
   */
  lemma NewestLogsSurvive(f: Folder, listing: seq<string>, keep: int)
    requires Tidy(f.files) && Lists(listing, f.files) && |Logs(f.files)| <= 1024 && f.open == None
    ensures |Collected(listing)| == |ByNumber(f).logs| <= 1024
    ensures var before, after := ByNumber(f).logs, ByNumber(Enforced(f, Collected(listing), keep, None)).logs;
            N.IsNewest(before, after, if keep < 0 then |before| else Min(|before|, keep))
  {
    NothingOpen(f);
    hide *;
    HousekeepingByNumber(f, listing, keep, None);
    ExcessIsLess(|ByNumber(f).logs|, keep);
    AllowedIs(|ByNumber(f).logs|, keep);
    N.ClosedWindowIsNewest(ByNumber(f), NumbersOf(Collected(listing)), N.Excess(|ByNumber(f).logs|, keep));
  }

  lemma AllowedIs(n: nat, keep: int)
    ensures Allowed(n, keep) == (if keep < 0 then n else Min(n, keep)) <= n
  {
  }

  /** Seeding from disk finds the largest number in the folder. */
  lemma SeedIsHighest(f: Folder, listing: seq<string>)
    requires Tidy(f.files) && Lists(listing, f.files) && |Logs(f.files)| <= 1024
    ensures var h := Highest(Collected(listing));
            && h >= 0
            && (forall n | n in ByNumber(f).logs :: n <= h)
            && (h in ByNumber(f).logs || (h == 0 && ByNumber(f).logs == map[]))
  {
    hide LogName, NumberOf, IsLogName, Tidy, ByNumber, Lists, Collected;
    var logs := Collected(listing);
    CollectedEnumerates(listing, f);
    HighestIsMax(logs);
    var byNumber, ns := ByNumber(f).logs, NumbersOf(logs);
    forall n | n in byNumber
      ensures n <= Highest(logs)
    {
      assert n in ns;
      var k :| 0 <= k < |ns| && ns[k] == n;
      assert logs[k].number == n;
    }
    if logs != [] {
      var k :| 0 <= k < |logs| && logs[k].number == Highest(logs);
      assert ns[k] in ns;
    } else {
      assert byNumber == map[];
    }
  }

  lemma {:induction false} HighestIsMax(logs: seq<LogEntry>)
    ensures Highest(logs) >= 0 && forall k | 0 <= k < |logs| :: logs[k].number <= Highest(logs)
    ensures Highest(logs) > 0 ==> exists k :: 0 <= k < |logs| && logs[k].number == Highest(logs)
  {
    if logs != [] {
      var front, last := logs[..|logs| - 1], logs[|logs| - 1];
      HighestIsMax(front);
      if Highest(logs) > 0 && Highest(logs) != last.number {
        var k :| 0 <= k < |front| && front[k].number == Highest(front);
        assert logs[k].number == Highest(logs);
      }
    }
  }

  /**
   At boot, with no log open, the folder is left with the newest logs, as many as the counter
   says, numbered 1 to the counter: the next log gets the first number that is free.
   */
  lemma BootLeavesOneToCounter(f: Folder, listing: seq<string>, maxLogs: int)
    requires Tidy(f.files) && Lists(listing, f.files) && |Logs(f.files)| <= 1024 && f.open == None
    ensures |Collected(listing)| == |ByNumber(f).logs| <= 1024
    ensures var g, n := Enforced(f, Collected(listing), Cap(maxLogs), None), |ByNumber(f).logs|;
            var counter := if maxLogs <= 0 then n else Min(n, maxLogs);
            N.IsNewest(ByNumber(f).logs, ByNumber(g).logs, counter)
  {
    NewestLogsSurvive(f, listing, Cap(maxLogs));
    hide IsLogName, Tidy, Lists, Logs, ByNumber, Collected, Enforced, N.IsNewest;
  }

  lemma NothingOpen(f: Folder)
    requires f.open == None
    ensures ByNumber(f).open == None && N.OpenIsNewest(ByNumber(f)) && GuardIsSafe(f, None)
  {
  }

  lemma SameGuard(f: Folder, g: Folder, guard: Option<string>)
    requires GuardIsSafe(f, guard) && f.open == g.open
    ensures GuardIsSafe(g, guard)
  {
  }

  lemma SameOtherFilesTransitive(f: Folder, g: Folder, h: Folder)
    requires SameOtherFiles(f, g) && SameOtherFiles(g, h)
    ensures SameOtherFiles(f, h)
  {
    hide IsLogName;
  }

  // ---- any folder at all: nothing is overwritten ----

  /** `origin` says, for each file that is there now, which file it was before. */
  ghost predicate TracesBack<K, V>(now: map<K, V>, before: map<K, V>, origin: map<K, K>) {
    && origin.Keys == now.Keys
    && (forall k | k in origin :: origin[k] in before && now[k] == before[origin[k]])
    && (forall j, k | j in origin && k in origin && origin[j] == origin[k] :: j == k)
  }

  lemma MoveTracesBack<K, V>(now: map<K, V>, before: map<K, V>, origin: map<K, K>, from: K, to: K)
    requires TracesBack(now, before, origin) && from in now && to !in now
    ensures TracesBack((now - {from})[to := now[from]], before, (origin - {from})[to := origin[from]])
    ensures ((origin - {from})[to := origin[from]]).Values == origin.Values
  {
    var moved := (origin - {from})[to := origin[from]];
    forall v | v in origin.Values
      ensures v in moved.Values
    {
      var k :| k in origin && origin[k] == v;
      assert moved[if k == from then to else k] == v;
    }
    forall v | v in moved.Values
      ensures v in origin.Values
    {
      var k :| k in moved && moved[k] == v;
      assert origin[if k == to then from else k] == v;
    }
  }

  lemma {:induction false} RenumberTracesBack(f: Folder, logs: seq<LogEntry>, first: nat, i: nat, guard: Option<string>)
    returns (origin: map<string, string>)
    requires first <= i <= |logs| < LOG_NUMBER_LIMIT
    ensures TracesBack(RenumberTo(f, logs, first, i, guard).files, f.files, origin)
    ensures origin.Values == f.files.Keys
  {
    hide TracesBack, LogName;
    if i == first {
      origin := Identity(f.files);
    } else {
      origin := RenumberTracesBack(f, logs, first, i - 1, guard);
      var g := RenumberTo(f, logs, first, i - 1, guard);
      var from, to := logs[i - 1].name, LogName(i - first);
      if CanRename(g, from, to) && guard != Some(from) && logs[i - 1].number != i - first {
        MoveTracesBack(g.files, f.files, origin, from, to);
        assert from in origin by {
          SameKeys(g.files, f.files, origin);
        }
        origin := (origin - {from})[to := origin[from]];
      }
    }
  }

  lemma SameKeys<K, V>(now: map<K, V>, before: map<K, V>, origin: map<K, K>)
    requires TracesBack(now, before, origin)
    ensures origin.Keys == now.Keys
  {
  }

  lemma Identity<K, V>(files: map<K, V>) returns (origin: map<K, K>)
    ensures TracesBack(files, files, origin) && origin.Values == files.Keys
  {
    origin := map k | k in files :: k;
    forall k | k in files
      ensures k in origin.Values
    {
      assert origin[k] == k;
    }
  }

  lemma {:induction false} PruneRemovesOnlyListed(f: Folder, logs: seq<LogEntry>, i: nat, guard: Option<string>, name: string)
    requires i <= |logs| && name in f.files
    requires forall k | 0 <= k < i :: logs[k].name != name
    ensures name in PruneTo(f, logs, i, guard).files
  {
    if i > 0 {
      PruneRemovesOnlyListed(f, logs, i - 1, guard, name);
    }
  }

  lemma {:induction false} PruneChangesNoContent(f: Folder, logs: seq<LogEntry>, i: nat, guard: Option<string>)
    requires i <= |logs|
    ensures PruneTo(f, logs, i, guard).files.Keys <= f.files.Keys
    ensures forall name | name in PruneTo(f, logs, i, guard).files ::
              PruneTo(f, logs, i, guard).files[name] == f.files[name]
  {
    if i > 0 {
      PruneChangesNoContent(f, logs, i - 1, guard);
    }
  }

  /**
   Whatever the names in the folder, and however many logs there are: every file left
   has the content of one earlier file, no two of the same, and the only earlier files
   without a successor are among those the prune listed.
   */
  lemma HousekeepingOverwritesNothing(f: Folder, logs: seq<LogEntry>, keep: int, guard: Option<string>)
    returns (origin: map<string, string>)
    requires |logs| < LOG_NUMBER_LIMIT
    ensures TracesBack(Enforced(f, logs, keep, guard).files, f.files, origin)
    ensures forall name | name in f.files && name !in origin.Values ::
              exists k :: 0 <= k < |logs| - Allowed(|logs|, keep) && logs[k].name == name
  {
    ExcessIsLess(|logs|, keep);
    var first := N.Excess(|logs|, keep);
    var pruned := PruneTo(f, logs, first, guard);
    origin := RenumberTracesBack(pruned, logs, first, |logs|, guard);
    PruneChangesNoContent(f, logs, first, guard);
    LargerBase(RenumberTo(pruned, logs, first, |logs|, guard).files, pruned.files, f.files, origin);
    forall name | name in f.files && name !in origin.Values
      ensures exists k :: 0 <= k < first && logs[k].name == name
    {
      if forall k | 0 <= k < first :: logs[k].name != name {
        PruneRemovesOnlyListed(f, logs, first, guard, name);
        assert false;
      }
    }
  }

  lemma LargerBase<K, V>(now: map<K, V>, small: map<K, V>, large: map<K, V>, origin: map<K, K>)
    requires TracesBack(now, small, origin)
    requires small.Keys <= large.Keys && forall k | k in small :: small[k] == large[k]
    ensures TracesBack(now, large, origin)
  {
  }
}
