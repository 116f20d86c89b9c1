/**
 The housekeeping on log numbers alone: which number holds which content. The
 name-level folder and the interleaved model both reduce to these steps.
 */
module BlackboxNumbers {
  import opened Common

  /** Logs by number, and the number of the log that is open, if it is one of them. */
  datatype Numbered<T> = Numbered(logs: map<nat, T>, open: Option<nat>)

  /** How many of `count` logs are beyond the cap; a negative cap means unlimited. */
  function Excess(count: nat, keep: int): nat {
    if keep >= 0 && count > keep then count - keep else 0
  }

  function RemoveNumber<T>(f: Numbered<T>, n: nat): Numbered<T> {
    if n in f.logs && f.open != Some(n) then f.(logs := f.logs - {n}) else f
  }

  predicate CanRenumber<T>(f: Numbered<T>, from: nat, to: nat) {
    from in f.logs && f.open != Some(from) && to !in f.logs
  }

  function RenumberOne<T>(f: Numbered<T>, from: nat, to: nat): Numbered<T> {
    if CanRenumber(f, from, to) then f.(logs := (f.logs - {from})[to := f.logs[from]]) else f
  }

  function PruneNumbers<T>(f: Numbered<T>, ns: seq<nat>, i: nat): Numbered<T>
    requires i <= |ns|
  {
    if i == 0 then f else RemoveNumber(PruneNumbers(f, ns, i - 1), ns[i - 1])
  }

  function RenumberNumbers<T>(f: Numbered<T>, ns: seq<nat>, first: nat, i: nat): Numbered<T>
    requires first <= i <= |ns|
  {
    if i == first then f
    else RenumberStep(RenumberNumbers(f, ns, first, i - 1), ns[i - 1], i - first)
  }

  /** One turn of the renumbering loop: a log that already has its number is left alone. */
  function RenumberStep<T>(f: Numbered<T>, from: nat, to: nat): Numbered<T> {
    if from == to then f else RenumberOne(f, from, to)
  }

  predicate Ascending(ns: seq<nat>) {
    forall i, j | 0 <= i < j < |ns| :: ns[i] < ns[j]
  }

  ghost predicate Positive<T>(logs: map<nat, T>) {
    forall n | n in logs :: n >= 1
  }

  ghost predicate Enumerates<T>(ns: seq<nat>, logs: map<nat, T>) {
    Ascending(ns) && forall n :: n in ns <==> n in logs
  }

  ghost predicate OpenIsNewest<T>(f: Numbered<T>) {
    f.open.Some? && f.open.value in f.logs ==> forall n | n in f.logs :: n <= f.open.value
  }

  ghost predicate Ready<T>(f: Numbered<T>, ns: seq<nat>) {
    Enumerates(ns, f.logs) && Positive(f.logs) && OpenIsNewest(f)
  }

  /** How many logs are older than number `n`: its position in age order. */
  ghost function Older<T>(logs: map<nat, T>, n: nat): set<nat> {
    set m | m in logs && m < n
  }

  ghost function Rank<T>(logs: map<nat, T>, n: nat): nat {
    |Older(logs, n)|
  }

  /** The i-th of sorted, distinct, positive numbers is at least i + 1. */
  lemma {:induction false} NumberExceedsIndex(ns: seq<nat>, i: nat)
    requires Ascending(ns) && i < |ns| && ns[0] >= 1
    ensures ns[i] >= i + 1
  {
    if i > 0 {
      NumberExceedsIndex(ns, i - 1);
    }
  }

  lemma {:induction false} PrefixSize(ns: seq<nat>, i: nat)
    requires Ascending(ns) && i <= |ns|
    ensures |(set k | 0 <= k < i :: ns[k])| == i
  {
    var now := set k | 0 <= k < i :: ns[k];
    if i == 0 {
      assert now == {};
    } else {
      PrefixSize(ns, i - 1);
      var before := set k | 0 <= k < i - 1 :: ns[k];
      assert now == before + {ns[i - 1]};
      assert ns[i - 1] !in before;
    }
  }

  lemma IndexIsRank<T>(ns: seq<nat>, logs: map<nat, T>, i: nat)
    requires Enumerates(ns, logs) && i < |ns|
    ensures Rank(logs, ns[i]) == i
  {
    assert Older(logs, ns[i]) == (set k | 0 <= k < i :: ns[k]) by {
      forall n | n in Older(logs, ns[i])
        ensures exists k :: 0 <= k < i && ns[k] == n
      {
        assert n in ns;
      }
      assert forall k | 0 <= k < i :: ns[k] in ns;
    }
    PrefixSize(ns, i);
  }

  lemma EnumerationSize<T>(ns: seq<nat>, logs: map<nat, T>)
    requires Enumerates(ns, logs)
    ensures |ns| == |logs|
  {
    var all := set k | 0 <= k < |ns| :: ns[k];
    assert logs.Keys == all by {
      forall n | n in logs.Keys
        ensures n in all
      {
        assert n in ns;
      }
      forall k | 0 <= k < |ns|
        ensures ns[k] in logs.Keys
      {
        assert ns[k] in ns;
      }
    }
    PrefixSize(ns, |ns|);
  }

  // ---- the two loops ----

  lemma {:induction false} PruneRemovesOldest<T>(f: Numbered<T>, ns: seq<nat>, i: nat)
    requires Ascending(ns) && i <= |ns|
    ensures PruneNumbers(f, ns, i)
         == f.(logs := map n | n in f.logs && (n !in ns[..i] || f.open == Some(n)) :: f.logs[n])
  {
    if i > 0 {
      PruneRemovesOldest(f, ns, i - 1);
      assert ns[..i] == ns[..i - 1] + [ns[i - 1]];
      assert PruneNumbers(f, ns, i).logs
          == map n | n in f.logs && (n !in ns[..i] || f.open == Some(n)) :: f.logs[n];
    } else {
      assert f.logs == map n | n in f.logs && (n !in ns[..i] || f.open == Some(n)) :: f.logs[n];
    }
  }

  /** Entry first + t - 1 has been handled: unless it is open it now carries number t. */
  ghost predicate Moved<T>(f: Numbered<T>, ns: seq<nat>, first: nat, g: Numbered<T>, t: nat)
    requires 1 <= t <= |ns| - first
  {
    var source := ns[first + t - 1];
    source in f.logs && (f.open == Some(source) || (t in g.logs && g.logs[t] == f.logs[source]))
  }

  /** A number that still means what it meant: the open log's, or one not handled yet. */
  ghost predicate Pending<T>(f: Numbered<T>, ns: seq<nat>, i: nat, n: nat)
    requires i <= |ns|
  {
    n in f.logs && (f.open == Some(n) || (i < |ns| && n >= ns[i]))
  }

  ghost predicate Stayed<T>(f: Numbered<T>, g: Numbered<T>, n: nat) {
    n in f.logs && n in g.logs && g.logs[n] == f.logs[n]
  }

  /** Number n holds either a handled log or a pending one. */
  ghost predicate Accounted<T>(f: Numbered<T>, ns: seq<nat>, first: nat, i: nat, n: nat)
    requires first <= i <= |ns|
  {
    (1 <= n <= i - first && f.open != Some(ns[first + n - 1])) || Pending(f, ns, i, n)
  }

  /**
   The folder when entries below `first` are pruned and entries first..i-1 have been
   handled: those carry 1, 2, ..., the rest and the open log are where they were.
   */
  ghost predicate Layout<T>(f: Numbered<T>, ns: seq<nat>, first: nat, i: nat, g: Numbered<T>)
    requires first <= i <= |ns|
  {
    && g.open == f.open
    && (forall t | 1 <= t <= i - first :: Moved(f, ns, first, g, t))
    && (forall n | Pending(f, ns, i, n) :: Stayed(f, g, n))
    && (forall n | n in g.logs :: Accounted(f, ns, first, i, n))
  }

  lemma PrunedLayout<T>(f: Numbered<T>, ns: seq<nat>, first: nat)
    requires Ready(f, ns) && first <= |ns|
    ensures Layout(f, ns, first, first, PruneNumbers(f, ns, first))
  {
    PruneRemovesOldest(f, ns, first);
    var g := PruneNumbers(f, ns, first);
    forall n | n in f.logs
      ensures n in ns[..first] <==> !(first < |ns| && n >= ns[first])
    {
      assert n in ns;
      var k :| 0 <= k < |ns| && ns[k] == n;
      if k < first {
        assert n == ns[..first][k];
      }
    }
  }

  /** At every step of the renumbering either the log has its number already or the number is free. */
  lemma TargetIsFree<T>(f: Numbered<T>, ns: seq<nat>, first: nat, i: nat, g: Numbered<T>)
    requires Ready(f, ns) && first <= i < |ns| && Layout(f, ns, first, i, g)
    requires f.open != Some(ns[i]) && ns[i] != i - first + 1
    ensures CanRenumber(g, ns[i], i - first + 1)
  {
    assert ns[0] in ns && ns[i] in ns;
    assert Pending(f, ns, i, ns[i]) && Stayed(f, g, ns[i]);
    NumberExceedsIndex(ns, i);
    assert i - first + 1 in g.logs ==> Accounted(f, ns, first, i, i - first + 1);
  }

  /** One turn of the loop either leaves the folder alone or performs the rename. */
  lemma StepEffect<T>(f: Numbered<T>, ns: seq<nat>, first: nat, i: nat, g: Numbered<T>)
    requires Ready(f, ns) && first <= i < |ns| && Layout(f, ns, first, i, g)
    ensures ns[i] in f.logs && ns[i] > i && Stayed(f, g, ns[i])
    ensures RenumberStep(g, ns[i], i - first + 1)
         == if f.open == Some(ns[i]) || ns[i] == i - first + 1 then g
            else g.(logs := (g.logs - {ns[i]})[i - first + 1 := g.logs[ns[i]]])
  {
    assert ns[0] in ns && ns[i] in ns;
    assert Pending(f, ns, i, ns[i]);
    NumberExceedsIndex(ns, i);
    if f.open != Some(ns[i]) && ns[i] != i - first + 1 {
      TargetIsFree(f, ns, first, i, g);
    }
  }

  lemma NextNumber<T>(f: Numbered<T>, ns: seq<nat>, i: nat, n: nat)
    requires Enumerates(ns, f.logs) && i < |ns| && n in f.logs && n > ns[i]
    ensures i + 1 < |ns| && n >= ns[i + 1]
  {
    assert n in ns;
  }

  lemma NumbersAreDistinct<T>(f: Numbered<T>, ns: seq<nat>, i: nat)
    requires Ready(f, ns) && i < |ns|
    ensures i + 1 < |ns| ==> ns[i + 1] > ns[i]
    ensures forall n | n in f.logs && f.open == Some(n) :: n >= ns[i]
  {
    assert ns[i] in ns;
  }

  lemma LayoutStep<T>(f: Numbered<T>, ns: seq<nat>, first: nat, i: nat, g: Numbered<T>)
    requires Ready(f, ns) && first <= i < |ns| && Layout(f, ns, first, i, g)
    ensures Layout(f, ns, first, i + 1, RenumberStep(g, ns[i], i - first + 1))
  {
    var h := RenumberStep(g, ns[i], i - first + 1);
    StepEffect(f, ns, first, i, g);
    NumbersAreDistinct(f, ns, i);
    forall t | 1 <= t <= i + 1 - first
      ensures Moved(f, ns, first, h, t)
    {
      if t <= i - first {
        assert Moved(f, ns, first, g, t);
        assert t < ns[i];
      }
    }
    forall n | Pending(f, ns, i + 1, n)
      ensures Stayed(f, h, n)
    {
      assert Pending(f, ns, i, n) && Stayed(f, g, n);
    }
    forall n | n in h.logs
      ensures Accounted(f, ns, first, i + 1, n)
    {
      if n in g.logs {
        assert Accounted(f, ns, first, i, n);
        if n in f.logs && n > ns[i] {
          NextNumber(f, ns, i, n);
        }
      }
    }
  }

  lemma {:induction false} RenumberLayout<T>(f: Numbered<T>, pruned: Numbered<T>, ns: seq<nat>, first: nat, i: nat)
    requires Ready(f, ns) && first <= i <= |ns| && Layout(f, ns, first, first, pruned)
    ensures Layout(f, ns, first, i, RenumberNumbers(pruned, ns, first, i))
  {
    hide Ready, Layout, RenumberStep;
    if i > first {
      RenumberLayout(f, pruned, ns, first, i - 1);
      LayoutStep(f, ns, first, i - 1, RenumberNumbers(pruned, ns, first, i - 1));
    }
  }

  /** A closed log of rank at least `first` now carries the number rank - first + 1, content unchanged. */
  ghost predicate Survives<T>(f: Numbered<T>, first: nat, g: Numbered<T>, n: nat)
    requires n in f.logs
  {
    var m := Rank(f.logs, n) - first + 1;
    m >= 1 ==> m in g.logs && g.logs[m] == f.logs[n]
  }

  /** Number m belongs to a closed log that was there before, of rank first + m - 1. */
  ghost predicate ComesFromLog<T>(f: Numbered<T>, first: nat, m: nat) {
    m >= 1 && exists n :: n in f.logs && f.open != Some(n) && Rank(f.logs, n) == first + m - 1
  }

  /** What the folder `g` is after logs of rank below `first` are dropped from `f`. */
  ghost predicate IsWindow<T>(f: Numbered<T>, first: nat, g: Numbered<T>) {
    && g.open == f.open
    && (forall n | n in f.logs && f.open == Some(n) :: Stayed(f, g, n))
    && (forall n | n in f.logs && f.open != Some(n) :: Survives(f, first, g, n))
    && (forall m | m in g.logs && f.open != Some(m) :: ComesFromLog(f, first, m))
  }

  lemma RankFinds<T>(ns: seq<nat>, logs: map<nat, T>, n: nat)
    requires Enumerates(ns, logs) && n in logs
    ensures Rank(logs, n) < |ns| && ns[Rank(logs, n)] == n
  {
    assert n in ns;
    var k :| 0 <= k < |ns| && ns[k] == n;
    IndexIsRank(ns, logs, k);
  }

  lemma WindowOfLayout<T>(f: Numbered<T>, ns: seq<nat>, first: nat, g: Numbered<T>)
    requires Ready(f, ns) && first <= |ns| && Layout(f, ns, first, |ns|, g)
    ensures IsWindow(f, first, g)
  {
    forall n | n in f.logs && f.open == Some(n)
      ensures Stayed(f, g, n)
    {
      assert Pending(f, ns, |ns|, n);
    }
    forall n | n in f.logs && f.open != Some(n)
      ensures Survives(f, first, g, n)
    {
      RankFinds(ns, f.logs, n);
      if Rank(f.logs, n) >= first {
        assert Moved(f, ns, first, g, Rank(f.logs, n) - first + 1);
      }
    }
    forall m | m in g.logs && f.open != Some(m)
      ensures ComesFromLog(f, first, m)
    {
      assert Accounted(f, ns, first, |ns|, m) && !Pending(f, ns, |ns|, m);
      IndexIsRank(ns, f.logs, first + m - 1);
      assert Moved(f, ns, first, g, m);
      assert ns[first + m - 1] in f.logs;
    }
  }

  ghost function WindowOf<T>(f: Numbered<T>, ns: seq<nat>, first: nat): Numbered<T>
    requires first <= |ns|
  {
    RenumberNumbers(PruneNumbers(f, ns, first), ns, first, |ns|)
  }

  /**
   The result, without mentioning the sort: every closed log of rank at least `first`
   now carries number rank - first + 1 with its content unchanged, the open log is
   where it was, and there is nothing else.
   */
  lemma RollingWindow<T>(f: Numbered<T>, ns: seq<nat>, first: nat)
    requires Ready(f, ns) && first <= |ns|
    ensures IsWindow(f, first, WindowOf(f, ns, first))
  {
    PrunedLayout(f, ns, first);
    var pruned := PruneNumbers(f, ns, first);
    RenumberLayout(f, pruned, ns, first, |ns|);
    WindowOfLayout(f, ns, first, RenumberNumbers(pruned, ns, first, |ns|));
  }

  // ---- consequences of the window ----

  /** Renumbering by rank keeps the age order. */
  lemma RankIsMonotone<T>(logs: map<nat, T>, m: nat, n: nat)
    requires m in logs && n in logs && m < n
    ensures Rank(logs, m) < Rank(logs, n)
  {
    assert m in Older(logs, n) && m !in Older(logs, m);
    assert Older(logs, m) < Older(logs, n);
    SubsetIsSmaller(Older(logs, m), Older(logs, n));
  }

  lemma SubsetIsSmaller(a: set<nat>, b: set<nat>)
    requires a < b
    ensures |a| < |b|
  {
    assert b == a + (b - a);
    assert b - a != {};
  }

  /** An open number that is not in the folder does not appear in it. */
  lemma OnlyLogsRemain<T>(f: Numbered<T>, ns: seq<nat>, first: nat)
    requires Ready(f, ns) && first <= |ns|
    ensures forall m | m in WindowOf(f, ns, first).logs && f.open == Some(m) :: m in f.logs || m <= |ns| - first
  {
    PrunedLayout(f, ns, first);
    var pruned := PruneNumbers(f, ns, first);
    RenumberLayout(f, pruned, ns, first, |ns|);
    forall m | m in WindowOf(f, ns, first).logs && f.open == Some(m)
      ensures m in f.logs || m <= |ns| - first
    {
      assert Accounted(f, ns, first, |ns|, m);
    }
  }

  /**
   Above the count sitlBlackboxEnforce() returns there is the open log or nothing. With the
   counter set to that count, it is the only log that one of the next names can overwrite.
   */
  lemma OnlyOpenLogIsAboveCount<T>(f: Numbered<T>, ns: seq<nat>, first: nat, m: nat)
    requires Ready(f, ns) && first <= |ns| && m > |ns| - first
    ensures m in WindowOf(f, ns, first).logs <==> f.open == Some(m) && m in f.logs
  {
    var g := WindowOf(f, ns, first);
    RollingWindow(f, ns, first);
    if f.open == Some(m) {
      OnlyLogsRemain(f, ns, first);
      if m in f.logs {
        assert Stayed(f, g, m);
      }
    } else if m in g.logs {
      assert ComesFromLog(f, first, m);
      var n :| n in f.logs && f.open != Some(n) && Rank(f.logs, n) == first + m - 1;
      RankFinds(ns, f.logs, n);
    }
  }

  /**
   The count, which seeds the next-log counter, covers every number left in the folder
   exactly when the open log, if there is one, is covered.
   */
  lemma KeptCountCoversFolder<T>(f: Numbered<T>, ns: seq<nat>, first: nat)
    requires Ready(f, ns) && first <= |ns|
    ensures (forall m | m in WindowOf(f, ns, first).logs :: m <= |ns| - first)
       <==> (f.open.Some? && f.open.value in f.logs ==> f.open.value <= |ns| - first)
  {
    hide *;
    forall m | m > |ns| - first
      ensures m in WindowOf(f, ns, first).logs <==> f.open == Some(m) && m in f.logs
    {
      OnlyOpenLogIsAboveCount(f, ns, first, m);
    }
    if f.open.Some? && f.open.value > |ns| - first {
      OnlyOpenLogIsAboveCount(f, ns, first, f.open.value);
    }
  }

  lemma SurvivesWindow<T>(f: Numbered<T>, ns: seq<nat>, first: nat, n: nat)
    requires Ready(f, ns) && first <= |ns| && n in f.logs && f.open != Some(n)
    ensures Survives(f, first, WindowOf(f, ns, first), n)
  {
    RollingWindow(f, ns, first);
  }

  lemma NumberIsKept<T>(f: Numbered<T>, ns: seq<nat>, first: nat, m: nat)
    requires Ready(f, ns) && first <= |ns| && f.open.None? && 1 <= m <= |ns| - first
    ensures m in WindowOf(f, ns, first).logs
  {
    var n := ns[first + m - 1];
    assert n in ns;
    IndexIsRank(ns, f.logs, first + m - 1);
    SurvivesWindow(f, ns, first, n);
  }

  /** With no log open the numbers left are exactly 1 up to the number of logs kept. */
  lemma ClosedWindowIsExact<T>(f: Numbered<T>, ns: seq<nat>, first: nat)
    requires Ready(f, ns) && first <= |ns| && f.open.None?
    ensures forall m :: m in WindowOf(f, ns, first).logs <==> 1 <= m <= |ns| - first
  {
    KeptCountCoversFolder(f, ns, first);
    RollingWindow(f, ns, first);
    hide WindowOf, Ready, Rank;
    forall m | m in WindowOf(f, ns, first).logs
      ensures m >= 1
    {
      assert ComesFromLog(f, first, m);
    }
    forall m | 1 <= m <= |ns| - first
      ensures m in WindowOf(f, ns, first).logs
    {
      NumberIsKept(f, ns, first, m);
    }
  }

  /** A folder that is already 1, 2, ..., k and within the cap is left exactly as it is. */
  lemma TidyFolderIsKept<T>(f: Numbered<T>, ns: seq<nat>)
    requires Ready(f, ns) && f.open.None?
    requires forall m :: m in f.logs <==> 1 <= m <= |ns|
    ensures WindowOf(f, ns, 0) == f
  {
    hide *;
    ClosedWindowIsExact(f, ns, 0);
    OpenUnchanged(f, ns, 0);
    assert WindowOf(f, ns, 0).logs.Keys == f.logs.Keys;
    forall n | n in f.logs
      ensures WindowOf(f, ns, 0).logs[n] == f.logs[n]
    {
      TidyLogIsKept(f, ns, n);
    }
  }

  /** How many logs are newer than number `n`. */
  ghost function Younger<T>(logs: map<nat, T>, n: nat): nat {
    |NewerThan(logs, n)|
  }

  ghost function NewerThan<T>(logs: map<nat, T>, n: nat): set<nat> {
    set m | m in logs && m > n
  }

  lemma OlderAndYounger<T>(logs: map<nat, T>, n: nat)
    requires n in logs
    ensures Rank(logs, n) + 1 + Younger(logs, n) == |logs|
  {
    assert logs.Keys == Older(logs, n) + {n} + NewerThan(logs, n);
  }

  /**
   The k newest logs are left and no others: a log with fewer than k newer ones has its
   content under number k less how many those are, and the numbers are exactly 1 to k.
   */
  ghost predicate IsNewest<T>(before: map<nat, T>, after: map<nat, T>, k: nat) {
    && (forall m :: m in after <==> 1 <= m <= k)
    && (forall n | n in before && Younger(before, n) < k :: KeptAs(before, after, n, k - Younger(before, n)))
    && (forall m | m in after :: HasYounger(before, k - m))
  }

  /** Some log has exactly this many newer ones. */
  ghost predicate HasYounger<T>(logs: map<nat, T>, count: int) {
    exists n :: n in logs && Younger(logs, n) == count
  }

  ghost predicate KeptAs<T>(before: map<nat, T>, after: map<nat, T>, n: nat, m: nat) {
    n in before && m in after && after[m] == before[n]
  }

  lemma NewestIsKept<T>(f: Numbered<T>, g: Numbered<T>, first: nat, n: nat)
    requires n in f.logs && Survives(f, first, g, n) && Younger(f.logs, n) < |f.logs| - first
    ensures KeptAs(f.logs, g.logs, n, |f.logs| - first - Younger(f.logs, n))
  {
    hide Rank, Younger;
    OlderAndYounger(f.logs, n);
  }

  lemma KeptIsNewest<T>(f: Numbered<T>, first: nat, m: nat)
    requires ComesFromLog(f, first, m) && m <= |f.logs| - first
    ensures HasYounger(f.logs, |f.logs| - first - m)
  {
    hide Rank, Younger;
    var n :| n in f.logs && f.open != Some(n) && Rank(f.logs, n) == first + m - 1;
    OlderAndYounger(f.logs, n);
  }

  lemma WindowAt<T>(f: Numbered<T>, first: nat, g: Numbered<T>)
    requires IsWindow(f, first, g) && f.open.None?
    ensures forall n | n in f.logs :: Survives(f, first, g, n)
    ensures forall m | m in g.logs :: ComesFromLog(f, first, m)
  {
    hide Survives, ComesFromLog;
  }

  /** With no log open the window is the newest logs, without ranks. */
  lemma ClosedWindowIsNewest<T>(f: Numbered<T>, ns: seq<nat>, first: nat)
    requires Ready(f, ns) && first <= |ns| && f.open.None?
    ensures IsNewest(f.logs, WindowOf(f, ns, first).logs, |ns| - first)
  {
    hide *;
    var g, k := WindowOf(f, ns, first), |ns| - first;
    ClosedWindowIsExact(f, ns, first);
    RollingWindow(f, ns, first);
    ReadySize(f, ns);
    WindowAt(f, first, g);
    forall n | n in f.logs && Younger(f.logs, n) < k
      ensures KeptAs(f.logs, g.logs, n, k - Younger(f.logs, n))
    {
      NewestIsKept(f, g, first, n);
    }
    forall m | m in g.logs
      ensures HasYounger(f.logs, k - m)
    {
      KeptIsNewest(f, first, m);
    }
    NewestParts(f.logs, g.logs, k);
  }

  lemma ReadySize<T>(f: Numbered<T>, ns: seq<nat>)
    requires Ready(f, ns)
    ensures |ns| == |f.logs|
  {
    EnumerationSize(ns, f.logs);
  }

  lemma NewestParts<T>(before: map<nat, T>, after: map<nat, T>, k: nat)
    requires forall m :: m in after <==> 1 <= m <= k
    requires forall n | n in before && Younger(before, n) < k :: KeptAs(before, after, n, k - Younger(before, n))
    requires forall m | m in after :: HasYounger(before, k - m)
    ensures IsNewest(before, after, k)
  {
    hide Younger, KeptAs, HasYounger;
  }

  lemma OpenUnchanged<T>(f: Numbered<T>, ns: seq<nat>, first: nat)
    requires Ready(f, ns) && first <= |ns|
    ensures WindowOf(f, ns, first).open == f.open
  {
    RollingWindow(f, ns, first);
  }

  lemma TidyLogIsKept<T>(f: Numbered<T>, ns: seq<nat>, n: nat)
    requires Ready(f, ns) && f.open.None? && n in f.logs
    requires forall m :: m in f.logs <==> 1 <= m <= |ns|
    ensures n in WindowOf(f, ns, 0).logs && WindowOf(f, ns, 0).logs[n] == f.logs[n]
  {
    RankInFullRange(f.logs, |ns|, n);
    SurvivesWindow(f, ns, 0, n);
  }

  lemma {:induction false} RankInFullRange<T>(logs: map<nat, T>, k: nat, n: nat)
    requires forall m :: m in logs <==> 1 <= m <= k
    requires n in logs
    ensures Rank(logs, n) == n - 1
  {
    if n == 1 {
      assert Older(logs, n) == {};
    } else {
      RankInFullRange(logs, k, n - 1);
      assert Older(logs, n) == Older(logs, n - 1) + {n - 1};
    }
  }
}
