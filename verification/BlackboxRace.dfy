/**
 Three threads share the blackbox folder. The flight thread names a new log from a counter
 and creates it; the MSP thread prunes and renumbers, one remove or rename at a time.
 The host may change the number of logs to keep: then its thread makes the same pass over the
 folder and stores the number of logs kept in the counter. The counter's seeding and the
 passes exclude each other by the scan lock; everything else interleaves freely, the creation
 of a log with a directory scan included.

 A log is represented by its creation stamp, so that age is visible in the model.
 */
module BlackboxRace {
  import opened Common
  import opened BlackboxNumbers

  const NUMBER_LIMIT := 100000

  type Stamp = nat

  /** Where the flight thread is inside sitlBlackboxFopen(). */
  datatype Flight = Ready | Scanned(highest: nat) | Checked | Named(number: nat) | Created

  /** Where the MSP thread is: it takes the request first and waits for the lock then. */
  datatype Msp = Idle | Taken | Pruning

  /** Where the host is inside sitl_local_set_blackbox_max_logs(): at the end it stores the number kept. */
  datatype Host = Away | Capping | Kept(count: nat)

  /** Where the pass of sitlBlackboxEnforce() is that holds the lock. */
  datatype Pass =
    | NoPass
    | Scanning
    | Removing(plan: seq<nat>, first: nat, i: nat)
    | Renaming(plan: seq<nat>, first: nat, i: nat)

  datatype State = State(
    folder: Numbered<Stamp>,
    counter: nat,
    request: bool,
    flight: Flight,
    msp: Msp,
    host: Host,
    pass: Pass,
    // history
    nextStamp: Stamp,
    pruned: set<Stamp>,
    overwritten: set<Stamp>)

  datatype Step =
    | SeedScan(highest: nat)   // the counter is 0: walk the folder, under the lock
    | SeedStore                // InterlockedExchange(counter, highest)
    | SeesCounter              // the counter is not 0
    | Increment                // InterlockedIncrement(counter)
    | Create                   // fopen(LOG%05d.BFL, "w")
    | CreateFails              // fopen() returns NULL
    | RequestPrune
    | CloseLog
    | TakeRequest
    | BeginPrune               // the MSP thread gets the lock: opendir()
    | BeginCap                 // the host gets it
    | EndScan(plan: seq<nat>, keep: int)
    | RemoveNext
    | RenameNext
    | Finish
    | StoreKept                // the host: InterlockedExchange(counter, kept)

  ghost predicate HighestIn(logs: map<nat, Stamp>, highest: nat) {
    (forall n | n in logs :: n <= highest) && (highest in logs || (highest == 0 && logs == map[]))
  }

  /**
   A sorted listing of a folder that may be growing meanwhile: of the logs created since the
   start perhaps some, but none without the older ones. It may be cut off at the buffer's size.
   */
  ghost predicate Listed(plan: seq<nat>, logs: map<nat, Stamp>) {
    && Ascending(plan)
    && (forall n | n in plan :: n in logs)
    && (forall n | n in logs && n !in plan :: Above(n, plan))
  }

  ghost predicate Above(n: nat, plan: seq<nat>) {
    plan != [] ==> n > plan[|plan| - 1]
  }

  /** Whether a thread can take this step now. */
  ghost predicate Enabled(s: State, step: Step) {
    match step
    case SeedScan(h) => s.flight.Ready? && s.counter == 0 && HighestIn(s.folder.logs, h) && s.pass.NoPass?
    case SeedStore => s.flight.Scanned?
    case SeesCounter => s.flight.Ready? && s.counter > 0
    case Increment => s.flight.Checked?
    case Create => s.flight.Named? && s.folder.open.None?
    case CreateFails => s.flight.Named?
    case RequestPrune => s.flight.Created?
    case CloseLog => true
    case TakeRequest => s.msp.Idle? && s.request
    case BeginPrune => s.msp.Taken? && s.pass.NoPass?
    case BeginCap => s.host.Away? && s.pass.NoPass?
    case EndScan(plan, keep) => s.pass.Scanning? && Listed(plan, s.folder.logs)
    case RemoveNext => s.pass.Removing? && s.pass.i < s.pass.first <= |s.pass.plan|
    case RenameNext => s.pass.Renaming? && s.pass.first <= s.pass.i < |s.pass.plan|
    case Finish =>
      || (s.pass.Removing? && s.pass.i == s.pass.first)
      || (s.pass.Renaming? && s.pass.first <= s.pass.i == |s.pass.plan|)
    case StoreKept => s.host.Kept?
  }

  ghost function Live(logs: map<nat, Stamp>): set<Stamp> {
    set n | n in logs :: logs[n]
  }

  ghost function Apply(s: State, step: Step): State
    requires Enabled(s, step)
  {
    match step
    case SeedScan(h) => s.(flight := Scanned(h))
    case SeedStore => s.(counter := s.flight.highest, flight := Checked)
    case SeesCounter => s.(flight := Checked)
    case Increment => s.(counter := s.counter + 1, flight := Named(s.counter + 1))
    case Create =>
      var n := s.flight.number % NUMBER_LIMIT;
      s.(folder := Numbered(s.folder.logs[n := s.nextStamp], Some(n)),
         nextStamp := s.nextStamp + 1,
         overwritten := if n in s.folder.logs then s.overwritten + {s.folder.logs[n]} else s.overwritten,
         flight := Created)
    case CreateFails => s.(flight := Ready)
    case RequestPrune => s.(request := true, flight := Ready)
    case CloseLog => s.(folder := s.folder.(open := None))
    case TakeRequest => s.(request := false, msp := Taken)
    case BeginPrune => s.(msp := Pruning, pass := Scanning)
    case BeginCap => s.(host := Capping, pass := Scanning)
    case EndScan(plan, keep) => s.(pass := Removing(plan, Excess(|plan|, keep), 0))
    case RemoveNext =>
      var n := s.pass.plan[s.pass.i];
      s.(folder := RemoveNumber(s.folder, n),
         pruned := if n in s.folder.logs && s.folder.open != Some(n) then s.pruned + {s.folder.logs[n]} else s.pruned,
         pass := Removing(s.pass.plan, s.pass.first, s.pass.i + 1))
    case RenameNext =>
      s.(folder := RenumberStep(s.folder, s.pass.plan[s.pass.i], s.pass.i - s.pass.first + 1),
         pass := Renaming(s.pass.plan, s.pass.first, s.pass.i + 1))
    case Finish =>
      if s.pass.Removing? then s.(pass := Renaming(s.pass.plan, s.pass.first, s.pass.first))
      else if s.host.Capping? then s.(pass := NoPass, host := Kept(|s.pass.plan| - s.pass.first))
      else s.(pass := NoPass, msp := Idle)
    case StoreKept => s.(counter := s.host.count, host := Away)
  }

  /** A pass leaves as many of the logs listed as the cap allows, and all of them for a negative cap. */
  lemma PassLeavesAllowed(s: State, plan: seq<nat>, keep: int)
    requires Enabled(s, EndScan(plan, keep))
    ensures var pass := Apply(s, EndScan(plan, keep)).pass;
            && pass.Removing? && pass.plan == plan && pass.i == 0 <= pass.first
            && |plan| - pass.first == if keep < 0 then |plan| else Min(|plan|, keep)
  {
  }

  /** Only a seeding, an increment and a stored count move the counter: a number given away is not taken back. */
  lemma CounterIsLeftAlone(s: State, step: Step)
    requires Enabled(s, step) && !step.SeedStore? && !step.Increment? && !step.StoreKept?
    ensures Apply(s, step).counter == s.counter
  {
  }

  /** Seeding makes the next log follow the highest number of the folder scanned. */
  lemma SeededNumberIsNext(s: State, highest: nat)
    requires Enabled(s, SeedScan(highest))
    ensures var named := Apply(Apply(Apply(s, SeedScan(highest)), SeedStore), Increment);
            named == s.(counter := highest + 1, flight := Named(highest + 1))
  {
  }

  // ---- the invariant ----

  /** No log number is above what the next increment starts from. */
  ghost predicate Bounded(logs: map<nat, Stamp>, bound: nat) {
    forall n | n in logs :: n <= bound
  }

  ghost predicate CounterInv(s: State) {
    && s.counter < NUMBER_LIMIT
    && Positive(s.folder.logs) && Bounded(s.folder.logs, NUMBER_LIMIT - 1)
    && (s.counter > 0 || s.flight.Checked? ==> Bounded(s.folder.logs, s.counter))
    && match s.flight
       case Scanned(h) => h < NUMBER_LIMIT && Bounded(s.folder.logs, h)
       case Named(n) => 0 < n < NUMBER_LIMIT && Bounded(s.folder.logs, n - 1) && (s.counter > 0 ==> n <= s.counter)
       case _ => true
  }

  /**
   The count the host stores covers the folder and a number given away already. A count of 0
   is harmless unless the flight thread has looked at the counter before.
   */
  ghost predicate StoreCovers(s: State) {
    s.host.Kept? ==>
      && (s.host.count > 0 || s.flight.Checked? ==> Bounded(s.folder.logs, s.host.count))
      && (s.host.count > 0 && s.flight.Named? ==> s.flight.number <= s.host.count)
  }

  /** The higher number is the younger log. */
  ghost predicate InAgeOrder(logs: map<nat, Stamp>) {
    forall m, n | m in logs && n in logs && m < n :: logs[m] < logs[n]
  }

  ghost predicate HistoryInv(s: State) {
    && InAgeOrder(s.folder.logs)
    && s.overwritten == {}
    && (forall t: Stamp :: t < s.nextStamp <==> t in Live(s.folder.logs) || t in s.pruned)
    && (forall t, n | t in s.pruned && n in s.folder.logs :: t < s.folder.logs[n])
  }

  /** The numbers still to be handled are there, and nothing else is at or below the last of them. */
  ghost predicate PlanInv(logs: map<nat, Stamp>, plan: seq<nat>, done: nat, i: nat)
    requires i <= |plan|
  {
    && Ascending(plan)
    && (forall k | 0 <= k < |plan| :: plan[k] >= 1)
    && (forall k | i <= k < |plan| :: plan[k] in logs)
    && (i < |plan| ==> forall n | n in logs :: n <= done || n > plan[|plan| - 1] || (n in plan && n >= plan[i]))
  }

  ghost predicate PassInv(s: State) {
    match s.pass
    case Removing(plan, first, i) => i <= first <= |plan| && PlanInv(s.folder.logs, plan, 0, i)
    case Renaming(plan, first, i) => first <= i <= |plan| && PlanInv(s.folder.logs, plan, i - first, i)
    case _ => true
  }

  ghost predicate OpenInv(f: Numbered<Stamp>) {
    f.open.Some? ==> f.open.value in f.logs && Bounded(f.logs, f.open.value)
  }

  ghost predicate Inv(s: State) {
    CounterInv(s) && HistoryInv(s) && PassInv(s) && OpenInv(s.folder)
  }

  /** Start-up: any tidy folder, nothing open, and a counter that is unset or covers the folder. */
  ghost predicate Init(s: State) {
    && s.flight.Ready? && s.msp.Idle? && s.host.Away? && s.pass.NoPass? && s.folder.open.None?
    && Positive(s.folder.logs) && Bounded(s.folder.logs, NUMBER_LIMIT - 1)
    && s.counter < NUMBER_LIMIT && (s.counter > 0 ==> Bounded(s.folder.logs, s.counter))
    && InAgeOrder(s.folder.logs)
    && s.pruned == {} && s.overwritten == {}
    && (forall t: Stamp :: t < s.nextStamp <==> t in Live(s.folder.logs))
  }

  lemma InitInv(s: State)
    requires Init(s)
    ensures Inv(s)
  {
  }

  // ---- every step keeps it ----

  /** The next log to remove is the oldest one there. */
  lemma RemovesOldest(s: State)
    requires Inv(s) && Enabled(s, RemoveNext)
    ensures s.pass.plan[s.pass.i] in s.folder.logs
    ensures forall n | n in s.folder.logs :: n >= s.pass.plan[s.pass.i]
    ensures s.folder.open == Some(s.pass.plan[s.pass.i]) ==> s.pass.i + 1 == |s.pass.plan|
  {
    var plan, i := s.pass.plan, s.pass.i;
    assert plan[i] in s.folder.logs;
    if i + 1 < |plan| {
      assert plan[i + 1] in s.folder.logs && plan[i + 1] > plan[i];
    }
  }

  /** The next log to renumber moves down, past nothing, onto a free number. */
  lemma RenamesDown(s: State)
    requires Inv(s) && Enabled(s, RenameNext)
    ensures var from, to := s.pass.plan[s.pass.i], s.pass.i - s.pass.first + 1;
      && from in s.folder.logs && 1 <= to <= from
      && (forall n | n in s.folder.logs :: n < to || n >= from)
      && (s.folder.open == Some(from) ==> s.pass.i + 1 == |s.pass.plan|)
      && (s.folder.open != Some(from) && from != to ==> CanRenumber(s.folder, from, to))
  {
    var plan, i := s.pass.plan, s.pass.i;
    NumberExceedsIndex(plan, i);
    assert plan[i] in s.folder.logs;
    if i + 1 < |plan| {
      assert plan[i + 1] in s.folder.logs && plan[i + 1] > plan[i];
    }
  }

  /** A new log gets a number above every existing one. */
  lemma NewNumberIsFresh(s: State)
    requires Inv(s) && Enabled(s, Create)
    ensures s.flight.number % NUMBER_LIMIT == s.flight.number
    ensures forall n | n in s.folder.logs :: n < s.flight.number
  {
  }

  lemma OnlyFolderShrinks(s: State)
    requires CounterInv(s) && Enabled(s, RemoveNext)
    ensures CounterInv(Apply(s, RemoveNext))
  {
  }

  lemma OnlyFolderMoves(s: State)
    requires Inv(s) && Enabled(s, RenameNext)
    ensures CounterInv(Apply(s, RenameNext))
  {
    RenamesDown(s);
    hide HistoryInv, PassInv, OpenInv;
  }

  lemma CounterStep(s: State, step: Step)
    requires Inv(s) && Enabled(s, step) && Apply(s, step).counter < NUMBER_LIMIT && (step.StoreKept? ==> StoreCovers(s))
    ensures CounterInv(Apply(s, step))
  {
    hide HistoryInv, PassInv, OpenInv, Listed;
    match step
    case Create => NewNumberIsFresh(s);
    case RemoveNext => OnlyFolderShrinks(s);
    case RenameNext => OnlyFolderMoves(s);
    case _ =>
  }

  lemma OpenStep(s: State, step: Step)
    requires Inv(s) && Enabled(s, step)
    ensures OpenInv(Apply(s, step).folder)
  {
    match step
    case RenameNext => RenamesDown(s);
    case Create => NewNumberIsFresh(s);
    case _ =>
  }

  lemma LiveAfterRemove(logs: map<nat, Stamp>, n: nat)
    requires InAgeOrder(logs) && n in logs
    ensures Live(logs - {n}) == Live(logs) - {logs[n]} && logs[n] in Live(logs)
  {
    forall m | m in logs && m != n
      ensures logs[m] != logs[n]
    {
      assert m < n || n < m;
    }
    forall t | t in Live(logs) && t != logs[n]
      ensures t in Live(logs - {n})
    {
      var m :| m in logs && logs[m] == t;
      assert m in logs - {n} && (logs - {n})[m] == t;
    }
  }

  lemma LiveAfterMove(logs: map<nat, Stamp>, from: nat, to: nat)
    requires from in logs && to !in logs
    ensures Live((logs - {from})[to := logs[from]]) == Live(logs)
  {
    var moved := (logs - {from})[to := logs[from]];
    forall t | t in Live(logs)
      ensures t in Live(moved)
    {
      var n :| n in logs && logs[n] == t;
      assert moved[if n == from then to else n] == t;
    }
  }

  lemma LiveAfterCreate(logs: map<nat, Stamp>, n: nat, stamp: Stamp)
    requires n !in logs
    ensures Live(logs[n := stamp]) == Live(logs) + {stamp}
  {
    var more := logs[n := stamp];
    assert more[n] == stamp;
    forall t | t in Live(logs)
      ensures t in Live(more)
    {
      var m :| m in logs && logs[m] == t;
      assert more[m] == t;
    }
  }

  lemma HistoryRemove(s: State)
    requires Inv(s) && Enabled(s, RemoveNext)
    ensures HistoryInv(Apply(s, RemoveNext))
  {
    hide CounterInv, OpenInv, PlanInv, Live;
    RemovesOldest(s);
    var n := s.pass.plan[s.pass.i];
    if s.folder.open != Some(n) {
      LiveAfterRemove(s.folder.logs, n);
    }
  }

  lemma HistoryRename(s: State)
    requires Inv(s) && Enabled(s, RenameNext)
    ensures HistoryInv(Apply(s, RenameNext))
  {
    hide CounterInv, OpenInv, PlanInv, Live;
    RenamesDown(s);
    var from, to := s.pass.plan[s.pass.i], s.pass.i - s.pass.first + 1;
    if s.folder.open != Some(from) && from != to {
      LiveAfterMove(s.folder.logs, from, to);
      MoveKeepsAgeOrder(s.folder.logs, from, to);
      var after := Apply(s, RenameNext);
      forall t, n | t in after.pruned && n in after.folder.logs
        ensures t < after.folder.logs[n]
      {
        assert after.folder.logs[n] == s.folder.logs[if n == to then from else n];
      }
    }
  }

  lemma MoveKeepsAgeOrder(logs: map<nat, Stamp>, from: nat, to: nat)
    requires InAgeOrder(logs) && from in logs && to !in logs
    requires to <= from && forall n | n in logs :: n < to || n >= from
    ensures InAgeOrder((logs - {from})[to := logs[from]])
  {
    var moved := (logs - {from})[to := logs[from]];
    forall m, n | m in moved && n in moved && m < n
      ensures moved[m] < moved[n]
    {
      var m', n' := if m == to then from else m, if n == to then from else n;
      assert m' in logs && n' in logs && m' < n';
    }
  }

  lemma HistoryCreate(s: State)
    requires Inv(s) && Enabled(s, Create)
    ensures HistoryInv(Apply(s, Create))
  {
    NewNumberIsFresh(s);
    var n, after := s.flight.number, Apply(s, Create);
    LiveAfterCreate(s.folder.logs, n, s.nextStamp);
    forall m | m in s.folder.logs
      ensures s.folder.logs[m] < s.nextStamp
    {
      assert s.folder.logs[m] in Live(s.folder.logs);
    }
    forall j, k | j in after.folder.logs && k in after.folder.logs && j < k
      ensures after.folder.logs[j] < after.folder.logs[k]
    {
      if k == n {
        assert after.folder.logs[k] == s.nextStamp;
      }
    }
  }

  lemma HistoryStep(s: State, step: Step)
    requires Inv(s) && Enabled(s, step)
    ensures HistoryInv(Apply(s, step))
  {
    match step
    case RemoveNext => HistoryRemove(s);
    case RenameNext => HistoryRename(s);
    case Create => HistoryCreate(s);
    case _ =>
  }

  lemma PlanAfterCreate(logs: map<nat, Stamp>, plan: seq<nat>, done: nat, i: nat, n: nat, stamp: Stamp)
    requires i <= |plan| && PlanInv(logs, plan, done, i)
    requires forall m | m in logs :: m < n
    ensures PlanInv(logs[n := stamp], plan, done, i)
  {
    if i < |plan| {
      assert plan[|plan| - 1] in logs;
    }
  }

  lemma PlanAfterScan(logs: map<nat, Stamp>, plan: seq<nat>)
    requires Positive(logs) && Listed(plan, logs)
    ensures PlanInv(logs, plan, 0, 0)
  {
    forall k | 0 <= k < |plan|
      ensures plan[k] in logs && plan[k] >= 1
    {
      assert plan[k] in plan;
    }
  }

  lemma NextInPlan(plan: seq<nat>, i: nat, n: nat)
    requires Ascending(plan) && i + 1 < |plan| && n in plan && n > plan[i]
    ensures n >= plan[i + 1]
  {
  }

  /** Handling entry i: it is gone from its place, and at most number `done` + 1 has appeared. */
  lemma PlanAfterEntry(logs: map<nat, Stamp>, plan: seq<nat>, done: nat, more: nat, i: nat, after: map<nat, Stamp>)
    requires i < |plan| && PlanInv(logs, plan, done, i) && done <= more
    requires forall k | i + 1 <= k < |plan| :: plan[k] in after
    requires i + 1 < |plan| ==> forall n | n in after :: n <= more || (n in logs && n != plan[i])
    ensures PlanInv(after, plan, more, i + 1)
  {
    if i + 1 < |plan| {
      forall n | n in after
        ensures n <= more || n > plan[|plan| - 1] || (n in plan && n >= plan[i + 1])
      {
        if more < n <= plan[|plan| - 1] {
          NextInPlan(plan, i, n);
        }
      }
    }
  }

  lemma PassRemove(s: State)
    requires Inv(s) && Enabled(s, RemoveNext)
    ensures PassInv(Apply(s, RemoveNext))
  {
    hide HistoryInv, CounterInv, OpenInv, PlanInv;
    RemovesOldest(s);
    var plan, i := s.pass.plan, s.pass.i;
    LaterEntries(s.folder.logs, plan, 0, i);
    PlanAfterEntry(s.folder.logs, plan, 0, 0, i, Apply(s, RemoveNext).folder.logs);
  }

  lemma LaterEntries(logs: map<nat, Stamp>, plan: seq<nat>, done: nat, i: nat)
    requires i < |plan| && PlanInv(logs, plan, done, i)
    ensures forall k | i + 1 <= k < |plan| :: plan[k] in logs && plan[k] > plan[i]
  {
  }

  lemma RenumberingMoves(f: Numbered<Stamp>, from: nat, to: nat)
    requires f.open != Some(from) && from != to ==> CanRenumber(f, from, to)
    ensures forall n | n in RenumberStep(f, from, to).logs ::
              n == to || (n in f.logs && (n != from || f.open == Some(from)))
    ensures forall n | n in f.logs && n != from :: n in RenumberStep(f, from, to).logs
  {
  }

  lemma PassRename(s: State)
    requires Inv(s) && Enabled(s, RenameNext)
    ensures PassInv(Apply(s, RenameNext))
  {
    hide HistoryInv, CounterInv, OpenInv, PlanInv, RenumberStep, CanRenumber;
    RenamesDown(s);
    var plan, first, i := s.pass.plan, s.pass.first, s.pass.i;
    RenumberingMoves(s.folder, plan[i], i - first + 1);
    LaterEntries(s.folder.logs, plan, i - first, i);
    PlanAfterEntry(s.folder.logs, plan, i - first, i - first + 1, i, Apply(s, RenameNext).folder.logs);
  }

  lemma PassCreate(s: State)
    requires Inv(s) && Enabled(s, Create)
    ensures PassInv(Apply(s, Create))
  {
    NewNumberIsFresh(s);
    var n := s.flight.number;
    hide HistoryInv, CounterInv, OpenInv, PlanInv;
    if s.pass.Removing? {
      PlanAfterCreate(s.folder.logs, s.pass.plan, 0, s.pass.i, n, s.nextStamp);
    } else if s.pass.Renaming? {
      PlanAfterCreate(s.folder.logs, s.pass.plan, s.pass.i - s.pass.first, s.pass.i, n, s.nextStamp);
    }
  }

  lemma PassScan(s: State, plan: seq<nat>, keep: int)
    requires Inv(s) && Enabled(s, EndScan(plan, keep))
    ensures PassInv(Apply(s, EndScan(plan, keep)))
  {
    PlanAfterScan(s.folder.logs, plan);
    hide HistoryInv, CounterInv, OpenInv, PlanInv, Listed;
  }

  lemma PassStep(s: State, step: Step)
    requires Inv(s) && Enabled(s, step)
    ensures PassInv(Apply(s, step))
  {
    hide HistoryInv, CounterInv, OpenInv, PlanInv, Listed, HighestIn;
    match step
    case Create => PassCreate(s);
    case EndScan(plan, keep) => PassScan(s, plan, keep);
    case RemoveNext => PassRemove(s);
    case RenameNext => PassRename(s);
    case _ =>
  }

  /** Every step of every thread keeps the invariant while the counter has five digits and every stored count covers. */
  lemma StepKeepsInv(s: State, step: Step)
    requires Inv(s) && Enabled(s, step) && Apply(s, step).counter < NUMBER_LIMIT && (step.StoreKept? ==> StoreCovers(s))
    ensures Inv(Apply(s, step))
  {
    hide *;
    CounterStep(s, step);
    HistoryStep(s, step);
    PassStep(s, step);
    OpenStep(s, step);
    InvParts(Apply(s, step));
  }

  lemma InvParts(s: State)
    requires CounterInv(s) && HistoryInv(s) && PassInv(s) && OpenInv(s.folder)
    ensures Inv(s)
  {
  }

  // ---- whole runs ----

  /** Each state follows from the one before by an enabled step of one thread. */
  ghost predicate IsTrace(states: seq<State>, steps: seq<Step>) {
    && |states| == |steps| + 1
    && (forall i | 0 <= i < |steps| :: Enabled(states[i], steps[i]) && states[i + 1] == Apply(states[i], steps[i]))
  }

  ghost predicate IsRun(states: seq<State>, steps: seq<Step>) {
    IsTrace(states, steps) && Init(states[0])
  }

  lemma {:induction false} RunKeepsInv(states: seq<State>, steps: seq<Step>, i: nat)
    requires IsRun(states, steps) && i <= |steps|
    requires forall k | 0 <= k < |states| :: states[k].counter < 100000
    requires forall k | 0 <= k < |steps| && steps[k].StoreKept? :: StoreCovers(states[k])
    ensures Inv(states[i])
  {
    hide Inv, Init, Enabled, Apply, StoreCovers;
    if i == 0 {
      InitInv(states[0]);
    } else {
      RunKeepsInv(states, steps, i - 1);
      assert states[i] == Apply(states[i - 1], steps[i - 1]);
      StepKeepsInv(states[i - 1], steps[i - 1]);
    }
  }

  /**
   In every state of every interleaving: no log was ever overwritten, the logs there are
   in creation order, every log ever created is there or was pruned (never both), and
   every pruned log is older than every log that is there.
   */
  lemma RunsAreSafe(states: seq<State>, steps: seq<Step>, i: nat)
    requires IsRun(states, steps) && i <= |steps|
    requires forall k | 0 <= k < |states| :: states[k].counter < 100000
    requires forall k | 0 <= k < |steps| && steps[k].StoreKept? :: StoreCovers(states[k])
    ensures states[i].overwritten == {}
    ensures InAgeOrder(states[i].folder.logs)
    ensures forall t: Stamp :: t < states[i].nextStamp <==> t in Live(states[i].folder.logs) + states[i].pruned
    ensures Live(states[i].folder.logs) !! states[i].pruned
    ensures forall t, n | t in states[i].pruned && n in states[i].folder.logs :: t < states[i].folder.logs[n]
    ensures states[i].counter > 0 ==> Bounded(states[i].folder.logs, states[i].counter)
  {
    RunKeepsInv(states, steps, i);
    hide IsRun;
    var s := states[i];
    forall t | t in Live(s.folder.logs)
      ensures t !in s.pruned
    {
      var n :| n in s.folder.logs && s.folder.logs[n] == t;
    }
  }

  /** The prune requested for a new log stays requested until the MSP thread takes the request. */
  lemma {:induction false} RequestIsNotLost(states: seq<State>, steps: seq<Step>, i: nat, j: nat)
    requires IsRun(states, steps) && i < j <= |steps| && steps[i].RequestPrune?
    ensures states[j].request || exists k :: i < k < j && steps[k].TakeRequest?
  {
    assert states[j - 1 + 1] == Apply(states[j - 1], steps[j - 1]);
    if i < j - 1 {
      RequestIsNotLost(states, steps, i, j - 1);
      assert steps[j - 1].TakeRequest? || states[j].request || !states[j - 1].request;
    }
  }

  function Requested(steps: seq<Step>, n: nat): nat
    requires n <= |steps|
  {
    if n == 0 then 0 else Requested(steps, n - 1) + if steps[n - 1].RequestPrune? then 1 else 0
  }

  function TakenRequests(steps: seq<Step>, n: nat): nat
    requires n <= |steps|
  {
    if n == 0 then 0 else TakenRequests(steps, n - 1) + if steps[n - 1].TakeRequest? then 1 else 0
  }

  /** ... and is taken at most once: the MSP thread prunes no more often than logs were created. */
  lemma {:induction false} PrunesFollowRequests(states: seq<State>, steps: seq<Step>, n: nat)
    requires IsRun(states, steps) && n <= |steps|
    ensures TakenRequests(steps, n) + (if states[n].request then 1 else 0) <=
            Requested(steps, n) + (if states[0].request then 1 else 0)
  {
    if n > 0 {
      PrunesFollowRequests(states, steps, n - 1);
      assert states[n - 1 + 1] == Apply(states[n - 1], steps[n - 1]);
    }
  }

  // ---- beyond five digits ----

  /** No two numbers hold the same log. */
  ghost predicate OneNumberEach(logs: map<nat, Stamp>) {
    forall m, n | m in logs && n in logs && logs[m] == logs[n] :: m == n
  }

  /** Every log ever created is in exactly one place: there, pruned or overwritten. */
  ghost predicate Accounted(s: State) {
    && OneNumberEach(s.folder.logs)
    && (forall t: Stamp :: t < s.nextStamp <==> t in Live(s.folder.logs) || t in s.pruned || t in s.overwritten)
    && Live(s.folder.logs) !! s.pruned && Live(s.folder.logs) !! s.overwritten && s.pruned !! s.overwritten
  }

  lemma AgeOrderIsOneEach(logs: map<nat, Stamp>)
    requires InAgeOrder(logs)
    ensures OneNumberEach(logs)
  {
    forall m, n | m in logs && n in logs && logs[m] == logs[n]
      ensures m == n
    {
      assert !(m < n) && !(n < m);
    }
  }

  lemma InitAccounted(s: State)
    requires Init(s)
    ensures Accounted(s)
  {
    AgeOrderIsOneEach(s.folder.logs);
  }

  lemma LiveWithout(logs: map<nat, Stamp>, n: nat)
    requires OneNumberEach(logs) && n in logs
    ensures OneNumberEach(logs - {n}) && Live(logs - {n}) == Live(logs) - {logs[n]} && logs[n] in Live(logs)
  {
    forall t | t in Live(logs) && t != logs[n]
      ensures t in Live(logs - {n})
    {
      var m :| m in logs && logs[m] == t;
      assert (logs - {n})[m] == t;
    }
  }

  lemma LiveWith(logs: map<nat, Stamp>, n: nat, stamp: Stamp)
    requires OneNumberEach(logs) && n !in logs && stamp !in Live(logs)
    ensures OneNumberEach(logs[n := stamp]) && Live(logs[n := stamp]) == Live(logs) + {stamp}
  {
    LiveAfterCreate(logs, n, stamp);
    forall m | m in logs
      ensures logs[m] != stamp
    {
      assert logs[m] in Live(logs);
    }
  }

  /** Writing over a number is taking its log away and then adding the new one. */
  lemma LiveReplaced(logs: map<nat, Stamp>, n: nat, stamp: Stamp)
    requires OneNumberEach(logs) && stamp !in Live(logs)
    ensures OneNumberEach(logs[n := stamp])
    ensures Live(logs[n := stamp]) == (if n in logs then Live(logs) - {logs[n]} else Live(logs)) + {stamp}
    ensures n in logs ==> logs[n] in Live(logs)
  {
    if n in logs {
      LiveWithout(logs, n);
      LiveWith(logs - {n}, n, stamp);
      assert logs[n := stamp] == (logs - {n})[n := stamp];
    } else {
      LiveWith(logs, n, stamp);
    }
  }

  lemma LiveMoved(logs: map<nat, Stamp>, from: nat, to: nat)
    requires OneNumberEach(logs) && from in logs && to !in logs
    ensures var moved := (logs - {from})[to := logs[from]];
            OneNumberEach(moved) && Live(moved) == Live(logs)
  {
    LiveWithout(logs, from);
    LiveWith(logs - {from}, to, logs[from]);
  }

  lemma AccountedStep(s: State, step: Step)
    requires Accounted(s) && Enabled(s, step)
    ensures Accounted(Apply(s, step))
  {
    hide Live, OneNumberEach;
    match step
    case Create => LiveReplaced(s.folder.logs, s.flight.number % NUMBER_LIMIT, s.nextStamp);
    case RemoveNext =>
      var n := s.pass.plan[s.pass.i];
      if n in s.folder.logs && s.folder.open != Some(n) {
        LiveWithout(s.folder.logs, n);
      }
    case RenameNext =>
      var from, to := s.pass.plan[s.pass.i], s.pass.i - s.pass.first + 1;
      if from != to && CanRenumber(s.folder, from, to) {
        LiveMoved(s.folder.logs, from, to);
      }
    case _ =>
  }

  lemma {:induction false} RunIsAccounted(states: seq<State>, steps: seq<Step>, i: nat)
    requires IsRun(states, steps) && i <= |steps|
    ensures Accounted(states[i])
  {
    hide Accounted, Init, Enabled, Apply;
    if i == 0 {
      InitAccounted(states[0]);
    } else {
      RunIsAccounted(states, steps, i - 1);
      assert states[i] == Apply(states[i - 1], steps[i - 1]);
      AccountedStep(states[i - 1], steps[i - 1]);
    }
  }

  /** The number of the log created at step k is free, once wrapped. */
  ghost predicate CreatesOnFree(states: seq<State>, steps: seq<Step>, k: nat)
    requires |states| == |steps| + 1 && k < |steps|
  {
    steps[k].Create? && states[k].flight.Named? ==>
      states[k].flight.number % 100000 !in states[k].folder.logs
  }

  lemma OverwrittenGrows(s: State, step: Step)
    requires Enabled(s, step)
    ensures s.overwritten <= Apply(s, step).overwritten
    ensures Apply(s, step).overwritten == {} <==>
            s.overwritten == {} && !(step.Create? && s.flight.number % NUMBER_LIMIT in s.folder.logs)
  {
    if step.Create? && s.flight.number % NUMBER_LIMIT in s.folder.logs {
      assert s.folder.logs[s.flight.number % NUMBER_LIMIT] in Apply(s, step).overwritten;
    }
  }

  lemma {:induction false} OverwrittenIff(states: seq<State>, steps: seq<Step>, i: nat)
    requires IsRun(states, steps) && i <= |steps|
    ensures states[i].overwritten == {} <==> forall k | 0 <= k < i :: CreatesOnFree(states, steps, k)
  {
    hide Init, Apply;
    if i > 0 {
      OverwrittenIff(states, steps, i - 1);
      assert states[i] == Apply(states[i - 1], steps[i - 1]);
      OverwrittenGrows(states[i - 1], steps[i - 1]);
      assert CreatesOnFree(states, steps, i - 1) <==>
        !(steps[i - 1].Create? && states[i - 1].flight.number % NUMBER_LIMIT in states[i - 1].folder.logs);
    } else {
      InitIsClean(states[0]);
    }
  }

  lemma InitIsClean(s: State)
    requires Init(s)
    ensures s.overwritten == {}
  {
  }

  /**
   Over any run from start-up, however long: every log ever created is still there or was
   pruned if and only if the number of every log created, wrapped to five digits, was free.
   */
  lemma NothingIsLostIff(states: seq<State>, steps: seq<Step>, i: nat)
    requires IsRun(states, steps) && i <= |steps|
    ensures (forall t: Stamp :: t < states[i].nextStamp ==> t in Live(states[i].folder.logs) || t in states[i].pruned)
       <==> forall k | 0 <= k < i :: CreatesOnFree(states, steps, k)
  {
    RunIsAccounted(states, steps, i);
    OverwrittenIff(states, steps, i);
    hide IsRun, CreatesOnFree, Live, OneNumberEach;
  }

  /** Counter 99999 and one log: two logs later it is gone. */
  ghost function WrapStart(): State {
    State(Numbered(map[1 := 0], None), 99999, false, Flight.Ready, Idle, Away, NoPass, 1, {}, {})
  }

  lemma WrapStartIsInit()
    ensures Init(WrapStart())
  {
    var s := WrapStart();
    assert s.folder.logs[1] == 0;
    forall t: Stamp
      ensures t < s.nextStamp <==> t in Live(s.folder.logs)
    {
      if t in Live(s.folder.logs) {
        var n :| n in s.folder.logs && s.folder.logs[n] == t;
      }
    }
  }

  function WrapSteps(): seq<Step> {
    [SeesCounter, Increment, Create, RequestPrune, CloseLog, SeesCounter, Increment, Create]
  }

  /** A prune never lowers the counter, so a run from start-up reaches log 100001, which is log 1 again. */
  lemma WrapOverwrites() returns (states: seq<State>)
    ensures IsRun(states, WrapSteps()) && states[0] == WrapStart()
    ensures states[8].overwritten == {0}
    ensures !CreatesOnFree(states, WrapSteps(), 7)
  {
    WrapStartIsInit();
    hide Init;
    var s0 := WrapStart();
    var s1 := Apply(s0, SeesCounter);
    var s2 := Apply(s1, Increment);
    var s3 := Apply(s2, Create);
    assert s3.folder.logs == map[1 := 0, 0 := 1];
    var s4 := Apply(s3, RequestPrune);
    var s5 := Apply(s4, CloseLog);
    var s6 := Apply(s5, SeesCounter);
    var s7 := Apply(s6, Increment);
    assert s7.flight == Named(100001);
    var s8 := Apply(s7, Create);
    states := [s0, s1, s2, s3, s4, s5, s6, s7, s8];
  }

  // ---- changing the number of logs to keep ----

  /** Logs 1 and 2 are there, log 3 is being recorded: the host asks for the newest two only. */
  ghost function CapStart(): State {
    State(Numbered(map[1 := 0, 2 := 1], None), 2, false, Flight.Ready, Idle, Away, NoPass, 2, {}, {})
  }

  lemma CapStartIsInit()
    ensures Init(CapStart())
  {
    var s := CapStart();
    assert s.folder.logs[1] == 0 && s.folder.logs[2] == 1;
    forall t: Stamp
      ensures t < s.nextStamp <==> t in Live(s.folder.logs)
    {
      if t in Live(s.folder.logs) {
        var n :| n in s.folder.logs && s.folder.logs[n] == t;
      }
    }
  }

  function RecordSteps(): seq<Step> {
    [SeesCounter, Increment, Create, RequestPrune]
  }

  function PruneSteps(): seq<Step> {
    [BeginCap, EndScan([1, 2, 3], 2), RemoveNext, Finish]
  }

  function RenameSteps(): seq<Step> {
    [RenameNext, RenameNext, Finish, StoreKept]
  }

  function NextSteps(): seq<Step> {
    [CloseLog, SeesCounter, Increment, Create]
  }

  lemma TracesJoin(a: seq<State>, xs: seq<Step>, b: seq<State>, ys: seq<Step>)
    requires IsTrace(a, xs) && IsTrace(b, ys) && a[|xs|] == b[0]
    ensures IsTrace(a + b[1..], xs + ys)
  {
    hide Enabled, Apply;
    var all, steps := a + b[1..], xs + ys;
    forall i | 0 <= i < |steps|
      ensures Enabled(all[i], steps[i]) && all[i + 1] == Apply(all[i], steps[i])
    {
      if i >= |xs| {
        var j := i - |xs|;
        assert all[i] == b[j] && all[i + 1] == b[j + 1] && steps[i] == ys[j];
      }
    }
  }

  lemma RecordTrace() returns (states: seq<State>)
    ensures IsTrace(states, RecordSteps()) && states[0] == CapStart()
    ensures states[4] == CapStart().(
              folder := Numbered(map[1 := 0, 2 := 1, 3 := 2], Some(3)), counter := 3, request := true, nextStamp := 3)
  {
    var s0 := CapStart();
    var s1 := Apply(s0, SeesCounter);
    var s2 := Apply(s1, Increment);
    var s3 := Apply(s2, Create);
    states := [s0, s1, s2, s3, Apply(s3, RequestPrune)];
  }

  lemma ThreeAreListed()
    ensures Listed([1, 2, 3], map[1 := 0, 2 := 1, 3 := 2])
  {
  }

  lemma FirstIsRemoved(s: State)
    requires s.folder == Numbered(map[1 := 0, 2 := 1, 3 := 2], Some(3)) && s.pass == Removing([1, 2, 3], 1, 0)
    ensures Apply(s, RemoveNext) == s.(
              folder := Numbered(map[2 := 1, 3 := 2], Some(3)), pass := Removing([1, 2, 3], 1, 1),
              pruned := s.pruned + {0})
  {
    assert map[1 := 0, 2 := 1, 3 := 2] - {1} == map[2 := 1, 3 := 2];
  }

  lemma PruneTrace(s: State) returns (states: seq<State>)
    requires s.folder == Numbered(map[1 := 0, 2 := 1, 3 := 2], Some(3)) && s.host.Away? && s.pass.NoPass?
    ensures IsTrace(states, PruneSteps()) && states[0] == s
    ensures states[4] == s.(
              folder := Numbered(map[2 := 1, 3 := 2], Some(3)), host := Capping, pass := Renaming([1, 2, 3], 1, 1),
              pruned := s.pruned + {0})
  {
    hide Listed, RemoveNumber;
    ThreeAreListed();
    var s1 := Apply(s, BeginCap);
    var s2 := Apply(s1, EndScan([1, 2, 3], 2));
    FirstIsRemoved(s2);
    var s3 := Apply(s2, RemoveNext);
    states := [s, s1, s2, s3, Apply(s3, Finish)];
  }

  lemma RenameTrace(s: State) returns (states: seq<State>)
    requires s.folder == Numbered(map[2 := 1, 3 := 2], Some(3)) && s.host.Capping?
    requires s.pass == Renaming([1, 2, 3], 1, 1)
    ensures IsTrace(states, RenameSteps()) && states[0] == s
    ensures !StoreCovers(states[3])
    ensures states[4] == s.(
              folder := Numbered(map[1 := 1, 3 := 2], Some(3)), counter := 2, host := Away, pass := NoPass)
  {
    var s1 := Apply(s, RenameNext);
    assert s1.folder.logs == map[1 := 1, 3 := 2];
    var s2 := Apply(s1, RenameNext);
    var s3 := Apply(s2, Finish);
    assert 3 in s3.folder.logs;
    states := [s, s1, s2, s3, Apply(s3, StoreKept)];
  }

  lemma NextTrace(s: State) returns (states: seq<State>)
    requires s.folder == Numbered(map[1 := 1, 3 := 2], Some(3)) && s.counter == 2 && s.flight.Ready?
    requires s.nextStamp == 3
    ensures IsTrace(states, NextSteps()) && states[0] == s
    ensures states[4].overwritten == s.overwritten + {2} && states[4].folder.logs == map[1 := 1, 3 := 3]
  {
    var s1 := Apply(s, CloseLog);
    var s2 := Apply(s1, SeesCounter);
    var s3 := Apply(s2, Increment);
    assert s3.flight == Named(3) && s3.folder.logs == map[1 := 1, 3 := 2];
    var s4 := Apply(s3, Create);
    assert s4.folder.logs == map[1 := 1, 3 := 3];
    states := [s, s1, s2, s3, s4];
  }

  /**
   Log 1 is pruned and log 2 becomes log 1, but log 3 is open and stays. The count stored is
   2, so the log recorded next is log 3 again and the one just recorded is gone.
   */
  lemma CapOverwritesNewestLog() returns (states: seq<State>)
    ensures IsRun(states, RecordSteps() + (PruneSteps() + (RenameSteps() + NextSteps()))) && states[0] == CapStart()
    ensures states[12].folder == Numbered(map[1 := 1, 3 := 2], Some(3)) && states[12].counter == 2
    ensures !StoreCovers(states[11])
    ensures states[16].overwritten == {2} && states[16].folder.logs == map[1 := 1, 3 := 3]
  {
    hide Enabled, Apply, Init, StoreCovers;
    CapStartIsInit();
    var recorded := RecordTrace();
    var pruned := PruneTrace(recorded[4]);
    var renamed := RenameTrace(pruned[4]);
    var last := NextTrace(renamed[4]);
    TracesJoin(renamed, RenameSteps(), last, NextSteps());
    var third := renamed + last[1..];
    TracesJoin(pruned, PruneSteps(), third, RenameSteps() + NextSteps());
    var second := pruned + third[1..];
    TracesJoin(recorded, RecordSteps(), second, PruneSteps() + (RenameSteps() + NextSteps()));
    states := recorded + second[1..];
    assert states[11] == renamed[3] && states[12] == renamed[4] && states[16] == last[4];
  }
}
