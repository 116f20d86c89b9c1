/**
 The aircraft switch stage by stage. The code takes no lock around it, so the MSP thread can
 edit RAM and persist it between any two of its stages. Here every run that interleaves
 edits and persists with the stages has an exact outcome: which persists make the selected
 file, and RAM, take over the aircraft being left, and which edits are lost.
 */
module EepromInterleaving {
  import opened Common
  import opened EepromSwitch

  /** Where the host thread is inside localRunPendingReloadInternal(). */
  datatype Host =
    | Idle
    | ToFlush(reread: bool)
    | ToClose(reread: bool)
    | ToTakePath(reread: bool)
    | ToErase(reread: bool, freshFile: bool)
    | ToSetEnv(reread: bool, freshFile: bool)
    | ToHash(reread: bool, freshFile: bool, switched: bool)
    | ToOpen(reread: bool, freshFile: bool, switched: bool, running: int)
    | ToCompare(reread: bool, freshFile: bool, switched: bool, running: int)
    | ToInit(reread: bool, freshFile: bool, switched: bool)
    | ToLoad(load: bool, freshFile: bool)
    | ToPin

  datatype Race = Race(s: State, host: Host)

  /** One stage of the host thread. */
  function Advance(b: Build, r: Race): Race {
    var s := r.s;
    match r.host
    case Idle =>
      if s.rebootPending then
        if !s.armed then Race(s.(rebootPending := false, reloadPending := false), ToFlush(false)) else r
      else if s.reloadPending || s.pathPending then Race(s.(reloadPending := false), ToFlush(true))
      else r
    case ToFlush(reread) => Race(WriteEeprom(s.(writePending := false)), ToClose(reread))
    case ToClose(reread) => Race(if s.handle.Some? then ConfigLock(s) else s, ToTakePath(reread))
    case ToTakePath(reread) =>
      if s.pathPending then Race(s.(pathPending := false), ToErase(reread, IsFresh(s)))
      else Race(s, ToHash(reread, false, false))
    case ToErase(reread, freshFile) =>
      Race(if freshFile then s.(mirror := Erased) else s, ToSetEnv(reread, freshFile))
    case ToSetEnv(reread, freshFile) => Race(s.(env := s.pendingPath), ToHash(reread, freshFile, true))
    case ToHash(reread, freshFile, switched) => Race(s, ToOpen(reread, freshFile, switched, b.hash(s.mirror)))
    case ToOpen(reread, freshFile, switched, running) =>
      Race(ConfigUnlock(s), ToCompare(reread, freshFile, switched, running))
    case ToCompare(reread, freshFile, switched, running) =>
      Race(s, if !freshFile && b.hash(s.mirror) == running then Idle else ToInit(reread, freshFile, switched))
    case ToInit(reread, freshFile, switched) =>
      Race(if freshFile then EnsureStructure(b, s) else s,
           ToLoad(reread || switched, freshFile))
    case ToLoad(load, _) => Race(if load then s.(ram := Load(b, s.mirror)) else s, ToPin)
    case ToPin => Race(s.(ram := Pinned(b, s.ram)), Idle)
  }

  // ---- undisturbed, the stages are the step ----

  function Rank(h: Host): nat {
    match h
    case Idle => 0
    case ToPin => 1
    case ToLoad(_, _) => 2
    case ToInit(_, _, _) => 3
    case ToCompare(_, _, _, _) => 4
    case ToOpen(_, _, _, _) => 5
    case ToHash(_, _, _) => 6
    case ToSetEnv(_, _) => 7
    case ToErase(_, _) => 8
    case ToTakePath(_) => 9
    case ToClose(_) => 10
    case ToFlush(_) => 11
  }

  /** All remaining stages with nothing in between. */
  function Finish(b: Build, r: Race): State
    decreases Rank(r.host)
  {
    if r.host.Idle? then r.s else Finish(b, Advance(b, r))
  }

  lemma FinishOne(b: Build, r: Race)
    requires !r.host.Idle?
    ensures Finish(b, r) == Finish(b, Advance(b, r))
  {
  }

  lemma FinishIdle(b: Build, s: State)
    ensures Finish(b, Race(s, Idle)) == s
  {
  }

  lemma FinishApply(b: Build, s: State, freshFile: bool, switched: bool, reread: bool)
    ensures Finish(b, Race(s, ToInit(reread, freshFile, switched))) == ApplySelected(b, s, freshFile, reread || switched)
  {
    hide Finish, EnsureStructure, Pinned, Load;
    var r0 := Race(s, ToInit(reread, freshFile, switched));
    var r1 := Advance(b, r0);
    var r2 := Advance(b, r1);
    FinishOne(b, r0);
    FinishOne(b, r1);
    FinishOne(b, r2);
    FinishIdle(b, Advance(b, r2).s);
  }

  lemma FinishLoad(b: Build, s: State, freshFile: bool, switched: bool, reread: bool)
    ensures Finish(b, Race(s, ToHash(reread, freshFile, switched))) == LoadSelected(b, s, freshFile, switched, reread)
  {
    hide Finish, ConfigUnlock, ApplySelected;
    var r0 := Race(s, ToHash(reread, freshFile, switched));
    var r1 := Advance(b, r0);
    var r2 := Advance(b, r1);
    FinishOne(b, r0);
    FinishOne(b, r1);
    FinishOne(b, r2);
    FinishIdle(b, r2.s);
    FinishApply(b, r2.s, freshFile, switched, reread);
  }

  lemma FinishSwitch(b: Build, s: State, reread: bool)
    ensures Finish(b, Race(s, ToTakePath(reread)))
         == LoadSelected(b, SwitchEnv(s), IsFresh(s), s.pathPending, reread)
  {
    hide Finish, LoadSelected;
    var r0 := Race(s, ToTakePath(reread));
    var r1 := Advance(b, r0);
    FinishOne(b, r0);
    if s.pathPending {
      var r2 := Advance(b, r1);
      FinishOne(b, r1);
      FinishOne(b, r2);
      FinishLoad(b, SwitchEnv(s), IsFresh(s), true, reread);
    } else {
      FinishLoad(b, s, false, false, reread);
    }
  }

  /** Without a persist in between, the stages add up to the step of the sequential model. */
  lemma StagesAreOneStep(b: Build, s: State)
    ensures Finish(b, Advance(b, Race(s, Idle))) == HostStep(b, s)
  {
    hide Finish, LoadSelected, SwitchEnv, IsFresh;
    var r0 := Advance(b, Race(s, Idle));
    if r0.host.Idle? {
      FinishIdle(b, s);
    } else {
      var r1 := Advance(b, r0);
      FinishOne(b, r0);
      FinishOne(b, r1);
      FinishSwitch(b, Advance(b, r1).s, r0.host.reread);
    }
  }

  // ---- with edits and persists in between ----

  datatype Step = HostStage | Edit(config: Config) | Persist

  function Apply(b: Build, r: Race, step: Step): Race {
    match step
    case HostStage => Advance(b, r)
    case Edit(config) => Race(r.s.(ram := config), r.host)
    case Persist => Race(WriteEeprom(r.s), r.host)
  }

  /**
   The stages at which a persist puts RAM into the new file: from the moment the environment
   names that file (for a new file, already from the moment the mirror is erased) until its
   values are loaded.
   */
  predicate IsHarmful(h: Host) {
    match h
    case ToSetEnv(_, freshFile) => freshFile
    case ToHash(_, _, switched) => switched
    case ToOpen(_, _, switched, _) => switched
    case ToCompare(_, _, switched, _) => switched
    case ToInit(_, _, switched) => switched
    case ToLoad(_, _) => true
    case _ => false
  }

  predicate BeforeOpen(h: Host) {
    h.ToFlush? || h.ToClose? || h.ToTakePath? || h.ToErase? || h.ToSetEnv?
  }

  predicate AroundOpen(h: Host) {
    h.ToHash? || h.ToOpen? || h.ToCompare?
  }

  predicate AfterOpen(h: Host) {
    h.ToInit? || h.ToLoad? || h.ToPin?
  }

  /** What a run wrote and compared so far. */
  datatype Track = Track(
    saved: Config,         // RAM when the old file was last written
    hit: Option<Config>,   // RAM at the last persist that put it into the new file
    running: Image,        // the mirror that was hashed before the new file was opened
    compared: Image)       // the mirror it was compared with

  function Follow(t: Track, r: Race, step: Step): Track {
    match step
    case HostStage =>
      if r.host.ToFlush? then t.(saved := r.s.ram)
      else if r.host.ToHash? then t.(running := r.s.mirror)
      else if r.host.ToCompare? then t.(compared := r.s.mirror)
      else t
    case Edit(_) => t
    case Persist =>
      t.(saved := if BeforeOpen(r.host) then r.s.ram else t.saved,
         hit := if IsHarmful(r.host) then Some(r.s.ram) else t.hit)
  }

  /** A switch to another file, about to flush. */
  ghost predicate Begins(r: Race) {
    && r.host.ToFlush? && Inv(r.s)
    && r.s.pathPending && FileOf(r.s.pendingPath) != FileOf(r.s.env)
  }

  function Old(s0: State): string {
    FileOf(s0.env)
  }

  function New(s0: State): string {
    FileOf(s0.pendingPath)
  }

  /**
   What the selected file hands over: what a persist put there, its own image, nothing if it
   is new, or the aircraft being left.
   */
  function Incoming(s0: State, t: Track): Image
    requires s0.pathPending
  {
    if t.hit.Some? then Stored(t.hit.value)
    else if New(s0) in s0.files then s0.files[New(s0)]
    else if IsFresh(s0) then Erased
    else Stored(t.saved)
  }

  /** The values of the incoming image are applied: it is a new file's or hashed differently. */
  predicate IsApplied(b: Build, s0: State, t: Track) {
    IsFresh(s0) || b.hash(t.compared) != b.hash(t.running)
  }

  /** No third file is touched. */
  ghost predicate OthersKept(s0: State, s: State) {
    && SameExcept(s0.files, s.files, Old(s0), New(s0))
    && s.pendingPath == s0.pendingPath
  }

  /** The environment still names the file being left. */
  ghost predicate Leaving(s0: State, s: State) {
    && OthersKept(s0, s) && s.env == s0.env && Inv(s)
    && (New(s0) in s.files <==> New(s0) in s0.files)
    && (New(s0) in s.files ==> s.files[New(s0)] == s0.files[New(s0)])
  }

  ghost predicate Saved(s0: State, t: Track, s: State) {
    Old(s0) in s.files && s.files[Old(s0)] == Stored(t.saved)
  }

  /** The mirror that a new file would be created from. */
  ghost predicate MirrorReady(s0: State, t: Track, s: State)
    requires s0.pathPending
  {
    s.mirror == if t.hit.Some? then Stored(t.hit.value) else if IsFresh(s0) then Erased else Stored(t.saved)
  }

  ghost predicate Selected(s0: State, t: Track, s: State) {
    OthersKept(s0, s) && Saved(s0, t, s) && s.env == s0.pendingPath
  }

  /** The environment names the new file, which is not open yet. */
  ghost predicate Entering(s0: State, t: Track, s: State)
    requires s0.pathPending
  {
    && Selected(s0, t, s) && s.handle.None? && MirrorReady(s0, t, s)
    && (New(s0) in s0.files ==> New(s0) in s.files)
    && (New(s0) in s.files ==> s.files[New(s0)] == Incoming(s0, t))
  }

  /** The new file has been opened and read. */
  ghost predicate Opened(s0: State, t: Track, s: State)
    requires s0.pathPending
  {
    && Selected(s0, t, s) && (s.handle.Some? ==> s.handle.value == New(s0))
    && New(s0) in s.files && s.files[New(s0)] == s.mirror == Incoming(s0, t)
  }

  /** As Opened, with a new file's defaults set. */
  ghost predicate Ready(b: Build, s0: State, t: Track, s: State)
    requires s0.pathPending
  {
    && Selected(s0, t, s) && (s.handle.Some? ==> s.handle.value == New(s0))
    && New(s0) in s.files && s.files[New(s0)] == s.mirror
    && s.mirror == if IsFresh(s0) then Stored(Load(b, Incoming(s0, t))) else Incoming(s0, t)
  }

  /** The file stands for the incoming image: it is that image, or stores the values it loads as. */
  ghost predicate Holds(b: Build, s0: State, t: Track, s: State)
    requires s0.pathPending
  {
    && New(s0) in s.files
    && (s.files[New(s0)] == Incoming(s0, t) || s.files[New(s0)] == Stored(Load(b, Incoming(s0, t))))
    && (IsFresh(s0) ==> s.files[New(s0)] == Stored(Load(b, Incoming(s0, t))))
  }

  /** Undisturbed, the image hashed first is the one saved last. */
  ghost predicate Hashed(s0: State, t: Track) {
    t.hit.None? && !IsFresh(s0) ==> t.running == Stored(t.saved)
  }

  /** ... and the image compared is the incoming one. */
  ghost predicate Compared(s0: State, t: Track)
    requires s0.pathPending
  {
    Hashed(s0, t) && (t.hit.None? && !IsFresh(s0) ==> t.compared == Incoming(s0, t))
  }

  ghost predicate Ended(b: Build, s0: State, t: Track, s: State)
    requires s0.pathPending
  {
    && Selected(s0, t, s) && Holds(b, s0, t, s) && Compared(s0, t)
    && (IsApplied(b, s0, t) ==> s.ram == Pinned(b, Load(b, Incoming(s0, t))))
  }

  /** The state at each stage. Until the load RAM may be anything. */
  ghost predicate At(b: Build, s0: State, t: Track, r: Race)
    requires s0.pathPending
  {
    var s := r.s;
    match r.host
    case Idle => Ended(b, s0, t, s)
    case ToFlush(_) => t.hit.None? && Leaving(s0, s) && s.pathPending
    case ToClose(_) =>
      t.hit.None? && Leaving(s0, s) && s.pathPending && Saved(s0, t, s) && s.mirror == Stored(t.saved)
    case ToTakePath(_) =>
      && t.hit.None? && Leaving(s0, s) && s.pathPending && Saved(s0, t, s) && s.mirror == Stored(t.saved)
      && s.handle.None?
    case ToErase(_, freshFile) =>
      && t.hit.None? && Leaving(s0, s) && Saved(s0, t, s) && s.mirror == Stored(t.saved) && s.handle.None?
      && freshFile == IsFresh(s0)
    case ToSetEnv(_, freshFile) =>
      && (t.hit.Some? ==> freshFile) && freshFile == IsFresh(s0)
      && Leaving(s0, s) && Saved(s0, t, s) && s.handle.None? && MirrorReady(s0, t, s)
    case ToHash(_, freshFile, switched) => Entering(s0, t, s) && freshFile == IsFresh(s0) && switched
    case ToOpen(_, freshFile, switched, running) =>
      && Entering(s0, t, s) && freshFile == IsFresh(s0) && switched
      && running == b.hash(t.running) && Hashed(s0, t)
    case ToCompare(_, freshFile, switched, running) =>
      && Opened(s0, t, s) && freshFile == IsFresh(s0) && switched
      && running == b.hash(t.running) && Hashed(s0, t)
    case ToInit(_, freshFile, switched) =>
      Opened(s0, t, s) && freshFile == IsFresh(s0) && switched && Compared(s0, t) && IsApplied(b, s0, t)
    case ToLoad(load, freshFile) =>
      Ready(b, s0, t, s) && freshFile == IsFresh(s0) && load && Compared(s0, t) && IsApplied(b, s0, t)
    case ToPin =>
      && Selected(s0, t, s) && Holds(b, s0, t, s) && s.ram == Load(b, Incoming(s0, t))
      && Compared(s0, t) && IsApplied(b, s0, t) && (s.handle.Some? ==> s.handle.value == New(s0))
  }

  lemma StageBeforeOpen(b: Build, s0: State, t: Track, r: Race)
    requires s0.pathPending && New(s0) != Old(s0) && BeforeOpen(r.host) && At(b, s0, t, r)
    ensures At(b, s0, Follow(t, r, HostStage), Advance(b, r))
  {
  }

  lemma StageAroundOpen(b: Build, s0: State, t: Track, r: Race)
    requires s0.pathPending && New(s0) != Old(s0) && AroundOpen(r.host) && At(b, s0, t, r)
    ensures At(b, s0, Follow(t, r, HostStage), Advance(b, r))
  {
    hide Pinned, Load;
  }

  lemma StageAfterOpen(b: Build, s0: State, t: Track, r: Race)
    requires s0.pathPending && New(s0) != Old(s0) && AfterOpen(r.host) && At(b, s0, t, r)
    ensures At(b, s0, Follow(t, r, HostStage), Advance(b, r))
  {
  }

  lemma StageKeeps(b: Build, s0: State, t: Track, r: Race)
    requires s0.pathPending && New(s0) != Old(s0) && !r.host.Idle? && At(b, s0, t, r)
    ensures At(b, s0, Follow(t, r, HostStage), Advance(b, r))
  {
    hide At, Advance, Follow;
    if BeforeOpen(r.host) {
      StageBeforeOpen(b, s0, t, r);
    } else if AroundOpen(r.host) {
      StageAroundOpen(b, s0, t, r);
    } else {
      StageAfterOpen(b, s0, t, r);
    }
  }

  lemma PersistBeforeOpen(b: Build, s0: State, t: Track, r: Race)
    requires s0.pathPending && New(s0) != Old(s0) && BeforeOpen(r.host) && At(b, s0, t, r)
    ensures At(b, s0, Follow(t, r, Persist), Apply(b, r, Persist))
  {
    hide Load;
  }

  lemma PersistLater(b: Build, s0: State, t: Track, r: Race)
    requires s0.pathPending && New(s0) != Old(s0) && !BeforeOpen(r.host) && !r.host.Idle? && At(b, s0, t, r)
    ensures At(b, s0, Follow(t, r, Persist), Apply(b, r, Persist))
  {
  }

  /** A persist at any stage keeps the invariant: it goes to the old file, to the new one, or changes nothing. */
  lemma PersistKeeps(b: Build, s0: State, t: Track, r: Race)
    requires s0.pathPending && New(s0) != Old(s0) && !r.host.Idle? && At(b, s0, t, r)
    ensures At(b, s0, Follow(t, r, Persist), Apply(b, r, Persist))
  {
    hide At, Apply, IsHarmful, Follow;
    if BeforeOpen(r.host) {
      PersistBeforeOpen(b, s0, t, r);
    } else {
      PersistLater(b, s0, t, r);
    }
  }

  lemma EditKeeps(b: Build, s0: State, t: Track, r: Race, config: Config)
    requires s0.pathPending && !r.host.Idle? && !r.host.ToPin? && At(b, s0, t, r)
    ensures At(b, s0, t, Apply(b, r, Step.Edit(config)))
  {
    hide SameExcept, IsFresh, Load, IsApplied;
  }

  // ---- runs of one switch ----

  /**
   From the flush to the moment the host thread is done, with any edits and persists in
   between. After the load an edit is one of the new aircraft's.
   */
  ghost predicate IsSwitch(b: Build, races: seq<Race>, steps: seq<Step>) {
    && |races| == |steps| + 1
    && Begins(races[0])
    && (forall k | 0 <= k < |steps| :: !races[k].host.Idle? && races[k + 1] == Apply(b, races[k], steps[k]))
    && (forall k | 0 <= k < |steps| :: steps[k].Edit? ==> !races[k].host.ToPin?)
    && races[|steps|].host.Idle?
  }

  /** What the first n steps wrote and compared. */
  function Tracked(races: seq<Race>, steps: seq<Step>, n: nat): Track
    requires |races| == |steps| + 1 && n <= |steps|
  {
    if n == 0 then Track(races[0].s.ram, None, Erased, Erased)
    else Follow(Tracked(races, steps, n - 1), races[n - 1], steps[n - 1])
  }

  function Outcome(races: seq<Race>, steps: seq<Step>): Track
    requires |races| == |steps| + 1
  {
    Tracked(races, steps, |steps|)
  }

  lemma BeginningIsAt(b: Build, r: Race)
    requires Begins(r)
    ensures At(b, r.s, Track(r.s.ram, None, Erased, Erased), r)
  {
  }

  lemma {:induction false} SwitchIsAt(b: Build, races: seq<Race>, steps: seq<Step>, n: nat)
    requires IsSwitch(b, races, steps) && n <= |steps|
    ensures Begins(races[0]) && At(b, races[0].s, Tracked(races, steps, n), races[n])
  {
    hide At, Advance, Follow;
    if n == 0 {
      BeginningIsAt(b, races[0]);
    } else {
      SwitchIsAt(b, races, steps, n - 1);
      var s0, t, r, step := races[0].s, Tracked(races, steps, n - 1), races[n - 1], steps[n - 1];
      assert !r.host.Idle? && races[n - 1 + 1] == Apply(b, r, step);
      match step
      case HostStage => StageKeeps(b, s0, t, r);
      case Persist => PersistKeeps(b, s0, t, r);
      case Edit(config) =>
        EditKeeps(b, s0, t, r, config);
        EditIsNotTracked(t, r, config);
    }
  }

  lemma EditIsNotTracked(t: Track, r: Race, config: Config)
    ensures Follow(t, r, Step.Edit(config)) == t
  {
  }

  /**
   Whatever edits and persists come in between: the aircraft being left is in its own file
   as last saved there, no third file is touched, and the selected file and RAM stand for
   the incoming image, which a persist at a harmful stage replaces.
   */
  lemma SwitchOutcome(b: Build, races: seq<Race>, steps: seq<Step>)
    requires IsSwitch(b, races, steps)
    ensures Begins(races[0])
    ensures var s0, s, t := races[0].s, races[|steps|].s, Outcome(races, steps);
            && s.env == s0.pendingPath
            && Old(s0) in s.files && s.files[Old(s0)] == Stored(t.saved)
            && SameExcept(s0.files, s.files, Old(s0), New(s0))
            && Holds(b, s0, t, s)
            && (IsApplied(b, s0, t) ==>
                  s.ram == Config(Pins(Pwm, b.telemetry, true, Adc, Adc), Load(b, Incoming(s0, t)).user))
            && (t.hit.None? && !IsFresh(s0) ==> t.compared == Incoming(s0, t) && t.running == Stored(t.saved))
  {
    SwitchIsAt(b, races, steps, |steps|);
    hide Tracked, Holds, Incoming, IsSwitch, IsFresh, Load, SameExcept, IsApplied;
  }

  // ---- which persists decide ----

  /** Step k writes RAM to the file being left. */
  predicate WritesOld(races: seq<Race>, steps: seq<Step>, k: nat)
    requires |races| == |steps| + 1 && k < |steps|
  {
    (steps[k].HostStage? && races[k].host.ToFlush?) || (steps[k].Persist? && BeforeOpen(races[k].host))
  }

  /** Step k is a persist that puts RAM into the file being entered. */
  predicate HitAt(races: seq<Race>, steps: seq<Step>, k: nat)
    requires |races| == |steps| + 1 && k < |steps|
  {
    steps[k].Persist? && IsHarmful(races[k].host)
  }

  lemma TrackedNext(races: seq<Race>, steps: seq<Step>, n: nat)
    requires |races| == |steps| + 1 && n < |steps|
    ensures var t, u := Tracked(races, steps, n), Tracked(races, steps, n + 1);
      && u.saved == (if WritesOld(races, steps, n) then races[n].s.ram else t.saved)
      && u.hit == (if HitAt(races, steps, n) then Some(races[n].s.ram) else t.hit)
  {
    hide IsHarmful;
  }

  lemma {:induction false} NoLaterWrite(races: seq<Race>, steps: seq<Step>, k: nat, n: nat)
    requires |races| == |steps| + 1 && k <= n <= |steps|
    requires forall j: nat | k <= j < n :: !WritesOld(races, steps, j)
    ensures Tracked(races, steps, n).saved == Tracked(races, steps, k).saved
  {
    hide WritesOld, Tracked;
    if k < n {
      NoLaterWrite(races, steps, k, n - 1);
      TrackedNext(races, steps, n - 1);
    }
  }

  lemma {:induction false} NoLaterHit(races: seq<Race>, steps: seq<Step>, k: nat, n: nat)
    requires |races| == |steps| + 1 && k <= n <= |steps|
    requires forall j: nat | k <= j < n :: !HitAt(races, steps, j)
    ensures Tracked(races, steps, n).hit == Tracked(races, steps, k).hit
  {
    hide HitAt, Tracked;
    if k < n {
      NoLaterHit(races, steps, k, n - 1);
      TrackedNext(races, steps, n - 1);
    }
  }

  /** The old file ends with the RAM of the last flush or persist before the new file was selected. */
  lemma OldFileHoldsLastWrite(b: Build, races: seq<Race>, steps: seq<Step>, k: nat)
    requires IsSwitch(b, races, steps) && k < |steps| && WritesOld(races, steps, k)
    requires forall j: nat | k < j < |steps| :: !WritesOld(races, steps, j)
    ensures var s := races[|steps|].s;
            Old(races[0].s) in s.files && s.files[Old(races[0].s)] == Stored(races[k].s.ram)
  {
    hide Apply, Begins, WritesOld, Outcome, Tracked, Holds, Incoming, IsApplied, SameExcept;
    SwitchOutcome(b, races, steps);
    TrackedNext(races, steps, k);
    NoLaterWrite(races, steps, k + 1, |steps|);
    OutcomeIs(races, steps);
  }

  lemma OutcomeIs(races: seq<Race>, steps: seq<Step>)
    requires |races| == |steps| + 1
    ensures Outcome(races, steps) == Tracked(races, steps, |steps|)
  {
  }

  /** What hits the new file is the RAM of the last persist between its selection and its load. */
  lemma HitIsLastPersist(races: seq<Race>, steps: seq<Step>, k: nat)
    requires |races| == |steps| + 1 && k < |steps| && HitAt(races, steps, k)
    requires forall j: nat | k < j < |steps| :: !HitAt(races, steps, j)
    ensures Outcome(races, steps).hit == Some(races[k].s.ram)
  {
    hide *;
    TrackedNext(races, steps, k);
    NoLaterHit(races, steps, k + 1, |steps|);
    OutcomeIs(races, steps);
  }

  /** One of the first n steps was a persist into the new file. */
  predicate HitWithin(races: seq<Race>, steps: seq<Step>, n: nat)
    requires |races| == |steps| + 1 && n <= |steps|
  {
    exists k: nat :: k < n && HitAt(races, steps, k)
  }

  lemma {:induction false} HitIff(races: seq<Race>, steps: seq<Step>, n: nat)
    requires |races| == |steps| + 1 && n <= |steps|
    ensures Tracked(races, steps, n).hit.Some? <==> HitWithin(races, steps, n)
  {
    if n > 0 {
      hide Tracked, HitAt;
      HitIff(races, steps, n - 1);
      TrackedNext(races, steps, n - 1);
      if HitAt(races, steps, n - 1) {
        assert n - 1 < n && HitAt(races, steps, n - 1);
      }
    }
  }

  // ---- what the new file and RAM end with ----

  /**
   Switching to a file that exists: it stands for the same configuration as before if and
   only if no persist comes between the change of the environment and the load, or the last
   one stored that very configuration. Unless the file was erased this is its very content.
   */
  lemma ExistingFileSurvivesIff(b: Build, races: seq<Race>, steps: seq<Step>)
    requires IsSwitch(b, races, steps) && New(races[0].s) in races[0].s.files
    ensures var s0, s, hit := races[0].s, races[|steps|].s, Outcome(races, steps).hit;
            var image, own := s0.files[New(s0)], Load(b, s0.files[New(s0)]);
            && New(s0) in s.files
            && (Load(b, s.files[New(s0)]) == own <==> hit.None? || hit.value == own)
            && (image.Stored? ==> (s.files[New(s0)] == image <==> Load(b, s.files[New(s0)]) == own))
  {
    SwitchOutcome(b, races, steps);
    ExistingIsNotFresh(races[0].s);
    hide Outcome, IsSwitch, IsFresh, SameExcept, IsApplied;
  }

  lemma ExistingIsNotFresh(s0: State)
    requires s0.pathPending && New(s0) in s0.files
    ensures !IsFresh(s0)
  {
  }

  /**
   ... and RAM: if the images compared hash alike it is left as it is. Otherwise it gets that
   file's values if and only if no such persist came, or the last one stored these values.
   Without such a persist the file's image is compared with what was last saved.
   */
  lemma RamArrivesIff(b: Build, races: seq<Race>, steps: seq<Step>)
    requires IsSwitch(b, races, steps) && New(races[0].s) in races[0].s.files
    ensures var s0, s, t := races[0].s, races[|steps|].s, Outcome(races, steps);
            var image, own := s0.files[New(s0)], Load(b, s0.files[New(s0)]).user;
            && (b.hash(t.compared) == b.hash(t.running) ==> s.ram == races[|steps| - 1].s.ram)
            && (b.hash(t.compared) != b.hash(t.running) ==>
                  (s.ram.user == own <==> t.hit.None? || t.hit.value.user == own))
            && (t.hit.None? ==> t.compared == image && t.running == Stored(t.saved))
  {
    SwitchOutcome(b, races, steps);
    ExistingIsNotFresh(races[0].s);
    if !IsApplied(b, races[0].s, Outcome(races, steps)) {
      EqualImagesLeaveRam(b, races, steps);
    }
    hide Outcome, IsSwitch, IsFresh, SameExcept, Holds;
  }

  /** A reload that finds equal hashes ends at the comparison. */
  lemma EqualImagesLeaveRam(b: Build, races: seq<Race>, steps: seq<Step>)
    requires IsSwitch(b, races, steps) && Begins(races[0])
    requires !IsApplied(b, races[0].s, Outcome(races, steps))
    ensures races[|steps| - 1].host.ToCompare? && races[|steps|].s.ram == races[|steps| - 1].s.ram
  {
    var n := |steps| - 1;
    SwitchIsAt(b, races, steps, n);
    var r, t := races[n], Tracked(races, steps, n);
    assert races[n + 1] == Apply(b, r, steps[n]) && !r.host.Idle?;
    LastStage(b, races[0].s, t, r, steps[n]);
    hide IsApplied, At;
    assert Outcome(races, steps) == Follow(t, r, steps[n]);
  }

  lemma LastStage(b: Build, s0: State, t: Track, r: Race, step: Step)
    requires s0.pathPending && At(b, s0, t, r) && !r.host.Idle? && Apply(b, r, step).host.Idle?
    requires !IsApplied(b, s0, Follow(t, r, step))
    ensures r.host.ToCompare? && Apply(b, r, step).s.ram == r.s.ram
  {
    hide At, Apply, IsApplied, IsFresh, IsHarmful, BeforeOpen;
    LastIsPinOrCompare(b, r, step);
    if r.host.ToPin? {
      PinnedIsApplied(b, s0, t, r);
    }
  }

  lemma LastIsPinOrCompare(b: Build, r: Race, step: Step)
    requires !r.host.Idle? && Apply(b, r, step).host.Idle?
    ensures step.HostStage? && (r.host.ToPin? || (r.host.ToCompare? && Apply(b, r, step).s == r.s))
  {
    hide WriteEeprom, ConfigUnlock, EnsureStructure, Pinned, Load, IsFresh;
  }

  lemma PinnedIsApplied(b: Build, s0: State, t: Track, r: Race)
    requires s0.pathPending && At(b, s0, t, r) && r.host.ToPin?
    ensures IsApplied(b, s0, t)
  {
    hide IsApplied, Selected, Holds, Compared;
  }

  /**
   Switching to a new file: factory defaults, in the file and in RAM, if and only if no
   persist comes between the erasing of the mirror and the load, or the last one stored them.
   */
  lemma NewFileGetsDefaultsIff(b: Build, races: seq<Race>, steps: seq<Step>)
    requires IsSwitch(b, races, steps) && IsFresh(races[0].s)
    ensures var s0, s, hit := races[0].s, races[|steps|].s, Outcome(races, steps).hit;
            && New(s0) in s.files && s.files[New(s0)].Stored?
            && (s.files[New(s0)] == Stored(b.factory) <==> hit.None? || hit.value == b.factory)
            && (s.ram.user == b.factory.user <==> hit.None? || hit.value.user == b.factory.user)
  {
    SwitchOutcome(b, races, steps);
    FreshIsNew(races[0].s);
    hide Outcome, IsSwitch, IsFresh, SameExcept;
  }

  lemma FreshIsNew(s0: State)
    requires s0.pathPending && IsFresh(s0)
    ensures New(s0) !in s0.files
  {
  }

  // ---- lost edits ----

  lemma {:induction false} FlushesOnce(b: Build, races: seq<Race>, steps: seq<Step>, k: nat, n: nat)
    requires IsSwitch(b, races, steps) && k <= n <= |steps| && !races[k].host.ToFlush?
    ensures !races[n].host.ToFlush?
  {
    hide WriteEeprom, ConfigUnlock, EnsureStructure, Begins, IsFresh, Load, Pinned;
    if k < n {
      FlushesOnce(b, races, steps, k, n - 1);
      assert !races[n - 1].host.Idle? && races[n - 1 + 1] == Apply(b, races[n - 1], steps[n - 1]);
    }
  }

  /**
   An edit that comes after the flush and is not persisted before the switch is done goes
   nowhere: the old file, the new file and the values loaded into RAM are those decided by
   the steps before it. Only a reload that finds equal images leaves it in RAM.
   */
  lemma EditIsLost(b: Build, races: seq<Race>, steps: seq<Step>, k: nat)
    requires IsSwitch(b, races, steps) && k < |steps|
    requires steps[k].Edit? && !races[k].host.ToFlush?
    requires forall j: nat | k < j < |steps| :: !steps[j].Persist?
    ensures Begins(races[0])
    ensures var s0, s, t, before := races[0].s, races[|steps|].s, Outcome(races, steps), Tracked(races, steps, k);
            && Old(s0) in s.files && s.files[Old(s0)] == Stored(before.saved)
            && Incoming(s0, t) == Incoming(s0, before) && Holds(b, s0, before, s)
            && (IsApplied(b, s0, t) ==>
                  s.ram == Config(Pins(Pwm, b.telemetry, true, Adc, Adc), Load(b, Incoming(s0, before)).user))
            && (!IsApplied(b, s0, t) ==> s.ram == races[|steps| - 1].s.ram)
  {
    forall j: nat | k <= j < |steps|
      ensures !WritesOld(races, steps, j) && !HitAt(races, steps, j)
    {
      FlushesOnce(b, races, steps, k, j);
    }
    hide *;
    NoLaterWrite(races, steps, k, |steps|);
    NoLaterHit(races, steps, k, |steps|);
    OutcomeIs(races, steps);
    SwitchOutcome(b, races, steps);
    SameIncoming(b, races[0].s, Outcome(races, steps), Tracked(races, steps, k), races[|steps|].s);
    if !IsApplied(b, races[0].s, Outcome(races, steps)) {
      EqualImagesLeaveRam(b, races, steps);
    }
  }

  lemma SameIncoming(b: Build, s0: State, t: Track, u: Track, s: State)
    requires s0.pathPending && t.saved == u.saved && t.hit == u.hit
    ensures Incoming(s0, t) == Incoming(s0, u) && (Holds(b, s0, t, s) <==> Holds(b, s0, u, s))
  {
  }

  // ---- without edits ----

  ghost predicate Unedited(steps: seq<Step>) {
    forall k | 0 <= k < |steps| :: !steps[k].Edit?
  }

  /** Step k is a persist into the new file before a new file's defaults are set. */
  predicate EarlyHitAt(races: seq<Race>, steps: seq<Step>, k: nat)
    requires |races| == |steps| + 1 && k < |steps|
  {
    HitAt(races, steps, k) && !races[k].host.ToLoad?
  }

  predicate EarlyHitWithin(races: seq<Race>, steps: seq<Step>, n: nat)
    requires |races| == |steps| + 1 && n <= |steps|
  {
    exists k: nat :: k < n && EarlyHitAt(races, steps, k)
  }

  lemma EarlyHitOneMore(races: seq<Race>, steps: seq<Step>, n: nat)
    requires |races| == |steps| + 1 && n < |steps|
    ensures EarlyHitWithin(races, steps, n + 1)
       <==> EarlyHitWithin(races, steps, n)
            || (steps[n].Persist? && IsHarmful(races[n].host) && !races[n].host.ToLoad?)
  {
    hide IsHarmful;
    if EarlyHitAt(races, steps, n) {
      assert n < n + 1 && EarlyHitAt(races, steps, n);
    }
  }

  predicate IsLate(h: Host) {
    h.ToLoad? || h.ToPin? || h.Idle?
  }

  /** What an unedited RAM holds until the load: the aircraft being left, or a new file's defaults. */
  function Running(b: Build, s0: State, early: bool, h: Host): Config {
    if IsFresh(s0) && !early && IsLate(h) then b.factory else s0.ram
  }

  ghost predicate Plain(b: Build, s0: State, early: bool, t: Track, r: Race) {
    && t.saved == s0.ram
    && (early ==> t.hit.Some?) && (t.hit.Some? && !early ==> IsLate(r.host))
    && (t.hit.Some? ==> t.hit.value == Running(b, s0, early, r.host))
    && (!r.host.ToPin? && !r.host.Idle? ==> r.s.ram == Running(b, s0, early, r.host))
  }

  lemma PlainBeforeLoad(b: Build, s0: State, early: bool, t: Track, r: Race)
    requires (BeforeOpen(r.host) || AroundOpen(r.host)) && Plain(b, s0, early, t, r)
    ensures Plain(b, s0, early, Follow(t, r, HostStage), Advance(b, r))
  {
    hide IsFresh, IsHarmful;
    EarlyStage(b, r);
  }

  /** The stages up to the comparison leave RAM alone. */
  lemma EarlyStage(b: Build, r: Race)
    requires BeforeOpen(r.host) || AroundOpen(r.host)
    ensures Advance(b, r).s.ram == r.s.ram && !Advance(b, r).host.ToLoad? && !Advance(b, r).host.ToPin?
  {
    hide IsFresh, EnsureStructure, Pinned, Load, FileOf, Target;
    match r.host
    case ToFlush(_) =>
    case ToClose(_) =>
    case ToTakePath(_) =>
    case ToErase(_, _) =>
    case ToSetEnv(_, _) =>
    case ToHash(_, _, _) =>
    case ToOpen(_, _, _, _) =>
    case ToCompare(_, _, _, _) =>
  }

  lemma PlainInit(b: Build, s0: State, early: bool, t: Track, r: Race)
    requires s0.pathPending && r.host.ToInit? && At(b, s0, t, r) && Plain(b, s0, early, t, r)
    ensures Plain(b, s0, early, Follow(t, r, HostStage), Advance(b, r))
  {
    hide Selected, Compared, IsApplied, IsHarmful;
    assert IsFresh(s0) ==> New(s0) !in s0.files;
  }

  lemma PlainStage(b: Build, s0: State, early: bool, t: Track, r: Race)
    requires s0.pathPending && !r.host.Idle? && At(b, s0, t, r) && Plain(b, s0, early, t, r)
    ensures Plain(b, s0, early, Follow(t, r, HostStage), Advance(b, r))
  {
    if BeforeOpen(r.host) || AroundOpen(r.host) {
      hide At, Plain, Advance, Follow;
      PlainBeforeLoad(b, s0, early, t, r);
    } else if r.host.ToInit? {
      hide At, Plain, Advance, Follow;
      PlainInit(b, s0, early, t, r);
    } else {
      hide At, Load, Pinned, IsFresh;
    }
  }

  lemma PlainPersist(b: Build, s0: State, early: bool, t: Track, r: Race)
    requires s0.pathPending && !r.host.Idle? && Plain(b, s0, early, t, r)
    ensures Plain(b, s0, early || (IsHarmful(r.host) && !r.host.ToLoad?), Follow(t, r, Persist), Apply(b, r, Persist))
  {
    hide IsFresh;
  }

  lemma {:induction false} StaysPlain(b: Build, races: seq<Race>, steps: seq<Step>, n: nat)
    requires IsSwitch(b, races, steps) && Unedited(steps) && n <= |steps|
    ensures Plain(b, races[0].s, EarlyHitWithin(races, steps, n), Tracked(races, steps, n), races[n])
  {
    hide Advance, Follow, At, Plain, EarlyHitWithin, IsHarmful;
    if n == 0 {
      BeginsPlain(b, races, steps);
    } else {
      StaysPlain(b, races, steps, n - 1);
      SwitchIsAt(b, races, steps, n - 1);
      EarlyHitOneMore(races, steps, n - 1);
      var s0, t, r := races[0].s, Tracked(races, steps, n - 1), races[n - 1];
      assert !r.host.Idle? && races[n - 1 + 1] == Apply(b, r, steps[n - 1]);
      if steps[n - 1].Persist? {
        PlainPersist(b, s0, EarlyHitWithin(races, steps, n - 1), t, r);
      } else {
        PlainStage(b, s0, EarlyHitWithin(races, steps, n - 1), t, r);
      }
    }
  }

  lemma BeginsPlain(b: Build, races: seq<Race>, steps: seq<Step>)
    requires IsSwitch(b, races, steps)
    ensures Plain(b, races[0].s, EarlyHitWithin(races, steps, 0), Tracked(races, steps, 0), races[0])
  {
  }

  /**
   When nothing is edited meanwhile, the old file holds the aircraft being left. An existing
   file survives if and only if no persist comes between the change of the environment and
   the load, or it was that aircraft anyway; RAM gets its values if and only if, besides, the
   two images do not hash alike.
   */
  lemma UneditedSwitchIff(b: Build, races: seq<Race>, steps: seq<Step>)
    requires IsSwitch(b, races, steps) && Unedited(steps) && New(races[0].s) in races[0].s.files
    ensures var s0, s, hit := races[0].s, races[|steps|].s, HitWithin(races, steps, |steps|);
            var image, own := s0.files[New(s0)], Load(b, s0.files[New(s0)]);
            && Old(s0) in s.files && s.files[Old(s0)] == Stored(s0.ram)
            && New(s0) in s.files && (Load(b, s.files[New(s0)]) == own <==> !hit || s0.ram == own)
            && (s.ram.user == own.user <==>
                  (!hit && b.hash(image) != b.hash(Stored(s0.ram))) || s0.ram.user == own.user)
  {
    var s0 := races[0].s;
    PlainOutcome(b, races, steps);
    SwitchOutcome(b, races, steps);
    ExistingFileSurvivesIff(b, races, steps);
    RamArrivesIff(b, races, steps);
    ExistingIsNotFresh(s0);
    if !IsApplied(b, s0, Outcome(races, steps)) {
      EqualImagesLeaveRam(b, races, steps);
      StaysPlain(b, races, steps, |steps| - 1);
    }
    hide IsSwitch, IsFresh, Outcome, Tracked, HitWithin, EarlyHitWithin, SameExcept, Holds, Incoming, Load;
  }

  lemma PlainOutcome(b: Build, races: seq<Race>, steps: seq<Step>)
    requires IsSwitch(b, races, steps) && Unedited(steps)
    ensures Plain(b, races[0].s, EarlyHitWithin(races, steps, |steps|), Outcome(races, steps), races[|steps|])
    ensures Outcome(races, steps).hit.Some? <==> HitWithin(races, steps, |steps|)
  {
    StaysPlain(b, races, steps, |steps|);
    HitIff(races, steps, |steps|);
  }

  /**
   ... and a new file and RAM get factory defaults if and only if no persist comes between the
   erasing of the mirror and the setting of the defaults, or they were those of the aircraft
   being left.
   */
  lemma UneditedNewFileIff(b: Build, races: seq<Race>, steps: seq<Step>)
    requires IsSwitch(b, races, steps) && Unedited(steps) && IsFresh(races[0].s)
    ensures var s0, s, early := races[0].s, races[|steps|].s, EarlyHitWithin(races, steps, |steps|);
            && Old(s0) in s.files && s.files[Old(s0)] == Stored(s0.ram)
            && New(s0) in s.files && (s.files[New(s0)] == Stored(b.factory) <==> !early || s0.ram == b.factory)
            && (s.ram.user == b.factory.user <==> !early || s0.ram.user == b.factory.user)
  {
    PlainOutcome(b, races, steps);
    SwitchOutcome(b, races, steps);
    NewFileGetsDefaultsIff(b, races, steps);
    hide IsSwitch, IsFresh, Outcome, HitWithin, EarlyHitWithin, SameExcept, Holds, Incoming, Load, Pinned;
  }
}
