/**
 Per-aircraft fonts: what every run of uploads, aircraft switches, saves and loads keeps.
 An upload belongs to the aircraft the EEPROM path names while its glyphs arrive.

 Glyphs can break the per-aircraft promise in three ways, and the runs here are guarded
 against those: a glyph that arrives after the EEPROM path has moved and before the next
 synchronisation has followed it, while a completed font still waits for its save, or while
 a switch is between its locked part and the load. A save the disk refuses concerns the one
 aircraft whose font it was; the runs keep a list of those.
 */
module OsdPersistence {
  import opened Common
  import opened OsdGlyphs
  import opened OsdFont

  /** The font file of the aircraft the EEPROM path names now. */
  function Named(s: State): string {
    FontPath(s.eeprom)
  }

  /** For every font path, the font its aircraft should have: stored at the start or flashed since. */
  type Wanted = map<string, seq<byte>>

  /** The synchronisation is between dropping one aircraft's font and loading the next one's. */
  predicate Swapping(sync: Sync) {
    sync.Loading? || (sync.Saving? && sync.next.Some?)
  }

  ghost predicate Calm(s: State, step: Step) {
    match step
    case WriteGlyph(addr, _) =>
      Cached(addr) ==> Named(s) == s.font.path && !s.font.pending && !Swapping(s.sync)
    case _ => true
  }

  /** A glyph that leaves all 256 characters in the table makes the font the wanted one of the aircraft named then. */
  ghost function Want(w: Wanted, s: State, step: Step): Wanted
    requires Valid(s) && Enabled(s, step)
  {
    if Fills(s, step) && Named(s) != "" then w[Named(s) := Apply(s, step).font.bytes] else w
  }

  /** The aircraft whose last font the disk refused. */
  type Refused = set<string>

  ghost function Refuse(r: Refused, s: State, step: Step): Refused {
    if step.SyncSave? && s.sync.Saving? then if step.ok then r - {s.sync.to} else r + {s.sync.to} else r
  }

  // ---- the invariant ----

  /** The path's wanted font is still on its way to the disk. */
  ghost predicate Awaiting(s: State, p: string) {
    || (s.font.pending && s.font.path == p && p != "")
    || (s.sync.Saving? && s.sync.to == p)
  }

  ghost predicate OnDisk(s: State, w: Wanted, p: string) {
    if p in w then p in s.files && s.files[p] == w[p] else p !in s.files
  }

  ghost predicate DiskKept(s: State, w: Wanted, r: Refused) {
    forall p: string :: !Awaiting(s, p) && p !in r ==> OnDisk(s, w, p)
  }

  /** The buffer holds the wanted font of aircraft p. */
  ghost predicate LiveIs(s: State, w: Wanted, p: string) {
    p in w && w[p] == s.font.bytes
  }

  /** A font a host could read is the wanted font of the current aircraft, and so is one that waits for its save. */
  ghost predicate LiveKept(s: State, w: Wanted, r: Refused) {
    var p := s.font.path;
    && (s.font.pending && p != "" ==> LiveIs(s, w, p))
    && (Complete(s.font) && p != "" && p !in r ==> LiveIs(s, w, p))
  }

  ghost predicate SyncKept(s: State, w: Wanted) {
    match s.sync
    case Idle => true
    case Loading(p) => p == s.font.path && p != "" && !s.font.pending
    case Saving(to, image, next) =>
      && to != "" && to in w
      && (!(s.font.pending && s.font.path == to) ==> w[to] == image)
      && (s.font.path == to && Complete(s.font) ==> LiveIs(s, w, to))
      && (next.Some? ==> next.value == s.font.path && next.value != "" && next.value != to && !s.font.pending)
  }

  ghost predicate Kept(s: State, w: Wanted, r: Refused) {
    DiskKept(s, w, r) && LiveKept(s, w, r) && SyncKept(s, w)
  }

  // ---- each kind of step ----

  lemma DiskAt(s: State, w: Wanted, r: Refused, p: string)
    requires DiskKept(s, w, r) && !Awaiting(s, p) && p !in r
    ensures OnDisk(s, w, p)
  {
  }

  lemma WriteKeeps(s: State, w: Wanted, r: Refused, addr: nat, glyph: seq<byte>)
    requires Valid(s) && Kept(s, w, r) && Enabled(s, WriteGlyph(addr, glyph)) && Calm(s, WriteGlyph(addr, glyph))
    ensures Kept(Apply(s, WriteGlyph(addr, glyph)), Want(w, s, WriteGlyph(addr, glyph)), r)
  {
    hide Seen, Mark, Words, Patch, CountSeen, ValidFont, FontPath;
    var step := WriteGlyph(addr, glyph);
    WaitsSinceFull(s, step);
    hide Fills;
    var t, v := Apply(s, step), Want(w, s, step);
    forall p: string | !Awaiting(t, p) && p !in r
      ensures OnDisk(t, v, p)
    {
      DiskAt(s, w, r, p);
    }
  }

  lemma LockKeeps(s: State, w: Wanted, r: Refused)
    requires Valid(s) && Kept(s, w, r) && Enabled(s, SyncLock)
    ensures Kept(Apply(s, SyncLock), w, r)
  {
    hide Seen, Words, CountSeen, ValidFont, FontPath;
    var t := Apply(s, SyncLock);
    forall p: string | !Awaiting(t, p) && p !in r
      ensures OnDisk(t, w, p)
    {
      DiskAt(s, w, r, p);
    }
  }

  lemma SaveKeeps(s: State, w: Wanted, r: Refused, ok: bool)
    requires Valid(s) && Kept(s, w, r) && Enabled(s, SyncSave(ok))
    ensures Kept(Apply(s, SyncSave(ok)), w, Refuse(r, s, SyncSave(ok)))
  {
    hide ValidFont;
    var t := Apply(s, SyncSave(ok));
    forall p: string | !Awaiting(t, p) && p !in Refuse(r, s, SyncSave(ok))
      ensures OnDisk(t, w, p)
    {
      if p != s.sync.to {
        DiskAt(s, w, r, p);
      }
    }
  }

  lemma LoadKeeps(s: State, w: Wanted, r: Refused)
    requires Valid(s) && Kept(s, w, r) && Enabled(s, SyncLoad)
    ensures Kept(Apply(s, SyncLoad), w, r)
  {
    hide ValidFont, Words;
    var t := Apply(s, SyncLoad);
    forall p: string | !Awaiting(t, p) && p !in r
      ensures OnDisk(t, w, p)
    {
      DiskAt(s, w, r, p);
    }
    if s.sync.from !in r {
      DiskAt(s, w, r, s.sync.from);
    }
  }

  /** One guarded step keeps every aircraft's font where it belongs. */
  lemma StepKeepsFonts(s: State, w: Wanted, r: Refused, step: Step)
    requires Valid(s) && Kept(s, w, r) && Enabled(s, step) && Calm(s, step)
    ensures Kept(Apply(s, step), Want(w, s, step), Refuse(r, s, step))
  {
    match step
    case WriteGlyph(addr, glyph) => WriteKeeps(s, w, r, addr, glyph);
    case SetEeprom(path) =>
      var t := Apply(s, step);
      forall p: string | !Awaiting(t, p) && p !in r
        ensures OnDisk(t, w, p)
      {
        DiskAt(s, w, r, p);
      }
    case SyncLock => LockKeeps(s, w, r);
    case SyncSave(ok) => SaveKeeps(s, w, r, ok);
    case SyncLoad => LoadKeeps(s, w, r);
  }

  // ---- runs ----

  ghost predicate IsCalmRun(states: seq<State>, steps: seq<Step>) {
    && IsRun(states, steps)
    && states[0].sync == Idle && states[0].font.path == "" && !states[0].font.pending
    && forall i | 0 <= i < |steps| :: Calm(states[i], steps[i])
  }

  /** The fonts the aircraft should have after n steps: the files at the start, then each completed upload. */
  ghost function WantedAfter(states: seq<State>, steps: seq<Step>, n: nat): Wanted
    requires IsRun(states, steps) && n <= |steps|
  {
    if n == 0 then states[0].files
    else
      assert IsStep(states, steps, n - 1);
      Want(WantedAfter(states, steps, n - 1), states[n - 1], steps[n - 1])
  }

  ghost function RefusedAfter(states: seq<State>, steps: seq<Step>, n: nat): Refused
    requires n <= |steps| && |states| == |steps| + 1
  {
    if n == 0 then {} else Refuse(RefusedAfter(states, steps, n - 1), states[n - 1], steps[n - 1])
  }

  lemma {:induction false} RunKeepsFonts(states: seq<State>, steps: seq<Step>, n: nat)
    requires IsCalmRun(states, steps) && n <= |steps|
    ensures Kept(states[n], WantedAfter(states, steps, n), RefusedAfter(states, steps, n))
  {
    hide Valid, Apply, Enabled, Want, Refuse;
    if n > 0 {
      RunKeepsFonts(states, steps, n - 1);
      assert IsStep(states, steps, n - 1);
      assert Calm(states[n - 1], steps[n - 1]);
      StepKeepsFonts(states[n - 1], WantedAfter(states, steps, n - 1), RefusedAfter(states, steps, n - 1), steps[n - 1]);
    } else {
      NewHasNoFont(states[0]);
      forall p: string
        ensures OnDisk(states[0], states[0].files, p)
      {
      }
    }
  }

  lemma NewHasNoFont(s: State)
    requires s.sync == Idle && s.font.path == "" && !s.font.pending
    ensures SyncKept(s, s.files) && LiveKept(s, s.files, {})
  {
  }

  /**
   Whatever happened before, a font the host can read at the end of a guarded run is the
   one flashed to (or stored for) the current aircraft, never another's; and once nothing
   waits to be saved, the disk holds for every aircraft exactly its own font. Only an aircraft
   whose last font the disk refused is excepted, until a later save succeeds.
   */
  lemma FontsStayWithTheirAircraft(states: seq<State>, steps: seq<Step>)
    requires IsCalmRun(states, steps)
    ensures var s, w, r := states[|steps|], WantedAfter(states, steps, |steps|), RefusedAfter(states, steps, |steps|);
            && (GetFont(s.font).Some? && s.font.path != "" && s.font.path !in r ==>
                  s.font.path in w && GetFont(s.font).value == w[s.font.path])
            && (s.sync.Idle? && !s.font.pending ==> forall p: string | p !in r :: OnDisk(s, w, p))
            && (s.sync.Idle? && !s.font.pending && r == {} ==> s.files == w)
  {
    RunKeepsFonts(states, steps, |steps|);
    var s, w, r := states[|steps|], WantedAfter(states, steps, |steps|), RefusedAfter(states, steps, |steps|);
    hide IsCalmRun, WantedAfter, RefusedAfter;
    if s.sync.Idle? && !s.font.pending {
      forall p: string | p !in r
        ensures OnDisk(s, w, p)
      {
        DiskAt(s, w, r, p);
      }
      if r == {} {
        DiskIsWanted(s, w);
      }
    }
  }

  lemma DiskIsWanted(s: State, w: Wanted)
    requires forall p: string :: OnDisk(s, w, p)
    ensures s.files == w
  {
    forall p: string
      ensures p in s.files <==> p in w
      ensures p in w ==> s.files[p] == w[p]
    {
      assert OnDisk(s, w, p);
    }
  }

  /**
   Switching aircraft: the next synchronisation gives the host exactly the new aircraft's
   wanted font, all 13824 bytes of it, or no font when it has none. Switching back to an
   aircraft therefore returns exactly what was last flashed to it. The save of the old
   aircraft's font may fail; what the disk refused before concerns only whom it was refused.
   */
  lemma SwitchGivesTheNewAircraftsFont(s: State, w: Wanted, r: Refused, ok: bool)
    requires Valid(s) && Kept(s, w, r) && s.sync == Idle
    requires Named(s) != s.font.path && Named(s) != "" && Named(s) !in r
    ensures var t, p := AfterSync(s, ok), Named(s);
            && t.font.path == p
            && GetFont(t.font) == (if p in w && |w[p]| == FONT_BYTES then Some(w[p]) else None)
            && (ok ==> forall q: string | q !in r :: OnDisk(t, w, q))
  {
    hide FontPath, ValidFont, Words, CountSeen, Seen;
    var t, p := AfterSync(s, ok), Named(s);
    DiskAt(s, w, r, p);
    forall q: string | ok && q !in r
      ensures OnDisk(t, w, q)
    {
      if !Awaiting(s, q) {
        DiskAt(s, w, r, q);
      }
    }
  }

  /**
   A synchronisation in closed form: nothing waits afterwards and the path followed is the
   named one; a waiting font has been saved under the path followed before; if the path moved,
   the table is the new aircraft's stored font, or empty when there is none of the right size.
   */
  lemma SyncInClosedForm(s: State, ok: bool)
    requires Valid(s) && s.sync == Idle
    ensures var t, p := AfterSync(s, ok), Named(s);
      && Valid(t) && t.sync == Idle && t.eeprom == s.eeprom && !t.font.pending && t.font.path == p
      && t.files == (if ok && s.font.pending && s.font.path != "" then s.files[s.font.path := s.font.bytes] else s.files)
      && TableOf(t.font) == (
           if p == s.font.path then TableOf(s.font)
           else if p != "" && p in t.files && IsFont(t.files[p]) then StoredGlyphs(t.files[p])
           else map[])
  {
    hide FontPath, Words, CountSeen, Seen, Glyph, TableOf, StoredGlyphs, ValidFont, AfterSync, Loaded;
    SyncIsItsSteps(s, ok);
    LockedTable(s);
    var locked := Apply(s, SyncLock);
    var saved := if locked.sync.Saving? then Apply(locked, SyncSave(ok)) else locked;
    if saved.sync.Loading? {
      LoadedTable(saved);
    }
  }

  lemma LockedTable(s: State)
    requires Valid(s) && s.sync == Idle
    ensures var t := Apply(s, SyncLock);
            Valid(t) && TableOf(t.font) == if Named(s) == s.font.path then TableOf(s.font) else map[]
  {
    StepKeepsValid(s, SyncLock);
    TableIsShown(s.font);
    StepRefinesTable(s, TableOf(s.font), SyncLock);
    hide FontPath, Words, CountSeen, Seen, Glyph, TableOf, Plan, Shows;
    ShownIsTable(Apply(s, SyncLock).font, if Named(s) == s.font.path then TableOf(s.font) else map[]);
  }

  lemma LoadedTable(s: State)
    requires Valid(s) && s.sync.Loading?
    ensures var t, from := Apply(s, SyncLoad), s.sync.from;
            Valid(t) && t.font.path == s.font.path && t.font.pending == s.font.pending && TableOf(t.font) ==
              if from in s.files && IsFont(s.files[from]) then StoredGlyphs(s.files[from]) else TableOf(s.font)
  {
    StepKeepsValid(s, SyncLoad);
    TableIsShown(s.font);
    StepRefinesTable(s, TableOf(s.font), SyncLoad);
    hide FontPath, Words, CountSeen, Seen, Glyph, TableOf, Plan, Shows, StoredGlyphs;
    ShownIsTable(Apply(s, SyncLoad).font, Expect(TableOf(s.font), s, SyncLoad));
  }

  /** A refused save is not tried again: the next synchronisation writes nothing, and the font is on no disk. */
  lemma RefusedSaveIsNotRepeated(s: State)
    requires Valid(s) && s.sync == Idle && s.font.pending && Named(s) == s.font.path != ""
    ensures var t := AfterSync(s, false);
            && t.files == s.files && t.sync == Idle && Valid(t)
            && AfterSync(t, true).files == s.files
            && GetFont(t.font) == GetFont(s.font)
  {
    hide FontPath, Words, CountSeen;
  }

  /** A completed font is saved under the cached path, if there is one, whatever path is named by then. */
  lemma SyncSavesUnderCachedPath(s: State)
    requires Valid(s) && s.sync == Idle && s.font.pending
    ensures AfterSync(s, true).files ==
            if s.font.path != "" then s.files[s.font.path := s.font.bytes] else s.files
  {
    hide FontPath, ValidFont;
  }

  /** Before the first synchronisation no path is known: a font flashed by then is dropped. */
  lemma FontFlashedBeforeFirstSyncIsDropped(s: State)
    requires Valid(s) && s.sync == Idle && s.font.pending
    requires s.font.path == "" && FontPath(s.eeprom) != "" && FontPath(s.eeprom) !in s.files
    ensures AfterSync(s, true).files == s.files && GetFont(AfterSync(s, true).font) == None
  {
    hide FontPath, ValidFont;
  }
}
