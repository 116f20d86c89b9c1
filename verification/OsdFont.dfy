/**
 The captured OSD font as the host sees it. Glyphs arrive one at a time on the flight
 side; the host's getters first synchronise the cached font with the aircraft the EEPROM
 path points at. The synchronisation decides under the lock, but writes and reads the
 files after releasing it, so glyphs may arrive in between.
 */
module OsdFont {
  import opened Common
  import opened OsdGlyphs

  /** What the lock protects. */
  datatype Font = Font(bytes: seq<byte>, seen: seq<bv32>, count: nat, revision: nat, path: string, pending: bool)

  /** What a synchronisation still has to do after it released the lock. */
  datatype Sync =
    | Idle
    | Loading(from: string)
    | Saving(to: string, image: seq<byte>, next: Option<string>)

  datatype State = State(font: Font, sync: Sync, files: map<string, seq<byte>>, eeprom: string)

  datatype Step =
    | WriteGlyph(addr: nat, glyph: seq<byte>)
    | SetEeprom(path: string)
    | SyncLock
    | SyncSave(ok: bool)
    | SyncLoad

  ghost predicate ValidFont(f: Font) {
    && IsFont(f.bytes)
    && |f.seen| == WORDS
    && f.count == CountSeen(f.seen, CHARS)
  }

  ghost predicate Valid(s: State) {
    && ValidFont(s.font)
    && (s.sync.Saving? ==> IsFont(s.sync.image))
  }

  predicate Complete(f: Font) {
    f.count == CHARS
  }

  predicate Cached(addr: nat) {
    addr < CHARS
  }

  // ---- the operations ----

  /** wrapWriteFontCharacter(): address 0 starts a new font; the last missing glyph asks for a save. */
  function Written(f: Font, addr: nat, glyph: seq<byte>): Font
    requires IsFont(f.bytes) && |f.seen| == WORDS && Cached(addr) && |glyph| == 54
  {
    var seen0 := if addr == 0 then Words(NO_BITS) else f.seen;
    var count0 := if addr == 0 then 0 else f.count;
    var isNew := !Seen(seen0, addr);
    var count := if isNew then count0 + 1 else count0;
    Font(
      Patch(f.bytes, addr, glyph),
      if isNew then Mark(seen0, addr) else seen0,
      count,
      (f.revision + 1) % U32,
      f.path,
      f.pending || count == CHARS)
  }

  /** The locked part of osdFontSyncWithPath(). */
  function Locked(f: Font, eeprom: string): Font {
    var path := FontPath(eeprom);
    if path != f.path then
      f.(pending := false, path := path, seen := Words(NO_BITS), count := 0)
    else
      f.(pending := false)
  }

  /** What it leaves to be done outside the lock. */
  function Plan(f: Font, eeprom: string): Sync {
    var path := FontPath(eeprom);
    var next := if path != f.path && path != "" then Some(path) else None;
    if f.pending && f.path != "" then Saving(f.path, f.bytes, next) else Proceed(next)
  }

  function Proceed(next: Option<string>): Sync {
    if next.Some? then Loading(next.value) else Idle
  }

  /** osdFontLoadFile(): a missing file or one of another size is ignored. */
  function Loaded(f: Font, files: map<string, seq<byte>>, path: string): Font {
    if path in files && |files[path]| == FONT_BYTES then
      f.(bytes := files[path], seen := Words(ALL_BITS), count := CHARS, revision := (f.revision + 1) % U32)
    else f
  }

  /** osdFontWriteFile(): nothing is stored when the file cannot be opened. */
  function Saved(files: map<string, seq<byte>>, path: string, image: seq<byte>, ok: bool): map<string, seq<byte>> {
    if ok then files[path := image] else files
  }

  /** sitl_local_get_osd_font() after its synchronisation. */
  function GetFont(f: Font): Option<seq<byte>> {
    if Complete(f) then Some(f.bytes) else None
  }

  ghost predicate Enabled(s: State, step: Step) {
    match step
    case WriteGlyph(_, glyph) => |glyph| == 54
    case SetEeprom(_) => true
    case SyncLock => s.sync.Idle?
    case SyncSave(_) => s.sync.Saving?
    case SyncLoad => s.sync.Loading?
  }

  ghost function Apply(s: State, step: Step): State
    requires Valid(s) && Enabled(s, step)
  {
    match step
    case WriteGlyph(addr, glyph) =>
      if Cached(addr) then s.(font := Written(s.font, addr, glyph)) else s
    case SetEeprom(path) => s.(eeprom := path)
    case SyncLock =>
      s.(font := Locked(s.font, s.eeprom), sync := Plan(s.font, s.eeprom))
    case SyncSave(ok) =>
      s.(files := Saved(s.files, s.sync.to, s.sync.image, ok), sync := Proceed(s.sync.next))
    case SyncLoad =>
      s.(font := Loaded(s.font, s.files, s.sync.from), sync := Idle)
  }

  /** A whole synchronisation with no glyph arriving in between. */
  ghost function AfterSync(s: State, ok: bool): State
    requires Valid(s) && s.sync.Idle?
  {
    var locked := s.(font := Locked(s.font, s.eeprom), sync := Plan(s.font, s.eeprom));
    var saved := match locked.sync
      case Saving(to, image, next) => locked.(files := Saved(s.files, to, image, ok), sync := Proceed(next))
      case _ => locked;
    if saved.sync.Loading? then saved.(font := Loaded(saved.font, saved.files, saved.sync.from), sync := Idle) else saved
  }

  // ---- the counter counts the bitmap ----

  lemma EmptyIsValid(f: Font)
    requires IsFont(f.bytes) && f.seen == Words(NO_BITS) && f.count == 0
    ensures ValidFont(f)
  {
    hide CountSeen;
    NoneAndAllSeen(CHARS);
  }

  lemma WrittenIsValid(f: Font, addr: nat, glyph: seq<byte>)
    requires ValidFont(f) && Cached(addr) && |glyph| == 54
    ensures ValidFont(Written(f, addr, glyph))
  {
    hide Seen, Mark, CountSeen, Patch, Words;
    NoneAndAllSeen(CHARS);
    var seen0 := if addr == 0 then Words(NO_BITS) else f.seen;
    MarkAddsOne(seen0, addr, CHARS);
  }

  lemma LockedIsValid(f: Font, eeprom: string)
    requires ValidFont(f)
    ensures ValidFont(Locked(f, eeprom))
    ensures var p := Plan(f, eeprom); p.Saving? ==> IsFont(p.image)
  {
    hide CountSeen, Words, FontPath;
    NoneAndAllSeen(CHARS);
  }

  lemma LoadedIsValid(f: Font, files: map<string, seq<byte>>, path: string)
    requires ValidFont(f)
    ensures ValidFont(Loaded(f, files, path))
  {
    hide CountSeen, Words;
    NoneAndAllSeen(CHARS);
  }

  /** Every step keeps the counter equal to the number of bits set. */
  lemma StepKeepsValid(s: State, step: Step)
    requires Valid(s) && Enabled(s, step)
    ensures Valid(Apply(s, step))
  {
    hide ValidFont, Written, Locked, Plan, Loaded;
    match step
    case WriteGlyph(addr, glyph) =>
      if Cached(addr) {
        WrittenIsValid(s.font, addr, glyph);
      }
    case SetEeprom(_) =>
    case SyncLock => LockedIsValid(s.font, s.eeprom);
    case SyncSave(_) =>
    case SyncLoad => LoadedIsValid(s.font, s.files, s.sync.from);
  }

  /** An uninterrupted synchronisation is its locked part, the save if there is one, and the load if there is one. */
  lemma SyncIsItsSteps(s: State, ok: bool)
    requires Valid(s) && s.sync.Idle?
    ensures var locked := Apply(s, SyncLock);
            && Valid(locked)
            && var saved := if locked.sync.Saving? then Apply(locked, SyncSave(ok)) else locked;
               Valid(saved)
               && AfterSync(s, ok) == (if saved.sync.Loading? then Apply(saved, SyncLoad) else saved)
  {
    StepKeepsValid(s, SyncLock);
    var locked := Apply(s, SyncLock);
    if locked.sync.Saving? {
      StepKeepsValid(locked, SyncSave(ok));
    }
    hide ValidFont, FontPath, Words;
  }

  // ---- what the font means: a table of glyphs ----

  /** The glyphs a host may expect: those written since the last address 0, or the stored font. */
  type Glyphs = map<nat, seq<byte>>

  function StoredGlyphs(font: seq<byte>): Glyphs
    requires IsFont(font)
  {
    map a: nat | a < CHARS :: Glyph(font, a)
  }

  /** The same steps on the table: no bitmap, no counter, no buffer. */
  ghost function Expect(g: Glyphs, s: State, step: Step): Glyphs {
    match step
    case WriteGlyph(addr, glyph) =>
      if addr >= 256 then g else if addr == 0 then map[0 := glyph] else g[addr := glyph]
    case SetEeprom(_) => g
    case SyncLock => if FontPath(s.eeprom) != s.font.path then map[] else g
    case SyncSave(_) => g
    case SyncLoad =>
      if s.sync.Loading? && s.sync.from in s.files && IsFont(s.files[s.sync.from])
      then StoredGlyphs(s.files[s.sync.from]) else g
  }

  /** The buffer and bitmap represent the table. */
  ghost predicate Shows(f: Font, g: Glyphs)
    requires ValidFont(f)
  {
    forall a: nat :: ShowsAt(f, g, a)
  }

  ghost predicate ShowsAt(f: Font, g: Glyphs, a: nat)
    requires ValidFont(f)
  {
    && (a in g <==> a < CHARS && Seen(f.seen, a))
    && (a in g ==> Glyph(f.bytes, a) == g[a])
  }

  lemma WrittenShows(f: Font, g: Glyphs, addr: nat, glyph: seq<byte>, a: nat)
    requires ValidFont(f) && Shows(f, g) && Cached(addr) && |glyph| == 54
    requires ValidFont(Written(f, addr, glyph))
    ensures ShowsAt(Written(f, addr, glyph), if addr == 0 then map[0 := glyph] else g[addr := glyph], a)
  {
    hide Seen, Mark, CountSeen, Patch, Words, Glyph;
    assert ShowsAt(f, g, a);
    if a < CHARS {
      var seen0 := if addr == 0 then Words(NO_BITS) else f.seen;
      MarkedIsSeen(seen0, addr, a);
      PatchedGlyph(f.bytes, addr, glyph, a);
      NoneAndAllAt(a);
    }
  }

  /** One step on the buffer is one step on the table. */
  lemma StepRefinesTable(s: State, g: Glyphs, step: Step)
    requires Valid(s) && Enabled(s, step) && Shows(s.font, g)
    requires Valid(Apply(s, step))
    ensures Shows(Apply(s, step).font, Expect(g, s, step))
  {
    hide ValidFont, Seen, Glyph, Written, FontPath, CountSeen, Words, Plan;
    var t, h := Apply(s, step), Expect(g, s, step);
    forall a: nat
      ensures ShowsAt(t.font, h, a)
    {
      assert ShowsAt(s.font, g, a);
      match step
      case WriteGlyph(addr, glyph) =>
        if Cached(addr) {
          WrittenShows(s.font, g, addr, glyph, a);
        }
      case SetEeprom(_) =>
      case SyncLock =>
        if a < CHARS {
          NoneAndAllAt(a);
        }
      case SyncSave(_) =>
      case SyncLoad =>
        if a < CHARS {
          NoneAndAllAt(a);
        }
    }
  }

  /** The table a buffer and its bitmap stand for. */
  ghost function TableOf(f: Font): Glyphs
    requires ValidFont(f)
  {
    map a: nat | a < CHARS && Seen(f.seen, a) :: Glyph(f.bytes, a)
  }

  lemma TableIsShown(f: Font)
    requires ValidFont(f)
    ensures Shows(f, TableOf(f))
  {
    hide Seen, Glyph, CountSeen;
  }

  lemma ShownIsTable(f: Font, g: Glyphs)
    requires ValidFont(f) && Shows(f, g)
    ensures g == TableOf(f)
  {
    hide Seen, Glyph, CountSeen;
    forall a: nat
      ensures a in g <==> a in TableOf(f)
      ensures a in g ==> g[a] == TableOf(f)[a]
    {
      assert ShowsAt(f, g, a);
    }
  }

  /** All 256 characters are there. */
  ghost predicate IsFull(g: Glyphs) {
    forall a: nat | a < 256 :: a in g
  }

  lemma CompleteIsFull(f: Font, g: Glyphs)
    requires ValidFont(f) && Shows(f, g)
    ensures Complete(f) <==> IsFull(g)
  {
    hide Seen, Glyph, CountSeen;
    CountIsFullIff(f.seen, CHARS);
    forall a: nat | a < CHARS
      ensures a in g <==> Seen(f.seen, a)
    {
      assert ShowsAt(f, g, a);
    }
  }

  /** A glyph arrives and the table is full then. */
  ghost predicate Fills(s: State, step: Step)
    requires Valid(s)
  {
    step.WriteGlyph? && Cached(step.addr) && IsFull(Expect(TableOf(s.font), s, step))
  }

  // ---- runs ----

  ghost predicate IsRun(states: seq<State>, steps: seq<Step>) {
    && |states| == |steps| + 1
    && Valid(states[0])
    && forall i | 0 <= i < |steps| :: IsStep(states, steps, i)
  }

  ghost predicate IsStep(states: seq<State>, steps: seq<Step>, i: nat)
    requires i < |steps| && i + 1 < |states|
  {
    && Valid(states[i])
    && Enabled(states[i], steps[i])
    && states[i + 1] == Apply(states[i], steps[i])
  }

  /** The table after the first n steps. */
  ghost function TableAfter(states: seq<State>, steps: seq<Step>, n: nat): Glyphs
    requires n <= |steps| && n <= |states|
  {
    if n == 0 then map[] else Expect(TableAfter(states, steps, n - 1), states[n - 1], steps[n - 1])
  }

  lemma {:induction false} RunShowsTable(states: seq<State>, steps: seq<Step>, n: nat)
    requires IsRun(states, steps) && n <= |steps|
    requires Shows(states[0].font, map[])
    ensures Valid(states[n]) && Shows(states[n].font, TableAfter(states, steps, n))
  {
    hide Valid, Shows, Apply, Enabled, Expect;
    if n > 0 {
      RunShowsTable(states, steps, n - 1);
      assert IsStep(states, steps, n - 1);
      StepKeepsValid(states[n - 1], steps[n - 1]);
      StepRefinesTable(states[n - 1], TableAfter(states, steps, n - 1), steps[n - 1]);
    }
  }

  /**
   After any run of glyph writes, path changes, saves and loads, the getter returns a font
   exactly when all 256 glyphs were written since the last address-0 write (or came from
   the loaded file), and every glyph is then the one last written to its address.
   */
  lemma GetterReturnsExactlyTheGlyphs(states: seq<State>, steps: seq<Step>)
    requires IsRun(states, steps)
    requires Shows(states[0].font, map[])
    ensures Valid(states[|steps|])
    ensures var f, g := states[|steps|].font, TableAfter(states, steps, |steps|);
            && (GetFont(f).Some? <==> forall a: nat | a < CHARS :: a in g)
            && (GetFont(f).Some? ==> forall a: nat | a < CHARS :: a in g && Glyph(GetFont(f).value, a) == g[a])
  {
    RunShowsTable(states, steps, |steps|);
    hide IsRun, TableAfter, Seen, Glyph, CountSeen, IsStep;
    var f, g := states[|steps|].font, TableAfter(states, steps, |steps|);
    CountIsFullIff(f.seen, CHARS);
    forall a: nat | a < CHARS
      ensures a in g <==> Seen(f.seen, a)
    {
      assert ShowsAt(f, g, a);
    }
    forall a: nat | a < CHARS && a in g
      ensures Glyph(f.bytes, a) == g[a]
    {
      assert ShowsAt(f, g, a);
    }
  }

  // ---- what is saved: full tables and nothing else ----

  /** A font waits for its save exactly from a glyph that leaves the table full to the next synchronisation. */
  lemma WaitsSinceFull(s: State, step: Step)
    requires Valid(s) && Enabled(s, step)
    ensures Apply(s, step).font.pending <==> Fills(s, step) || (s.font.pending && !step.SyncLock?)
  {
    StepKeepsValid(s, step);
    TableIsShown(s.font);
    hide Valid, ValidFont, Shows, TableOf, Expect;
    if step.WriteGlyph? && Cached(step.addr) {
      StepRefinesTable(s, TableOf(s.font), step);
      CompleteIsFull(Apply(s, step).font, Expect(TableOf(s.font), s, step));
      WrittenWaitsIfComplete(s.font, step.addr, step.glyph);
    }
    hide FontPath, Words;
  }

  lemma WrittenWaitsIfComplete(f: Font, addr: nat, glyph: seq<byte>)
    requires IsFont(f.bytes) && |f.seen| == WORDS && Cached(addr) && |glyph| == 54
    ensures Written(f, addr, glyph).pending <==> f.pending || Complete(Written(f, addr, glyph))
  {
    hide Seen, Mark, Patch, Words;
  }

  /** As the process starts: no glyph yet, no path known, nothing under way. */
  ghost predicate IsNew(s: State) {
    && Valid(s) && s.sync == Idle
    && s.font.seen == Words(NO_BITS) && s.font.path == "" && !s.font.pending
  }

  lemma NewShowsNothing(s: State)
    requires IsNew(s)
    ensures Shows(s.font, map[])
  {
    hide Seen, Glyph, CountSeen, Words;
    forall a: nat
      ensures ShowsAt(s.font, map[], a)
    {
      if a < CHARS {
        NoneAndAllAt(a);
      }
    }
  }

  /** The glyph of step k leaves the table full. */
  ghost predicate FullAt(states: seq<State>, steps: seq<Step>, k: nat)
    requires k < |steps| && k < |states|
  {
    steps[k].WriteGlyph? && steps[k].addr < 256 && IsFull(TableAfter(states, steps, k + 1))
  }

  lemma FillsIsFullAt(states: seq<State>, steps: seq<Step>, k: nat)
    requires IsRun(states, steps) && k < |steps| && Shows(states[0].font, map[])
    ensures Valid(states[k]) && (Fills(states[k], steps[k]) <==> FullAt(states, steps, k))
  {
    hide Valid, Shows, TableOf, Expect, IsFull, IsStep;
    RunShowsTable(states, steps, k);
    ValidIsValidFont(states[k]);
    ShownIsTable(states[k].font, TableAfter(states, steps, k));
  }

  lemma ValidIsValidFont(s: State)
    requires Valid(s)
    ensures ValidFont(s.font)
  {
  }

  ghost predicate NothingWaits(s: State) {
    !s.font.pending && !s.sync.Saving?
  }

  lemma StepSavesNothing(s: State, step: Step)
    requires Valid(s) && Enabled(s, step) && NothingWaits(s) && !Fills(s, step)
    ensures NothingWaits(Apply(s, step)) && Apply(s, step).files == s.files
  {
    WaitsSinceFull(s, step);
    hide Valid, ValidFont, Fills, FontPath, Words, Written;
  }

  /**
   No file changes until a glyph has left all 256 characters in the table: an upload that is
   not complete, whatever was flashed, loaded or switched before, is never written to disk.
   */
  lemma {:induction false} OnlyFullTablesAreSaved(states: seq<State>, steps: seq<Step>, n: nat)
    requires IsRun(states, steps) && n <= |steps| && IsNew(states[0])
    requires forall k | 0 <= k < n :: !FullAt(states, steps, k)
    ensures states[n].files == states[0].files && NothingWaits(states[n])
  {
    hide Valid, Apply, Enabled, FullAt, NothingWaits, Fills;
    if n > 0 {
      OnlyFullTablesAreSaved(states, steps, n - 1);
      NewShowsNothing(states[0]);
      FillsIsFullAt(states, steps, n - 1);
      assert !FullAt(states, steps, n - 1);
      assert IsStep(states, steps, n - 1);
      StepSavesNothing(states[n - 1], steps[n - 1]);
    } else {
      NewWaitsForNothing(states[0]);
    }
  }

  lemma NewWaitsForNothing(s: State)
    requires IsNew(s)
    ensures NothingWaits(s)
  {
  }

  /** A glyph that leaves the table full makes the next synchronisation save all 256 glyphs under the cached path. */
  lemma FullTableIsSaved(s: State, step: Step)
    requires Valid(s) && Enabled(s, step) && s.sync == Idle && s.font.path != "" && Fills(s, step)
    ensures var t, g := Apply(s, step), Expect(TableOf(s.font), s, step);
      && Valid(t)
      && var files := AfterSync(t, true).files;
         && s.font.path in files && IsFont(files[s.font.path])
         && files == s.files[s.font.path := files[s.font.path]]
         && forall a: nat | a < 256 :: a in g && Glyph(files[s.font.path], a) == g[a]
  {
    WaitsSinceFull(s, step);
    StepKeepsValid(s, step);
    TableIsShown(s.font);
    StepRefinesTable(s, TableOf(s.font), step);
    var t, g := Apply(s, step), Expect(TableOf(s.font), s, step);
    hide Expect, Seen, Glyph, CountSeen, FontPath, Words, TableOf, Patch, Mark;
    forall a: nat | a < 256
      ensures a in g && Glyph(t.font.bytes, a) == g[a]
    {
      assert ShowsAt(t.font, g, a);
    }
  }

  // ---- what the revision tells the host ----

  /** The live font's bytes are written: by a glyph or by a load that found a font. */
  ghost predicate Changes(s: State, step: Step) {
    match step
    case WriteGlyph(addr, _) => Cached(addr)
    case SyncLoad => s.sync.Loading? && s.sync.from in s.files && |s.files[s.sync.from]| == FONT_BYTES
    case _ => false
  }

  ghost function ChangesBetween(states: seq<State>, steps: seq<Step>, i: nat, j: nat): nat
    requires i <= j <= |steps| && |states| == |steps| + 1
  {
    if i == j then 0 else ChangesBetween(states, steps, i, j - 1) + if Changes(states[j - 1], steps[j - 1]) then 1 else 0
  }

  lemma StepRevision(s: State, step: Step)
    requires Valid(s) && Enabled(s, step)
    ensures var t := Apply(s, step);
            if Changes(s, step) then t.font.revision == (s.font.revision + 1) % U32
            else
              && t.font.revision == s.font.revision && t.font.bytes == s.font.bytes
              && (Complete(t.font) ==> Complete(s.font) && t.font.path == s.font.path)
  {
    hide ValidFont, Words, Seen, Mark, Patch, FontPath;
  }

  /** Font t is font s after n changes. */
  ghost predicate ChangedBy(s: Font, t: Font, n: nat) {
    && t.revision == (s.revision + n) % U32
    && (n == 0 ==> t.bytes == s.bytes && (Complete(t) ==> Complete(s) && t.path == s.path))
  }

  lemma {:induction false} RevisionCountsChanges(states: seq<State>, steps: seq<Step>, i: nat, j: nat)
    requires IsRun(states, steps) && i <= j <= |steps| && states[i].font.revision < U32
    ensures ChangedBy(states[i].font, states[j].font, ChangesBetween(states, steps, i, j))
  {
    hide Valid, Apply, Enabled, Changes;
    if i < j {
      RevisionCountsChanges(states, steps, i, j - 1);
      assert IsStep(states, steps, j - 1);
      StepRevision(states[j - 1], steps[j - 1]);
      NextRevision(states[i].font.revision + ChangesBetween(states, steps, i, j - 1));
    } else {
      Unwrapped(states[i].font.revision, 0);
    }
    hide IsRun, IsStep, Complete;
  }

  lemma NextRevision(n: nat)
    ensures (n % U32 + 1) % U32 == (n + 1) % U32
  {
  }

  lemma Unwrapped(r: nat, n: nat)
    requires r < U32 && n < U32
    ensures (r + n) % U32 == r <==> n == 0
  {
  }

  /** sitl_local_get_osd_font_revision() after its synchronisation. */
  function GetRevision(f: Font): nat {
    if Complete(f) then f.revision else 0
  }

  /** While all 256 characters are there the revision is the number of glyphs and loads so far, and otherwise 0. */
  lemma RevisionIsNumberOfChanges(states: seq<State>, steps: seq<Step>, n: nat)
    requires IsRun(states, steps) && n <= |steps| && IsNew(states[0]) && states[0].font.revision == 0
    ensures GetRevision(states[n].font) ==
            if IsFull(TableAfter(states, steps, n)) then ChangesBetween(states, steps, 0, n) % 0x1_0000_0000 else 0
  {
    NewShowsNothing(states[0]);
    hide IsFull, IsRun, Valid, ChangesBetween, Complete, IsNew;
    RevisionCountsChanges(states, steps, 0, n);
    RunShowsTable(states, steps, n);
    ValidIsValidFont(states[n]);
    CompleteIsFull(states[n].font, TableAfter(states, steps, n));
  }

  /**
   A host may keep its copy while the revision it reads stays the same: as long as fewer
   than 2^32 glyphs and loads lie between, an unchanged revision that is not 0 means the
   same font of the same aircraft.
   */
  lemma SameRevisionMeansSameFont(states: seq<State>, steps: seq<Step>, i: nat, j: nat)
    requires IsRun(states, steps) && i <= j <= |steps| && states[i].font.revision < U32
    requires GetRevision(states[i].font) == GetRevision(states[j].font) != 0
    requires ChangesBetween(states, steps, i, j) < U32
    ensures GetFont(states[i].font) == GetFont(states[j].font)
    ensures states[i].font.path == states[j].font.path
  {
    hide ChangedBy, GetRevision, GetFont, ChangesBetween;
    RevisionCountsChanges(states, steps, i, j);
    RevisionDecides(states[i].font, states[j].font, ChangesBetween(states, steps, i, j));
  }

  lemma RevisionDecides(s: Font, t: Font, n: nat)
    requires ChangedBy(s, t, n) && s.revision < U32 && n < U32
    requires GetRevision(s) == GetRevision(t) != 0
    ensures GetFont(s) == GetFont(t) && s.path == t.path
  {
    Unwrapped(s.revision, n);
  }
}
