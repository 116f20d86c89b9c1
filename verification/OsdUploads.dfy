/**
 Uploads without a guard: in any run, exactly when a font that was flashed for an aircraft is
 saved in that aircraft's file with the glyphs that were sent.
 */
module OsdUploads {
  import opened Common
  import opened OsdGlyphs
  import opened OsdFont
  import opened OsdPersistence

  // ---- uploads and the aircraft they were flashed for ----

  predicate IsGlyph(step: Step) {
    step.WriteGlyph? && Cached(step.addr)
  }

  predicate IsFirst(step: Step) {
    step.WriteGlyph? && step.addr == 0
  }

  /** A load that finds a font and replaces the buffer. */
  ghost predicate Replaces(s: State, step: Step) {
    step.SyncLoad? && Changes(s, step)
  }

  /** Steps i to j - 1 hold everything since the last address 0. */
  ghost predicate IsUpload(steps: seq<Step>, i: nat, j: nat) {
    && i < j <= |steps|
    && IsFirst(steps[i])
    && forall k | i < k < j :: !IsFirst(steps[k])
  }

  /** No stored font replaces the buffer meanwhile. */
  ghost predicate Unreplaced(states: seq<State>, steps: seq<Step>, i: nat, j: nat)
    requires |states| == |steps| + 1 && i <= j <= |steps|
  {
    forall k | i <= k < j :: !Replaces(states[k], steps[k])
  }

  ghost predicate Continues(s: State, step: Step) {
    !IsFirst(step) && !Replaces(s, step)
  }

  /** Every glyph of the upload arrived while aircraft a was named. */
  ghost predicate FlashedFor(states: seq<State>, steps: seq<Step>, i: nat, j: nat, a: string)
    requires |states| == |steps| + 1 && i <= j <= |steps|
  {
    forall k | i <= k < j && IsGlyph(steps[k]) :: Named(states[k]) == a
  }

  /** Every glyph of the upload arrived while the named aircraft was the cached one. */
  ghost predicate InStep(states: seq<State>, steps: seq<Step>, i: nat, j: nat)
    requires |states| == |steps| + 1 && i <= j <= |steps|
  {
    forall k | i <= k < j && IsGlyph(steps[k]) :: Named(states[k]) == states[k].font.path
  }

  /** Address 0 has been written since the bitmap was last cleared. */
  ghost predicate HasFirst(s: State) {
    Valid(s) && Seen(s.font.seen, 0)
  }

  /** Once address 0 is unseen, only address 0 or a stored font brings it back. */
  lemma StaysUnseen(s: State, step: Step)
    requires Valid(s) && Enabled(s, step) && Continues(s, step) && !HasFirst(s)
    ensures !HasFirst(Apply(s, step))
  {
    hide Seen, Mark, Words, Patch, CountSeen, FontPath;
    NoneAndAllAt(0);
    if IsGlyph(step) {
      MarkedIsSeen(s.font.seen, step.addr, 0);
    }
  }

  /** A step of an upload keeps the cached path, or drops the upload. */
  lemma PathStays(s: State, step: Step)
    requires Valid(s) && Enabled(s, step) && Continues(s, step) && HasFirst(Apply(s, step))
    ensures Apply(s, step).font.path == s.font.path
  {
    hide Seen, Mark, Words, Patch, CountSeen, FontPath;
    NoneAndAllAt(0);
  }

  lemma {:induction false} UnseenUntil(states: seq<State>, steps: seq<Step>, k: nat, j: nat)
    requires IsRun(states, steps) && k <= j <= |steps|
    requires forall n | k <= n < j :: Continues(states[n], steps[n])
    requires !HasFirst(states[k])
    ensures !HasFirst(states[j])
  {
    hide HasFirst, Valid, Apply, Enabled, Continues;
    if k < j {
      UnseenUntil(states, steps, k, j - 1);
      assert IsStep(states, steps, j - 1);
      assert Continues(states[j - 1], steps[j - 1]);
      StaysUnseen(states[j - 1], steps[j - 1]);
    }
  }

  lemma NeitherContinues(s: State, step: Step)
    requires !IsFirst(step) && !Replaces(s, step)
    ensures Continues(s, step)
  {
  }

  /** The cached path does not move during an upload that is there at the end. */
  lemma {:induction false} PathIsConstant(states: seq<State>, steps: seq<Step>, i: nat, j: nat, k: nat)
    requires IsRun(states, steps) && IsUpload(steps, i, j) && Unreplaced(states, steps, i, j)
    requires i < k <= j && HasFirst(states[j])
    ensures states[k].font.path == states[j].font.path
    decreases j - k
  {
    hide HasFirst, Valid, Apply, Enabled, Continues, Replaces, IsFirst;
    if k < j {
      PathIsConstant(states, steps, i, j, k + 1);
      assert IsStep(states, steps, k);
      assert !IsFirst(steps[k]) && !Replaces(states[k], steps[k]);
      NeitherContinues(states[k], steps[k]);
      if !HasFirst(states[k + 1]) {
        forall n | k + 1 <= n < j
          ensures Continues(states[n], steps[n])
        {
          assert !IsFirst(steps[n]) && !Replaces(states[n], steps[n]);
          NeitherContinues(states[n], steps[n]);
        }
        UnseenUntil(states, steps, k + 1, j);
      }
      PathStays(states[k], steps[k]);
    }
  }

  lemma GlyphKeepsPath(s: State, step: Step)
    requires Valid(s) && Enabled(s, step) && step.WriteGlyph?
    ensures Apply(s, step).font.path == s.font.path
  {
    hide ValidFont, Seen, Mark, Words, Patch;
  }

  lemma CompleteHasAll(f: Font)
    requires ValidFont(f) && Complete(f)
    ensures Seen(f.seen, 0)
  {
    hide Seen;
    CountIsFullIff(f.seen, CHARS);
  }

  lemma {:induction false} ValidAt(states: seq<State>, steps: seq<Step>, n: nat)
    requires IsRun(states, steps) && n <= |steps|
    ensures Valid(states[n])
  {
    hide Valid, Apply, Enabled;
    if n > 0 {
      ValidAt(states, steps, n - 1);
      assert IsStep(states, steps, n - 1);
      StepKeepsValid(states[n - 1], steps[n - 1]);
    }
  }

  /** While no stored font replaces it, a completed upload has had one cached path from its first glyph on. */
  lemma UploadHasOnePath(states: seq<State>, steps: seq<Step>, i: nat, j: nat, k: nat)
    requires IsRun(states, steps) && IsUpload(steps, i, j) && Unreplaced(states, steps, i, j) && i <= k <= j
    requires Complete(states[j].font)
    ensures states[k].font.path == states[j].font.path
  {
    ValidAt(states, steps, j);
    CompleteHasAll(states[j].font);
    hide Valid, Apply, Enabled, Complete;
    if k == i {
      assert IsStep(states, steps, i);
      GlyphKeepsPath(states[i], steps[i]);
      PathIsConstant(states, steps, i, j, i + 1);
    } else {
      PathIsConstant(states, steps, i, j, k);
    }
  }

  // ---- what the buffer holds ----

  /** The last glyph sent to address a in steps i to n - 1. */
  function LastIn(steps: seq<Step>, i: nat, n: nat, a: nat): (g: Option<seq<byte>>)
    requires i <= n <= |steps|
    decreases n
  {
    if i == n then None
    else if IsGlyph(steps[n - 1]) && steps[n - 1].addr == a then Some(steps[n - 1].glyph)
    else LastIn(steps, i, n - 1, a)
  }

  /** The last step in i to n - 1 at which a stored font replaced the buffer. */
  ghost function LoadIn(states: seq<State>, steps: seq<Step>, i: nat, n: nat): (m: Option<nat>)
    requires i <= n <= |steps| && |states| == |steps| + 1
    ensures m.Some? ==> i <= m.value < n && Replaces(states[m.value], steps[m.value])
    ensures m.Some? ==> Unreplaced(states, steps, m.value + 1, n)
    ensures m.None? <==> Unreplaced(states, steps, i, n)
    decreases n
  {
    if i == n then None
    else if Replaces(states[n - 1], steps[n - 1]) then Some(n - 1)
    else LoadIn(states, steps, i, n - 1)
  }

  /** The font a load brings in. */
  ghost function Brought(s: State, step: Step): (f: seq<byte>)
    requires Replaces(s, step)
    ensures IsFont(f)
  {
    s.files[s.sync.from]
  }

  lemma BytesAfter(s: State, step: Step, a: nat)
    requires Valid(s) && Enabled(s, step) && a < CHARS && Valid(Apply(s, step))
    ensures Glyph(Apply(s, step).font.bytes, a) ==
            if IsGlyph(step) && step.addr == a then step.glyph
            else if Replaces(s, step) then Glyph(Brought(s, step), a)
            else Glyph(s.font.bytes, a)
  {
    hide Glyph, Patch, Seen, Mark, Words, CountSeen, FontPath;
    if IsGlyph(step) {
      PatchedGlyph(s.font.bytes, step.addr, step.glyph, a);
    }
  }

  /** From step i on, with no load: the last glyph sent, or what was there. */
  lemma {:induction false} GlyphSince(states: seq<State>, steps: seq<Step>, i: nat, n: nat, a: nat)
    requires IsRun(states, steps) && i <= n <= |steps| && Unreplaced(states, steps, i, n) && a < CHARS
    ensures Valid(states[i]) && Valid(states[n])
    ensures Glyph(states[n].font.bytes, a) ==
            if LastIn(steps, i, n, a).Some? then LastIn(steps, i, n, a).value else Glyph(states[i].font.bytes, a)
    decreases n
  {
    ValidAt(states, steps, i);
    ValidAt(states, steps, n);
    hide Glyph, Apply, Enabled, ValidFont;
    if i < n {
      assert !Replaces(states[n - 1], steps[n - 1]);
      GlyphSince(states, steps, i, n - 1, a);
      assert IsStep(states, steps, n - 1);
      BytesAfter(states[n - 1], steps[n - 1], a);
    }
  }

  /** Address a was sent in steps i to j - 1, and no font loaded after that took its place. */
  ghost predicate Arrives(states: seq<State>, steps: seq<Step>, i: nat, j: nat, a: nat)
    requires i <= j <= |steps| && |states| == |steps| + 1 && a < CHARS
  {
    var m := LoadIn(states, steps, i, j);
    && LastIn(steps, i, j, a).Some?
    && (m.Some? && LastIn(steps, m.value + 1, j, a).None? ==>
          Glyph(Brought(states[m.value], steps[m.value]), a) == LastIn(steps, i, j, a).value)
  }

  lemma {:induction false} LastInSuffix(steps: seq<Step>, i: nat, k: nat, n: nat, a: nat)
    requires i <= k <= n <= |steps| && LastIn(steps, k, n, a).Some?
    ensures LastIn(steps, i, n, a) == LastIn(steps, k, n, a)
    decreases n
  {
    if k < n && !(IsGlyph(steps[n - 1]) && steps[n - 1].addr == a) {
      LastInSuffix(steps, i, k, n - 1, a);
    }
  }

  lemma GlyphSinceLoad(states: seq<State>, steps: seq<Step>, m: nat, j: nat, a: nat)
    requires IsRun(states, steps) && m < j <= |steps| && Replaces(states[m], steps[m]) && a < CHARS
    requires Unreplaced(states, steps, m + 1, j)
    ensures Valid(states[j])
    ensures Glyph(states[j].font.bytes, a) ==
            if LastIn(steps, m + 1, j, a).Some? then LastIn(steps, m + 1, j, a).value
            else Glyph(Brought(states[m], steps[m]), a)
  {
    hide Glyph, IsStep, Valid, Replaces, LastIn, Unreplaced, Brought;
    GlyphSince(states, steps, m + 1, j, a);
    LoadBrings(states, steps, m, a);
    FontsAreValid(states[m + 1]);
    FontsAreValid(states[j]);
  }

  lemma FontsAreValid(s: State)
    requires Valid(s)
    ensures IsFont(s.font.bytes)
  {
    hide CountSeen;
  }

  lemma LoadBrings(states: seq<State>, steps: seq<Step>, m: nat, a: nat)
    requires IsRun(states, steps) && m < |steps| && Replaces(states[m], steps[m]) && a < CHARS
    ensures Valid(states[m + 1]) && Glyph(states[m + 1].font.bytes, a) == Glyph(Brought(states[m], steps[m]), a)
  {
    ValidAt(states, steps, m + 1);
    assert IsStep(states, steps, m);
    hide Glyph, ValidFont;
  }

  /** The buffer ends with the glyph sent to address a exactly when that arrives. */
  lemma GlyphArrivesIff(states: seq<State>, steps: seq<Step>, i: nat, j: nat, a: nat)
    requires IsRun(states, steps) && i <= j <= |steps| && a < CHARS
    ensures Valid(states[j])
    ensures LastIn(steps, i, j, a) == Some(Glyph(states[j].font.bytes, a)) <==> Arrives(states, steps, i, j, a)
  {
    hide Glyph, ValidFont, LastIn, Unreplaced, LoadIn, Replaces;
    var m := LoadIn(states, steps, i, j);
    if m.None? {
      GlyphSince(states, steps, i, j, a);
    } else {
      GlyphSinceLoad(states, steps, m.value, j, a);
      if LastIn(steps, m.value + 1, j, a).Some? {
        LastInSuffix(steps, i, m.value + 1, j, a);
      }
    }
  }

  // ---- where it is saved ----

  /** The last glyph of the upload. */
  function LastGlyph(steps: seq<Step>, i: nat, j: nat): (g: nat)
    requires i < j <= |steps| && IsGlyph(steps[i])
    ensures i <= g < j && IsGlyph(steps[g])
    ensures forall k | g < k < j :: !IsGlyph(steps[k])
    decreases j
  {
    if IsGlyph(steps[j - 1]) then j - 1 else LastGlyph(steps, i, j - 1)
  }

  lemma PendingSince(s: State, step: Step)
    requires Valid(s) && Enabled(s, step) && !IsGlyph(step) && Apply(s, step).font.pending
    ensures s.font.pending && Apply(s, step).font.path == s.font.path
  {
    hide ValidFont, FontPath, Words;
  }

  lemma {:induction false} PathSinceGlyph(states: seq<State>, steps: seq<Step>, g: nat, j: nat)
    requires IsRun(states, steps) && g < j <= |steps| && IsGlyph(steps[g]) && states[j].font.pending
    requires forall k | g < k < j :: !IsGlyph(steps[k])
    ensures states[j].font.path == states[g].font.path
    decreases j
  {
    ValidAt(states, steps, j - 1);
    assert IsStep(states, steps, j - 1);
    hide Valid, Apply, Enabled;
    if g == j - 1 {
      GlyphKeepsPath(states[g], steps[g]);
    } else {
      PendingSince(states[j - 1], steps[j - 1]);
      PathSinceGlyph(states, steps, g, j - 1);
    }
  }

  /** The font of the upload: every address holds the glyph last sent to it. */
  ghost predicate IsSent(font: seq<byte>, steps: seq<Step>, i: nat, j: nat)
    requires IsFont(font) && i <= j <= |steps|
  {
    forall a: nat | a < CHARS :: LastIn(steps, i, j, a) == Some(Glyph(font, a))
  }

  /** The named aircraft was the cached one when the upload's last glyph arrived. */
  ghost predicate EndsInStep(states: seq<State>, steps: seq<Step>, i: nat, j: nat)
    requires |states| == |steps| + 1 && i < j <= |steps| && IsGlyph(steps[i])
  {
    var g := LastGlyph(steps, i, j);
    Named(states[g]) == states[g].font.path
  }

  /**
   An upload flashed for aircraft a, in any run, with any saves, switches and loads before and
   during it, whose font waits to be saved: the next synchronisation saves it in a's file with
   the glyphs that were sent if and only if
   - the cached path had followed the EEPROM path when the last glyph arrived, and
   - every address was sent, and where a stored font was loaded after that, it holds the same
     glyph there.
   While no stored font is loaded, the path had then followed at every glyph since address 0.
   */
  lemma UploadReachesItsAircraftIff(states: seq<State>, steps: seq<Step>, i: nat, j: nat, a: string)
    requires IsRun(states, steps) && IsUpload(steps, i, j) && FlashedFor(states, steps, i, j, a) && a != ""
    requires states[j].sync == Idle && states[j].font.pending
    ensures Valid(states[j])
    ensures var s, saved := states[j], AfterSync(states[j], true).files;
            && saved == (if s.font.path != "" then s.files[s.font.path := s.font.bytes] else s.files)
            && (s.font.path == a && IsSent(s.font.bytes, steps, i, j) <==>
                EndsInStep(states, steps, i, j) && forall c: nat | c < CHARS :: Arrives(states, steps, i, j, c))
            && (s.font.path == a ==> a in saved && saved[a] == s.font.bytes)
            && (s.font.path != a ==> (a in saved <==> a in s.files) && (a in s.files ==> saved[a] == s.files[a]))
    ensures Unreplaced(states, steps, i, j) && Complete(states[j].font) ==>
            (EndsInStep(states, steps, i, j) <==> InStep(states, steps, i, j))
  {
    ValidAt(states, steps, j);
    SyncSavesUnderCachedPath(states[j]);
    var g := LastGlyph(steps, i, j);
    PathSinceGlyph(states, steps, g, j);
    hide IsRun, Valid, AfterSync, Complete, Named, Arrives, Unreplaced;
    forall c: nat | c < CHARS
      ensures LastIn(steps, i, j, c) == Some(Glyph(states[j].font.bytes, c)) <==> Arrives(states, steps, i, j, c)
    {
      GlyphArrivesIff(states, steps, i, j, c);
    }
    if Unreplaced(states, steps, i, j) && Complete(states[j].font) {
      forall k | i <= k < j && IsGlyph(steps[k])
        ensures states[k].font.path == states[j].font.path
      {
        UploadHasOnePath(states, steps, i, j, k);
      }
    }
  }

  /**
   How it fails between the lock and the load of a switch: an upload completed there is for the
   right aircraft and waits for its save, but the load puts the stored font in its place. What
   is then saved, and shown, is the stored font; the upload is nowhere.
   */
  lemma LoadReplacesCompletedUpload(s: State)
    requires Valid(s) && s.sync.Loading? && s.sync.from == s.font.path == Named(s) != ""
    requires s.font.pending && Complete(s.font) && Changes(s, SyncLoad)
    ensures var t := Apply(s, SyncLoad);
            && Valid(t) && t.sync == Idle
            && GetFont(t.font) == Some(s.files[s.font.path])
            && AfterSync(t, true).files == s.files
  {
    StepKeepsValid(s, SyncLoad);
    var t := Apply(s, SyncLoad);
    SyncSavesUnderCachedPath(t);
    hide FontPath, Words, CountSeen, ValidFont;
    assert s.files[s.font.path := s.files[s.font.path]] == s.files;
  }

  /** If only address 0 comes before the load, the next glyph completes and saves a mixture with the stored font. */
  lemma GlyphAfterLoadCompletesMixture(s: State, first: seq<byte>, addr: nat, glyph: seq<byte>)
    requires Valid(s) && s.sync.Loading? && s.sync.from == s.font.path == Named(s) != "" && !s.font.pending
    requires Changes(s, SyncLoad) && |first| == 54 && |glyph| == 54 && 0 < addr < CHARS
    ensures var t := Apply(s, WriteGlyph(0, first));
            && Valid(t) && t.sync == s.sync
            && var u := Apply(t, SyncLoad);
               Valid(u)
               && var v := Apply(u, WriteGlyph(addr, glyph));
                  && Valid(v) && v.sync == Idle && v.font.pending
                  && v.font.bytes == Patch(s.files[s.font.path], addr, glyph)
                  && AfterSync(v, true).files == s.files[s.font.path := v.font.bytes]
  {
    StepKeepsValid(s, WriteGlyph(0, first));
    var t := Apply(s, WriteGlyph(0, first));
    hide FontPath, CountSeen, Patch, Mark, Words, Seen;
    StepKeepsValid(t, SyncLoad);
    var u := Apply(t, SyncLoad);
    AllAreSeen(addr);
    StepKeepsValid(u, WriteGlyph(addr, glyph));
    SyncSavesUnderCachedPath(Apply(u, WriteGlyph(addr, glyph)));
  }

  lemma AllAreSeen(addr: nat)
    requires addr < CHARS
    ensures Seen(Words(ALL_BITS), addr)
  {
    NoneAndAllAt(addr);
  }

  /** The glyph that is missing for a complete font. */
  ghost predicate OneMissing(f: Font, addr: nat)
    requires ValidFont(f)
  {
    addr != 0 && Cached(addr) && f.count == CHARS - 1 && !Seen(f.seen, addr)
  }

  /**
   How the promise fails: the EEPROM path has moved to b, and the last glyph of an upload for
   b comes before the next synchronisation. That synchronisation writes the font over the
   file of the aircraft still cached, and b gets neither a file nor a font.
   */
  lemma UploadBeforeSyncOverwritesOther(s: State, addr: nat, glyph: seq<byte>)
    requires Valid(s) && s.sync == Idle && !s.font.pending && OneMissing(s.font, addr) && |glyph| == 54
    requires s.font.path != "" && Named(s) != s.font.path && Named(s) !in s.files
    ensures Enabled(s, WriteGlyph(addr, glyph)) && !Calm(s, WriteGlyph(addr, glyph))
    ensures var t := Apply(s, WriteGlyph(addr, glyph));
            && Valid(t)
            && AfterSync(t, true).files == s.files[s.font.path := t.font.bytes]
            && GetFont(AfterSync(t, true).font) == None
  {
    var step := WriteGlyph(addr, glyph);
    StepKeepsValid(s, step);
    hide FontPath, Seen, Mark, Patch, Words, CountSeen;
    SyncSavesUnderCachedPath(Apply(s, step));
  }

  // ---- without the guard ----

  ghost predicate AreWrites(writes: seq<(nat, seq<byte>)>) {
    forall i | 0 <= i < |writes| :: Cached(writes[i].0) && |writes[i].1| == 54
  }

  /** The buffer after further glyphs arrived. */
  function Overlay(font: seq<byte>, writes: seq<(nat, seq<byte>)>): (f: seq<byte>)
    requires IsFont(font) && AreWrites(writes)
    ensures IsFont(f)
    decreases |writes|
  {
    if writes == [] then font
    else
      var last := writes[|writes| - 1];
      Patch(Overlay(font, writes[..|writes| - 1]), last.0, last.1)
  }

  function AllWritten(f: Font, writes: seq<(nat, seq<byte>)>): (r: Font)
    requires IsFont(f.bytes) && |f.seen| == WORDS && AreWrites(writes)
    ensures IsFont(r.bytes) && |r.seen| == WORDS && r.path == f.path
    ensures r.bytes == Overlay(f.bytes, writes)
    ensures f.pending ==> r.pending
    decreases |writes|
  {
    if writes == [] then f
    else
      var last := writes[|writes| - 1];
      Written(AllWritten(f, writes[..|writes| - 1]), last.0, last.1)
  }

  /** The last glyph written to an address, if any. */
  function LastWrite(writes: seq<(nat, seq<byte>)>, addr: nat): (g: Option<seq<byte>>)
    decreases |writes|
  {
    if writes == [] then None
    else if writes[|writes| - 1].0 == addr then Some(writes[|writes| - 1].1)
    else LastWrite(writes[..|writes| - 1], addr)
  }

  lemma {:induction false} OverlayGlyph(font: seq<byte>, writes: seq<(nat, seq<byte>)>, a: nat)
    requires IsFont(font) && AreWrites(writes) && a < CHARS
    ensures Glyph(Overlay(font, writes), a) ==
            if LastWrite(writes, a).Some? then LastWrite(writes, a).value else Glyph(font, a)
    decreases |writes|
  {
    hide Glyph, Patch;
    if writes == [] {
    } else {
      var rest, last := writes[..|writes| - 1], writes[|writes| - 1];
      OverlayGlyph(font, rest, a);
      PatchedGlyph(Overlay(font, rest), last.0, last.1, a);
    }
  }

  /**
   What the disk gets when further glyphs arrive before the save of a completed font: it is
   that font if and only if every address written since ended with the glyph it already had.
   A new upload that has begun therefore puts a mixture on disk.
   */
  lemma SavedImageIsTheFontIff(s: State, writes: seq<(nat, seq<byte>)>)
    requires Valid(s) && s.sync == Idle && s.font.pending && s.font.path != "" && AreWrites(writes)
    ensures Plan(AllWritten(s.font, writes), s.eeprom).Saving?
    ensures Plan(AllWritten(s.font, writes), s.eeprom).to == s.font.path
    ensures Plan(AllWritten(s.font, writes), s.eeprom).image == s.font.bytes
      <==> forall a: nat | a < CHARS :: LastWrite(writes, a) in {None, Some(Glyph(s.font.bytes, a))}
  {
    hide FontPath, Glyph, AllWritten, Overlay, LastWrite;
    var after := AllWritten(s.font, writes);
    forall a: nat | a < CHARS
      ensures Glyph(after.bytes, a) == Glyph(s.font.bytes, a)
        <==> LastWrite(writes, a) in {None, Some(Glyph(s.font.bytes, a))}
    {
      OverlayGlyph(s.font.bytes, writes, a);
    }
    if forall a: nat | a < CHARS :: LastWrite(writes, a) in {None, Some(Glyph(s.font.bytes, a))} {
      GlyphsDetermineFont(after.bytes, s.font.bytes);
    }
  }
}
