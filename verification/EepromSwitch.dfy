/**
 Switching between aircraft: one EEPROM file per aircraft, requests that are only noted
 when they arrive, and applied between two steps in the order flush, switch, load.

 The firmware's own storage is represented by what it is known to do: writeEEPROM()
 stores RAM into the flash mirror and into the open file (or the file named by the
 environment when none is open), configUnlock() opens the file named by the environment
 and reads it into the mirror (or creates it from the mirror), configLock() writes the
 mirror back and closes, loadEEPROM() sets RAM from the mirror and falls back to factory
 defaults for an erased mirror.
 */
module EepromSwitch {
  import opened Common

  datatype Protocol = Pwm | OtherProtocol(id: nat)
  datatype Meter = Adc | OtherMeter(id: nat)

  /** The settings the LOCAL link owns. */
  datatype Pins = Pins(protocol: Protocol, dshotTelemetry: bool, rxUdp: bool, voltage: Meter, current: Meter)

  /** A configuration: the pinned settings and everything else. */
  datatype Config = Config(pins: Pins, user: seq<byte>)

  /** The content of the flash mirror or of an EEPROM file. */
  datatype Image = Erased | Stored(config: Config)

  const DEFAULT_FILE := "eeprom.bin"
  const PATH_LIMIT := 1024

  /** What stays fixed while the process runs. */
  datatype Build = Build(telemetry: bool, factory: Config, hash: Image -> int)

  datatype State = State(
    ram: Config,
    mirror: Image,
    files: map<string, Image>,
    env: string,                 // BF_SITL_EEPROM
    handle: Option<string>,      // the file the firmware holds open
    keepsHandle: bool,           // whether writeEEPROM() leaves an open file open (it may find nothing to write)
    pathPending: bool,
    pendingPath: string,
    reloadPending: bool,
    rebootPending: bool,
    resetPending: bool,
    writePending: bool,
    armed: bool)

  function FileOf(env: string): string {
    if env == "" then DEFAULT_FILE else env
  }

  function Pinned(b: Build, c: Config): Config {
    c.(pins := Pins(Pwm, b.telemetry, true, Adc, Adc))
  }

  function Load(b: Build, image: Image): Config {
    if image.Stored? then image.config else b.factory
  }

  // ---- the firmware's storage ----

  function Target(s: State): string {
    if s.handle.Some? then s.handle.value else FileOf(s.env)
  }

  function WriteEeprom(s: State): State {
    s.(mirror := Stored(s.ram), files := s.files[Target(s) := Stored(s.ram)],
       handle := if s.keepsHandle then s.handle else None)
  }

  function ConfigLock(s: State): State
    requires s.handle.Some?
  {
    s.(files := s.files[s.handle.value := s.mirror], handle := None)
  }

  function ConfigUnlock(s: State): State {
    if s.handle.Some? then s
    else if FileOf(s.env) in s.files then s.(mirror := s.files[FileOf(s.env)], handle := Some(FileOf(s.env)))
    else s.(files := s.files[FileOf(s.env) := s.mirror], handle := Some(FileOf(s.env)))
  }

  // ---- requests ----

  /** The path sitl_local_set_eeprom_path() notes: an empty one means the default under `appData`. */
  function Resolved(path: string, appData: Option<string>): string {
    if path != "" then path
    else if appData.Some? then appData.value + "\\Betaflight-SITL\\eeprom.bin" else ""
  }

  function SetPath(s: State, path: string, appData: Option<string>): State {
    if |path| >= PATH_LIMIT then s else s.(pendingPath := Resolved(path, appData), pathPending := true)
  }

  /** The immediate half of a firmware reboot disarms; the rest is queued. */
  function RequestReboot(s: State): State {
    s.(armed := false, rebootPending := true)
  }

  // ---- applying them ----

  function Flush(s: State): State {
    var t := WriteEeprom(s.(writePending := false));
    if t.handle.Some? then ConfigLock(t) else t
  }

  /** A requested file that does not exist yet is a new aircraft, unless the path is empty. */
  predicate IsFresh(s: State) {
    s.pathPending && s.pendingPath != "" && s.pendingPath !in s.files
  }

  function SwitchEnv(s: State): State {
    if s.pathPending then
      s.(pathPending := false, env := s.pendingPath, mirror := if IsFresh(s) then Erased else s.mirror)
    else s
  }

  /** From opening the selected file on; `newFile` and `pathSwitch` were decided before. */
  function LoadSelected(b: Build, s: State, newFile: bool, pathSwitch: bool, reread: bool): State {
    var t := ConfigUnlock(s);
    if !newFile && b.hash(t.mirror) == b.hash(s.mirror) then t else ApplySelected(b, t, newFile, reread || pathSwitch)
  }

  /** ensureEEPROMStructureIsValid(): an erased mirror becomes the factory defaults, in RAM and in the file. */
  function EnsureStructure(b: Build, s: State): State {
    if s.mirror.Erased? then WriteEeprom(s.(ram := b.factory)) else s
  }

  /** The selected image differs from the running one: defaults for a new file, values, pins. */
  function ApplySelected(b: Build, s: State, newFile: bool, loadValues: bool): State {
    var u := if newFile then EnsureStructure(b, s) else s;
    var v := if loadValues then u.(ram := Load(b, u.mirror)) else u;
    v.(ram := Pinned(b, v.ram))
  }

  /** localRunPendingReloadInternal() */
  function RunReload(b: Build, s: State, reread: bool): State {
    var flushed := Flush(s.(reloadPending := false));
    LoadSelected(b, SwitchEnv(flushed), IsFresh(flushed), flushed.pathPending, reread)
  }

  /** The deferred work at the start of sitl_local_step(). */
  function HostStep(b: Build, s: State): State {
    if s.rebootPending then
      if !s.armed then RunReload(b, s.(rebootPending := false), false) else s
    else if s.reloadPending || s.pathPending then RunReload(b, s, true)
    else s
  }

  /** The deferred writes of the MSP thread. */
  function MspPoll(s: State): State {
    var t := if s.resetPending then WriteEeprom(s.(resetPending := false)) else s;
    if t.writePending then WriteEeprom(t.(writePending := false)) else t
  }

  // ---- the code ----

  class LocalLink {
    const build: Build
    var ram: Config
    var mirror: Image
    var files: map<string, Image>
    var env: string
    var handle: Option<string>
    var keepsHandle: bool
    var pathPending: bool
    var pendingPath: string
    var reloadPending: bool
    var rebootPending: bool
    var resetPending: bool
    var writePending: bool
    var armed: bool

    constructor (build: Build, ram: Config, files: map<string, Image>, env: string)
      ensures this.build == build
      ensures View() == State(ram, Stored(ram), files, env, None, false, false, "", false, false, false, false, false)
    {
      this.build, this.ram, this.mirror, this.files, this.env := build, ram, Stored(ram), files, env;
      handle, keepsHandle, pathPending, pendingPath := None, false, false, "";
      reloadPending, rebootPending, resetPending, writePending, armed := false, false, false, false, false;
    }

    ghost function View(): State
      reads this
    {
      State(ram, mirror, files, env, handle, keepsHandle, pathPending, pendingPath,
            reloadPending, rebootPending, resetPending, writePending, armed)
    }

    method WriteEepromNow()
      modifies this`mirror, this`files, this`handle
      ensures View() == WriteEeprom(old(View()))
    {
      mirror := Stored(ram);
      files := files[if handle.Some? then handle.value else FileOf(env) := mirror];
      if !keepsHandle {
        handle := None;
      }
    }

    method Lock()
      requires handle.Some?
      modifies this`files, this`handle
      ensures View() == ConfigLock(old(View()))
    {
      files := files[handle.value := mirror];
      handle := None;
    }

    method Unlock()
      modifies this`mirror, this`files, this`handle
      ensures View() == ConfigUnlock(old(View()))
    {
      if handle.None? {
        if FileOf(env) in files {
          mirror := files[FileOf(env)];
        } else {
          files := files[FileOf(env) := mirror];
        }
        handle := Some(FileOf(env));
      }
    }

    /** sitl_local_set_eeprom_path() */
    method SetEepromPath(path: string, appData: Option<string>) returns (status: int)
      modifies this`pathPending, this`pendingPath
      ensures View() == SetPath(old(View()), path, appData)
      ensures |path| >= 1024 ==> status == -1 && View() == old(View())
      ensures |path| < 1024 ==> status == 0 && pathPending && (path != "" ==> pendingPath == path)
      ensures path == "" ==>
        pendingPath == if appData.Some? then appData.value + "\\Betaflight-SITL\\eeprom.bin" else ""
    {
      if |path| >= PATH_LIMIT {
        return -1;
      }
      var resolved := path;
      if path == "" {
        if appData.Some? {
          resolved := appData.value + "\\Betaflight-SITL\\eeprom.bin";
        }
      }
      pendingPath := resolved;
      pathPending := true;
      return 0;
    }

    /** localFlushEepromWrite() */
    method FlushEepromWrite()
      modifies this`mirror, this`files, this`handle, this`writePending
      ensures View() == Flush(old(View()))
    {
      writePending := false;
      WriteEepromNow();
      if handle.Some? {
        Lock();
      }
    }

    /** The middle of localRunPendingReloadInternal(): point the environment at the requested file. */
    method SwitchPath() returns (freshFile: bool, pathSwitch: bool)
      modifies this`mirror, this`env, this`pathPending
      ensures View() == SwitchEnv(old(View()))
      ensures freshFile == IsFresh(old(View())) && pathSwitch == old(pathPending)
    {
      freshFile, pathSwitch := false, false;
      if pathPending {
        pathPending := false;
        pathSwitch := true;
        freshFile := pendingPath != "" && pendingPath !in files;
        if freshFile {
          mirror := Erased;
        }
        env := pendingPath;
      }
    }

    /** The end of localRunPendingReloadInternal(): open the selected file and apply it if it differs. */
    method LoadSelectedFile(freshFile: bool, pathSwitch: bool, rereadEeprom: bool)
      modifies this`ram, this`mirror, this`files, this`handle
      ensures View() == LoadSelected(build, old(View()), freshFile, pathSwitch, rereadEeprom)
    {
      hide ConfigUnlock, ApplySelected;
      var runningHash := build.hash(mirror);
      Unlock();
      if !freshFile && build.hash(mirror) == runningHash {
        return;
      }
      ApplySelectedFile(freshFile, rereadEeprom || pathSwitch);
    }

    method EnsureStructureIsValid()
      modifies this`ram, this`mirror, this`files, this`handle
      ensures View() == EnsureStructure(build, old(View()))
    {
      hide WriteEeprom;
      if mirror.Erased? {
        ram := build.factory;
        WriteEepromNow();
      }
    }

    method ApplySelectedFile(freshFile: bool, loadValues: bool)
      modifies this`ram, this`mirror, this`files, this`handle
      ensures View() == ApplySelected(build, old(View()), freshFile, loadValues)
    {
      hide EnsureStructure, Pinned, Load;
      if freshFile {
        EnsureStructureIsValid();
      }
      if loadValues {
        ram := Load(build, mirror);
      }
      ram := Pinned(build, ram);
    }

    /** localRunPendingReloadInternal() */
    method RunPendingReload(rereadEeprom: bool)
      modifies this`ram, this`mirror, this`files, this`env, this`handle, this`pathPending, this`reloadPending, this`writePending
      ensures View() == RunReload(build, old(View()), rereadEeprom)
    {
      hide Flush, SwitchEnv, LoadSelected, IsFresh;
      reloadPending := false;
      FlushEepromWrite();
      var freshFile, pathSwitch := SwitchPath();
      LoadSelectedFile(freshFile, pathSwitch, rereadEeprom);
    }

    /** The reboot and reload gates of sitl_local_step(). */
    method Step()
      modifies this
      ensures View() == HostStep(build, old(View()))
    {
      hide RunReload;
      if rebootPending {
        if !armed {
          rebootPending := false;
          RunPendingReload(false);
        }
      } else if reloadPending || pathPending {
        RunPendingReload(true);
      }
    }

    /** The persist half of localMspThreadProc(). */
    method PollMspThread()
      modifies this`mirror, this`files, this`handle, this`resetPending, this`writePending
      ensures View() == MspPoll(old(View()))
    {
      if resetPending {
        resetPending := false;
        WriteEepromNow();
      }
      if writePending {
        writePending := false;
        WriteEepromNow();
      }
    }
  }

  // ---- every operation writes only to the selected aircraft's file ----

  /** An open file is the one the environment names. */
  ghost predicate Inv(s: State) {
    s.handle.Some? ==> s.handle.value == FileOf(s.env) && s.handle.value in s.files
  }

  ghost predicate SameExcept(a: map<string, Image>, b: map<string, Image>, p: string, q: string) {
    forall f | f != p && f != q :: (f in a <==> f in b) && (f in a ==> a[f] == b[f])
  }

  ghost predicate FileHolds(files: map<string, Image>, file: string, config: Config) {
    file in files && files[file] == Stored(config)
  }

  lemma FlushSavesSelected(s: State)
    requires Inv(s)
    ensures var t := Flush(s);
      && t == s.(writePending := false, mirror := Stored(s.ram), handle := None,
                 files := s.files[FileOf(s.env) := Stored(s.ram)])
  {
  }

  // ---- one reload in closed form ----

  function SavedFiles(s: State): map<string, Image> {
    s.files[FileOf(s.env) := Stored(s.ram)]
  }

  function SelectedPath(s: State): string {
    if s.pathPending then s.pendingPath else s.env
  }

  predicate SelectsNewFile(s: State) {
    s.pathPending && s.pendingPath != "" && s.pendingPath !in SavedFiles(s)
  }

  /** RAM after the selected file `image`, which existed, has been compared and applied. */
  function LoadedRam(b: Build, s: State, image: Image, reread: bool): Config {
    if b.hash(image) == b.hash(Stored(s.ram)) then s.ram
    else Pinned(b, if reread || s.pathPending then Load(b, image) else s.ram)
  }

  /**
   The file being left holds the RAM it is left with; then RAM is set from factory
   defaults if the selected file is new, from the selected file if that exists, and stays
   as it is if the selected file is the unnamed default and missing.
   */
  function AfterReload(b: Build, s: State, reread: bool): State {
    var saved, path := SavedFiles(s), SelectedPath(s);
    var file := FileOf(path);
    var t := s.(env := path, pathPending := false, reloadPending := false, writePending := false, handle := Some(file));
    if SelectsNewFile(s) then
      t.(files := saved[file := Stored(b.factory)], mirror := Stored(b.factory), ram := Pinned(b, b.factory),
         handle := if s.keepsHandle then Some(file) else None)
    else if file in saved then
      t.(files := saved, mirror := saved[file], ram := LoadedRam(b, s, saved[file], reread))
    else
      t.(files := saved[file := Stored(s.ram)], mirror := Stored(s.ram))
  }

  lemma LoadNewFile(b: Build, s: State, pathSwitch: bool, reread: bool)
    requires s.handle.None? && s.mirror == Erased && s.env != "" && s.env !in s.files && pathSwitch
    ensures LoadSelected(b, s, true, pathSwitch, reread)
         == s.(files := s.files[s.env := Stored(b.factory)], mirror := Stored(b.factory), ram := Pinned(b, b.factory),
               handle := if s.keepsHandle then Some(s.env) else None)
  {
    var t := ConfigUnlock(s);
    var u := WriteEeprom(t.(ram := b.factory));
    assert u.files == s.files[s.env := Stored(b.factory)];
  }

  lemma LoadExistingFile(b: Build, s: State, pathSwitch: bool, reread: bool)
    requires s.handle.None? && FileOf(s.env) in s.files && s.mirror == Stored(s.ram)
    ensures LoadSelected(b, s, false, pathSwitch, reread)
         == s.(mirror := s.files[FileOf(s.env)], handle := Some(FileOf(s.env)),
               ram := if b.hash(s.files[FileOf(s.env)]) == b.hash(Stored(s.ram)) then s.ram
                      else Pinned(b, if reread || pathSwitch then Load(b, s.files[FileOf(s.env)]) else s.ram))
  {
    hide FileOf, Pinned, Load;
  }

  lemma LoadMissingDefault(b: Build, s: State, pathSwitch: bool, reread: bool)
    requires s.handle.None? && FileOf(s.env) !in s.files && s.mirror == Stored(s.ram)
    ensures LoadSelected(b, s, false, pathSwitch, reread)
         == s.(files := s.files[FileOf(s.env) := Stored(s.ram)], handle := Some(FileOf(s.env)))
  {
    hide FileOf, Pinned, Load;
  }

  /** The sequence flush, switch, open, compare, load has this closed form. */
  lemma ReloadInClosedForm(b: Build, s: State, reread: bool)
    requires Inv(s)
    ensures RunReload(b, s, reread) == AfterReload(b, s, reread)
  {
    var r := s.(reloadPending := false);
    FlushSavesSelected(r);
    var flushed := Flush(r);
    var switched := SwitchEnv(flushed);
    assert IsFresh(flushed) == SelectsNewFile(s);
    hide Flush, LoadSelected, Pinned, Load;
    if IsFresh(flushed) {
      LoadNewFile(b, switched, true, reread);
    } else if FileOf(switched.env) in switched.files {
      LoadExistingFile(b, switched, flushed.pathPending, reread);
    } else {
      LoadMissingDefault(b, switched, flushed.pathPending, reread);
    }
  }

  lemma AfterReloadInv(b: Build, s: State, reread: bool)
    requires Inv(s)
    ensures Inv(AfterReload(b, s, reread))
    ensures AfterReload(b, s, reread).env == SelectedPath(s)
    ensures SameExcept(s.files, AfterReload(b, s, reread).files, FileOf(s.env), FileOf(SelectedPath(s)))
    ensures forall f | f in s.files :: f in AfterReload(b, s, reread).files
  {
    hide Pinned, Load, LoadedRam;
  }

  /**
   Without a change of path a reload or a reboot always stops at the identical-image
   check, whatever the hash function: RAM keeps its values, and the file now holds them.
   In particular an explicit reload never picks up a file edited from outside.
   */
  lemma NoPathChangeKeepsConfig(b: Build, s: State, reread: bool)
    requires Inv(s) && (s.pathPending ==> FileOf(s.pendingPath) == FileOf(s.env))
    ensures RunReload(b, s, reread).ram == s.ram
    ensures RunReload(b, s, reread).files == s.files[FileOf(s.env) := Stored(s.ram)]
  {
    ReloadInClosedForm(b, s, reread);
  }

  ghost predicate DoesSwitch(s: State) {
    s.pathPending && FileOf(s.pendingPath) != FileOf(s.env) && !(s.rebootPending && s.armed)
  }

  /** A step that switches does so the same way whether a reboot or a reload triggers it. */
  lemma SwitchingStep(b: Build, s: State)
    requires Inv(s) && DoesSwitch(s)
    ensures var t := AfterReload(b, s, true);
            HostStep(b, s) == t.(rebootPending := false)
  {
    hide FileOf, RunReload, Pinned, Load;
    if s.rebootPending {
      ReloadInClosedForm(b, s.(rebootPending := false), false);
    } else {
      ReloadInClosedForm(b, s, true);
    }
  }

  /** Switching away stores the running configuration in the old file and touches only the two files involved. */
  lemma SwitchKeepsTheOldAircraft(b: Build, s: State)
    requires Inv(s) && DoesSwitch(s)
    ensures HostStep(b, s).env == s.pendingPath && !HostStep(b, s).pathPending
    ensures FileOf(s.env) in HostStep(b, s).files && HostStep(b, s).files[FileOf(s.env)] == Stored(s.ram)
    ensures SameExcept(s.files, HostStep(b, s).files, FileOf(s.env), FileOf(s.pendingPath))
    ensures FileOf(s.pendingPath) in s.files ==>
              && FileOf(s.pendingPath) in HostStep(b, s).files
              && HostStep(b, s).files[FileOf(s.pendingPath)] == s.files[FileOf(s.pendingPath)]
  {
    SwitchingStep(b, s);
    hide HostStep, Pinned, Load, LoadedRam;
    AfterReloadInv(b, s, true);
    assert SelectsNewFile(s) ==> FileOf(s.pendingPath) == s.pendingPath;
  }

  /**
   Switching to a file that exists: RAM gets that file's values with the pins reapplied,
   except that the running configuration is kept as it is when the two images have the
   same hash. So RAM has the file's values exactly when the hashes differ or the values
   were the same anyway.
   */
  lemma SwitchLoadsTheNewAircraft(b: Build, s: State)
    requires Inv(s) && DoesSwitch(s) && FileOf(s.pendingPath) in s.files
    ensures var image, ram := s.files[FileOf(s.pendingPath)], HostStep(b, s).ram;
            var stored := if image.Stored? then image.config else b.factory;
            var same := b.hash(image) == b.hash(Stored(s.ram));
      && (same ==> ram == s.ram)
      && (!same ==> ram.pins == Pins(Pwm, b.telemetry, true, Adc, Adc) && ram.user == stored.user)
      && (ram.user == stored.user <==> !same || s.ram.user == stored.user)
  {
    SwitchingStep(b, s);
    hide HostStep;
    assert SelectsNewFile(s) ==> FileOf(s.pendingPath) == s.pendingPath;
  }

  lemma FileOfPath(path: string)
    ensures path != "" ==> FileOf(path) == path
    ensures path == "" ==> FileOf(path) == DEFAULT_FILE
  {
  }

  /** Switching to a new file: factory defaults, in RAM and in the file, ... */
  lemma SwitchToNewAircraft(b: Build, s: State)
    requires Inv(s) && DoesSwitch(s) && s.pendingPath != "" && FileOf(s.pendingPath) !in s.files
    ensures FileOf(s.pendingPath) in HostStep(b, s).files
    ensures HostStep(b, s).files[FileOf(s.pendingPath)] == Stored(b.factory)
    ensures HostStep(b, s).ram.pins == Pins(Pwm, b.telemetry, true, Adc, Adc) && HostStep(b, s).ram.user == b.factory.user
  {
    FileOfPath(s.pendingPath);
    SwitchingStep(b, s);
    hide HostStep, Load, LoadedRam, FileOf;
    assert SelectsNewFile(s);
  }

  /** ... unless the path is the empty one: then the default file, if missing, inherits the aircraft being left. */
  lemma SwitchToMissingDefaultInherits(b: Build, s: State)
    requires Inv(s) && DoesSwitch(s) && s.pendingPath == "" && "eeprom.bin" !in s.files
    ensures FileHolds(HostStep(b, s).files, "eeprom.bin", s.ram)
    ensures HostStep(b, s).ram == s.ram
  {
    FileOfPath(s.pendingPath);
    SwitchingStep(b, s);
    hide HostStep, Pinned, Load, LoadedRam, FileOf;
    assert !SelectsNewFile(s);
  }

  // ---- requests are served ----

  /** A step that may act serves every request: nothing stays pending and the running configuration is stored. */
  lemma StepServesRequests(b: Build, s: State)
    requires Inv(s) && !(s.rebootPending && s.armed)
    ensures var t := HostStep(b, s);
      && !t.rebootPending && !t.reloadPending && !t.pathPending
      && t.env == (if s.pathPending then s.pendingPath else s.env) && t.armed == s.armed
      && (s.rebootPending || s.reloadPending || s.pathPending ==>
            !t.writePending && FileOf(s.env) in t.files && t.files[FileOf(s.env)] == Stored(s.ram))
      && (!s.rebootPending && !s.reloadPending && !s.pathPending ==> t == s)
  {
    hide FileOf, RunReload, Load, LoadedRam;
    if s.rebootPending {
      ReloadInClosedForm(b, s.(rebootPending := false), false);
    } else if s.reloadPending || s.pathPending {
      ReloadInClosedForm(b, s, true);
    }
    FileOfPath(s.pendingPath);
  }

  /** The MSP thread's poll stores RAM if a reset or a persist was pending, and otherwise does nothing. */
  lemma PollStoresPending(s: State)
    requires Inv(s)
    ensures var t := MspPoll(s);
      && !t.resetPending && !t.writePending && t.ram == s.ram && t.env == s.env
      && (s.resetPending || s.writePending ==>
            && FileOf(s.env) in t.files && t.files[FileOf(s.env)] == Stored(s.ram) == t.mirror)
      && (!s.resetPending && !s.writePending ==> t == s)
  {
    hide FileOf;
  }

  // ---- runs ----

  datatype Op =
    | Edit(config: Config)          // configurator or CLI
    | Repin                         // localRepinOverrides()
    | Arm(armed: bool)
    | Streamer(keeps: bool)
    | PathRequest(path: string, appData: Option<string>)
    | ReloadRequest
    | RebootRequest
    | ResetRequest
    | WriteRequest
    | Poll
    | Host

  function Apply(b: Build, s: State, op: Op): State {
    match op
    case Edit(c) => s.(ram := c)
    case Repin => s.(ram := Pinned(b, s.ram))
    case Arm(a) => s.(armed := a)
    case Streamer(k) => s.(keepsHandle := k)
    case PathRequest(p, a) => SetPath(s, p, a)
    case ReloadRequest => s.(reloadPending := true)
    case RebootRequest => RequestReboot(s)
    case ResetRequest => s.(resetPending := true)
    case WriteRequest => s.(writePending := true)
    case Poll => MspPoll(s)
    case Host => HostStep(b, s)
  }

  /** A reboot disarms, so the next step applies it. */
  lemma RebootRequestIsServed(b: Build, s: State)
    requires Inv(s)
    ensures var t := HostStep(b, Apply(b, s, RebootRequest));
            !t.rebootPending && !t.armed && FileHolds(t.files, FileOf(s.env), s.ram)
  {
    hide HostStep, FileOf;
    StepServesRequests(b, Apply(b, s, RebootRequest));
  }

  /** A reload is applied by the next step, armed or not, unless a reboot waits for disarming. */
  lemma ReloadRequestIsServed(b: Build, s: State)
    requires Inv(s) && !(s.rebootPending && s.armed)
    ensures var t := HostStep(b, Apply(b, s, ReloadRequest));
            !t.reloadPending && FileHolds(t.files, FileOf(s.env), s.ram)
  {
    hide HostStep, FileOf;
    StepServesRequests(b, Apply(b, s, ReloadRequest));
  }

  /** A reset or a persist is written by the next poll. */
  lemma PersistRequestIsServed(b: Build, s: State, op: Op)
    requires Inv(s) && (op.ResetRequest? || op.WriteRequest?)
    ensures var t := MspPoll(Apply(b, s, op));
            !t.resetPending && !t.writePending && FileHolds(t.files, FileOf(s.env), s.ram)
  {
    hide MspPoll, FileOf, HostStep;
    PollStoresPending(Apply(b, s, op));
  }

  /** Re-pinning sets the settings the link owns, whatever was configured, and nothing else. */
  lemma RepinSetsPins(b: Build, s: State)
    ensures Apply(b, s, Repin) == s.(ram := Config(Pins(Pwm, b.telemetry, true, Adc, Adc), s.ram.user))
  {
  }

  lemma HostTouchesOnlySelected(b: Build, s: State)
    requires Inv(s)
    ensures Inv(HostStep(b, s))
    ensures SameExcept(s.files, HostStep(b, s).files, FileOf(s.env), FileOf(HostStep(b, s).env))
    ensures forall f | f in s.files :: f in HostStep(b, s).files
  {
    hide FileOf, RunReload, AfterReload;
    if s.rebootPending {
      ReloadInClosedForm(b, s.(rebootPending := false), false);
      AfterReloadInv(b, s.(rebootPending := false), false);
    } else {
      ReloadInClosedForm(b, s, true);
      AfterReloadInv(b, s, true);
    }
  }

  lemma WriteTouchesOnlySelected(s: State)
    requires Inv(s)
    ensures Inv(WriteEeprom(s)) && WriteEeprom(s).env == s.env
    ensures SameExcept(s.files, WriteEeprom(s).files, FileOf(s.env), FileOf(s.env))
    ensures forall f | f in s.files :: f in WriteEeprom(s).files
  {
    hide FileOf;
  }

  lemma PollTouchesOnlySelected(s: State)
    requires Inv(s)
    ensures Inv(MspPoll(s)) && MspPoll(s).env == s.env
    ensures SameExcept(s.files, MspPoll(s).files, FileOf(s.env), FileOf(s.env))
    ensures forall f | f in s.files :: f in MspPoll(s).files
  {
    hide FileOf, WriteEeprom;
    var t := if s.resetPending then WriteEeprom(s.(resetPending := false)) else s;
    WriteTouchesOnlySelected(s.(resetPending := false));
    WriteTouchesOnlySelected(t.(writePending := false));
  }

  /** Every operation writes at most to the files selected before and after it. */
  lemma OpTouchesOnlySelected(b: Build, s: State, op: Op)
    requires Inv(s)
    ensures Inv(Apply(b, s, op))
    ensures SameExcept(s.files, Apply(b, s, op).files, FileOf(s.env), FileOf(Apply(b, s, op).env))
    ensures forall f | f in s.files :: f in Apply(b, s, op).files
  {
    hide FileOf, HostStep, MspPoll, SetPath, Pinned;
    if op.Host? {
      HostTouchesOnlySelected(b, s);
    } else if op.Poll? {
      PollTouchesOnlySelected(s);
    } else {
      RequestTouchesNothing(b, s, op);
    }
  }

  lemma RequestTouchesNothing(b: Build, s: State, op: Op)
    requires !op.Host? && !op.Poll?
    ensures Apply(b, s, op).files == s.files && Apply(b, s, op).env == s.env && Apply(b, s, op).handle == s.handle
  {
    hide HostStep, MspPoll, SetPath, Pinned;
    match op
    case PathRequest(p, a) => PathRequestTouchesNothing(s, p, a);
    case _ =>
  }

  lemma PathRequestTouchesNothing(s: State, path: string, appData: Option<string>)
    ensures var t := SetPath(s, path, appData);
            t.files == s.files && t.env == s.env && t.handle == s.handle
  {
    hide Resolved;
  }

  ghost predicate IsRun(b: Build, states: seq<State>, ops: seq<Op>) {
    && |states| == |ops| + 1
    && Inv(states[0])
    && (forall i | 0 <= i < |ops| :: states[i + 1] == Apply(b, states[i], ops[i]))
  }

  lemma {:induction false} RunKeepsInv(b: Build, states: seq<State>, ops: seq<Op>, i: nat)
    requires IsRun(b, states, ops) && i <= |ops|
    ensures Inv(states[i])
  {
    if i > 0 {
      RunKeepsInv(b, states, ops, i - 1);
      hide Inv, Apply, SameExcept;
      assert states[i] == Apply(b, states[i - 1], ops[i - 1]);
      OpTouchesOnlySelected(b, states[i - 1], ops[i - 1]);
    }
  }

  /** While another aircraft is selected, whatever happens, a file keeps its content. */
  lemma {:induction false} UnselectedFileIsKept(b: Build, states: seq<State>, ops: seq<Op>, file: string, i: nat, j: nat)
    requires IsRun(b, states, ops) && i <= j <= |ops|
    requires file in states[i].files
    requires forall k | i <= k <= j :: FileOf(states[k].env) != file
    ensures file in states[j].files && states[j].files[file] == states[i].files[file]
  {
    if j > i {
      UnselectedFileIsKept(b, states, ops, file, i, j - 1);
      RunKeepsInv(b, states, ops, j - 1);
      hide Inv, Apply;
      assert states[j] == Apply(b, states[j - 1], ops[j - 1]);
      OpTouchesOnlySelected(b, states[j - 1], ops[j - 1]);
    }
  }

  /**
   Leave aircraft A, do anything at all with other aircraft (edits, saves, reboots, more
   switches), and come back: RAM has the values A was left with, pins reapplied, provided
   the hash does not confuse A's image with the one being left.
   */
  lemma ReturningRestoresTheAircraft(b: Build, states: seq<State>, ops: seq<Op>)
    requires IsRun(b, states, ops) && |ops| >= 2
    requires ops[0].Host? && DoesSwitch(states[0])
    requires ops[|ops| - 1].Host? && DoesSwitch(states[|ops| - 1])
    requires forall k | 1 <= k < |ops| :: FileOf(states[k].env) != FileOf(states[0].env)
    requires FileOf(states[|ops| - 1].pendingPath) == FileOf(states[0].env)
    requires b.hash(Stored(states[0].ram)) == b.hash(Stored(states[|ops| - 1].ram)) ==>
               states[0].ram == states[|ops| - 1].ram
    ensures states[|ops|].ram.user == states[0].ram.user
    ensures states[|ops|].ram.pins in {states[0].ram.pins, Pins(Pwm, b.telemetry, true, Adc, Adc)}
  {
    var last := |ops| - 1;
    assert states[1] == Apply(b, states[0], ops[0]) && states[last + 1] == Apply(b, states[last], ops[last]);
    SwitchKeepsTheOldAircraft(b, states[0]);
    UnselectedFileIsKept(b, states, ops, FileOf(states[0].env), 1, last);
    RunKeepsInv(b, states, ops, last);
    SwitchLoadsTheNewAircraft(b, states[last]);
  }

  // ---- reboots ----

  /** A pending reboot holds back everything while armed. */
  lemma ArmedStepAppliesNothing(b: Build, s: State)
    requires s.rebootPending && s.armed
    ensures HostStep(b, s) == s
  {
  }

  function RunAll(b: Build, s: State, ops: seq<Op>): State
    decreases |ops|
  {
    if ops == [] then s else Apply(b, RunAll(b, s, ops[..|ops| - 1]), ops[|ops| - 1])
  }

  /** The same operations without the host's steps. */
  function WithoutHost(ops: seq<Op>): seq<Op> {
    if ops == [] then []
    else WithoutHost(ops[..|ops| - 1]) + if ops[|ops| - 1].Host? then [] else [ops[|ops| - 1]]
  }

  /** Whenever the host steps, the craft is armed. */
  ghost predicate StepsOnlyArmed(b: Build, s: State, ops: seq<Op>) {
    forall k | 0 <= k < |ops| && ops[k].Host? :: RunAll(b, s, ops[..k]).armed
  }

  /**
   A reboot requested in flight waits, and holds back everything else: as long as the craft is
   armed at every step, the run is what it would be without any step, whatever is edited,
   requested or persisted meanwhile; the reboot is still pending and no aircraft is switched.
   */
  lemma {:induction false} ArmedStepsAreAsIfNotTaken(b: Build, s: State, ops: seq<Op>)
    requires s.rebootPending && StepsOnlyArmed(b, s, ops)
    ensures RunAll(b, s, ops) == RunAll(b, s, WithoutHost(ops))
    ensures RunAll(b, s, ops).rebootPending && RunAll(b, s, ops).env == s.env
    decreases |ops|
  {
    hide RunReload, WriteEeprom, SetPath;
    if ops != [] {
      var front, last := ops[..|ops| - 1], ops[|ops| - 1];
      forall k | 0 <= k < |front| && front[k].Host?
        ensures RunAll(b, s, front[..k]).armed
      {
        assert front[..k] == ops[..k] && ops[k].Host?;
      }
      ArmedStepsAreAsIfNotTaken(b, s, front);
      KeepsRebootAndEnv(b, RunAll(b, s, front), last);
      if last.Host? {
        assert ops[..|ops| - 1] == front && RunAll(b, s, ops[..|ops| - 1]).armed;
        ArmedStepAppliesNothing(b, RunAll(b, s, front));
        assert WithoutHost(front) + [] == WithoutHost(front);
      } else {
        assert (WithoutHost(front) + [last])[..|WithoutHost(front)|] == WithoutHost(front);
      }
    }
  }

  lemma KeepsRebootAndEnv(b: Build, s: State, op: Op)
    requires s.rebootPending && (op.Host? ==> s.armed)
    ensures Apply(b, s, op).rebootPending && Apply(b, s, op).env == s.env
  {
    hide RunReload, MspPoll, HostStep, Pinned;
    if op.Host? {
      ArmedStepAppliesNothing(b, s);
    } else if op.Poll? {
      PollKeepsRebootAndEnv(s);
    }
  }

  lemma PollKeepsRebootAndEnv(s: State)
    ensures MspPoll(s).rebootPending == s.rebootPending && MspPoll(s).env == s.env
  {
    hide WriteEeprom;
    WriteKeepsRebootAndEnv(s.(resetPending := false));
    var t := if s.resetPending then WriteEeprom(s.(resetPending := false)) else s;
    WriteKeepsRebootAndEnv(t.(writePending := false));
  }

  lemma WriteKeepsRebootAndEnv(s: State)
    ensures WriteEeprom(s).rebootPending == s.rebootPending && WriteEeprom(s).env == s.env
  {
  }

  lemma OnlyAnUnarmedStepClears(b: Build, s: State, op: Op)
    requires s.rebootPending && !Apply(b, s, op).rebootPending
    ensures op.Host? && !s.armed && Apply(b, s, op) == RunReload(b, s.(rebootPending := false), false)
  {
    hide RunReload;
  }

  /** A pending reboot is lost to nothing: between the request and the state that no longer has it there was a step taken unarmed. */
  lemma {:induction false} RebootIsNeverLost(b: Build, states: seq<State>, ops: seq<Op>, i: nat, j: nat)
    requires IsRun(b, states, ops) && i <= j <= |ops|
    requires states[i].rebootPending && !states[j].rebootPending
    ensures exists k :: i <= k < j && ops[k].Host? && !states[k].armed && states[k].rebootPending
                        && states[k + 1] == RunReload(b, states[k].(rebootPending := false), false)
  {
    hide RunReload, MspPoll, Inv, SetPath;
    assert states[j - 1 + 1] == Apply(b, states[j - 1], ops[j - 1]);
    if !states[j - 1].rebootPending {
      RebootIsNeverLost(b, states, ops, i, j - 1);
    } else {
      OnlyAnUnarmedStepClears(b, states[j - 1], ops[j - 1]);
    }
  }
}
