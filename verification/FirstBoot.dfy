/**
 The first-boot marker and the update flags in the boot environment.

 The methods follow one boot step by step. Reads and writes of the environment may fail, a
 write that reports an error may still have happened, and power may be lost after every step.
 The runs then interleave boots with what the bootloader and omnect-device-service do.
 */
module FirstBoot {
  import opened Common

  datatype Key = ValidateUpdate | ValidateUpdateFailed | BootloaderUpdated

  datatype Env = Env(marker: bool, validate: bool, failed: bool, updated: bool) {
    predicate Has(key: Key) {
      match key
      case ValidateUpdate => validate
      case ValidateUpdateFailed => failed
      case BootloaderUpdated => updated
    }

    function With(key: Key, value: bool): Env {
      match key
      case ValidateUpdate => this.(validate := value)
      case ValidateUpdateFailed => this.(failed := value)
      case BootloaderUpdated => this.(updated := value)
    }

    predicate AfterUpdate() {
      validate || failed || updated
    }

    /** No later boot is taken for the first one. */
    predicate Safe() {
      marker || AfterUpdate()
    }
  }

  /** The environment as one boot sees it, with what failed in that boot. */
  class BootEnv {
    var env: Env
    ghost var readFaults: nat
    ghost var markerFaults: nat
    ghost var clearFaults: set<Key>
    ghost var powerLost: bool

    constructor (env: Env)
      ensures this.env == env && clearFaults == {} && !powerLost
    {
      this.env, clearFaults, powerLost := env, {}, false;
    }

    ghost function Faults(): (nat, nat, set<Key>, bool)
      reads this
    {
      (readFaults, markerFaults, clearFaults, powerLost)
    }

    method IsFirstBootDone() returns (r: Option<bool>)
      modifies this`readFaults
      ensures if r.Some? then r.value == env.marker && readFaults == old(readFaults)
              else readFaults == old(readFaults) + 1
    {
      var ok: bool := *;
      if !ok {
        readFaults := readFaults + 1;
        return None;
      }
      r := Some(env.marker);
    }

    method IsFlagSet(key: Key) returns (r: Option<bool>)
      modifies this`readFaults
      ensures if r.Some? then r.value == env.Has(key) && readFaults == old(readFaults)
              else readFaults == old(readFaults) + 1
    {
      var ok: bool := *;
      if !ok {
        readFaults := readFaults + 1;
        return None;
      }
      r := Some(env.Has(key));
    }

    method SetFirstBootDone() returns (ok: bool)
      modifies this`env, this`markerFaults
      ensures env == old(env) || env == old(env).(marker := true)
      ensures if ok then env.marker && markerFaults == old(markerFaults) else markerFaults == old(markerFaults) + 1
    {
      ok := *;
      var written: bool := *;
      if ok || written {
        env := env.(marker := true);
      }
      if !ok {
        markerFaults := markerFaults + 1;
      }
    }

    method ClearFlag(key: Key) returns (ok: bool)
      modifies this`env, this`clearFaults
      ensures env == old(env) || env == old(env).With(key, false)
      ensures ok ==> env == old(env).With(key, false)
      ensures clearFaults == old(clearFaults) + if ok then {} else {key}
    {
      ok := *;
      var written: bool := *;
      if ok || written {
        env := env.With(key, false);
      }
      if !ok {
        clearFaults := clearFaults + {key};
      }
    }

    method MayLosePower() returns (lost: bool)
      modifies this`powerLost
      ensures powerLost <==> lost || old(powerLost)
    {
      lost := *;
      if lost {
        powerLost := true;
      }
    }
  }

  /** All four keys must be known to be unset; a key that cannot be read is taken as set. */
  method DetectFirstBoot(bl: BootEnv?) returns (first: bool)
    modifies if bl == null then {} else {bl}
    ensures bl != null ==>
              && bl.env == old(bl.env) && bl.readFaults >= old(bl.readFaults)
              && bl.Faults() == old(bl.Faults()).(0 := bl.readFaults)
    ensures first ==> bl != null && !bl.env.Safe()
    ensures bl != null && bl.readFaults == old(bl.readFaults) ==> (first <==> !bl.env.Safe())
  {
    if bl == null {
      return false;
    }
    var done := bl.IsFirstBootDone();
    if done.None? || done.value {
      return false;
    }
    var keys := [ValidateUpdate, ValidateUpdateFailed, BootloaderUpdated];
    var k := 0;
    while k < |keys|
      invariant 0 <= k <= |keys|
      invariant bl.env == old(bl.env) && bl.Faults() == old(bl.Faults())
      invariant forall j :: 0 <= j < k ==> !bl.env.Has(keys[j])
    {
      var flag := bl.IsFlagSet(keys[k]);
      if flag.None? || flag.value {
        assert flag.Some? ==> bl.env.Has(keys[k]);
        return false;
      }
      k := k + 1;
    }
    assert !bl.env.Has(keys[0]) && !bl.env.Has(keys[1]) && !bl.env.Has(keys[2]);
    first := true;
  }

  /** A marker that is known to be set is left alone. It is not set afterwards only if its write failed. */
  method EnsureFirstBootMarker(bl: BootEnv) returns (markerSet: bool)
    modifies bl`env, bl`readFaults, bl`markerFaults
    ensures bl.env == old(bl.env) || bl.env == old(bl.env).(marker := true)
    ensures markerSet ==> bl.env.marker
    ensures bl.markerFaults == old(bl.markerFaults) + if markerSet then 0 else 1
    ensures old(bl.env).marker && bl.readFaults == old(bl.readFaults) ==> markerSet
    ensures bl.readFaults >= old(bl.readFaults)
  {
    var done := bl.IsFirstBootDone();
    if done == Some(true) {
      return true;
    }
    markerSet := bl.SetFirstBootDone();
  }

  method ClearUpdateFlag(bl: BootEnv, key: Key, markerSet: bool)
    modifies bl`env, bl`clearFaults
    ensures bl.env == old(bl.env) || (markerSet && bl.env == old(bl.env).With(key, false))
    ensures old(bl.clearFaults) <= bl.clearFaults <= old(bl.clearFaults) + {key}
    ensures markerSet && bl.env != old(bl.env).With(key, false) ==> key in bl.clearFaults
  {
    if markerSet {
      var ok := bl.ClearFlag(key);
    }
  }

  datatype ValidationError = ReadFailed | ConflictingUpdateFlags | TriggerFileFailed | PowerLost

  /** What a boot did about the update flags: the trigger file for ODS, and whether the marker is known to be set. */
  datatype Validation = Validation(trigger: bool, markerSet: bool)

  /** What update handling may do to the environment, wherever it stops. */
  ghost predicate Handled(before: Env, after: Env) {
    && after.validate == before.validate
    && (after.failed ==> before.failed) && (after.updated ==> before.updated)
    && (before.marker ==> after.marker)
    && (after.failed != before.failed || after.updated != before.updated ==> after.marker)
    && (after.marker && !before.marker ==> before.AfterUpdate())
  }

  /** The runtime directory of ODS, with the trigger files in it. */
  class OdsDir {
    var files: set<Key>
    ghost var faults: nat
  }

  method WriteTriggerFile(dir: OdsDir, key: Key, bl: BootEnv) returns (r: Option<ValidationError>)
    modifies dir, bl`powerLost
    ensures old(dir.files) <= dir.files <= old(dir.files) + {key}
    ensures dir.faults == old(dir.faults) + if r == Some(TriggerFileFailed) then 1 else 0
    ensures bl.powerLost <==> r == Some(PowerLost) || old(bl.powerLost)
    ensures r.None? ==> key in dir.files
    ensures r.Some? ==> r.value in {TriggerFileFailed, PowerLost}
  {
    var ok: bool := *;
    var created: bool := *;
    if ok || created {
      dir.files := dir.files + {key};
    }
    if !ok {
      dir.faults := dir.faults + 1;
      return Some(TriggerFileFailed);
    }
    var lost := bl.MayLosePower();
    r := if lost then Some(PowerLost) else None;
  }

  /** For a flag that nothing else resets: its file, then the clear. */
  method FileThenClear(dir: OdsDir, key: Key, bl: BootEnv, flag: bool, markerSet: bool)
    returns (r: Option<ValidationError>)
    requires flag == bl.env.Has(key) && !bl.powerLost
    modifies dir, bl`env, bl`clearFaults, bl`powerLost
    ensures bl.env == old(bl.env) || (flag && markerSet && key in dir.files && bl.env == old(bl.env).With(key, false))
    ensures old(dir.files) <= dir.files <= old(dir.files) + if flag then {key} else {}
    ensures old(bl.clearFaults) <= bl.clearFaults <= old(bl.clearFaults) + {key}
    ensures dir.faults == old(dir.faults) + if r == Some(TriggerFileFailed) then 1 else 0
    ensures bl.powerLost <==> r == Some(PowerLost)
    ensures r.Some? ==> r.value in {TriggerFileFailed, PowerLost}
    ensures r.None? ==> (flag ==> key in dir.files) && (markerSet && bl.env.Has(key) ==> key in bl.clearFaults)
  {
    if !flag {
      return None;
    }
    r := WriteTriggerFile(dir, key, bl);
    if r.None? {
      ClearUpdateFlag(bl, key, markerSet);
    }
  }

  /** What must have happened for update handling to stop. */
  twostate predicate Stopped(e: ValidationError, dir: OdsDir, bl: BootEnv)
    reads dir, bl
  {
    match e
    case ReadFailed => bl.readFaults > old(bl.readFaults)
    case ConflictingUpdateFlags => old(bl.env).validate && old(bl.env).failed && bl.env == old(bl.env)
    case TriggerFileFailed => dir.faults > old(dir.faults)
    case PowerLost => bl.powerLost
  }

  datatype Flags = Flags(validate: bool, failed: bool, updated: bool)

  function FlagsOf(env: Env): Flags {
    Flags(env.validate, env.failed, env.updated)
  }

  /** Both flags of a validation at once are an error. */
  method ReadFlags(bl: BootEnv) returns (r: Result<Flags, ValidationError>)
    modifies bl`readFaults
    ensures bl.readFaults >= old(bl.readFaults) && (r.Ok? ==> bl.readFaults == old(bl.readFaults))
    ensures r.Err? ==> if r.error == ReadFailed then bl.readFaults > old(bl.readFaults)
                       else r.error == ConflictingUpdateFlags && bl.env.validate && bl.env.failed
    ensures r.Ok? ==> r.value == FlagsOf(bl.env) && !(bl.env.validate && bl.env.failed)
  {
    var validate := bl.IsFlagSet(ValidateUpdate);
    if validate.None? {
      return Err(ReadFailed);
    }
    var failed := bl.IsFlagSet(ValidateUpdateFailed);
    if failed.None? {
      return Err(ReadFailed);
    }
    if validate.value && failed.value {
      return Err(ConflictingUpdateFlags);
    }
    var updated := bl.IsFlagSet(BootloaderUpdated);
    r := if updated.None? then Err(ReadFailed) else Ok(Flags(validate.value, failed.value, updated.value));
  }

  /** Only flags that are set get a file, and what was cleared is one of the two that nothing else resets. */
  ghost predicate FilesFirst(before: Env, after: Env, files: set<Key>, files': set<Key>) {
    && files <= files' && after.marker == before.marker && after.validate == before.validate
    && (after.failed ==> before.failed) && (after.updated ==> before.updated)
    && (before.failed && !after.failed ==> ValidateUpdateFailed in files')
    && (before.updated && !after.updated ==> BootloaderUpdated in files')
    && forall key :: key in files' && key !in files ==> before.Has(key)
  }

  ghost predicate AllFiled(env: Env, files: set<Key>) {
    && (env.validate ==> ValidateUpdate in files)
    && (env.failed ==> ValidateUpdateFailed in files)
    && (env.updated ==> BootloaderUpdated in files)
  }

  method WriteFiles(dir: OdsDir, bl: BootEnv, flags: Flags, markerSet: bool) returns (r: Option<ValidationError>)
    requires bl.clearFaults == {} && !bl.powerLost && flags == FlagsOf(bl.env)
    modifies dir, bl`env, bl`clearFaults, bl`powerLost
    ensures FilesFirst(old(bl.env), bl.env, old(dir.files), dir.files)
    ensures !markerSet ==> bl.env == old(bl.env)
    ensures bl.powerLost <==> r == Some(PowerLost)
    ensures dir.faults == old(dir.faults) + if r == Some(TriggerFileFailed) then 1 else 0
    ensures r.Some? ==> r.value in {PowerLost, TriggerFileFailed}
    ensures r.None? ==> AllFiled(old(bl.env), dir.files)
    ensures r.None? && markerSet ==>
              && (bl.env.failed ==> ValidateUpdateFailed in bl.clearFaults)
              && (bl.env.updated ==> BootloaderUpdated in bl.clearFaults)
  {
    if flags.validate {
      r := WriteTriggerFile(dir, ValidateUpdate, bl);
      if r.Some? {
        return;
      }
    }
    r := FileThenClear(dir, ValidateUpdateFailed, bl, flags.failed, markerSet);
    if r.Some? {
      return;
    }
    r := FileThenClear(dir, BootloaderUpdated, bl, flags.updated, markerSet);
  }

  /** The files for the flags that are set; a flag is cleared only behind its file, and only with the marker set. */
  method HandleUpdateValidation(dir: OdsDir, bl: BootEnv) returns (r: Result<Validation, ValidationError>)
    requires bl.clearFaults == {} && !bl.powerLost
    modifies dir, bl
    ensures Handled(old(bl.env), bl.env)
    ensures forall key :: old(bl.env).Has(key) && !bl.env.Has(key) ==> key in dir.files
    ensures forall key :: key in dir.files && key !in old(dir.files) ==> old(bl.env).Has(key)
    ensures r.Err? ==> Stopped(r.error, dir, bl)
    ensures old(bl.env).validate && old(bl.env).failed ==> r.Err?
    ensures r.Ok? ==>
              && (forall key :: old(bl.env).Has(key) ==> key in dir.files)
              && r.value.trigger == old(bl.env).validate && !bl.powerLost && dir.faults == old(dir.faults)
              && r.value.markerSet == (old(bl.env).AfterUpdate() && bl.markerFaults == old(bl.markerFaults))
              && (r.value.markerSet ==> bl.env.marker)
              && (forall key :: r.value.markerSet && key != ValidateUpdate && bl.env.Has(key) ==> key in bl.clearFaults)
    ensures bl.markerFaults >= old(bl.markerFaults) && bl.readFaults >= old(bl.readFaults)
    ensures dir.faults >= old(dir.faults)
    ensures bl.Faults() == old(bl.Faults()) && dir.faults == old(dir.faults) ==>
              if old(bl.env).validate && old(bl.env).failed
              then r == Err(ConflictingUpdateFlags) && bl.env == old(bl.env)
              else r.Ok? && bl.env == Env(old(bl.env).Safe(), old(bl.env).validate, false, false)
  {
    var pending := ReadFlags(bl);
    if pending.Err? {
      return Err(pending.error);
    }
    var flags := pending.value;
    var markerSet := false;
    if flags.validate || flags.failed || flags.updated {
      markerSet := EnsureFirstBootMarker(bl);
      var lost := bl.MayLosePower();
      if lost {
        return Err(PowerLost);
      }
    }
    var e := WriteFiles(dir, bl, flags, markerSet);
    r := if e.Some? then Err(e.value) else Ok(Validation(flags.validate, markerSet));
  }

  /** What a boot shows: the first-boot detection, and the system it started, if any. */
  datatype Report = Report(detected: bool, os: Option<Validation>)

  /**
   Everything one boot may do to the environment, with any faults, aborted anywhere. `markerFaults` of its writes of the
   marker failed.
   */
  ghost predicate BootStep(before: Env, report: Report, markerFaults: nat, after: Env) {
    && after.validate == before.validate
    && (after.failed ==> before.failed) && (after.updated ==> before.updated)
    && (before.marker ==> after.marker)
    && (after.failed != before.failed || after.updated != before.updated ==> after.marker)
    && (after.marker && !before.marker ==> before.AfterUpdate() || report.detected)
    && (report.detected ==> !before.Safe())
    && (report.os.Some? && report.os.value.trigger ==>
          before.validate && (if report.os.value.markerSet then after.marker else markerFaults > 0))
  }

  /**
   One boot. `firstStepsOk` tells whether the resize and the boot arguments succeeded; no
   environment means a degraded boot, which skips the update handling.
   */
  method Boot(dir: OdsDir, bl: BootEnv?, firstStepsOk: bool) returns (report: Report)
    requires dir.files == {} && (bl != null ==> bl.clearFaults == {} && !bl.powerLost)
    modifies dir, if bl == null then {} else {bl}
    ensures report.os.Some? ==> (report.os.value.trigger <==> ValidateUpdate in dir.files)
    ensures bl != null ==>
              && bl.markerFaults >= old(bl.markerFaults)
              && BootStep(old(bl.env), report, bl.markerFaults - old(bl.markerFaults), bl.env)
    ensures bl == null ==>
              && (forall env :: BootStep(env, report, 0, env))
              && !report.detected && (report.os.Some? ==> report.os.value == Validation(false, false))
    ensures bl != null && report.os.None? ==>
              || bl.powerLost || bl.readFaults > old(bl.readFaults) || dir.faults > old(dir.faults)
              || (old(bl.env).validate && old(bl.env).failed)
    ensures bl != null && report.os.Some? && bl.markerFaults == old(bl.markerFaults) ==>
              (old(bl.env).AfterUpdate() || (report.detected && firstStepsOk) ==> bl.env.marker)
    ensures bl != null && bl.Faults() == old(bl.Faults()) && dir.faults == old(dir.faults)
            && !(old(bl.env).validate && old(bl.env).failed) ==>
              && report.os.Some? && (report.detected <==> !old(bl.env).Safe())
              && bl.env == Env(old(bl.env).Safe() || firstStepsOk, old(bl.env).validate, false, false)
  {
    var detected := DetectFirstBoot(bl);
    if bl == null {
      var aborted: bool := *;
      return Report(false, if aborted then None else Some(Validation(false, false)));
    }
    // The setup steps, the mounts and the overlays, any of which may end the boot.
    var lost := bl.MayLosePower();
    if lost {
      return Report(detected, None);
    }
    var handled := HandleUpdateValidation(dir, bl);
    if handled.Err? {
      return Report(detected, None);
    }
    lost := bl.MayLosePower();
    if lost {
      return Report(detected, None);
    }
    if detected && firstStepsOk {
      var ok := bl.SetFirstBootDone();
    }
    lost := bl.MayLosePower();
    report := Report(detected, if lost then None else Some(handled.value));
  }

  // ---- runs ----

  /** `seen`: a flag was set at some time. `waived`: ODS confirmed an update whose boot could not set the marker. */
  datatype System = System(env: Env, os: Option<Validation>, seen: bool, waived: bool)

  datatype Event =
    | Booted(report: Report, markerFaults: nat)
    // An update, or the bootloader after one, sets a flag.
    | FlagSet(key: Key)
    // ODS clears omnect_validate_update after a validation for which it found the trigger file.
    | Validated
    // The bootloader clears omnect_validate_update after it set the failed flag.
    | RolledBack

  ghost predicate Next(s: System, event: Event, s': System) {
    match event
    case Booted(report, markerFaults) =>
      BootStep(s.env, report, markerFaults, s'.env) && s' == s.(env := s'.env, os := report.os)
    case FlagSet(key) =>
      s' == s.(env := s.env.With(key, true), seen := true)
    case Validated =>
      && s.os.Some? && s.os.value.trigger
      && var env := s.env.With(ValidateUpdate, false);
         s' == s.(env := env, waived := s.waived || (!s.os.value.markerSet && !env.Safe()))
    case RolledBack =>
      s.env.failed && s' == s.(env := s.env.With(ValidateUpdate, false))
  }

  ghost predicate Init(s: System) {
    !s.seen && !s.waived && s.os == None
  }

  ghost predicate IsRun(states: seq<System>, events: seq<Event>) {
    && |states| == |events| + 1 && Init(states[0])
    && forall i :: 0 <= i < |events| ==> Next(states[i], events[i], states[i + 1])
  }

  ghost predicate Inv(s: System) {
    && (s.seen && !s.waived ==> s.env.Safe())
    && (s.os.Some? && s.os.value.trigger && s.os.value.markerSet ==> s.env.marker)
  }

  lemma NextKeepsInv(s: System, event: Event, s': System)
    requires Inv(s) && Next(s, event, s')
    ensures Inv(s')
  {
  }

  /** Once an update flag has been set, no boot is a first boot, unless ODS confirmed an update without a marker. */
  lemma {:induction false} NoFirstBootAfterAnUpdate(states: seq<System>, events: seq<Event>, n: nat)
    requires IsRun(states, events) && n < |states|
    ensures Inv(states[n])
    ensures n < |events| && events[n].Booted? && states[n].seen && !states[n].waived ==> !events[n].report.detected
  {
    if n > 0 {
      NoFirstBootAfterAnUpdate(states, events, n - 1);
      NextKeepsInv(states[n - 1], events[n - 1], states[n]);
    }
    assert n < |events| ==> Next(states[n], events[n], states[n + 1]);
  }

  /** A boot for a validation that started the system although a write of the marker failed in it. */
  predicate MarkerWriteFailed(event: Event) {
    event.Booted? && event.markerFaults > 0 && event.report.os.Some? && event.report.os.value.trigger
  }

  /** The exception needs such a boot: a run is waived only if a validation boot of it failed to write the marker. */
  lemma {:induction false} WaivedOnlyAfterAMarkerFault(states: seq<System>, events: seq<Event>, n: nat)
    requires IsRun(states, events) && n < |states|
    ensures states[n].waived ==> exists i :: 0 <= i < n && MarkerWriteFailed(events[i])
    ensures states[n].os.Some? && states[n].os.value.trigger && !states[n].os.value.markerSet ==>
              exists i :: 0 <= i < n && MarkerWriteFailed(events[i])
  {
    if n > 0 {
      WaivedOnlyAfterAMarkerFault(states, events, n - 1);
      assert Next(states[n - 1], events[n - 1], states[n]);
    }
  }

  /** Without a failed marker write on a validation boot, the protocol has no exception. */
  lemma FlagsProtectEveryLaterBoot(states: seq<System>, events: seq<Event>, n: nat)
    requires IsRun(states, events) && n < |events|
    requires forall i :: 0 <= i < n ==> !MarkerWriteFailed(events[i])
    ensures states[n].seen ==> states[n].env.Safe() && (events[n].Booted? ==> !events[n].report.detected)
  {
    NoFirstBootAfterAnUpdate(states, events, n);
    WaivedOnlyAfterAMarkerFault(states, events, n);
  }

  /** The exception does happen: update, validation boot without marker, confirmation, and one more first boot. */
  lemma ConfirmedUpdateWithoutMarkerIsAFirstBootAgain() returns (states: seq<System>, events: seq<Event>)
    ensures IsRun(states, events) && |events| == 4
    ensures states[3].seen && events[3].Booted? && events[3].report.detected
    ensures exists i :: 0 <= i < 3 && MarkerWriteFailed(events[i])
  {
    var none := Env(false, false, false, false);
    var pending := none.(validate := true);
    var os := Some(Validation(true, false));
    events := [FlagSet(ValidateUpdate), Booted(Report(false, os), 1), Validated,
               Booted(Report(true, None), 0)];
    states := [System(none, None, false, false), System(pending, None, true, false), System(pending, os, true, false),
               System(none, os, true, true), System(none, None, true, true)];
    assert MarkerWriteFailed(events[1]);
  }

  lemma NextKeepsTheMarker(s: System, event: Event, s': System)
    requires Next(s, event, s') && s.env.marker
    ensures s'.env.marker && (event.Booted? ==> !event.report.detected)
  {
  }

  /** The marker is final: after it is set, no boot of any run is a first boot. */
  lemma {:induction false} MarkerIsFinal(states: seq<System>, events: seq<Event>, m: nat, n: nat)
    requires IsRun(states, events) && m <= n < |states|
    requires states[m].env.marker
    ensures states[n].env.marker
    ensures n < |events| && events[n].Booted? ==> !events[n].report.detected
  {
    hide Next;
    if m < n {
      MarkerIsFinal(states, events, m, n - 1);
      NextKeepsTheMarker(states[n - 1], events[n - 1], states[n]);
    }
    if n < |events| {
      NextKeepsTheMarker(states[n], events[n], states[n + 1]);
    }
  }
}
