/**
 The factory reset: mount, back up, unmount, wipe, reformat, mount, restore, unmount. Any step may fail, and
 what was done is kept as a trace, so that the result can be compared with what happened.
 */
module FactoryReset {
  import opened Common
  import Text

  datatype Part = Factory | Etc | Data

  /** The components of a path. */
  type Path = seq<string>

  /** What a reset does on the way to a mounted system, and can fail at. */
  datatype Step =
    | Fsck(p: Part)
    | MountDevice(p: Part)
    | PrepareOverlay(p: Part, below: Path)
    | MountOverlay(p: Part)
    | PrepareBindSource(below: Path)
    | PrepareBindTarget(target: Path)
    | MountBind(below: Path, target: Path)

  datatype Error =
    | MountFailed(source: Path)
    | OverlayFailed(target: Path)
    | FsckFailed(device: Path)
    | UnmountFailed
    | InvalidConfig | MissingField | InvalidPreserve
    | BackupFailed | IoFailed
    | PartitionMissing

  /** An error and its text. */
  datatype Failed = Failed(error: Error, text: string)

  datatype ResetMode = Mode1 | Mode2 | Mode3

  datatype RestoreOutcome = Copied | MissingBackup | NotCopied(reason: string)

  datatype WipeKind = Random | Discard

  datatype Wipe = Wipe(kind: WipeKind, p: Part)

  /** What happened outside of the program. Where something failed, the text says why. */
  datatype Op =
    | Made(step: Step)
    | Mounted(path: Path)
    | Refused(step: Step, text: string)
    | Unmounted(path: Path, failure: Option<string>)
    | BackedUp(entry: string)
    | BackupRefused(failed: Failed)
    | Wiped(wipe: Wipe, failure: Option<string>)
    | Formatted(p: Part, ok: bool)
    | Restored(entry: string, outcome: RestoreOutcome)

  // ---- what a trace amounts to ----

  /** The mounts still in place, newest last; whether each unmount was of the newest; the last unmount that failed. */
  datatype Mounts = Mounts(mounted: seq<Path>, orderly: bool, leak: Option<string>) {
    predicate Clear() {
      mounted == [] && leak.None?
    }
  }

  /** `bases` are the mounts in place when something was backed up or restored; `notes` tell what was not restored. */
  datatype Copies = Copies(
    bases: set<seq<Path>>, backups: seq<string>, backupError: Option<Failed>,
    restores: seq<string>, notes: seq<string>, lastError: Option<string>)

  /**
   `careful`: nothing was wiped or formatted with a mount in place or behind an unmount that had failed, and nothing
   was wiped behind a mkfs.
   */
  datatype Damage = Damage(
    careful: bool, wipes: seq<Wipe>, wipeNotes: seq<string>,
    formats: seq<Part>, dataFailures: nat, etcFailures: nat)

  datatype RefusedStep = RefusedStep(step: Step, text: string)

  /** `steps` are those that worked, in order. */
  datatype Seen = Seen(mounts: Mounts, steps: seq<Step>, refused: seq<RefusedStep>, copies: Copies, damage: Damage)

  const NOTHING: Seen :=
    Seen(Mounts([], true, None), [], [], Copies({}, [], None, [], [], None), Damage(true, [], [], [], 0, 0))

  ghost function AfterUnmount(m: Mounts, path: Path, failure: Option<string>): Mounts {
    var leak := if failure.Some? then failure else m.leak;
    if m.mounted != [] && m.mounted[|m.mounted| - 1] == path
    then Mounts(m.mounted[..|m.mounted| - 1], m.orderly, leak)
    else Mounts(m.mounted, false, leak)
  }

  function TrimSlashes(s: string): (t: string)
    ensures |t| <= |s| && t == s[|s| - |t|..] && (t != "" ==> t[0] != '/')
    ensures forall i :: 0 <= i < |s| - |t| ==> s[i] == '/'
  {
    if s != "" && s[0] == '/' then TrimSlashes(s[1..]) else s
  }

  function RestoreNote(entry: string, outcome: RestoreOutcome): seq<string> {
    match outcome
    case Copied => []
    case MissingBackup => [TrimSlashes(entry) + ":missing-backup"]
    case NotCopied(_) => [TrimSlashes(entry) + ":restore"]
  }

  function RestoreError(entry: string, outcome: RestoreOutcome): Option<string> {
    match outcome
    case Copied => None
    case MissingBackup => Some("backup missing for " + entry)
    case NotCopied(reason) => Some(reason)
  }

  ghost function AfterRestore(c: Copies, base: seq<Path>, entry: string, outcome: RestoreOutcome): Copies {
    c.(restores := c.restores + [entry], bases := c.bases + {base}, notes := c.notes + RestoreNote(entry, outcome),
       lastError := if outcome.Copied? then c.lastError else RestoreError(entry, outcome))
  }

  function WipeNote(wipe: Wipe, failure: Option<string>): seq<string> {
    if failure.None? then [] else [PartName(wipe.p) + ": " + failure.value]
  }

  ghost function AfterWipe(d: Damage, clear: bool, wipe: Wipe, failure: Option<string>): Damage {
    d.(wipes := d.wipes + [wipe], wipeNotes := d.wipeNotes + WipeNote(wipe, failure),
       careful := d.careful && clear && d.formats == [])
  }

  ghost function AfterFormat(d: Damage, clear: bool, p: Part, ok: bool): Damage {
    d.(formats := d.formats + [p], careful := d.careful && clear,
       dataFailures := d.dataFailures + (if p == Data && !ok then 1 else 0),
       etcFailures := d.etcFailures + (if p == Etc && !ok then 1 else 0))
  }

  ghost function After(s: Seen, op: Op): Seen {
    match op
    case Made(step) => s.(steps := s.steps + [step])
    case Mounted(path) => s.(mounts := s.mounts.(mounted := s.mounts.mounted + [path]))
    case Refused(step, text) => s.(refused := s.refused + [RefusedStep(step, text)])
    case Unmounted(path, failure) => s.(mounts := AfterUnmount(s.mounts, path, failure))
    case BackedUp(entry) =>
      s.(copies := s.copies.(backups := s.copies.backups + [entry], bases := s.copies.bases + {s.mounts.mounted}))
    case BackupRefused(failed) => s.(copies := s.copies.(backupError := Some(failed)))
    case Wiped(wipe, failure) => s.(damage := AfterWipe(s.damage, s.mounts.Clear(), wipe, failure))
    case Formatted(p, ok) => s.(damage := AfterFormat(s.damage, s.mounts.Clear(), p, ok))
    case Restored(entry, outcome) => s.(copies := AfterRestore(s.copies, s.mounts.mounted, entry, outcome))
  }

  ghost function Observe(trace: seq<Op>): Seen {
    if trace == [] then NOTHING else After(Observe(trace[..|trace| - 1]), trace[|trace| - 1])
  }

  lemma ObserveOneMore(trace: seq<Op>, op: Op)
    ensures Observe(trace + [op]) == After(Observe(trace), op)
  {
    assert (trace + [op])[..|trace|] == trace;
  }

  predicate FailedUnmount(op: Op) { op.Unmounted? && op.failure.Some? }

  predicate FailedWipe(op: Op) { op.Wiped? && op.failure.Some? }

  predicate FailedRestore(op: Op) { op.Restored? && !op.outcome.Copied? }

  predicate Refusal(op: Op) { op.Refused? }

  predicate Destructive(op: Op) { op.Wiped? || op.Formatted? }

  ghost predicate Has(trace: seq<Op>, kind: Op -> bool) {
    exists op :: op in trace && kind(op)
  }

  lemma HasOneMore(trace: seq<Op>, op: Op, kind: Op -> bool)
    ensures Has(trace + [op], kind) <==> Has(trace, kind) || kind(op)
  {
    assert op in trace + [op];
    assert forall o :: o in trace + [op] <==> o in trace || o == op;
  }

  /** The destructive phase was entered. */
  ghost predicate Destroyed(d: Damage) {
    d.wipes != [] || d.formats != []
  }

  lemma FaultsOfOneOp(s: Seen, op: Op)
    ensures After(s, op).mounts.leak.Some? <==> s.mounts.leak.Some? || FailedUnmount(op)
    ensures After(s, op).damage.wipeNotes != [] <==> s.damage.wipeNotes != [] || FailedWipe(op)
    ensures After(s, op).copies.lastError.Some? <==> s.copies.lastError.Some? || FailedRestore(op)
    ensures After(s, op).refused != [] <==> s.refused != [] || Refusal(op)
    ensures Destroyed(After(s, op).damage) <==> Destroyed(s.damage) || Destructive(op)
  {
  }

  /** The faults of a summary are those of the trace. */
  lemma {:induction false} FaultsAreThoseOfTheTrace(trace: seq<Op>)
    ensures Observe(trace).mounts.leak.Some? <==> Has(trace, FailedUnmount)
    ensures Observe(trace).damage.wipeNotes != [] <==> Has(trace, FailedWipe)
    ensures Observe(trace).copies.lastError.Some? <==> Has(trace, FailedRestore)
    ensures Observe(trace).refused != [] <==> Has(trace, Refusal)
    ensures Destroyed(Observe(trace).damage) <==> Has(trace, Destructive)
  {
    if trace != [] {
      var before, op := trace[..|trace| - 1], trace[|trace| - 1];
      assert trace == before + [op];
      FaultsAreThoseOfTheTrace(before);
      hide Observe, Has, After, Destroyed, FailedUnmount, FailedWipe, FailedRestore, Refusal, Destructive;
      ObserveOneMore(before, op);
      FaultsOfOneOp(Observe(before), op);
      HasOneMore(before, op, FailedUnmount);
      HasOneMore(before, op, FailedWipe);
      HasOneMore(before, op, FailedRestore);
      HasOneMore(before, op, Refusal);
      HasOneMore(before, op, Destructive);
    }
  }

  lemma CarefulAfterOneOp(s: Seen, op: Op)
    ensures After(s, op).damage.careful ==> s.damage.careful && (Destructive(op) ==> s.mounts.Clear())
  {
  }

  /** At every wipe and every mkfs of a careful trace nothing was mounted and no unmount had failed. */
  lemma {:induction false} CarefulMeans(trace: seq<Op>, i: nat)
    requires Observe(trace).damage.careful && i < |trace| && Destructive(trace[i])
    ensures Observe(trace[..i]).mounts.Clear()
    decreases |trace|
  {
    var n := |trace| - 1;
    var before, op := trace[..n], trace[n];
    assert Observe(trace) == After(Observe(before), op);
    hide Observe, After;
    CarefulAfterOneOp(Observe(before), op);
    if i < n {
      assert before[..i] == trace[..i];
      CarefulMeans(before, i);
    }
  }

  ghost function MountsOf(trace: seq<Op>, path: Path): nat {
    if trace == [] then 0
    else MountsOf(trace[..|trace| - 1], path) + if trace[|trace| - 1] == Mounted(path) then 1 else 0
  }

  ghost function UnmountsOf(trace: seq<Op>, path: Path): nat {
    if trace == [] then 0
    else
      var last := trace[|trace| - 1];
      UnmountsOf(trace[..|trace| - 1], path) + if last.Unmounted? && last.path == path then 1 else 0
  }

  lemma MountsAfterOneOp(s: Seen, op: Op)
    ensures After(s, op).mounts.orderly ==>
              && s.mounts.orderly
              && (op.Unmounted? ==> s.mounts.mounted != [] && s.mounts.mounted[|s.mounts.mounted| - 1] == op.path)
    ensures After(s, op).mounts.orderly ==>
              After(s, op).mounts.mounted == match op
                                             case Mounted(path) => s.mounts.mounted + [path]
                                             case Unmounted(_, _) => s.mounts.mounted[..|s.mounts.mounted| - 1]
                                             case _ => s.mounts.mounted
  {
  }

  lemma CountAfterOneOp(s: Seen, op: Op, path: Path)
    requires After(s, op).mounts.orderly
    ensures s.mounts.orderly
    ensures multiset(After(s, op).mounts.mounted)[path] + (if op.Unmounted? && op.path == path then 1 else 0)
         == multiset(s.mounts.mounted)[path] + (if op == Mounted(path) then 1 else 0)
  {
    hide After;
    MountsAfterOneOp(s, op);
    var mounted := s.mounts.mounted;
    if op.Unmounted? {
      assert mounted == mounted[..|mounted| - 1] + [mounted[|mounted| - 1]];
    }
  }

  /** In an orderly trace every mount is unmounted once, except for those that are still mounted. */
  lemma {:induction false} OneUnmountForEachMount(trace: seq<Op>, path: Path)
    requires Observe(trace).mounts.orderly
    ensures MountsOf(trace, path) == UnmountsOf(trace, path) + multiset(Observe(trace).mounts.mounted)[path]
  {
    if trace == [] {
      assert Observe(trace).mounts.mounted == [];
    } else {
      var before, op := trace[..|trace| - 1], trace[|trace| - 1];
      assert Observe(trace) == After(Observe(before), op);
      CountAfterOneOp(Observe(before), op, path);
      OneUnmountForEachMount(before, path);
    }
  }

  // ---- paths and errors ----

  const MNT_DATA: Path := ["mnt", "data"]
  const MNT_ETC: Path := ["mnt", "etc"]
  const MNT_FACTORY: Path := ["mnt", "factory"]

  function MountPoint(p: Part): Path {
    match p
    case Factory => MNT_FACTORY
    case Etc => MNT_ETC
    case Data => MNT_DATA
  }

  /** Where the overlay of a partition is mounted. */
  function OverlayTarget(p: Part): Path {
    if p == Etc then ["etc"] else ["home"]
  }

  type Layout = map<Part, Path>

  function ErrorOf(step: Step, layout: Layout, rootfs: Path): Error {
    match step
    case Fsck(p) => FsckFailed(if p in layout then layout[p] else [])
    case MountDevice(p) => MountFailed(if p in layout then layout[p] else [])
    case PrepareOverlay(p, below) => OverlayFailed(rootfs + MountPoint(p) + below)
    case MountOverlay(p) => OverlayFailed(rootfs + OverlayTarget(p))
    case PrepareBindSource(below) => OverlayFailed(rootfs + MNT_DATA + below)
    case PrepareBindTarget(target) => OverlayFailed(rootfs + target)
    case MountBind(below, _) => MountFailed(rootfs + MNT_DATA + below)
  }

  function ResolveFailedPartition(err: Error, rootfs: Path, dataDev: Path, etcDev: Path): Option<Part> {
    match err
    case MountFailed(source) =>
      if source == dataDev then Some(Data) else if source == etcDev then Some(Etc) else None
    case OverlayFailed(target) =>
      if rootfs + MNT_DATA <= target || target == rootfs + ["home"] then Some(Data)
      else if rootfs + MNT_ETC <= target || target == rootfs + ["etc"] then Some(Etc)
      else None
    case _ => None
  }

  /** The steps of a mount, with the partitions and directories that occur in it. */
  predicate IsMountStep(step: Step) {
    match step
    case Fsck(_) => true
    case MountDevice(_) => true
    case PrepareOverlay(p, _) => p != Factory
    case MountOverlay(p) => p != Factory
    case PrepareBindSource(_) => true
    case PrepareBindTarget(target) => target in {["var", "lib"], ["usr", "local"], ["var", "log"]}
    case MountBind(_, _) => true
  }

  /** The devices differ and are not below the root file system. */
  predicate SaneLayout(layout: Layout, rootfs: Path) {
    && (forall p, q :: p in layout && q in layout && layout[p] == layout[q] ==> p == q)
    && (forall p :: p in layout ==> !(rootfs <= layout[p]))
  }

  /** The partition that a failed step is blamed on. A failed check and a failed bind mount are blamed on none. */
  function Blamed(step: Step): Option<Part> {
    match step
    case MountDevice(p) => if p == Factory then None else Some(p)
    case PrepareOverlay(p, _) => Some(p)
    case MountOverlay(p) => Some(p)
    case PrepareBindSource(_) => Some(Data)
    case _ => None
  }

  /** Resolving an error by its paths finds the partition of the step that failed. */
  lemma ResolveFindsThePartition(step: Step, layout: Layout, rootfs: Path)
    requires IsMountStep(step) && Data in layout && Etc in layout && SaneLayout(layout, rootfs)
    requires step.MountDevice? ==> step.p in layout
    ensures ResolveFailedPartition(ErrorOf(step, layout, rootfs), rootfs, layout[Data], layout[Etc]) == Blamed(step)
  {
    var n := |rootfs|;
    match step {
      case PrepareOverlay(p, below) =>
        var target := rootfs + MountPoint(p) + below;
        assert target[n + 1] == MountPoint(p)[1];
        assert (rootfs + MNT_DATA)[n + 1] == "data";
        assert target[..n + 2] == rootfs + MountPoint(p);
      case MountOverlay(p) =>
        var target := rootfs + OverlayTarget(p);
        assert target[n] == OverlayTarget(p)[0];
        assert |rootfs + MNT_DATA| == |rootfs + MNT_ETC| == n + 2;
        assert (rootfs + ["home"])[n] == "home";
      case PrepareBindSource(below) =>
        assert (rootfs + MNT_DATA + below)[..n + 2] == rootfs + MNT_DATA;
      case PrepareBindTarget(target) =>
        var t := rootfs + target;
        assert t[n] == target[0] && |t| == n + 2;
        assert (rootfs + MNT_DATA)[n] == "mnt" && (rootfs + MNT_ETC)[n] == "mnt";
      case MountBind(below, _) =>
        var source := rootfs + MNT_DATA + below;
        assert source[..n] == rootfs;
      case _ =>
    }
  }

  /** The partition that a step is about: data or etc, by its device, its overlay or what is bind-mounted from it. */
  function Concerned(step: Step): Option<Part> {
    match step
    case Fsck(p) => if p == Factory then None else Some(p)
    case MountDevice(p) => if p == Factory then None else Some(p)
    case PrepareOverlay(p, _) => Some(p)
    case MountOverlay(p) => Some(p)
    case PrepareBindSource(_) => Some(Data)
    case PrepareBindTarget(_) => None
    case MountBind(_, _) => Some(Data)
  }

  /** The failure of a partition is found exactly when it is neither a failed check nor a failed bind mount. */
  lemma FailureIsFoundUnlessCheckOrBind(step: Step, layout: Layout, rootfs: Path)
    requires IsMountStep(step) && Data in layout && Etc in layout && SaneLayout(layout, rootfs)
    requires step.MountDevice? ==> step.p in layout
    ensures ResolveFailedPartition(ErrorOf(step, layout, rootfs), rootfs, layout[Data], layout[Etc]) == Concerned(step)
            <==> !(step.Fsck? && step.p != Factory) && !step.MountBind?
  {
    ResolveFindsThePartition(step, layout, rootfs);
  }

  // ---- the status ----

  datatype StatusCode = Success | Warning | Failure | Invalid | ConfigError

  datatype Status = Status(
    code: StatusCode, error: Option<string>, context: Option<string>, paths: seq<string>, dataWiped: bool)

  /** What is stored in the boot environment when a partition could not be mounted. */
  datatype Signal = Signal(partition: Part, reason: string)

  datatype RestoreResult = AllRestored | PartialFailure(context: string, error: string)

  /** `retried` had a mkfs that failed, `reformatFailed` two of them; `exhausted` is set when the mount failed. */
  datatype RetryReport = RetryReport(retried: seq<Part>, reformatFailed: seq<Part>, exhausted: Option<Signal>)

  const CONTEXT_SEPARATOR: string := ";"

  function PartName(p: Part): string {
    match p
    case Factory => "factory"
    case Etc => "etc"
    case Data => "data"
  }

  function JoinWith(notes: seq<string>, sep: string): string {
    if notes == [] then "" else if |notes| == 1 then notes[0] else notes[0] + sep + JoinWith(notes[1..], sep)
  }

  function PartNames(parts: seq<Part>): string {
    JoinWith(seq(|parts|, i requires 0 <= i < |parts| => PartName(parts[i])), ",")
  }

  function JoinContext(first: Option<string>, second: Option<string>): (r: Option<string>)
    ensures r.None? <==> first.None? && second.None?
  {
    if first.Some? && second.Some? then Some(first.value + CONTEXT_SEPARATOR + second.value)
    else if first.Some? then first
    else second
  }

  function RetryNote(retried: seq<Part>): (r: Option<string>)
    ensures r.None? <==> retried == []
  {
    if retried == [] then None else Some(PartNames(retried) + " reformatted twice")
  }

  function MkfsFailedNote(reformatFailed: seq<Part>): string {
    PartNames(reformatFailed) + ": mkfs failed twice"
  }

  function RestoredStatus(retried: seq<Part>, reformatFailed: seq<Part>, restore: RestoreResult, preserve: seq<string>)
    : (status: Status)
    ensures status.code == Success <==> retried == [] && reformatFailed == [] && restore.AllRestored?
    ensures status.code == Warning <==> retried != [] && reformatFailed == [] && restore.AllRestored?
    ensures status.code in {Success, Warning, Failure} && (status.error.Some? <==> status.code == Failure)
    ensures status.context.None? <==> retried == [] && restore.AllRestored?
    ensures status.dataWiped && status.paths == preserve
  {
    var note := RetryNote(retried);
    match restore
    case AllRestored =>
      if reformatFailed != [] then Status(Failure, Some(MkfsFailedNote(reformatFailed)), note, preserve, true)
      else if retried != [] then Status(Warning, None, note, preserve, true)
      else Status(Success, None, note, preserve, true)
    case PartialFailure(context, error) =>
      var text := if reformatFailed == [] then error
                  else MkfsFailedNote(reformatFailed) + CONTEXT_SEPARATOR + error;
      Status(Failure, Some(text), JoinContext(note, Some(context)), preserve, true)
  }

  function ExhaustedStatus(signal: Signal, retried: seq<Part>, preserve: seq<string>): Status {
    Status(Failure, Some(signal.reason), RetryNote(retried), preserve, true)
  }

  function DestructivePhaseFailureStatus(text: string, preserve: seq<string>): Status {
    Status(Failure, Some(text), None, preserve, true)
  }

  function ApplyWipeNote(status: Status, note: Option<string>): Status {
    if note.None? then status else status.(code := Failure, error := JoinContext(note, status.error))
  }

  function FailureStatusCode(e: Error): StatusCode {
    match e
    case InvalidConfig => Invalid
    case MissingField => ConfigError
    case InvalidPreserve => ConfigError
    case _ => Failure
  }

  function AbortedStatus(failed: Failed): (status: Status)
    ensures Aborted(status, failed)
  {
    Status(FailureStatusCode(failed.error), Some(failed.text), None, [], false)
  }

  /** The status of a reset that destroyed nothing: a bad request is told from a bad configuration and a failure. */
  predicate Aborted(status: Status, failed: Failed) {
    && (status.code == Invalid <==> failed.error == InvalidConfig)
    && (status.code == ConfigError <==> failed.error in {MissingField, InvalidPreserve})
    && status.code in {Invalid, ConfigError, Failure}
    && status.error == Some(failed.text) && status.context.None? && status.paths == [] && !status.dataWiped
  }

  // ---- what the status has to say ----

  ghost function Retried(d: Damage): seq<Part> {
    (if d.dataFailures > 0 then [Data] else []) + (if d.etcFailures > 0 then [Etc] else [])
  }

  ghost function FailedTwice(d: Damage): seq<Part> {
    (if d.dataFailures > 1 then [Data] else []) + (if d.etcFailures > 1 then [Etc] else [])
  }

  /** One mkfs, and a second one if the first failed. */
  ghost function Attempts(p: Part, failures: nat): seq<Part> {
    if failures == 0 then [p] else [p, p]
  }

  ghost predicate Faulty(s: Seen) {
    || s.damage.wipeNotes != [] || s.mounts.leak.Some? || s.refused != [] || s.copies.lastError.Some?
    || s.damage.dataFailures > 1 || s.damage.etcFailures > 1
  }

  /** The code of a reset that entered the destructive phase. */
  ghost function CodeOf(s: Seen): StatusCode {
    if Faulty(s) then Failure
    else if s.damage.dataFailures + s.damage.etcFailures > 0 then Warning
    else Success
  }

  /** The signal of a reset: the step that was refused is resolved to a partition. */
  ghost function SignalOf(s: Seen, layout: Layout, rootfs: Path): Option<Signal> {
    if s.refused == [] || Data !in layout || Etc !in layout then None else
      var first := s.refused[0];
      match ResolveFailedPartition(ErrorOf(first.step, layout, rootfs), rootfs, layout[Data], layout[Etc])
      case None => None
      case Some(p) => Some(Signal(p, first.text))
  }

  /** Why the rebuild failed: the refused step, else the last unmount, else the mkfs and the restore. */
  ghost function RebuildError(s: Seen): Option<string> {
    if s.refused != [] then Some(s.refused[0].text)
    else if s.mounts.leak.Some? then s.mounts.leak
    else if FailedTwice(s.damage) == [] then s.copies.lastError
    else JoinContext(Some(MkfsFailedNote(FailedTwice(s.damage))), s.copies.lastError)
  }

  ghost function WipeNotes(d: Damage): Option<string> {
    if d.wipeNotes == [] then None else Some(JoinWith(d.wipeNotes, CONTEXT_SEPARATOR))
  }

  ghost function RestoreNotes(c: Copies): Option<string> {
    if c.notes == [] then None else Some(JoinWith(c.notes, CONTEXT_SEPARATOR))
  }

  /** What more there is to say: the repeated mkfs and what was not restored. */
  ghost function ContextOf(s: Seen, layout: Layout, rootfs: Path): Option<string> {
    if s.refused != [] then (if SignalOf(s, layout, rootfs).Some? then RetryNote(Retried(s.damage)) else None)
    else if s.mounts.leak.Some? then None
    else JoinContext(RetryNote(Retried(s.damage)), RestoreNotes(s.copies))
  }

  /** The whole status of a reset that entered the destructive phase, from what happened. */
  ghost function StatusOf(s: Seen, preserve: seq<string>, layout: Layout, rootfs: Path): (status: Status)
    ensures status.error.Some? <==> status.code == Failure
  {
    Status(CodeOf(s), JoinContext(WipeNotes(s.damage), RebuildError(s)), ContextOf(s, layout, rootfs), preserve, true)
  }

  ghost predicate HasNote(context: Option<string>, note: string) {
    context.Some? && note <= context.value
  }

  /** The signal exists exactly when the first refused step is blamed on data or etc. */
  lemma SignalMeansBlamed(s: Seen, layout: Layout, rootfs: Path)
    requires Data in layout && Etc in layout && SaneLayout(layout, rootfs)
    requires RefusedInAMount(s.refused, layout)
    ensures SignalOf(s, layout, rootfs)
         == if s.refused != [] && Blamed(s.refused[0].step).Some?
            then Some(Signal(Blamed(s.refused[0].step).value, s.refused[0].text)) else None
  {
    if s.refused != [] {
      ResolveFindsThePartition(s.refused[0].step, layout, rootfs);
    }
  }

  /**
   The note about a repeated mkfs is in the context, unless the last unmount failed or the mount was refused in a
   step that is blamed on neither data nor etc.
   */
  lemma NoteIsReported(s: Seen, layout: Layout, rootfs: Path)
    requires Data in layout && Etc in layout && SaneLayout(layout, rootfs) && RefusedInAMount(s.refused, layout)
    requires Retried(s.damage) != []
    ensures HasNote(ContextOf(s, layout, rootfs), RetryNote(Retried(s.damage)).value)
            <==> && !(s.refused == [] && s.mounts.leak.Some?)
                 && !(s.refused != [] && Blamed(s.refused[0].step).None?)
  {
    SignalMeansBlamed(s, layout, rootfs);
  }

  /** The note about two failed mkfs is in the error, unless a refused step or a failed unmount is. */
  lemma MkfsNoteIsReported(s: Seen, preserve: seq<string>, layout: Layout, rootfs: Path)
    requires FailedTwice(s.damage) != [] && s.refused == [] && s.mounts.leak.None?
    ensures StatusOf(s, preserve, layout, rootfs).error
         == JoinContext(WipeNotes(s.damage),
                        JoinContext(Some(MkfsFailedNote(FailedTwice(s.damage))), s.copies.lastError))
  {
    hide PartNames, JoinWith;
  }

  /** A failed wipe is always in the error, whatever else happened. */
  lemma WipeNoteIsReported(s: Seen, preserve: seq<string>, layout: Layout, rootfs: Path)
    requires s.damage.wipeNotes != []
    ensures HasNote(StatusOf(s, preserve, layout, rootfs).error, WipeNotes(s.damage).value)
  {
  }

  // ---- what can be read in the notes ----

  ghost predicate Contains(text: string, part: string) {
    exists i :: Text.OccursAt(text, part, i)
  }

  lemma ContainsInside(front: string, text: string, behind: string, part: string)
    requires Contains(text, part)
    ensures Contains(front + text + behind, part)
  {
    var i :| Text.OccursAt(text, part, i);
    var whole, j := front + text + behind, |front| + i;
    assert whole[j..j + |part|] == text[i..i + |part|];
    assert Text.OccursAt(whole, part, j);
  }

  lemma {:induction false} EachNoteIsInTheText(notes: seq<string>, sep: string, note: string)
    requires note in notes
    ensures Contains(JoinWith(notes, sep), note)
  {
    if notes[0] == note {
      assert Text.OccursAt(note, note, 0);
      var behind := if |notes| == 1 then "" else sep + JoinWith(notes[1..], sep);
      ContainsInside("", notes[0], behind, note);
      assert "" + notes[0] + behind == JoinWith(notes, sep);
    } else {
      EachNoteIsInTheText(notes[1..], sep, note);
      ContainsInside(notes[0] + sep, JoinWith(notes[1..], sep), "", note);
      assert notes[0] + sep + JoinWith(notes[1..], sep) + "" == JoinWith(notes, sep);
    }
  }

  function LostEntry(entry: string, missing: bool): string {
    TrimSlashes(entry) + if missing then ":missing-backup" else ":restore"
  }

  lemma NotesGrow(s: Seen, op: Op)
    ensures s.damage.wipeNotes <= After(s, op).damage.wipeNotes
    ensures s.copies.notes <= After(s, op).copies.notes
  {
  }

  lemma WipeIsNoted(s: Seen, wipe: Wipe, reason: string)
    ensures PartName(wipe.p) + ": " + reason in After(s, Wiped(wipe, Some(reason))).damage.wipeNotes
  {
  }

  lemma RestoreIsNoted(s: Seen, entry: string, outcome: RestoreOutcome)
    requires !outcome.Copied?
    ensures LostEntry(entry, outcome.MissingBackup?) in After(s, Restored(entry, outcome)).copies.notes
  {
    hide TrimSlashes;
  }

  lemma {:induction false} WipeNotesAreKept(trace: seq<Op>, wipe: Wipe, reason: string)
    requires Wiped(wipe, Some(reason)) in trace
    ensures PartName(wipe.p) + ": " + reason in Observe(trace).damage.wipeNotes
  {
    var n := |trace| - 1;
    assert Observe(trace) == After(Observe(trace[..n]), trace[n]);
    hide Observe, After, PartName;
    if trace[n] == Wiped(wipe, Some(reason)) {
      WipeIsNoted(Observe(trace[..n]), wipe, reason);
    } else {
      assert Wiped(wipe, Some(reason)) in trace[..n];
      WipeNotesAreKept(trace[..n], wipe, reason);
      NotesGrow(Observe(trace[..n]), trace[n]);
    }
  }

  lemma {:induction false} RestoreNotesAreKept(trace: seq<Op>, entry: string, outcome: RestoreOutcome)
    requires Restored(entry, outcome) in trace && !outcome.Copied?
    ensures LostEntry(entry, outcome.MissingBackup?) in Observe(trace).copies.notes
  {
    var n := |trace| - 1;
    assert Observe(trace) == After(Observe(trace[..n]), trace[n]);
    hide Observe, After, LostEntry;
    if trace[n] == Restored(entry, outcome) {
      RestoreIsNoted(Observe(trace[..n]), entry, outcome);
    } else {
      assert Restored(entry, outcome) in trace[..n];
      RestoreNotesAreKept(trace[..n], entry, outcome);
      NotesGrow(Observe(trace[..n]), trace[n]);
    }
  }

  lemma JoinContextKeeps(first: Option<string>, second: Option<string>, part: string)
    requires (first.Some? && Contains(first.value, part)) || (second.Some? && Contains(second.value, part))
    ensures Contains(JoinContext(first, second).value, part)
  {
    if first.Some? && second.Some? {
      if Contains(first.value, part) {
        ContainsInside("", first.value, CONTEXT_SEPARATOR + second.value, part);
        assert "" + first.value + (CONTEXT_SEPARATOR + second.value) == JoinContext(first, second).value;
      } else {
        ContainsInside(first.value + CONTEXT_SEPARATOR, second.value, "", part);
        assert first.value + CONTEXT_SEPARATOR + second.value + "" == JoinContext(first, second).value;
      }
    }
  }

  /** Every wipe that failed is in the error, with its partition and its reason. */
  lemma EveryFailedWipeIsNamed(trace: seq<Op>, wipe: Wipe, reason: string, preserve: seq<string>, layout: Layout,
                               rootfs: Path)
    requires Wiped(wipe, Some(reason)) in trace && wipe.p != Factory
    ensures var error := StatusOf(Observe(trace), preserve, layout, rootfs).error;
            error.Some? && Contains(error.value, (if wipe.p == Etc then "etc: " else "data: ") + reason)
  {
    hide Observe, RebuildError, JoinWith, Contains, ContextOf, CodeOf, JoinContext;
    var d, note := Observe(trace).damage, PartName(wipe.p) + ": " + reason;
    WipeNotesAreKept(trace, wipe, reason);
    EachNoteIsInTheText(d.wipeNotes, CONTEXT_SEPARATOR, note);
    assert note == (if wipe.p == Etc then "etc: " else "data: ") + reason;
    JoinContextKeeps(WipeNotes(d), RebuildError(Observe(trace)), note);
  }

  /** Every entry that was not restored is in the context, if the last unmount worked. */
  lemma EveryLostEntryIsNamed(trace: seq<Op>, entry: string, outcome: RestoreOutcome, preserve: seq<string>,
                              layout: Layout, rootfs: Path)
    requires Restored(entry, outcome) in trace && !outcome.Copied?
    requires Observe(trace).refused == [] && Observe(trace).mounts.leak.None?
    ensures var context := StatusOf(Observe(trace), preserve, layout, rootfs).context;
            context.Some? && Contains(context.value, LostEntry(entry, outcome.MissingBackup?))
  {
    hide Observe, RebuildError, JoinWith, Contains, CodeOf, LostEntry, RetryNote, Retried, JoinContext;
    var c, note := Observe(trace).copies, LostEntry(entry, outcome.MissingBackup?);
    RestoreNotesAreKept(trace, entry, outcome);
    EachNoteIsInTheText(c.notes, CONTEXT_SEPARATOR, note);
    JoinContextKeeps(RetryNote(Retried(Observe(trace).damage)), RestoreNotes(c), note);
  }

  /** The notes on mkfs, word for word. */
  lemma MkfsNotesAre()
    ensures RetryNote([Data]) == Some("data" + " reformatted twice")
    ensures RetryNote([Etc]) == Some("etc" + " reformatted twice")
    ensures RetryNote([Data, Etc]) == Some("data,etc" + " reformatted twice")
    ensures MkfsFailedNote([Data]) == "data" + ": mkfs failed twice"
    ensures MkfsFailedNote([Etc]) == "etc" + ": mkfs failed twice"
    ensures MkfsFailedNote([Data, Etc]) == "data,etc" + ": mkfs failed twice"
  {
    hide PartNames;
    PartNamesAre();
  }

  lemma PartNamesAre()
    ensures PartNames([Data]) == "data" && PartNames([Etc]) == "etc" && PartNames([Data, Etc]) == "data,etc"
  {
    hide PartNames;
    NamesOf([Data], ["data"]);
    NamesOf([Etc], ["etc"]);
    NamesOf([Data, Etc], ["data", "etc"]);
    assert ["data", "etc"][1..] == ["etc"];
    assert "data" + "," + "etc" == "data,etc";
  }

  lemma NamesOf(parts: seq<Part>, names: seq<string>)
    requires |parts| == |names| && forall i :: 0 <= i < |parts| ==> PartName(parts[i]) == names[i]
    ensures PartNames(parts) == JoinWith(names, ",")
  {
    assert seq(|parts|, i requires 0 <= i < |parts| => PartName(parts[i])) == names;
  }

  // ---- mounting and unmounting ----

  /** What a step leaves mounted. */
  function MountedBy(step: Step, rootfs: Path): seq<Path> {
    match step
    case MountDevice(p) => [rootfs + MountPoint(p)]
    case MountOverlay(p) => [rootfs + OverlayTarget(p)]
    case MountBind(_, target) => [rootfs + target]
    case _ => []
  }

  function PathsOf(plan: seq<Step>, rootfs: Path): seq<Path> {
    if plan == [] then [] else PathsOf(plan[..|plan| - 1], rootfs) + MountedBy(plan[|plan| - 1], rootfs)
  }

  lemma {:induction false} PathsOfBoth(a: seq<Step>, b: seq<Step>, rootfs: Path)
    ensures PathsOf(a + b, rootfs) == PathsOf(a, rootfs) + PathsOf(b, rootfs)
    decreases |b|
  {
    hide MountedBy;
    if b == [] {
      assert a + b == a;
    } else {
      var n := |b| - 1;
      PathsOfBoth(a, b[..n], rootfs);
      OneStepBack(a, b);
      AppendTwice(PathsOf(a, rootfs), PathsOf(b[..n], rootfs), MountedBy(b[n], rootfs));
    }
  }

  lemma OneStepBack(a: seq<Step>, b: seq<Step>)
    requires b != []
    ensures (a + b)[..|a + b| - 1] == a + b[..|b| - 1] && (a + b)[|a + b| - 1] == b[|b| - 1]
  {
  }

  /** What a mount has made of its plan: all of it, or the steps in front of the one that was refused. */
  ghost predicate Explained(s: Seen, s': Seen, plan: seq<Step>, r: Option<Failed>, layout: Layout, rootfs: Path) {
    var k := |s'.steps| - |s.steps|;
    && 0 <= k <= |plan| && s'.steps == s.steps + plan[..k]
    && match r
       case None => k == |plan| && s'.refused == s.refused
       case Some(failed) =>
         && k < |plan| && s'.refused == s.refused + [RefusedStep(plan[k], failed.text)]
         && failed.error == ErrorOf(plan[k], layout, rootfs)
  }

  /** From s to s' nothing else was done, and what was mounted is in place. */
  ghost predicate Mounting(s: Seen, s': Seen, plan: seq<Step>, r: Option<Failed>, layout: Layout, rootfs: Path) {
    && Explained(s, s', plan, r, layout, rootfs)
    && s' == Seen(s.mounts.(mounted := s'.mounts.mounted), s'.steps, s'.refused, s.copies, s.damage)
    && s'.mounts.mounted == s.mounts.mounted + PathsOf(plan[..|s'.steps| - |s.steps|], rootfs)
  }

  lemma MountingGoesOn(s: Seen, s1: Seen, s2: Seen, p1: seq<Step>, p2: seq<Step>, r: Option<Failed>,
                       layout: Layout, rootfs: Path)
    requires Mounting(s, s1, p1, None, layout, rootfs) && Mounting(s1, s2, p2, r, layout, rootfs)
    ensures Mounting(s, s2, p1 + p2, r, layout, rootfs)
  {
    hide PathsOf, ErrorOf;
    var k := |s2.steps| - |s1.steps|;
    assert p1[..|p1|] == p1;
    assert (p1 + p2)[..|p1| + k] == p1 + p2[..k];
    assert k < |p2| ==> (p1 + p2)[|p1| + k] == p2[k];
    PathsOfBoth(p1, p2[..k], rootfs);
    AppendTwice(s.steps, p1, p2[..k]);
    AppendTwice(s.mounts.mounted, PathsOf(p1, rootfs), PathsOf(p2[..k], rootfs));
  }

  lemma AppendTwice<T>(a: seq<T>, b: seq<T>, c: seq<T>)
    ensures a + b + c == a + (b + c)
  {
  }

  lemma MountingStopped(s: Seen, s1: Seen, p1: seq<Step>, p2: seq<Step>, r: Option<Failed>,
                        layout: Layout, rootfs: Path)
    requires Mounting(s, s1, p1, r, layout, rootfs) && r.Some?
    ensures Mounting(s, s1, p1 + p2, r, layout, rootfs)
  {
    var k := |s1.steps| - |s.steps|;
    assert (p1 + p2)[..k] == p1[..k];
  }

  ghost function PartitionPlan(p: Part, layout: Layout): seq<Step> {
    if p in layout then [Fsck(p), MountDevice(p)] else []
  }

  ghost function Preparations(p: Part, below: seq<Path>): seq<Step> {
    seq(|below|, i requires 0 <= i < |below| => PrepareOverlay(p, below[i]))
  }

  ghost function OverlayPlan(p: Part, below: seq<Path>): seq<Step> {
    Preparations(p, below) + [MountOverlay(p)]
  }

  ghost function BindPlan(bind: (Path, Path)): seq<Step> {
    [PrepareBindSource(bind.0), PrepareBindTarget(bind.1), MountBind(bind.0, bind.1)]
  }

  ghost function BindsPlan(binds: seq<(Path, Path)>): seq<Step> {
    if binds == [] then [] else BindsPlan(binds[..|binds| - 1]) + BindPlan(binds[|binds| - 1])
  }

  // Upper and work directory, a look at whether the upper one is empty, and what it then gets from factory.
  const ETC_BELOW: seq<Path> := [["upper"], ["work"], ["upper"], ["upper"]]
  const HOME_BELOW: seq<Path> := [["home"], ["home", "upper"], ["home", "work"]]
  const BINDS: seq<(Path, Path)> := [(["var", "lib"], ["var", "lib"]), (["local"], ["usr", "local"])]
  const LOG_BIND: (Path, Path) := (["log"], ["var", "log"])

  function Binds(persistentVarLog: bool): seq<(Path, Path)> {
    if persistentVarLog then BINDS + [LOG_BIND] else BINDS
  }

  ghost function DataPlan(persistentVarLog: bool): seq<Step> {
    OverlayPlan(Data, HOME_BELOW) + BindsPlan(Binds(persistentVarLog))
  }

  /** Everything that a complete mount consists of, in order. */
  ghost function WholePlan(layout: Layout, persistentVarLog: bool): seq<Step> {
    PartitionPlan(Factory, layout) + PartitionPlan(Etc, layout) + PartitionPlan(Data, layout)
    + OverlayPlan(Etc, ETC_BELOW) + DataPlan(persistentVarLog)
  }

  ghost function AllMounts(layout: Layout, rootfs: Path, persistentVarLog: bool): seq<Path> {
    PathsOf(WholePlan(layout, persistentVarLog), rootfs)
  }

  /** Every step of the plan is one of a mount, on a device that is there. */
  lemma PlanIsOfAMount(layout: Layout, persistentVarLog: bool)
    ensures forall i :: 0 <= i < |WholePlan(layout, persistentVarLog)| ==>
              IsStepOf(WholePlan(layout, persistentVarLog)[i], layout)
  {
    hide PartitionPlan, OverlayPlan, BindsPlan, IsMountStep;
    PartitionIsOfAMount(Factory, layout);
    PartitionIsOfAMount(Etc, layout);
    PartitionIsOfAMount(Data, layout);
    OverlayIsOfAMount(Etc, ETC_BELOW, layout);
    OverlayIsOfAMount(Data, HOME_BELOW, layout);
    BindsAreOfAMount(Binds(persistentVarLog), layout);
  }

  lemma PartitionIsOfAMount(p: Part, layout: Layout)
    ensures forall i :: 0 <= i < |PartitionPlan(p, layout)| ==> IsStepOf(PartitionPlan(p, layout)[i], layout)
  {
  }

  lemma OverlayIsOfAMount(p: Part, below: seq<Path>, layout: Layout)
    requires p != Factory
    ensures forall i :: 0 <= i < |OverlayPlan(p, below)| ==> IsStepOf(OverlayPlan(p, below)[i], layout)
  {
  }

  ghost predicate IsStepOf(step: Step, layout: Layout) {
    IsMountStep(step) && (step.MountDevice? ==> step.p in layout)
  }

  lemma {:induction false} BindsAreOfAMount(binds: seq<(Path, Path)>, layout: Layout)
    requires forall bind :: bind in binds ==> bind in BINDS || bind == LOG_BIND
    ensures forall i :: 0 <= i < |BindsPlan(binds)| ==> IsStepOf(BindsPlan(binds)[i], layout)
  {
    if binds != [] {
      BindsAreOfAMount(binds[..|binds| - 1], layout);
      assert binds[|binds| - 1] in binds;
    }
  }

  class Reset {
    const rootfs: Path
    const layout: Layout
    const persistentVarLog: bool
    // The mounts to take down, newest last.
    var mounts: seq<Path>
    ghost var trace: seq<Op>

    constructor (rootfs: Path, layout: Layout, persistentVarLog: bool)
      ensures this.rootfs == rootfs && this.layout == layout && this.persistentVarLog == persistentVarLog
      ensures mounts == [] && trace == []
    {
      this.rootfs, this.layout, this.persistentVarLog := rootfs, layout, persistentVarLog;
      mounts, trace := [], [];
    }

    ghost function Now(): Seen
      reads this
    {
      Observe(trace)
    }

    /** The list is what is mounted, and so far each mount was taken down once, newest first. */
    ghost predicate Valid()
      reads this
    {
      Now().mounts.mounted == mounts && Now().mounts.orderly
    }

    /** A step that may fail; one that works is in the trace as well. */
    method Try(step: Step) returns (r: Option<Failed>)
      modifies this`trace
      ensures Now() == if r.None? then After(old(Now()), Made(step)) else After(old(Now()), Refused(step, r.value.text))
      ensures r.Some? ==> r.value.error == ErrorOf(step, layout, rootfs)
    {
      var fails: bool := *;
      var text: string := *;
      var op := if fails then Refused(step, text) else Made(step);
      ObserveOneMore(trace, op);
      trace := trace + [op];
      r := if fails then Some(Failed(ErrorOf(step, layout, rootfs), text)) else None;
    }

    /** A step that leaves nothing mounted. */
    method Attempt(step: Step) returns (r: Option<Failed>)
      requires Valid() && MountedBy(step, rootfs) == []
      modifies this`trace
      ensures Valid() && Mounting(old(Now()), Now(), [step], r, layout, rootfs)
    {
      hide Observe, ErrorOf;
      r := Try(step);
      OneStep(step, rootfs);
    }

    /** mount(2), and what it mounted goes on the list at once. */
    method MountTracked(step: Step, path: Path) returns (r: Option<Failed>)
      requires Valid() && MountedBy(step, rootfs) == [path]
      modifies this
      ensures Valid() && Mounting(old(Now()), Now(), [step], r, layout, rootfs)
    {
      hide Observe, ErrorOf;
      r := Try(step);
      OneStep(step, rootfs);
      if r.None? {
        ObserveOneMore(trace, Mounted(path));
        trace := trace + [Mounted(path)];
        mounts := mounts + [path];
      }
    }

    method Umount(path: Path) returns (failure: Option<string>)
      modifies this`trace
      ensures Now() == After(old(Now()), Unmounted(path, failure))
    {
      var ok: bool := *;
      var text: string := *;
      failure := if ok then None else Some(text);
      ObserveOneMore(trace, Unmounted(path, failure));
      trace := trace + [Unmounted(path, failure)];
    }

    /** Takes down every mount on the list, newest first; a failure does not stop it, and the last one is the result. */
    method UnmountTracked() returns (failure: Option<string>)
      requires Valid()
      modifies this
      ensures Valid() && mounts == []
      ensures var leak := if failure.Some? then failure else old(Now()).mounts.leak;
              Now() == old(Now()).(mounts := Mounts([], true, leak))
    {
      hide Observe;
      failure := None;
      while mounts != []
        invariant Valid()
        invariant var leak := if failure.Some? then failure else old(Now()).mounts.leak;
                  Now() == old(Now()).(mounts := Mounts(mounts, true, leak))
        decreases |mounts|
      {
        var last := |mounts| - 1;
        var path := mounts[last];
        mounts := mounts[..last];
        var failed := Umount(path);
        if failed.Some? {
          failure := failed;
        }
      }
    }

    method MountTrackedPartition(p: Part) returns (r: Option<Failed>)
      requires Valid()
      modifies this
      ensures Valid() && Mounting(old(Now()), Now(), PartitionPlan(p, layout), r, layout, rootfs)
    {
      hide Observe, Mounting;
      ghost var s := Now();
      NothingMounted(s, layout, rootfs);
      if p !in layout {
        return None;
      }
      r := Attempt(Fsck(p));
      assert [Fsck(p)] + [MountDevice(p)] == PartitionPlan(p, layout);
      if r.Some? {
        MountingStopped(s, Now(), [Fsck(p)], [MountDevice(p)], r, layout, rootfs);
        return;
      }
      ghost var s1 := Now();
      r := MountTracked(MountDevice(p), rootfs + MountPoint(p));
      MountingGoesOn(s, s1, Now(), [Fsck(p)], [MountDevice(p)], r, layout, rootfs);
    }

    /** The steps before an overlay can be mounted, then the mount. */
    method SetupOverlay(p: Part, below: seq<Path>) returns (r: Option<Failed>)
      requires Valid() && p != Factory
      modifies this
      ensures Valid() && Mounting(old(Now()), Now(), OverlayPlan(p, below), r, layout, rootfs)
    {
      hide Observe, Mounting;
      ghost var s := Now();
      ghost var all := Preparations(p, below);
      assert all[..0] == [];
      NothingMounted(s, layout, rootfs);
      for i := 0 to |below|
        invariant Valid() && Mounting(s, Now(), all[..i], None, layout, rootfs)
      {
        ghost var s1 := Now();
        assert all[..i + 1] == all[..i] + [PrepareOverlay(p, below[i])];
        r := Attempt(PrepareOverlay(p, below[i]));
        MountingGoesOn(s, s1, Now(), all[..i], [PrepareOverlay(p, below[i])], r, layout, rootfs);
        if r.Some? {
          MountingStopped(s, Now(), all[..i + 1], all[i + 1..] + [MountOverlay(p)], r, layout, rootfs);
          assert all[..i + 1] + (all[i + 1..] + [MountOverlay(p)]) == OverlayPlan(p, below);
          return;
        }
      }
      assert all[..|below|] == all;
      ghost var s1 := Now();
      r := MountTracked(MountOverlay(p), rootfs + OverlayTarget(p));
      MountingGoesOn(s, s1, Now(), all, [MountOverlay(p)], r, layout, rootfs);
    }

    method BindMount(bind: (Path, Path)) returns (r: Option<Failed>)
      requires Valid()
      modifies this
      ensures Valid() && Mounting(old(Now()), Now(), BindPlan(bind), r, layout, rootfs)
    {
      hide Observe, Mounting;
      ghost var s := Now();
      ghost var a, b := PrepareBindSource(bind.0), PrepareBindTarget(bind.1);
      ghost var c := MountBind(bind.0, bind.1);
      assert [a] + [b] == [a, b] && [a] + [b, c] == [a, b] + [c] == BindPlan(bind);
      r := Attempt(PrepareBindSource(bind.0));
      if r.Some? {
        MountingStopped(s, Now(), [a], [b, c], r, layout, rootfs);
        return;
      }
      ghost var s1 := Now();
      r := Attempt(PrepareBindTarget(bind.1));
      MountingGoesOn(s, s1, Now(), [a], [b], r, layout, rootfs);
      if r.Some? {
        MountingStopped(s, Now(), [a, b], [c], r, layout, rootfs);
        return;
      }
      s1 := Now();
      r := MountTracked(MountBind(bind.0, bind.1), rootfs + bind.1);
      MountingGoesOn(s, s1, Now(), [a, b], [c], r, layout, rootfs);
    }

    method SetupDataOverlayTracked() returns (r: Option<Failed>)
      requires Valid()
      modifies this
      ensures Valid() && Mounting(old(Now()), Now(), DataPlan(persistentVarLog), r, layout, rootfs)
    {
      hide Observe, Mounting, OverlayPlan, BindPlan, BindsPlan;
      ghost var s := Now();
      var binds := Binds(persistentVarLog);
      ghost var home := OverlayPlan(Data, HOME_BELOW);
      r := SetupOverlay(Data, [["home"], ["home", "upper"], ["home", "work"]]);
      if r.Some? {
        MountingStopped(s, Now(), home, BindsPlan(binds), r, layout, rootfs);
        return;
      }
      NoBinds(binds);
      assert home + BindsPlan(binds[..0]) == home;
      for i := 0 to |binds|
        invariant Valid() && Mounting(s, Now(), home + BindsPlan(binds[..i]), None, layout, rootfs)
      {
        ghost var s1 := Now();
        ghost var done := BindsPlan(binds[..i]);
        OneMoreBind(binds, i);
        AppendTwice(home, done, BindPlan(binds[i]));
        r := BindMount(binds[i]);
        MountingGoesOn(s, s1, Now(), home + done, BindPlan(binds[i]), r, layout, rootfs);
        if r.Some? {
          var rest := RestOfBinds(binds, i + 1);
          MountingStopped(s, Now(), home + BindsPlan(binds[..i + 1]), rest, r, layout, rootfs);
          AppendTwice(home, BindsPlan(binds[..i + 1]), rest);
          return;
        }
      }
      assert binds[..|binds|] == binds;
      r := None;
    }

    /** Factory read-only, etc, data, then the overlays and bind mounts. */
    method FactoryResetMount() returns (r: Option<Failed>)
      requires Valid()
      modifies this
      ensures Valid() && Mounting(old(Now()), Now(), WholePlan(layout, persistentVarLog), r, layout, rootfs)
    {
      hide Observe, Mounting, PartitionPlan, OverlayPlan, DataPlan;
      ghost var s := Now();
      ghost var a, b := PartitionPlan(Factory, layout), PartitionPlan(Etc, layout);
      ghost var c, d := PartitionPlan(Data, layout), OverlayPlan(Etc, ETC_BELOW);
      ghost var e := DataPlan(persistentVarLog);
      r := MountTrackedPartition(Factory);
      if r.Some? {
        MountingStopped(s, Now(), a, b + c + d + e, r, layout, rootfs);
        assert a + (b + c + d + e) == a + b + c + d + e;
        return;
      }
      ghost var s1 := Now();
      r := MountTrackedPartition(Etc);
      MountingGoesOn(s, s1, Now(), a, b, r, layout, rootfs);
      if r.Some? {
        MountingStopped(s, Now(), a + b, c + d + e, r, layout, rootfs);
        assert a + b + (c + d + e) == a + b + c + d + e;
        return;
      }
      s1 := Now();
      r := MountTrackedPartition(Data);
      MountingGoesOn(s, s1, Now(), a + b, c, r, layout, rootfs);
      if r.Some? {
        MountingStopped(s, Now(), a + b + c, d + e, r, layout, rootfs);
        assert a + b + c + (d + e) == a + b + c + d + e;
        return;
      }
      s1 := Now();
      r := SetupOverlay(Etc, [["upper"], ["work"], ["upper"], ["upper"]]);
      MountingGoesOn(s, s1, Now(), a + b + c, d, r, layout, rootfs);
      if r.Some? {
        MountingStopped(s, Now(), a + b + c + d, e, r, layout, rootfs);
        return;
      }
      s1 := Now();
      r := SetupDataOverlayTracked();
      MountingGoesOn(s, s1, Now(), a + b + c + d, e, r, layout, rootfs);
    }

    // ---- backup and restore ----

    method RefuseBackup(failed: Failed)
      requires Valid()
      modifies this`trace
      ensures Valid() && Now() == old(Now()).(copies := old(Now()).copies.(backupError := Some(failed)))
      ensures trace == old(trace) + [BackupRefused(failed)]
    {
      ObserveOneMore(trace, BackupRefused(failed));
      trace := trace + [BackupRefused(failed)];
    }

    /** The paths to keep; reading the configuration may fail. */
    method BuildPreserveList() returns (r: Result<seq<string>, Failed>)
      requires Valid()
      modifies this`trace
      ensures Valid()
      ensures r.Err? ==> r.error.error in {MissingField, InvalidPreserve, IoFailed}
      ensures Now() == if r.Ok? then old(Now())
                       else old(Now()).(copies := old(Now()).copies.(backupError := Some(r.error)))
    {
      hide Observe;
      var list: seq<string> := *;
      var text: string := *;
      var missing: bool := *;
      var invalid: bool := *;
      var unreadable: bool := *;
      r := if missing then Err(Failed(MissingField, text)) else if invalid then Err(Failed(InvalidPreserve, text))
           else if unreadable then Err(Failed(IoFailed, text)) else Ok(list);
      if r.Err? {
        RefuseBackup(r.error);
      }
    }

    /** What exists of the list is copied, in order; the first failure ends the backup. */
    method BackupAll(preserve: seq<string>, existing: set<string>) returns (r: Result<seq<string>, Failed>)
      requires Valid()
      modifies this`trace
      ensures Valid()
      ensures var s, t := old(Now()), Now();
              && t == s.(copies := s.copies.(backups := t.copies.backups, bases := t.copies.bases,
                                             backupError := if r.Ok? then s.copies.backupError else Some(r.error)))
              && s.copies.bases <= t.copies.bases <= s.copies.bases + {s.mounts.mounted}
      ensures r.Ok? ==>
                && r.value == Existing(preserve, existing)
                && Now().copies.backups == old(Now()).copies.backups + r.value
      ensures r.Err? ==>
                && trace != [] && trace[|trace| - 1] == BackupRefused(r.error)
                && exists n :: 0 <= n <= |preserve|
                               && Now().copies.backups == old(Now()).copies.backups + Existing(preserve[..n], existing)
    {
      hide Observe;
      ghost var s := Now();
      assert preserve[..0] == [] && s.copies.backups + Existing(preserve[..0], existing) == s.copies.backups;
      var text: string := *;
      var created: bool := *;
      if !created {
        RefuseBackup(Failed(IoFailed, text));
        return Err(Failed(IoFailed, text));
      }
      var backedUp: seq<string> := [];
      for i := 0 to |preserve|
        invariant Valid() && backedUp == Existing(preserve[..i], existing)
        invariant Now() == s.(copies := s.copies.(backups := s.copies.backups + backedUp, bases := Now().copies.bases))
        invariant s.copies.bases <= Now().copies.bases <= s.copies.bases + {s.mounts.mounted}
      {
        assert preserve[..i + 1][..i] == preserve[..i];
        if preserve[i] in existing {
          var copied: bool := *;
          if !copied {
            RefuseBackup(Failed(BackupFailed, text));
            return Err(Failed(BackupFailed, text));
          }
          ObserveOneMore(trace, BackedUp(preserve[i]));
          trace := trace + [BackedUp(preserve[i])];
          backedUp := backedUp + [preserve[i]];
        }
      }
      assert preserve[..|preserve|] == preserve;
      r := Ok(backedUp);
    }

    method RestorePath(entry: string) returns (outcome: RestoreOutcome)
      modifies this`trace
      ensures Now() == After(old(Now()), Op.Restored(entry, outcome))
    {
      var missing: bool := *;
      var copied: bool := *;
      var reason: string := *;
      outcome := if missing then MissingBackup else if copied then Copied else NotCopied(reason);
      ObserveOneMore(trace, Op.Restored(entry, outcome));
      trace := trace + [Op.Restored(entry, outcome)];
    }

    /** Every entry of the manifest is tried; the failures are collected. */
    method RestoreAll(backedUp: seq<string>) returns (r: RestoreResult)
      requires Valid() && Now().copies.notes == [] && Now().copies.lastError.None?
      modifies this`trace
      ensures Valid()
      ensures var s, t := old(Now()), Now();
              && t == s.(copies := s.copies.(restores := s.copies.restores + backedUp, bases := t.copies.bases,
                                             notes := t.copies.notes, lastError := t.copies.lastError))
              && s.copies.bases <= t.copies.bases <= s.copies.bases + {s.mounts.mounted}
              && (t.copies.notes == [] <==> t.copies.lastError.None?)
              && r == (if t.copies.lastError.None? then AllRestored
                       else PartialFailure(RestoreNotes(t.copies).value, t.copies.lastError.value))
    {
      hide Observe, TrimSlashes;
      var notes: seq<string> := [];
      var lastError: Option<string> := None;
      ghost var s := Now();
      assert s.copies.restores + backedUp[..0] == s.copies.restores;
      for i := 0 to |backedUp|
        invariant Valid() && (notes == [] <==> lastError.None?)
        invariant Now() == s.(copies := s.copies.(restores := s.copies.restores + backedUp[..i],
                                                  bases := Now().copies.bases, notes := notes, lastError := lastError))
        invariant s.copies.bases <= Now().copies.bases <= s.copies.bases + {s.mounts.mounted}
      {
        var entry := backedUp[i];
        assert backedUp[..i + 1] == backedUp[..i] + [entry];
        var outcome := RestorePath(entry);
        match outcome {
          case Copied =>
          case MissingBackup =>
            notes := notes + [TrimSlashes(entry) + ":missing-backup"];
            lastError := Some("backup missing for " + entry);
          case NotCopied(reason) =>
            notes := notes + [TrimSlashes(entry) + ":restore"];
            lastError := Some(reason);
        }
      }
      assert backedUp[..|backedUp|] == backedUp;
      r := if lastError.Some? then PartialFailure(JoinWith(notes, CONTEXT_SEPARATOR), lastError.value) else AllRestored;
    }

    // ---- wipe and reformat ----

    method WipeDevice(wipe: Wipe) returns (failure: Option<string>)
      modifies this`trace
      ensures Now() == After(old(Now()), Wiped(wipe, failure))
    {
      var ok: bool := *;
      var reason: string := *;
      failure := if ok then None else Some(reason);
      ObserveOneMore(trace, Wiped(wipe, failure));
      trace := trace + [Wiped(wipe, failure)];
    }

    /** Mode 2 overwrites etc and data, mode 3 discards them, each whatever happens to the other. */
    method WipePartitions(mode: ResetMode) returns (note: Option<string>)
      requires Valid() && Now().damage == NOTHING.damage
      modifies this`trace
      ensures Valid()
      ensures var s, t := old(Now()), Now();
              && t == s.(damage := s.damage.(wipes := t.damage.wipes, wipeNotes := t.damage.wipeNotes,
                                             careful := t.damage.careful))
              && t.damage.wipes == WipesOf(mode)
              && t.damage.careful == (mode.Mode1? || s.mounts.Clear())
              && note == WipeNotes(t.damage)
    {
      hide Observe;
      if mode.Mode1? {
        return None;
      }
      var kind := if mode.Mode2? then Random else Discard;
      var parts := [Etc, Data];
      var notes: seq<string> := [];
      ghost var wipes: seq<Wipe> := [];
      ghost var s := Now();
      for i := 0 to |parts|
        invariant Valid() && wipes == WipesOf(mode)[..i]
        invariant Now() == s.(damage := Damage(i == 0 || s.mounts.Clear(), wipes, notes, [], 0, 0))
      {
        var failed := WipeDevice(Wipe(kind, parts[i]));
        wipes := wipes + [Wipe(kind, parts[i])];
        if failed.Some? {
          notes := notes + [PartName(parts[i]) + ": " + failed.value];
        }
      }
      assert WipesOf(mode)[..2] == WipesOf(mode);
      note := if notes == [] then None else Some(JoinWith(notes, CONTEXT_SEPARATOR));
    }

    method Reformat(p: Part) returns (ok: bool)
      modifies this`trace
      ensures Now() == After(old(Now()), Formatted(p, ok))
    {
      ok := *;
      ObserveOneMore(trace, Formatted(p, ok));
      trace := trace + [Formatted(p, ok)];
    }

    /** A complete mount, or none. */
    method MountAll() returns (r: Option<Failed>)
      requires Valid() && mounts == []
      modifies this
      ensures Valid()
      ensures var s, t := old(Now()), Now();
              && t == Seen(t.mounts, t.steps, t.refused, s.copies, s.damage)
              && (r.None? ==> t.mounts == s.mounts.(mounted := AllMounts(layout, rootfs, persistentVarLog)))
              && (r.Some? ==> t.mounts.mounted == [] && mounts == [])
              && Explained(s, t, WholePlan(layout, persistentVarLog), r, layout, rootfs)
    {
      hide Observe, PathsOf, WholePlan, ErrorOf;
      ghost var plan := WholePlan(layout, persistentVarLog);
      assert plan[..|plan|] == plan;
      r := FactoryResetMount();
      if r.Some? {
        var ignored := UnmountTracked();
      }
    }

    /** mkfs, and once more if it failed. */
    method ReformatWithRetry(p: Part) returns (failures: nat)
      requires Valid() && p != Factory
      modifies this`trace
      ensures Valid() && failures <= 2
      ensures var s := old(Now()); Now() == s.(damage := AfterFormats(s.damage, s.mounts.Clear(), p, failures))
    {
      hide Observe;
      ghost var s := Now();
      TwoAttempts(s.damage, s.mounts.Clear(), p);
      var first := Reformat(p);
      if first {
        return 0;
      }
      var second := Reformat(p);
      failures := if second then 1 else 2;
    }

    /** The loop over data and etc. */
    method ReformatBoth() returns (retried: seq<Part>, reformatFailed: seq<Part>)
      requires Valid() && Now().damage.formats == [] && Now().damage.dataFailures == Now().damage.etcFailures == 0
      modifies this`trace
      ensures Valid()
      ensures var s, t := old(Now()), Now();
              && t == s.(damage := t.damage) && BothFormatted(s.damage, t.damage, s.mounts.Clear())
              && retried == Retried(t.damage) && reformatFailed == FailedTwice(t.damage)
    {
      hide Observe, Attempts;
      retried, reformatFailed := [], [];
      ghost var s := Now();
      var parts := [Data, Etc];
      for i := 0 to |parts|
        invariant Valid() && Now() == s.(damage := Now().damage)
        invariant PartlyFormatted(s.damage, Now().damage, s.mounts.Clear(), i)
        invariant retried == Retried(Now().damage) && reformatFailed == FailedTwice(Now().damage)
      {
        var failures := ReformatWithRetry(parts[i]);
        if failures > 0 {
          retried := retried + [parts[i]];
        }
        if failures > 1 {
          reformatFailed := reformatFailed + [parts[i]];
        }
      }
    }

    /** Both mkfs, then one mount whatever came of them. */
    method ReformatAndMountWithRetry() returns (r: Result<RetryReport, Failed>)
      requires Valid() && Data in layout && Etc in layout && mounts == [] && Now().mounts.Clear() && Now().refused == []
      requires Now().damage.formats == [] && Now().damage.dataFailures == Now().damage.etcFailures == 0
      modifies this
      ensures Valid()
      ensures var s, t := old(Now()), Now();
              && t == Seen(t.mounts, t.steps, t.refused, s.copies, t.damage) && BothFormatted(s.damage, t.damage, true)
              && RefusedInAMount(t.refused, layout) && WentAsFar(s, t, WholePlan(layout, persistentVarLog))
              && (t.refused == [] ==> t.mounts == s.mounts.(mounted := AllMounts(layout, rootfs, persistentVarLog)))
              && (t.refused != [] ==> t.mounts.mounted == [])
              && match r
                 case Ok(report) =>
                   && report.retried == Retried(t.damage) && report.reformatFailed == FailedTwice(t.damage)
                   && report.exhausted == SignalOf(t, layout, rootfs) && (t.refused == [] <==> report.exhausted.None?)
                 case Err(failed) =>
                   SignalOf(t, layout, rootfs).None? && t.refused != [] && failed.text == t.refused[0].text
    {
      hide Observe, AllMounts, ErrorOf, ResolveFailedPartition, IsMountStep, BothFormatted, WholePlan;
      var retried, reformatFailed := ReformatBoth();
      ghost var s1 := Now();
      var failed := MountAll();
      HowFarItWent(s1, Now(), failed, layout, rootfs, persistentVarLog);
      if failed.None? {
        return Ok(RetryReport(retried, reformatFailed, None));
      }
      var partition := ResolveFailedPartition(failed.value.error, rootfs, layout[Data], layout[Etc]);
      r := match partition
           case Some(p) => Ok(RetryReport(retried, reformatFailed, Some(Signal(p, failed.value.text))))
           case None => Err(failed.value);
    }

    /** Reformat, mount and restore. Nothing is left mounted. */
    method RunDestructivePhase(preserve: seq<string>, backedUp: seq<string>)
      returns (r: Result<(Status, Option<Signal>), Failed>)
      requires Valid() && Data in layout && Etc in layout && mounts == [] && Now().mounts.Clear() && Now().refused == []
      requires Now().damage.formats == [] && Now().damage.dataFailures == Now().damage.etcFailures == 0
      requires Now().copies.restores == [] && Now().copies.notes == [] && Now().copies.lastError.None?
      modifies this
      ensures Valid() && mounts == []
      ensures var s, t := old(Now()), Now();
              && BothFormatted(s.damage, t.damage, true) && RefusedInAMount(t.refused, layout)
              && WentAsFar(s, t, WholePlan(layout, persistentVarLog))
              && t.copies == s.copies.(bases := t.copies.bases, restores := t.copies.restores, notes := t.copies.notes,
                                       lastError := t.copies.lastError)
              && t.copies.bases <= s.copies.bases + {AllMounts(layout, rootfs, persistentVarLog)}
              && t.copies.restores == (if t.refused == [] then backedUp else [])
      ensures var rebuilt := StatusOf(Unwiped(Now()), preserve, layout, rootfs);
              match r
              case Ok((status, signal)) => status == rebuilt && signal == SignalOf(Now(), layout, rootfs)
              case Err(failed) =>
                DestructivePhaseFailureStatus(failed.text, preserve) == rebuilt && SignalOf(Now(), layout, rootfs).None?
    {
      hide Observe, AllMounts, BothFormatted, ErrorOf, ResolveFailedPartition, JoinWith, PartNames, IsMountStep,
           WholePlan;
      var reformatted := ReformatAndMountWithRetry();
      if reformatted.Err? {
        return Err(reformatted.error);
      }
      var report := reformatted.value;
      if report.exhausted.Some? {
        var signal := report.exhausted.value;
        var ignored := UnmountTracked();
        return Ok((ExhaustedStatus(signal, report.retried, preserve), Some(signal)));
      }
      var restored := RestoreAll(backedUp);
      var failure := UnmountTracked();
      if failure.Some? {
        return Err(Failed(UnmountFailed, failure.value));
      }
      r := Ok((RestoredStatus(report.retried, report.reformatFailed, restored, preserve), None));
    }

    // ---- the whole reset ----

    /** Why a reset that destroyed nothing did not go on, and how far it had come. */
    ghost predicate Stopped(s: Seen, failed: Failed) {
      var plan := WholePlan(layout, persistentVarLog);
      || (&& s.refused != [] && WentAsFar(NOTHING, s, plan)
          && failed == Failed(ErrorOf(s.refused[0].step, layout, rootfs), s.refused[0].text))
      || (s.refused == [] && s.steps == plan && StoppedBehindTheMount(s, failed))
    }

    ghost predicate StoppedBehindTheMount(s: Seen, failed: Failed) {
      || s.copies.backupError == Some(failed)
      || (s.mounts.leak == Some(failed.text) && failed.error == UnmountFailed)
      || (failed == Failed(PartitionMissing, MissingText(Data)) && Data !in layout)
      || (failed == Failed(PartitionMissing, MissingText(Etc)) && Data in layout && Etc !in layout)
    }

    /** Wipe, then rebuild; a failed wipe reaches the status whatever the rebuild reported. */
    method WipeAndRebuild(mode: ResetMode, preserve: seq<string>, backedUp: seq<string>)
      returns (status: Status, signal: Option<Signal>)
      requires Valid() && Data in layout && Etc in layout && mounts == []
      requires Now() == NOTHING.(copies := NOTHING.copies.(backups := backedUp, bases := Now().copies.bases),
                                 steps := WholePlan(layout, persistentVarLog))
      requires Now().copies.bases <= {AllMounts(layout, rootfs, persistentVarLog)}
      modifies this
      ensures Valid() && mounts == [] && Now().damage.careful
      ensures status == StatusOf(Now(), preserve, layout, rootfs) && signal == SignalOf(Now(), layout, rootfs)
      ensures Now().copies.bases <= {AllMounts(layout, rootfs, persistentVarLog)} && Now().copies.backups == backedUp
      ensures WholeReset(Now(), mode, layout, WholePlan(layout, persistentVarLog))
    {
      hide Observe, AllMounts, SignalOf, JoinWith, WholePlan;
      ghost var plan := WholePlan(layout, persistentVarLog);
      var note := WipePartitions(mode);
      var rebuilt := RunDestructivePhase(preserve, backedUp);
      WipeNoteIsApplied(Now(), preserve, layout, rootfs);
      match rebuilt {
        case Ok((reported, sent)) => status, signal := reported, sent;
        case Err(failed) => status, signal := DestructivePhaseFailureStatus(failed.text, preserve), None;
      }
      status := ApplyWipeNote(status, note);
    }

    /**
     The reset. It fails only before anything was destroyed; from there on it ends in a status. Whatever fails,
     every mount it made was taken down once, newest first, and none was in place at a wipe or a mkfs.
     */
    method RunReset(mode: ResetMode, existing: set<string>) returns (r: Result<(Status, Option<Signal>), Failed>)
      requires mounts == [] && trace == []
      modifies this
      ensures Valid() && mounts == [] && Now().damage.careful
      ensures Now().copies.bases <= {AllMounts(layout, rootfs, persistentVarLog)}
      ensures r.Ok? <==> Destroyed(Now().damage)
      ensures match r
              case Ok((status, signal)) =>
                && status == StatusOf(Now(), status.paths, layout, rootfs) && signal == SignalOf(Now(), layout, rootfs)
                && WholeReset(Now(), mode, layout, WholePlan(layout, persistentVarLog))
                && Now().copies.backups == Existing(status.paths, existing)
              case Err(failed) => Stopped(Now(), failed)
    {
      hide AllMounts, Explained, StatusOf, SignalOf, WholeReset, ErrorOf, IsMountStep, WholePlan, PathsOf;
      NothingObserved();
      hide Observe;
      ghost var all := AllMounts(layout, rootfs, persistentVarLog);
      ghost var plan := WholePlan(layout, persistentVarLog);
      assert plan[..|plan|] == plan;
      var failed := FactoryResetMount();
      HowFarItWent(NOTHING, Now(), failed, layout, rootfs, persistentVarLog);
      if failed.Some? {
        var ignored := UnmountTracked();
        return Err(failed.value);
      }
      EverythingIsMounted(Now(), layout, rootfs, persistentVarLog);
      var preserve := BuildPreserveList();
      if preserve.Err? {
        var ignored := UnmountTracked();
        return Err(preserve.error);
      }
      var backedUp := BackupAll(preserve.value, existing);
      if backedUp.Err? {
        var ignored := UnmountTracked();
        return Err(backedUp.error);
      }
      var failure := UnmountTracked();
      if failure.Some? {
        return Err(Failed(UnmountFailed, failure.value));
      }
      if Data !in layout {
        return Err(Failed(PartitionMissing, MissingText(Data)));
      }
      if Etc !in layout {
        return Err(Failed(PartitionMissing, MissingText(Etc)));
      }
      assert NOTHING.copies.backups + backedUp.value == backedUp.value;
      var status, signal := WipeAndRebuild(mode, preserve.value, backedUp.value);
      ResetDestroys(Now(), mode, layout, plan);
      PathsAreReported(Now(), preserve.value, layout, rootfs);
      r := Ok((status, signal));
    }

    /**
     Answers the trigger of a factory reset. A status that says data was wiped is that of the destructive phase;
     without faults of the boot environment the trigger is cleared and a signal stored exactly if there is one.
     */
    method AnswerTrigger(trigger: Result<ResetMode, Failed>, existing: set<string>, env: BootEnv?)
      returns (status: Status)
      requires mounts == [] && trace == []
      modifies this, if env == null then {} else {env}
      ensures Valid() && mounts == [] && Now().damage.careful
      ensures status.dataWiped <==> Destroyed(Now().damage)
      ensures Destroyed(Now().damage) ==>
                && trigger.Ok? && status == StatusOf(Now(), status.paths, layout, rootfs)
                && WholeReset(Now(), trigger.value, layout, WholePlan(layout, persistentVarLog))
      ensures trigger.Err? ==> trace == [] && Aborted(status, trigger.error)
      ensures trigger.Ok? && !Destroyed(Now().damage) ==>
                exists failed :: Stopped(Now(), failed) && Aborted(status, failed)
      ensures env != null && env.clearFaults == old(env.clearFaults) ==> !env.triggered
      ensures env != null && env.saveFaults == old(env.saveFaults) ==>
                env.stored == if Destroyed(Now().damage) && SignalOf(Now(), layout, rootfs).Some?
                              then SignalOf(Now(), layout, rootfs) else old(env.stored)
    {
      hide StatusOf, SignalOf, WholeReset, Stopped, AllMounts, WholePlan, FailureStatusCode;
      NothingObserved();
      hide Observe;
      if env != null {
        var cleared := env.ClearTrigger();
      }
      match trigger
      case Err(failed) =>
        status := AbortedStatus(failed);
      case Ok(mode) =>
        var reset := RunReset(mode, existing);
        match reset
        case Err(failed) =>
          status := AbortedStatus(failed);
        case Ok((reported, signal)) =>
          status := reported;
          StatusSaysWiped(Now(), status.paths, layout, rootfs);
          if signal.Some? && env != null {
            var saved := env.SaveFailure(signal.value);
          }
    }
  }

  /** The boot environment, as far as a reset uses it. */
  class BootEnv {
    var triggered: bool
    var stored: Option<Signal>
    ghost var clearFaults: nat
    ghost var saveFaults: nat

    method ClearTrigger() returns (ok: bool)
      modifies this`triggered, this`clearFaults
      ensures clearFaults == old(clearFaults) + if ok then 0 else 1
      ensures ok ==> !triggered
    {
      ok := *;
      var cleared: bool := *;
      if ok || cleared {
        triggered := false;
      }
      if !ok {
        clearFaults := clearFaults + 1;
      }
    }

    method SaveFailure(signal: Signal) returns (ok: bool)
      modifies this`stored, this`saveFaults
      ensures saveFaults == old(saveFaults) + if ok then 0 else 1
      ensures ok ==> stored == Some(signal)
      ensures stored == old(stored) || stored == Some(signal)
    {
      ok := *;
      var written: bool := *;
      if ok || written {
        stored := Some(signal);
      }
      if !ok {
        saveFaults := saveFaults + 1;
      }
    }
  }

  /** The entries of the list that exist. */
  function Existing(preserve: seq<string>, existing: set<string>): seq<string> {
    if preserve == [] then [] else
      var last := preserve[|preserve| - 1];
      Existing(preserve[..|preserve| - 1], existing) + if last in existing then [last] else []
  }

  // ---- mkfs ----

  ghost function AfterFormats(d: Damage, clear: bool, p: Part, failures: nat): Damage {
    d.(formats := d.formats + Attempts(p, failures), careful := d.careful && clear,
       dataFailures := d.dataFailures + (if p == Data then failures else 0),
       etcFailures := d.etcFailures + (if p == Etc then failures else 0))
  }

  lemma TwoAttempts(d: Damage, clear: bool, p: Part)
    ensures AfterFormat(d, clear, p, true) == AfterFormats(d, clear, p, 0)
    ensures AfterFormat(AfterFormat(d, clear, p, false), clear, p, true) == AfterFormats(d, clear, p, 1)
    ensures AfterFormat(AfterFormat(d, clear, p, false), clear, p, false) == AfterFormats(d, clear, p, 2)
  {
    var twice := AfterFormat(AfterFormat(d, clear, p, false), clear, p, true);
    assert twice.formats == d.formats + [p] + [p] == d.formats + [p, p];
  }

  /** The loop over data and etc with i of them behind it. */
  ghost predicate PartlyFormatted(d: Damage, d': Damage, clear: bool, i: nat) {
    && d'.wipes == d.wipes && d'.wipeNotes == d.wipeNotes
    && d'.careful == (d.careful && (i > 0 ==> clear))
    && d'.formats == (if i > 0 then Attempts(Data, d'.dataFailures) else [])
                     + (if i > 1 then Attempts(Etc, d'.etcFailures) else [])
    && d'.dataFailures <= (if i > 0 then 2 else 0) && d'.etcFailures <= (if i > 1 then 2 else 0)
  }

  /** Data, then etc was formatted, each once and once more if that failed. */
  ghost predicate BothFormatted(d: Damage, d': Damage, clear: bool) {
    && d'.wipes == d.wipes && d'.wipeNotes == d.wipeNotes
    && d'.careful == (d.careful && clear)
    && d'.formats == Attempts(Data, d'.dataFailures) + Attempts(Etc, d'.etcFailures)
    && d'.dataFailures <= 2 && d'.etcFailures <= 2
  }

  // ---- the reset as a whole ----

  /** At most one step was refused, and it was one of a mount. */
  ghost predicate RefusedInAMount(refused: seq<RefusedStep>, layout: Layout) {
    && |refused| <= 1
    && (refused != [] ==>
          IsMountStep(refused[0].step) && (refused[0].step.MountDevice? ==> refused[0].step.p in layout))
  }

  ghost function WipesOf(mode: ResetMode): seq<Wipe> {
    match mode
    case Mode1 => []
    case Mode2 => [Wipe(Random, Etc), Wipe(Random, Data)]
    case Mode3 => [Wipe(Discard, Etc), Wipe(Discard, Data)]
  }

  function MissingText(p: Part): string {
    "Mount error: " + PartName(p) + " partition not found in layout"
  }

  /** Since s, one mount was made: all of the plan, or the steps in front of the one that was refused. */
  ghost predicate WentAsFar(s: Seen, t: Seen, plan: seq<Step>) {
    var k := |t.steps| - |s.steps|;
    && 0 <= k <= |plan| && t.steps == s.steps + plan[..k]
    && (t.refused == [] <==> k == |plan|)
    && (t.refused != [] ==> t.refused[0].step == plan[k])
  }

  lemma HowFarItWent(s: Seen, t: Seen, r: Option<Failed>, layout: Layout, rootfs: Path, persistentVarLog: bool)
    requires Explained(s, t, WholePlan(layout, persistentVarLog), r, layout, rootfs) && s.refused == []
    ensures WentAsFar(s, t, WholePlan(layout, persistentVarLog)) && RefusedInAMount(t.refused, layout)
    ensures match r
            case None => t.refused == [] && t.steps == s.steps + WholePlan(layout, persistentVarLog)
            case Some(failed) =>
              && |t.refused| == 1
              && failed == Failed(ErrorOf(t.refused[0].step, layout, rootfs), t.refused[0].text)
  {
    hide WholePlan, IsMountStep, ErrorOf;
    PlanIsOfAMount(layout, persistentVarLog);
    var plan := WholePlan(layout, persistentVarLog);
    assert plan[..|plan|] == plan;
  }

  /** What a reset that destroyed something did, with `plan` for its two mounts. */
  ghost predicate WholeReset(s: Seen, mode: ResetMode, layout: Layout, plan: seq<Step>) {
    && s.damage.wipes == WipesOf(mode)
    && s.damage.formats == Attempts(Data, s.damage.dataFailures) + Attempts(Etc, s.damage.etcFailures)
    && s.damage.dataFailures <= 2 && s.damage.etcFailures <= 2
    && WentAsFar(NOTHING.(steps := plan), s, plan) && RefusedInAMount(s.refused, layout)
    && s.copies.restores == (if s.refused == [] then s.copies.backups else [])
  }

  ghost function Unwiped(s: Seen): Seen {
    s.(damage := s.damage.(wipeNotes := []))
  }

  lemma WipeNoteIsApplied(s: Seen, preserve: seq<string>, layout: Layout, rootfs: Path)
    ensures ApplyWipeNote(StatusOf(Unwiped(s), preserve, layout, rootfs), WipeNotes(s.damage))
         == StatusOf(s, preserve, layout, rootfs)
    ensures SignalOf(Unwiped(s), layout, rootfs) == SignalOf(s, layout, rootfs)
  {
  }

  lemma NothingObserved()
    ensures Observe([]) == NOTHING
  {
  }

  lemma OneStep(step: Step, rootfs: Path)
    ensures [step][..0] == [] && [step][..1] == [step]
    ensures PathsOf([], rootfs) == [] && PathsOf([step], rootfs) == MountedBy(step, rootfs)
  {
    assert [step][..0] == [];
  }

  lemma NoBinds(binds: seq<(Path, Path)>)
    ensures BindsPlan(binds[..0]) == []
  {
  }

  lemma OneMoreBind(binds: seq<(Path, Path)>, i: nat)
    requires i < |binds|
    ensures BindsPlan(binds[..i + 1]) == BindsPlan(binds[..i]) + BindPlan(binds[i])
  {
    assert binds[..i + 1][..i] == binds[..i];
  }

  lemma {:induction false} RestOfBinds(binds: seq<(Path, Path)>, i: nat) returns (rest: seq<Step>)
    requires i <= |binds|
    ensures BindsPlan(binds) == BindsPlan(binds[..i]) + rest
    decreases |binds| - i
  {
    if i == |binds| {
      assert binds[..i] == binds;
      rest := [];
    } else {
      OneMoreBind(binds, i);
      var behind := RestOfBinds(binds, i + 1);
      rest := BindPlan(binds[i]) + behind;
    }
  }

  lemma EverythingIsMounted(s: Seen, layout: Layout, rootfs: Path, persistentVarLog: bool)
    requires Mounting(NOTHING, s, WholePlan(layout, persistentVarLog), None, layout, rootfs)
    ensures s.mounts.mounted == AllMounts(layout, rootfs, persistentVarLog)
  {
    hide WholePlan, PathsOf;
    var plan := WholePlan(layout, persistentVarLog);
    assert plan[..|plan|] == plan;
  }

  /** What a reset of a device with all partitions has mounted, path by path. */
  lemma MountsOfAReset(layout: Layout, rootfs: Path, persistentVarLog: bool)
    requires Factory in layout && Etc in layout && Data in layout
    ensures AllMounts(layout, rootfs, persistentVarLog)
         == [rootfs + ["mnt", "factory"], rootfs + ["mnt", "etc"], rootfs + ["mnt", "data"], rootfs + ["etc"],
             rootfs + ["home"], rootfs + ["var", "lib"], rootfs + ["usr", "local"]]
            + if persistentVarLog then [rootfs + ["var", "log"]] else []
  {
    hide PathsOf;
    var a, b, c := PartitionPlan(Factory, layout), PartitionPlan(Etc, layout), PartitionPlan(Data, layout);
    var d, home := OverlayPlan(Etc, ETC_BELOW), OverlayPlan(Data, HOME_BELOW);
    var binds := BindsPlan(Binds(persistentVarLog));
    PathsOfBoth(a + b + c + d, home + binds, rootfs);
    PathsOfBoth(a + b + c, d, rootfs);
    PathsOfBoth(a + b, c, rootfs);
    PathsOfBoth(a, b, rootfs);
    PathsOfBoth(home, binds, rootfs);
    PathsOfAPartition(Factory, layout, rootfs);
    PathsOfAPartition(Etc, layout, rootfs);
    PathsOfAPartition(Data, layout, rootfs);
    PathsOfAnOverlay(Etc, ETC_BELOW, rootfs);
    PathsOfAnOverlay(Data, HOME_BELOW, rootfs);
    PathsOfTheBinds(persistentVarLog, rootfs);
  }

  lemma PathsOfAPartition(p: Part, layout: Layout, rootfs: Path)
    requires p in layout
    ensures PathsOf(PartitionPlan(p, layout), rootfs) == [rootfs + MountPoint(p)]
  {
    assert [Fsck(p)] + [MountDevice(p)] == PartitionPlan(p, layout);
    PathsOfBoth([Fsck(p)], [MountDevice(p)], rootfs);
    OneStep(Fsck(p), rootfs);
    OneStep(MountDevice(p), rootfs);
  }

  lemma {:induction false} PathsOfPreparations(p: Part, below: seq<Path>, rootfs: Path)
    ensures PathsOf(Preparations(p, below), rootfs) == []
  {
    if below != [] {
      var n := |below| - 1;
      PathsOfPreparations(p, below[..n], rootfs);
      assert Preparations(p, below)[..n] == Preparations(p, below[..n]);
    }
  }

  lemma PathsOfAnOverlay(p: Part, below: seq<Path>, rootfs: Path)
    ensures PathsOf(OverlayPlan(p, below), rootfs) == [rootfs + OverlayTarget(p)]
  {
    PathsOfBoth(Preparations(p, below), [MountOverlay(p)], rootfs);
    PathsOfPreparations(p, below, rootfs);
    OneStep(MountOverlay(p), rootfs);
  }

  lemma PathsOfABind(bind: (Path, Path), rootfs: Path)
    ensures PathsOf(BindPlan(bind), rootfs) == [rootfs + bind.1]
  {
    var a, b, c := PrepareBindSource(bind.0), PrepareBindTarget(bind.1), MountBind(bind.0, bind.1);
    assert [a] + [b] + [c] == BindPlan(bind);
    PathsOfBoth([a] + [b], [c], rootfs);
    PathsOfBoth([a], [b], rootfs);
    OneStep(a, rootfs);
    OneStep(b, rootfs);
    OneStep(c, rootfs);
  }

  lemma PathsOfTheBinds(persistentVarLog: bool, rootfs: Path)
    ensures PathsOf(BindsPlan(Binds(persistentVarLog)), rootfs)
         == [rootfs + ["var", "lib"], rootfs + ["usr", "local"]]
            + if persistentVarLog then [rootfs + ["var", "log"]] else []
  {
    hide PathsOf, BindsPlan;
    var binds := Binds(persistentVarLog);
    NoBinds(binds);
    OneMoreBind(binds, 0);
    OneMoreBind(binds, 1);
    assert [] + BindPlan(binds[0]) == BindPlan(binds[0]);
    PathsOfBoth(BindPlan(binds[0]), BindPlan(binds[1]), rootfs);
    PathsOfABind(binds[0], rootfs);
    PathsOfABind(binds[1], rootfs);
    if persistentVarLog {
      OneMoreBind(binds, 2);
      PathsOfBoth(BindPlan(binds[0]) + BindPlan(binds[1]), BindPlan(binds[2]), rootfs);
      PathsOfABind(binds[2], rootfs);
      assert binds[..3] == binds;
    } else {
      assert binds[..2] == binds;
    }
  }

  lemma ResetDestroys(s: Seen, mode: ResetMode, layout: Layout, plan: seq<Step>)
    requires WholeReset(s, mode, layout, plan)
    ensures Destroyed(s.damage)
  {
    assert s.damage.formats[0] == Data;
  }

  lemma PathsAreReported(s: Seen, preserve: seq<string>, layout: Layout, rootfs: Path)
    ensures StatusOf(s, preserve, layout, rootfs).paths == preserve
  {
  }

  lemma StatusSaysWiped(s: Seen, preserve: seq<string>, layout: Layout, rootfs: Path)
    ensures StatusOf(s, preserve, layout, rootfs).dataWiped
  {
  }

  // ---- resets that do not report what they should ----

  /** A mount that makes its whole plan. */
  function MountOps(plan: seq<Step>, rootfs: Path): seq<Op> {
    if plan == [] then [] else MountOps(plan[..|plan| - 1], rootfs) + StepOps(plan[|plan| - 1], rootfs)
  }

  function StepOps(step: Step, rootfs: Path): seq<Op> {
    [Made(step)] + if MountedBy(step, rootfs) == [] then [] else [Mounted(MountedBy(step, rootfs)[0])]
  }

  /** The paths are taken down, newest first. */
  function Takedown(paths: seq<Path>, failure: Option<string>): seq<Op> {
    if paths == [] then [] else [Unmounted(paths[|paths| - 1], failure)] + Takedown(paths[..|paths| - 1], failure)
  }

  ghost function AfterMount(s: Seen, plan: seq<Step>, rootfs: Path): Seen {
    s.(mounts := s.mounts.(mounted := s.mounts.mounted + PathsOf(plan, rootfs)), steps := s.steps + plan)
  }

  lemma ObserveStep(trace: seq<Op>, step: Step, rootfs: Path)
    ensures Observe(trace + StepOps(step, rootfs)) == AfterMount(Observe(trace), [step], rootfs)
  {
    hide Observe;
    var s, paths := Observe(trace), MountedBy(step, rootfs);
    ObserveOneMore(trace, Made(step));
    OneStep(step, rootfs);
    if paths == [] {
      assert trace + StepOps(step, rootfs) == trace + [Made(step)];
      assert s.mounts.mounted + [] == s.mounts.mounted;
    } else {
      ObserveOneMore(trace + [Made(step)], Mounted(paths[0]));
      assert trace + StepOps(step, rootfs) == trace + [Made(step)] + [Mounted(paths[0])];
    }
  }

  lemma {:induction false} ObserveMounts(trace: seq<Op>, plan: seq<Step>, rootfs: Path)
    ensures Observe(trace + MountOps(plan, rootfs)) == AfterMount(Observe(trace), plan, rootfs)
  {
    hide Observe, StepOps, MountedBy;
    var s := Observe(trace);
    if plan == [] {
      assert trace + MountOps(plan, rootfs) == trace;
      assert s.mounts.mounted + [] == s.mounts.mounted && s.steps + [] == s.steps;
    } else {
      var n := |plan| - 1;
      var front := trace + MountOps(plan[..n], rootfs);
      ObserveMounts(trace, plan[..n], rootfs);
      ObserveStep(front, plan[n], rootfs);
      assert trace + MountOps(plan, rootfs) == front + StepOps(plan[n], rootfs);
      AfterMountsInTwo(s, plan[..n], plan[n], rootfs);
      assert plan == plan[..n] + [plan[n]];
    }
  }

  lemma AfterMountsInTwo(s: Seen, front: seq<Step>, step: Step, rootfs: Path)
    ensures AfterMount(AfterMount(s, front, rootfs), [step], rootfs) == AfterMount(s, front + [step], rootfs)
  {
    hide PathsOf;
    PathsOfBoth(front, [step], rootfs);
    AppendTwice(s.steps, front, [step]);
    AppendTwice(s.mounts.mounted, PathsOf(front, rootfs), PathsOf([step], rootfs));
  }

  lemma UnmountNewest(s: Seen, failure: Option<string>)
    requires s.mounts.mounted != [] && s.mounts.orderly
    ensures var n := |s.mounts.mounted| - 1;
            After(s, Unmounted(s.mounts.mounted[n], failure))
            == s.(mounts := Mounts(s.mounts.mounted[..n], true, if failure.Some? then failure else s.mounts.leak))
  {
  }

  lemma {:induction false} ObserveTakedown(trace: seq<Op>, paths: seq<Path>, failure: Option<string>)
    requires Observe(trace).mounts.mounted == paths && Observe(trace).mounts.orderly
    ensures var leak := if paths != [] && failure.Some? then failure else Observe(trace).mounts.leak;
            Observe(trace + Takedown(paths, failure)) == Observe(trace).(mounts := Mounts([], true, leak))
    decreases |paths|
  {
    hide Observe, After;
    if paths == [] {
      assert trace + Takedown(paths, failure) == trace;
    } else {
      var n := |paths| - 1;
      var op := Unmounted(paths[n], failure);
      ObserveOneMore(trace, op);
      UnmountNewest(Observe(trace), failure);
      assert trace + Takedown(paths, failure) == trace + [op] + Takedown(paths[..n], failure);
      ObserveTakedown(trace + [op], paths[..n], failure);
    }
  }

  /** Mounted and unmounted with nothing to back up, then both partitions are formatted, data with a second mkfs. */
  ghost function Reformatted(plan: seq<Step>, rootfs: Path): seq<Op> {
    MountOps(plan, rootfs) + Takedown(PathsOf(plan, rootfs), None)
    + [Formatted(Data, false)] + [Formatted(Data, true)] + [Formatted(Etc, true)]
  }

  const DATA_TWICE: Damage := Damage(true, [], [], [Data, Data, Etc], 1, 0)

  lemma ThreeFormats(s: Seen)
    requires s == NOTHING.(steps := s.steps)
    ensures After(After(After(s, Formatted(Data, false)), Formatted(Data, true)), Formatted(Etc, true))
         == s.(damage := DATA_TWICE)
  {
    assert [Data] + [Data] + [Etc] == [Data, Data, Etc];
  }

  lemma ReformattedMeans(plan: seq<Step>, rootfs: Path)
    ensures Observe(Reformatted(plan, rootfs)) == NOTHING.(steps := plan, damage := DATA_TWICE)
  {
    NothingObserved();
    var mounting, all := MountOps(plan, rootfs), PathsOf(plan, rootfs);
    assert [] + mounting == mounting && [] + all == all && [] + plan == plan;
    ObserveMounts([], plan, rootfs);
    hide Observe, After, MountOps, Takedown, PathsOf;
    ObserveTakedown(mounting, all, None);
    var trace := mounting + Takedown(all, None);
    assert Observe(trace) == NOTHING.(steps := plan);
    ObserveOneMore(trace, Formatted(Data, false));
    ObserveOneMore(trace + [Formatted(Data, false)], Formatted(Data, true));
    ObserveOneMore(trace + [Formatted(Data, false)] + [Formatted(Data, true)], Formatted(Etc, true));
    ThreeFormats(Observe(trace));
  }

  lemma StatusOfALeak(layout: Layout, rootfs: Path, plan: seq<Step>, reason: string)
    ensures var s := NOTHING.(mounts := Mounts([], true, Some(reason)), steps := plan + plan, damage := DATA_TWICE);
            && WholeReset(s, Mode1, layout, plan) && Retried(s.damage) == [Data]
            && StatusOf(s, [], layout, rootfs) == Status(Failure, Some(reason), None, [], true)
  {
    assert plan[..|plan|] == plan;
  }

  lemma SomethingIsMounted(layout: Layout, rootfs: Path, persistentVarLog: bool)
    ensures AllMounts(layout, rootfs, persistentVarLog) != []
  {
    hide PathsOf, PartitionPlan, BindsPlan, Binds;
    var partitions := PartitionPlan(Factory, layout) + PartitionPlan(Etc, layout) + PartitionPlan(Data, layout);
    PathsOfBoth(partitions + OverlayPlan(Etc, ETC_BELOW), DataPlan(persistentVarLog), rootfs);
    PathsOfBoth(partitions, OverlayPlan(Etc, ETC_BELOW), rootfs);
    PathsOfAnOverlay(Etc, ETC_BELOW, rootfs);
  }

  /** A reset whose last unmount failed: the second mkfs of data is not in its status. */
  lemma AFailedUnmountHidesTheNote(layout: Layout, rootfs: Path, persistentVarLog: bool, reason: string)
    returns (trace: seq<Op>)
    ensures var s := Observe(trace);
            && WholeReset(s, Mode1, layout, WholePlan(layout, persistentVarLog))
            && s.mounts.mounted == [] && s.mounts.orderly && s.damage.careful
            && s.refused == [] && Retried(s.damage) == [Data]
            && StatusOf(s, [], layout, rootfs) == Status(Failure, Some(reason), None, [], true)
  {
    hide Observe, MountOps, Takedown, Reformatted, WholeReset, StatusOf, Retried, WholePlan, PathsOf;
    var plan := WholePlan(layout, persistentVarLog);
    var all := PathsOf(plan, rootfs);
    SomethingIsMounted(layout, rootfs, persistentVarLog);
    var before := Reformatted(plan, rootfs);
    trace := before + MountOps(plan, rootfs) + Takedown(all, Some(reason));
    ReformattedMeans(plan, rootfs);
    ObserveMounts(before, plan, rootfs);
    assert [] + all == all;
    ObserveTakedown(before + MountOps(plan, rootfs), all, Some(reason));
    StatusOfALeak(layout, rootfs, plan, reason);
  }

  lemma FirstStep(layout: Layout, persistentVarLog: bool)
    requires Factory !in layout && Etc in layout
    ensures var plan := WholePlan(layout, persistentVarLog); |plan| > 0 && plan[0] == Fsck(Etc)
  {
    hide OverlayPlan, DataPlan;
  }

  /** A reset that could not check a partition: neither the second mkfs of data nor the partition is reported. */
  lemma ARefusedCheckHidesTheNote(layout: Layout, rootfs: Path, persistentVarLog: bool, reason: string)
    returns (trace: seq<Op>)
    requires Factory !in layout && Etc in layout && Data in layout && SaneLayout(layout, rootfs)
    ensures var s := Observe(trace);
            && WholeReset(s, Mode1, layout, WholePlan(layout, persistentVarLog))
            && s.mounts.Clear() && s.mounts.orderly && s.damage.careful
            && s.refused == [RefusedStep(Fsck(Etc), reason)] && Retried(s.damage) == [Data]
            && StatusOf(s, [], layout, rootfs) == Status(Failure, Some(reason), None, [], true)
            && SignalOf(s, layout, rootfs).None?
  {
    hide Observe, Reformatted, ResolveFailedPartition, ErrorOf, WholePlan;
    var plan := WholePlan(layout, persistentVarLog);
    FirstStep(layout, persistentVarLog);
    var before := Reformatted(plan, rootfs);
    trace := before + [Refused(Fsck(Etc), reason)];
    ReformattedMeans(plan, rootfs);
    ObserveOneMore(before, Refused(Fsck(Etc), reason));
    assert Observe(trace).refused == [RefusedStep(Fsck(Etc), reason)];
    assert plan + plan[..0] == plan;
    SignalMeansBlamed(Observe(trace), layout, rootfs);
  }

  lemma NothingMounted(s: Seen, layout: Layout, rootfs: Path)
    ensures Mounting(s, s, [], None, layout, rootfs)
  {
    assert s.steps + [] == s.steps && s.mounts.mounted + [] == s.mounts.mounted;
  }
}
