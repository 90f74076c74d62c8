/**
 Results of filesystem checks on their way to omnect-device-service: recorded in the status of
 a boot, kept in the boot environment across reboots, drained into the status that is handed over.
 */
module FsckRecords {
  import opened Common

  datatype Partition = Boot | Factory | Cert | Etc | Data

  const FSCK_PARTITIONS: seq<Partition> := [Boot, Factory, Cert, Etc, Data]

  datatype Record = Record(code: int, output: string) {
    predicate IsClean() {
      code == 0
    }
  }

  type Records = map<Partition, Record>

  ghost function At(records: Records, p: Partition): Option<Record> {
    if p in records then Some(records[p]) else None
  }

  ghost predicate OnlyChangedAt(a: Records, b: Records, p: Partition) {
    forall q :: q != p ==> At(a, q) == At(b, q)
  }

  /** What recording `newer` makes of `older`: clean results are left out, any other replaces the old one. */
  ghost function Recorded(older: Option<Record>, newer: Option<Record>): Option<Record> {
    if newer.Some? && !newer.value.IsClean() then newer else older
  }

  /** The last save of a partition in this boot: what was handed to the environment, and whether it took it. */
  datatype SaveCall = SaveCall(record: Record, ok: bool)

  type SaveCalls = map<Partition, SaveCall>

  ghost function CallAt(calls: SaveCalls, p: Partition): Option<SaveCall> {
    if p in calls then Some(calls[p]) else None
  }

  ghost function HandedIn(calls: SaveCalls): Records {
    map p | p in calls :: calls[p].record
  }

  ghost function RefusedIn(calls: SaveCalls): set<Partition> {
    set p | p in calls && !calls[p].ok
  }

  /** The environment has what this boot saved last, else what it had at the start. */
  ghost predicate TrackedAt(start: Records, records: Records, calls: SaveCalls, p: Partition) {
    match CallAt(calls, p)
    case None => At(records, p) == At(start, p)
    case Some(call) => !call.record.IsClean() && (call.ok ==> At(records, p) == Some(call.record))
  }

  /**
   The fsck records in the boot environment, as one boot sees them. Its operations may fail, a failed save may leave
   anything it touched, and power may be lost in front of each.
   */
  class Store {
    var records: Records
    // GRUB keeps most records in files that a read removes.
    const consumedByRead: bool
    ghost const start: Records
    ghost var calls: SaveCalls
    ghost var faults: nat
    // The partitions whose record could not be read or cleared by the drain.
    ghost var drainFaults: set<Partition>
    ghost var powerLost: bool

    constructor (records: Records, consumedByRead: bool)
      ensures this.records == start == records && this.consumedByRead == consumedByRead
      ensures calls == map[] && drainFaults == {} && !powerLost
    {
      this.records, this.start, this.consumedByRead := records, records, consumedByRead;
      calls, drainFaults, powerLost := map[], {}, false;
    }

    ghost predicate Tracks()
      reads this
    {
      forall p :: TrackedAt(start, records, calls, p)
    }

    /** The records that this boot handed to the environment, and the partitions whose last save was refused. */
    ghost function Handed(): Records
      reads this
    {
      HandedIn(calls)
    }

    ghost function Refused(): set<Partition>
      reads this
    {
      RefusedIn(calls)
    }

    method MayLosePower() returns (lost: bool)
      modifies this`powerLost
      ensures powerLost <==> lost || old(powerLost)
    {
      lost := *;
      if lost {
        powerLost := true;
      }
    }

    method Save(p: Partition, record: Record) returns (ok: bool)
      modifies this`records, this`calls, this`faults
      ensures OnlyChangedAt(old(records), records, p)
      ensures ok ==> At(records, p) == Some(record) && faults == old(faults)
      ensures !ok ==> faults == old(faults) + 1
      ensures calls == old(calls)[p := SaveCall(record, ok)]
    {
      ok := *;
      calls := calls[p := SaveCall(record, ok)];
      var written: bool := *;
      var removed: bool := *;
      if ok || written {
        records := records[p := record];
      } else if removed {
        records := records - {p};
      }
      if !ok {
        faults := faults + 1;
      }
    }

    method Get(p: Partition) returns (r: Result<Option<Record>, ()>)
      modifies this`records, this`faults, this`drainFaults
      ensures OnlyChangedAt(old(records), records, p)
      ensures At(records, p) in {None, old(At(records, p))}
      ensures match r
              case Err(_) => records == old(records)
              case Ok(record) => record == old(At(records, p))
      ensures faults == old(faults) + if r.Ok? then 0 else 1
      ensures drainFaults == old(drainFaults) + if r.Ok? then {} else {p}
    {
      var failed: bool := *;
      if failed {
        faults, drainFaults := faults + 1, drainFaults + {p};
        return Err(());
      }
      if p !in records {
        return Ok(None);
      }
      r := Ok(Some(records[p]));
      if consumedByRead {
        records := records - {p};
      }
    }

    method Clear(p: Partition) returns (ok: bool)
      modifies this`records, this`faults, this`drainFaults
      ensures OnlyChangedAt(old(records), records, p)
      ensures At(records, p) in {None, old(At(records, p))}
      ensures ok ==> At(records, p).None?
      ensures faults == old(faults) + if ok then 0 else 1
      ensures drainFaults == old(drainFaults) + if ok then {} else {p}
    {
      ok := *;
      var removed: bool := *;
      if ok || removed {
        records := records - {p};
      }
      if !ok {
        faults, drainFaults := faults + 1, drainFaults + {p};
      }
    }
  }

  class OdsStatus {
    var fsck: Records
    // Every check of this boot, in order.
    ghost var seen: seq<Check>

    constructor ()
      ensures fsck == map[] && seen == []
    {
      fsck, seen := map[], [];
    }

    method RecordFsckResult(p: Partition, record: Record)
      modifies `fsck
      ensures At(fsck, p) == Recorded(old(At(fsck, p)), Some(record))
      ensures At(fsck, p) == if record.code == 0 then old(At(fsck, p)) else Some(record)
      ensures OnlyChangedAt(old(fsck), fsck, p)
    {
      if record.IsClean() {
        return;
      }
      fsck := fsck[p := record];
    }
  }

  datatype FsckOutcome = Checked(record: Record) | RequiresReboot(record: Record) | NotRun {
    function Result(): Option<Record> {
      if NotRun? then None else Some(record)
    }
  }

  /** A check and whether the mount behind it succeeds. */
  datatype Check = Check(partition: Partition, outcome: FsckOutcome, mounts: bool) {
    predicate Passes() {
      outcome.Checked? && mounts
    }
  }

  ghost predicate AllPass(checks: seq<Check>) {
    forall i :: 0 <= i < |checks| ==> checks[i].Passes()
  }

  /** How many checks are made: the first that does not pass is the last. */
  function Made(checks: seq<Check>): (n: nat)
    ensures n <= |checks|
  {
    if checks == [] then 0 else if !checks[0].Passes() then 1 else 1 + Made(checks[1..])
  }

  lemma {:induction false} MadeIs(checks: seq<Check>, n: nat)
    requires n <= |checks| && forall i :: 0 <= i < n ==> checks[i].Passes()
    ensures n == |checks| ==> Made(checks) == n
    ensures n < |checks| && !checks[n].Passes() ==> Made(checks) == n + 1
  {
    if n > 0 {
      MadeIs(checks[1..], n - 1);
    }
  }

  /** The newest result of p in `checks` that is not clean. */
  ghost function Newest(checks: seq<Check>, p: Partition): (newest: Option<Record>)
    ensures newest.Some? ==> !newest.value.IsClean()
  {
    if |checks| == 0 then None else
      var last := checks[|checks| - 1];
      var before := Newest(checks[..|checks| - 1], p);
      if last.partition == p then Recorded(before, last.outcome.Result()) else before
  }

  /** A result is recorded even when it ends the boot. */
  method FsckAndRecord(check: Check, ods: OdsStatus) returns (ok: bool)
    modifies ods
    ensures At(ods.fsck, check.partition) == Recorded(old(At(ods.fsck, check.partition)), check.outcome.Result())
    ensures OnlyChangedAt(old(ods.fsck), ods.fsck, check.partition)
    ensures ods.seen == old(ods.seen) + [check]
    ensures ok <==> check.outcome.Checked?
  {
    ods.seen := ods.seen + [check];
    match check.outcome
    case Checked(record) =>
      ods.RecordFsckResult(check.partition, record);
      return true;
    case RequiresReboot(record) =>
      ods.RecordFsckResult(check.partition, record);
      return false;
    case NotRun =>
      return false;
  }

  /** The partition has a record of this boot that has to be saved. */
  ghost predicate HasNews(ods: Records, p: Partition) {
    Recorded(None, At(ods, p)).Some?
  }

  /** A persist did nothing for p, which it has no news of or did not come to. */
  ghost predicate UntouchedAt(records: Records, calls: SaveCalls, records': Records, calls': SaveCalls, p: Partition) {
    At(records', p) == At(records, p) && CallAt(calls', p) == CallAt(calls, p)
  }

  /** A persist handed the news of p to the environment. */
  ghost predicate NewsSavedAt(ods: Records, calls: SaveCalls, p: Partition) {
    HasNews(ods, p) && CallAt(calls, p) in {Some(SaveCall(ods[p], true)), Some(SaveCall(ods[p], false))}
  }

  /** Saves the news, one after the other; power may be lost in front of each. */
  method PersistFsckResults(ods: OdsStatus, store: Store?) returns (lost: bool)
    requires store != null ==> store.Tracks() && !store.powerLost
    modifies if store == null then {} else {store}
    ensures store == null ==> !lost
    ensures store != null ==> store.drainFaults == old(store.drainFaults)
    ensures store != null ==>
              && store.Tracks() && (lost <==> store.powerLost)
              && (forall p :: UntouchedAt(old(store.records), old(store.calls), store.records, store.calls, p)
                              || NewsSavedAt(ods.fsck, store.calls, p))
              && (!lost ==> forall p :: HasNews(ods.fsck, p) ==> NewsSavedAt(ods.fsck, store.calls, p))
              && (forall p :: !HasNews(ods.fsck, p) ==>
                    UntouchedAt(old(store.records), old(store.calls), store.records, store.calls, p))
              && store.faults >= old(store.faults)
              && (store.faults == old(store.faults) ==> store.Refused() <= old(store.Refused()))
  {
    lost := false;
    if store == null {
      return;
    }
    hide At;
    var todo := ods.fsck.Keys;
    NewsAreRecords(ods.fsck);
    while todo != {}
      invariant todo <= ods.fsck.Keys && store.Tracks() && !store.powerLost
      invariant store.drainFaults == old(store.drainFaults)
      invariant forall p :: p !in todo && HasNews(ods.fsck, p) ==> NewsSavedAt(ods.fsck, store.calls, p)
      invariant forall p :: p in todo || !HasNews(ods.fsck, p) ==>
                  UntouchedAt(old(store.records), old(store.calls), store.records, store.calls, p)
      invariant store.faults >= old(store.faults)
      invariant store.faults == old(store.faults) ==> store.Refused() <= old(store.Refused())
      decreases todo
    {
      lost := store.MayLosePower();
      if lost {
        return;
      }
      var p :| p in todo;
      todo := todo - {p};
      var record := ods.fsck[p];
      RecordAt(ods.fsck, p);
      if !record.IsClean() {
        ghost var records, calls := store.records, store.calls;
        var ok := store.Save(p, record);
        SaveIsTracked(store.start, records, calls, store.records, store.calls, p, SaveCall(record, ok));
      }
    }
  }

  lemma SaveIsTracked(start: Records, records: Records, calls: SaveCalls, records': Records, calls': SaveCalls,
                      p: Partition, call: SaveCall)
    requires forall q :: TrackedAt(start, records, calls, q)
    requires OnlyChangedAt(records, records', p) && calls' == calls[p := call]
    requires !call.record.IsClean() && (call.ok ==> At(records', p) == Some(call.record))
    ensures forall q :: TrackedAt(start, records', calls', q)
  {
    hide At;
    forall q
      ensures TrackedAt(start, records', calls', q)
    {
      assert TrackedAt(start, records, calls, q);
    }
  }

  lemma RecordAt(records: Records, p: Partition)
    requires p in records
    ensures At(records, p) == Some(records[p])
  {
  }

  lemma NewsAreRecords(records: Records)
    ensures forall p :: HasNews(records, p) ==> p in records
  {
  }

  /** One partition of a drain, whatever fails: its record stays, or the status has it now. */
  ghost predicate DrainedAt(ods: Records, store: Records, ods': Records, store': Records, p: Partition) {
    && At(store', p) in {None, At(store, p)}
    && (|| (At(ods', p) == At(ods, p) && At(store', p) == At(store, p))
        || At(ods', p) == Recorded(At(ods, p), At(store, p)))
  }

  /** The drain left nothing of p behind. */
  ghost predicate EmptiedAt(ods: Records, store: Records, ods': Records, store': Records, p: Partition) {
    At(store', p).None? && At(ods', p) == Recorded(At(ods, p), At(store, p))
  }

  /**
   The body of the drain loop. Power may be lost in front of the read and in front of the clear; what was read is in
   the status then, which is lost with the memory, and GRUB has no file of it any more.
   */
  method DrainPartition(p: Partition, ods: OdsStatus, store: Store) returns (lost: bool)
    requires !store.powerLost
    modifies ods`fsck, store`records, store`faults, store`drainFaults, store`powerLost
    ensures DrainedAt(old(ods.fsck), old(store.records), ods.fsck, store.records, p)
    ensures OnlyChangedAt(old(ods.fsck), ods.fsck, p) && OnlyChangedAt(old(store.records), store.records, p)
    ensures store.faults >= old(store.faults) && (lost <==> store.powerLost)
    ensures old(store.drainFaults) <= store.drainFaults <= old(store.drainFaults) + {p}
    ensures store.faults == old(store.faults) ==> store.drainFaults == old(store.drainFaults)
    ensures p !in store.drainFaults && !lost ==>
              EmptiedAt(old(ods.fsck), old(store.records), ods.fsck, store.records, p)
  {
    hide At;
    lost := store.MayLosePower();
    if lost {
      return;
    }
    var r := store.Get(p);
    if r.Ok? && r.value.Some? {
      ods.RecordFsckResult(p, r.value.value);
      lost := store.MayLosePower();
      if lost {
        return;
      }
      var ok := store.Clear(p);
    }
  }

  /** The drain between two partitions: those in `todo` are untouched, and none but those in `stuck` is left behind. */
  ghost predicate Draining(ods: Records, store: Records, ods': Records, store': Records,
                           todo: set<Partition>, stuck: set<Partition>) {
    && (forall p :: p in todo ==> At(ods', p) == At(ods, p) && At(store', p) == At(store, p))
    && (forall p :: p !in todo ==> DrainedAt(ods, store, ods', store', p))
    && (forall p :: p !in todo && p !in stuck ==> EmptiedAt(ods, store, ods', store', p))
  }

  lemma DrainOneMore(ods: Records, store: Records, odsB: Records, storeB: Records, odsA: Records, storeA: Records,
                     todo: set<Partition>, p: Partition, before: set<Partition>, after: set<Partition>)
    requires Draining(ods, store, odsB, storeB, todo, before) && p in todo && before <= after
    requires DrainedAt(odsB, storeB, odsA, storeA, p)
    requires OnlyChangedAt(odsB, odsA, p) && OnlyChangedAt(storeB, storeA, p)
    requires p !in after ==> EmptiedAt(odsB, storeB, odsA, storeA, p)
    ensures Draining(ods, store, odsA, storeA, todo - {p}, after)
  {
    hide At, Recorded;
    forall q | q !in todo - {p}
      ensures DrainedAt(ods, store, odsA, storeA, q)
      ensures q !in after ==> EmptiedAt(ods, store, odsA, storeA, q)
    {
      if q != p {
        assert DrainedAt(ods, store, odsB, storeB, q);
      }
    }
  }

  lemma DrainEnds(ods: Records, store: Records, ods': Records, store': Records,
                  todo: set<Partition>, stuck: set<Partition>)
    requires Draining(ods, store, ods', store', todo, stuck)
    ensures forall p :: DrainedAt(ods, store, ods', store', p)
    ensures todo == {} ==> forall p :: p !in stuck ==> EmptiedAt(ods, store, ods', store', p)
  {
    hide At, Recorded, EmptiedAt;
    forall p
      ensures DrainedAt(ods, store, ods', store', p)
      ensures todo == {} && p !in stuck ==> EmptiedAt(ods, store, ods', store', p)
    {
      if p in todo {
        assert At(ods', p) == At(ods, p) && At(store', p) == At(store, p);
      }
    }
  }

  /** Moves the records of the environment into the status, past any failure, unless power is lost on the way. */
  method DrainFsckEnv(ods: OdsStatus, store: Store?) returns (lost: bool)
    requires store != null ==> !store.powerLost && store.drainFaults == {}
    modifies ods`fsck, if store == null then {} else {store}
    ensures store == null ==> ods.fsck == old(ods.fsck) && !lost
    ensures store != null ==>
              && store.faults >= old(store.faults) && store.calls == old(store.calls) && (lost <==> store.powerLost)
              && (store.faults == old(store.faults) ==> store.drainFaults == {})
              && (forall p :: DrainedAt(old(ods.fsck), old(store.records), ods.fsck, store.records, p))
              && (!lost ==> forall p :: p !in store.drainFaults ==>
                              EmptiedAt(old(ods.fsck), old(store.records), ods.fsck, store.records, p))
  {
    hide DrainedAt, EmptiedAt, OnlyChangedAt, At;
    lost := false;
    if store == null {
      return;
    }
    ghost var todo := Unvisited(0);
    EveryPartitionIsVisited();
    for k := 0 to |FSCK_PARTITIONS|
      invariant todo == Unvisited(k) && !lost && !store.powerLost
      invariant store.faults >= old(store.faults) && store.calls == old(store.calls)
      invariant store.faults == old(store.faults) ==> store.drainFaults == {}
      invariant Draining(old(ods.fsck), old(store.records), ods.fsck, store.records, todo, store.drainFaults)
    {
      var p := FSCK_PARTITIONS[k];
      EachPartitionOnce(k);
      ghost var odsB, storeB, stuckB := ods.fsck, store.records, store.drainFaults;
      lost := DrainPartition(p, ods, store);
      ghost var stuck := store.drainFaults + if lost then {p} else {};
      DrainOneMore(old(ods.fsck), old(store.records), odsB, storeB, ods.fsck, store.records, todo, p, stuckB, stuck);
      todo := todo - {p};
      if lost {
        DrainEnds(old(ods.fsck), old(store.records), ods.fsck, store.records, todo, stuck);
        return;
      }
    }
    DrainEnds(old(ods.fsck), old(store.records), ods.fsck, store.records, todo, store.drainFaults);
  }

  ghost function Unvisited(k: nat): set<Partition>
    requires k <= |FSCK_PARTITIONS|
  {
    set p | p in FSCK_PARTITIONS[k..]
  }

  lemma EachPartitionOnce(k: nat)
    requires k < |FSCK_PARTITIONS|
    ensures FSCK_PARTITIONS[k] in Unvisited(k)
    ensures Unvisited(k + 1) == Unvisited(k) - {FSCK_PARTITIONS[k]}
  {
    var p := FSCK_PARTITIONS[k];
    assert forall j :: k < j < |FSCK_PARTITIONS| ==> FSCK_PARTITIONS[j] != p;
    assert p !in FSCK_PARTITIONS[k + 1..];
    assert FSCK_PARTITIONS[k..] == [p] + FSCK_PARTITIONS[k + 1..];
  }

  /** No partition that is checked is forgotten by the drain. */
  lemma EveryPartitionIsVisited()
    ensures forall p :: p in Unvisited(0)
    ensures Unvisited(|FSCK_PARTITIONS|) == {}
  {
    forall p: Partition
      ensures p in Unvisited(0)
    {
      var i := match p case Boot => 0 case Factory => 1 case Cert => 2 case Etc => 3 case Data => 4;
      assert FSCK_PARTITIONS[i] == p && FSCK_PARTITIONS[0..][i] == p;
    }
  }

  lemma NewestOneMore(before: Records, after: Records, seen: seq<Check>, check: Check)
    requires forall p :: At(before, p) == Newest(seen, p)
    requires At(after, check.partition) == Recorded(At(before, check.partition), check.outcome.Result())
    requires OnlyChangedAt(before, after, check.partition)
    ensures forall p :: At(after, p) == Newest(seen + [check], p)
    ensures forall p :: At(before, p).Some? ==> At(after, p).Some?
  {
    hide At;
    assert (seen + [check])[..|seen|] == seen;
    forall p
      ensures At(after, p) == Newest(seen + [check], p)
      ensures At(before, p).Some? ==> At(after, p).Some?
    {
      assert p != check.partition ==> At(after, p) == At(before, p);
    }
  }

  /** The checks of one mount sequence, up to the first one that does not pass. */
  method RunChecks(checks: seq<Check>, ods: OdsStatus) returns (ok: bool)
    requires forall p :: At(ods.fsck, p) == Newest(ods.seen, p)
    modifies ods
    ensures forall p :: At(ods.fsck, p) == Newest(ods.seen, p)
    ensures ods.seen == old(ods.seen) + checks[..Made(checks)]
    ensures ok <==> AllPass(checks)
    ensures ok ==> ods.seen == old(ods.seen) + checks
    ensures forall p :: old(At(ods.fsck, p)).Some? ==> At(ods.fsck, p).Some?
  {
    hide At, Made, Newest, Recorded;
    for i := 0 to |checks|
      invariant ods.seen == old(ods.seen) + checks[..i]
      invariant forall j :: 0 <= j < i ==> checks[j].Passes()
      invariant forall p :: At(ods.fsck, p) == Newest(ods.seen, p)
      invariant forall p :: old(At(ods.fsck, p)).Some? ==> At(ods.fsck, p).Some?
    {
      ghost var before, seen := ods.fsck, ods.seen;
      MadeIs(checks, i);
      var checked := FsckAndRecord(checks[i], ods);
      NewestOneMore(before, ods.fsck, seen, checks[i]);
      assert checks[..i + 1] == checks[..i] + [checks[i]];
      if !checked || !checks[i].mounts {
        return false;
      }
    }
    MadeIs(checks, |checks|);
    assert checks[..|checks|] == checks;
    ok := true;
  }

  /** The checks made by several mount sequences, each of which may stop early. */
  function AllMade(sequences: seq<seq<Check>>): seq<Check> {
    if sequences == [] then [] else
      var last := sequences[|sequences| - 1];
      AllMade(sequences[..|sequences| - 1]) + last[..Made(last)]
  }

  lemma NothingSeen()
    ensures forall p :: Newest([], p).None? && At(map[], p).None?
  {
  }

  /**
   A status handed over. `took` are the partitions whose record it took out of the environment; `complete` that the
   drain ran to its end; `written` that it became a file. Where power was lost in the drain, it is what was in memory.
   */
  datatype HandOver = HandOver(status: Records, took: set<Partition>, complete: bool, written: bool)

  /** What one boot did: the records it handed to the environment, those refused, and the status it handed over. */
  datatype Report = Report(persisted: Records, failed: set<Partition>, handed: Option<HandOver>)

  /** For every partition: the newest record is in the environment, or was taken into the status handed over. */
  ghost predicate BootStepAt(before: Records, report: Report, after: Records, p: Partition) {
    var newest := Recorded(At(before, p), At(report.persisted, p));
    && At(after, p) in {None, newest}
    && match report.handed
       case None => At(after, p) == newest
       case Some(h) =>
         && (At(after, p) == newest || At(h.status, p) == Recorded(None, newest))
         && (p in h.took <==> newest.Some? && At(after, p).None?)
  }

  ghost predicate BootStep(before: Records, report: Report, after: Records) {
    && (report.handed.Some? && report.handed.value.written ==> report.handed.value.complete)
    && forall p :: p !in report.failed ==> BootStepAt(before, report, after, p)
  }

  /** The record of p is in the status that was handed over, and nowhere else. */
  ghost predicate MovedAt(before: Records, persisted: Records, status: Records, after: Records, p: Partition) {
    At(after, p).None? && At(status, p) == Recorded(Recorded(None, At(before, p)), At(persisted, p))
  }

  /** A complete drain leaves nothing behind, but what was refused or could not be read or cleared. */
  ghost predicate MovesAllBut(stuck: set<Partition>, before: Records, report: Report, after: Records) {
    report.handed.Some? && report.handed.value.complete ==>
      forall p :: p !in report.failed && p !in stuck ==>
                    MovedAt(before, report.persisted, report.handed.value.status, after, p)
  }

  /** Without faults of the environment no save is refused, and a complete drain leaves nothing behind. */
  ghost predicate Faultless(before: Records, report: Report, after: Records) {
    report.failed == {} && MovesAllBut({}, before, report, after)
  }

  /** No clean result is in the status. */
  lemma AllAreNews(ods: Records, seen: seq<Check>)
    requires forall p :: At(ods, p) == Newest(seen, p)
    ensures forall p :: HasNews(ods, p) <==> At(ods, p).Some?
    ensures forall p :: At(ods, p) == Recorded(None, At(ods, p))
  {
  }

  /** Every partition without a refused save has its newest record in the environment. */
  ghost predicate UpToDate(before: Records, ods: Records, store: Records, failed: set<Partition>) {
    forall p :: p !in failed ==> At(store, p) == Recorded(At(before, p), At(ods, p))
  }

  lemma TrackedIsUpToDate(start: Records, records: Records, calls: SaveCalls)
    requires forall p :: TrackedAt(start, records, calls, p)
    ensures UpToDate(start, HandedIn(calls), records, RefusedIn(calls))
  {
    forall p | p !in RefusedIn(calls)
      ensures At(records, p) == Recorded(At(start, p), At(HandedIn(calls), p))
    {
      assert TrackedAt(start, records, calls, p);
    }
  }

  lemma NotHandedOver(before: Records, persisted: Records, store: Records, failed: set<Partition>)
    requires UpToDate(before, persisted, store, failed)
    ensures BootStep(before, Report(persisted, failed, None), store)
    ensures failed == {} ==> Faultless(before, Report(persisted, failed, None), store)
    ensures forall stuck :: MovesAllBut(stuck, before, Report(persisted, failed, None), store)
  {
    hide At;
  }

  /** All that a boot handed to the environment in the first persist, as far as it came. */
  lemma HandedOnce(ods: Records, records: Records, records': Records, calls: SaveCalls, lost: bool)
    requires forall p :: UntouchedAt(records, map[], records', calls, p) || NewsSavedAt(ods, calls, p)
    requires !lost ==> forall p :: HasNews(ods, p) ==> NewsSavedAt(ods, calls, p)
    requires forall p :: HasNews(ods, p) <==> At(ods, p).Some?
    ensures forall p :: At(HandedIn(calls), p) in {None, At(ods, p)}
    ensures !lost ==> forall p :: At(HandedIn(calls), p) == At(ods, p)
  {
    forall p
      ensures At(HandedIn(calls), p) in {None, At(ods, p)}
      ensures !lost ==> At(HandedIn(calls), p) == At(ods, p)
    {
      assert UntouchedAt(records, map[], records', calls, p) || NewsSavedAt(ods, calls, p);
    }
  }

  /** All that it handed there in both. */
  lemma HandedTwice(ods1: Records, calls1: SaveCalls, ods2: Records, records: Records, records': Records,
                    calls2: SaveCalls, lost: bool)
    requires forall p :: At(HandedIn(calls1), p) == At(ods1, p)
    requires forall p :: UntouchedAt(records, calls1, records', calls2, p) || NewsSavedAt(ods2, calls2, p)
    requires !lost ==> forall p :: HasNews(ods2, p) ==> NewsSavedAt(ods2, calls2, p)
    requires forall p :: HasNews(ods2, p) <==> At(ods2, p).Some?
    requires forall p :: At(ods1, p).Some? ==> At(ods2, p).Some?
    ensures forall p :: At(HandedIn(calls2), p) in {At(ods1, p), At(ods2, p)}
    ensures !lost ==> forall p :: At(HandedIn(calls2), p) == At(ods2, p)
  {
    forall p
      ensures At(HandedIn(calls2), p) in {At(ods1, p), At(ods2, p)}
      ensures !lost ==> At(HandedIn(calls2), p) == At(ods2, p)
    {
      assert UntouchedAt(records, calls1, records', calls2, p) || NewsSavedAt(ods2, calls2, p);
      assert At(HandedIn(calls1), p) == At(ods1, p);
    }
  }

  lemma SameRecords(a: Records, b: Records)
    requires forall p :: At(a, p) == At(b, p)
    ensures a == b
  {
    forall p
      ensures p in a <==> p in b
      ensures p in a ==> a[p] == b[p]
    {
      assert At(a, p) == At(b, p);
    }
  }

  /** What a drain took out of the environment. */
  ghost function Taken(store: Records, store': Records): set<Partition> {
    set p | p in store && p !in store'
  }

  /** A drain behind a persist: what leaves the environment is handed over. */
  lemma DrainHandsOver(before: Records, ods: Records, store: Records, failed: set<Partition>,
                       ods': Records, store': Records, complete: bool, written: bool)
    requires forall p :: At(ods, p) == Recorded(None, At(ods, p))
    requires UpToDate(before, ods, store, failed)
    requires forall p :: DrainedAt(ods, store, ods', store', p)
    requires written ==> complete
    ensures BootStep(before, Report(ods, failed, Some(HandOver(ods', Taken(store, store'), complete, written))), store')
  {
    var report := Report(ods, failed, Some(HandOver(ods', Taken(store, store'), complete, written)));
    forall p | p !in failed
      ensures BootStepAt(before, report, store', p)
    {
      assert DrainedAt(ods, store, ods', store', p);
    }
  }

  lemma DrainMoves(before: Records, ods: Records, store: Records, failed: set<Partition>, ods': Records,
                   store': Records, stuck: set<Partition>, handed: HandOver)
    requires forall p :: At(ods, p) == Recorded(None, At(ods, p))
    requires UpToDate(before, ods, store, failed)
    requires handed.status == ods'
    requires handed.complete ==> forall p :: p !in stuck ==> EmptiedAt(ods, store, ods', store', p)
    ensures MovesAllBut(stuck, before, Report(ods, failed, Some(handed)), store')
    ensures stuck == failed == {} ==> Faultless(before, Report(ods, failed, Some(handed)), store')
  {
    hide At;
    if handed.complete {
      forall p | p !in failed && p !in stuck
        ensures MovedAt(before, ods, ods', store', p)
      {
        assert EmptiedAt(ods, store, ods', store', p);
      }
    }
  }

  /** A degraded boot leaves the environment alone. */
  lemma DegradedSteps()
    ensures forall records :: BootStep(records, Report(map[], {}, None), records)
    ensures forall records, status, written ::
              BootStep(records, Report(map[], {}, Some(HandOver(status, {}, true, written))), records)
  {
  }

  lemma NothingCalledYet(start: Records)
    ensures RefusedIn(map[]) == {} && forall p :: TrackedAt(start, start, map[], p)
  {
  }

  /** What a boot has saved wherever power was lost: behind the first persist, at least the results of its core. */
  ghost predicate SavedResults(persisted: Records, core: seq<Check>, seen: seq<Check>) {
    || (seen == core && forall p :: At(persisted, p) in {None, Newest(core, p)})
    || forall p :: At(persisted, p) in {Newest(core, p), Newest(seen, p)}
  }

  ghost predicate AllResults(persisted: Records, seen: seq<Check>) {
    forall p :: At(persisted, p) == Newest(seen, p)
  }

  /** The end of a boot: drains the environment and writes the status; power may be lost between the two. */
  method HandOverStatus(ods: OdsStatus, store: Store?, ghost before: Report) returns (ghost report: Report)
    requires before.handed.None?
    requires store != null ==>
               && !store.powerLost && store.drainFaults == {} && before.persisted == ods.fsck
               && UpToDate(store.start, ods.fsck, store.records, before.failed)
               && forall p :: At(ods.fsck, p) == Recorded(None, At(ods.fsck, p))
    modifies ods`fsck, if store == null then {} else {store}
    ensures report.handed.Some? && report == before.(handed := report.handed)
    ensures store == null ==>
              report.handed == Some(HandOver(old(ods.fsck), {}, true, report.handed.value.written))
    ensures store != null ==>
              && store.calls == old(store.calls) && store.faults >= old(store.faults)
              && BootStep(store.start, report, store.records)
              && MovesAllBut(store.drainFaults, store.start, report, store.records)
              && (store.faults == old(store.faults) && before.failed == {} ==>
                    Faultless(store.start, report, store.records))
              && (!store.powerLost ==> report.handed.value.complete)
              && (report.handed.value.written ==> !store.powerLost)
  {
    hide BootStep, Faultless, MovesAllBut, Recorded, UpToDate, EmptiedAt, DrainedAt;
    ghost var odsB, storeB := ods.fsck, if store == null then map[] else store.records;
    var lost := DrainFsckEnv(ods, store);
    ghost var complete := !lost;
    if store != null && !lost {
      lost := store.MayLosePower();
    }
    var written: bool := *;
    written := written && !lost;
    ghost var took := if store == null then {} else Taken(storeB, store.records);
    report := before.(handed := Some(HandOver(ods.fsck, took, complete, written)));
    if store != null {
      DrainHandsOver(store.start, odsB, storeB, report.failed, ods.fsck, store.records, complete, written);
      DrainMoves(store.start, odsB, storeB, report.failed, ods.fsck, store.records, store.drainFaults,
                 report.handed.value);
    }
  }

  /**
   A boot. It ends by itself where a check or mount does not pass, behind the first persist if it does not go on, and
   behind the second one if an overlay or a link cannot be set up; power may be lost in front of every operation on
   the environment. `resets` are the mounts of a factory reset, whose failures do not end the boot.
   */
  method RunInit(core: seq<Check>, goesOn: bool, resets: seq<seq<Check>>, remaining: seq<Check>, setUp: bool,
                 ods: OdsStatus, store: Store?)
    returns (ghost report: Report)
    requires ods.fsck == map[] && ods.seen == []
    requires store != null ==>
               && store.records == store.start && store.calls == map[] && store.drainFaults == {} && !store.powerLost
    modifies ods, if store == null then {} else {store}
    ensures store != null ==>
              && BootStep(store.start, report, store.records)
              && report.persisted == store.Handed() && report.failed == store.Refused()
              && SavedResults(report.persisted, core[..Made(core)], ods.seen)
              && (!store.powerLost || report.handed.Some? ==> AllResults(report.persisted, ods.seen))
              && MovesAllBut(store.drainFaults, store.start, report, store.records)
              && (store.faults == old(store.faults) ==> Faultless(store.start, report, store.records))
              && (report.handed.Some? ==>
                    && (!store.powerLost ==> report.handed.value.complete)
                    && (report.handed.value.written ==> !store.powerLost))
    ensures store == null ==>
              && report.persisted == map[] && report.failed == {}
              && (forall records :: BootStep(records, report, records))
              && (report.handed.Some? ==> AllResults(report.handed.value.status, ods.seen))
    ensures || ods.seen == core[..Made(core)]
            || (AllPass(core) && ods.seen == core + AllMade(resets) + remaining[..Made(remaining)])
    ensures report.handed.Some? ==>
              && AllPass(core) && goesOn && AllPass(remaining) && setUp
              && ods.seen == core + AllMade(resets) + remaining
    ensures AllPass(core) && goesOn && AllPass(remaining) && setUp && (store == null || !store.powerLost) ==>
              report.handed.Some?
  {
    hide Newest, Made, AllPass, HasNews, Recorded, BootStep, Faultless, MovesAllBut, UntouchedAt, NewsSavedAt,
         TrackedAt, RefusedIn,
         UpToDate, EmptiedAt, DrainedAt;
    report := Report(map[], {}, None);
    if store == null {
      DegradedSteps();
    } else {
      NothingCalledYet(store.start);
    }
    NothingSeen();
    var ok := RunChecks(core, ods);
    assert ods.seen == core[..Made(core)];
    AllAreNews(ods.fsck, ods.seen);
    var lost := PersistFsckResults(ods, store);
    ghost var core1 := ods.fsck;
    ghost var store1, calls1 := map[], map[];
    assert forall p :: At(core1, p) == Newest(core[..Made(core)], p);
    if store != null {
      HandedOnce(ods.fsck, store.start, store.records, store.calls, lost);
      TrackedIsUpToDate(store.start, store.records, store.calls);
      NotHandedOver(store.start, store.Handed(), store.records, store.Refused());
      report := Report(store.Handed(), store.Refused(), None);
      store1, calls1 := store.records, store.calls;
    }
    if lost || !ok || !goesOn {
      return;
    }
    assert resets[..0] == [];
    assert ods.seen == core + AllMade(resets[..0]);
    for i := 0 to |resets|
      modifies ods
      invariant forall p :: At(ods.fsck, p) == Newest(ods.seen, p)
      invariant forall p :: At(core1, p).Some? ==> At(ods.fsck, p).Some?
      invariant ods.seen == core + AllMade(resets[..i])
    {
      assert resets[..i + 1][..i] == resets[..i];
      var ignored := RunChecks(resets[i], ods);
    }
    assert resets[..|resets|] == resets;
    ok := RunChecks(remaining, ods);
    AllAreNews(ods.fsck, ods.seen);
    lost := PersistFsckResults(ods, store);
    if store != null {
      HandedTwice(core1, calls1, ods.fsck, store1, store.records, store.calls, lost);
      TrackedIsUpToDate(store.start, store.records, store.calls);
      NotHandedOver(store.start, store.Handed(), store.records, store.Refused());
      report := Report(store.Handed(), store.Refused(), None);
    }
    if lost || !ok || !setUp {
      return;
    }
    if store != null {
      SameRecords(report.persisted, ods.fsck);
    }
    report := HandOverStatus(ods, store, report);
  }

  /** A record that reached the environment, and how many statuses had been handed over before. */
  datatype Saved = Saved(record: Record, since: nat)

  /**
   Boots one after the other. `saved` is the newest record of each partition that reached the environment; `lost` are
   the partitions whose last save was refused.
   */
  datatype System = System(env: Records, handed: seq<HandOver>, saved: map<Partition, Saved>, lost: set<Partition>)

  ghost function SavedAt(s: System, p: Partition): Option<Saved> {
    if p in s.saved then Some(s.saved[p]) else None
  }

  ghost predicate Start(s: System) {
    && s.handed == [] && s.lost == {}
    && (forall p :: p in s.env ==> !s.env[p].IsClean())
    && (forall p :: SavedAt(s, p) == if p in s.env then Some(Saved(s.env[p], 0)) else None)
  }

  /** The boot saved a record of p. */
  ghost predicate SavesAt(report: Report, p: Partition) {
    p !in report.failed && HasNews(report.persisted, p)
  }

  ghost predicate Follows(s: System, report: Report, s': System) {
    && BootStep(s.env, report, s'.env)
    && s'.handed == s.handed + (if report.handed.Some? then [report.handed.value] else [])
    && (forall p :: SavedAt(s', p) == if SavesAt(report, p) then Some(Saved(report.persisted[p], |s.handed|))
                                      else SavedAt(s, p))
    && (forall p :: p in s'.lost <==> p in report.failed || (p in s.lost && !SavesAt(report, p)))
  }

  ghost predicate Next(s: System, s': System) {
    exists report :: Follows(s, report, s')
  }

  ghost predicate IsRun(run: seq<System>) {
    && |run| > 0 && Start(run[0])
    && forall i :: 0 < i < |run| ==> Next(run[i - 1], run[i])
  }

  /** A status handed over behind the save has the record. */
  ghost predicate HandedOver(s: System, p: Partition, saved: Saved) {
    exists i :: saved.since <= i < |s.handed| && At(s.handed[i].status, p) == Some(saved.record)
  }

  /** Nothing of p is lost: the environment has the newest record or nothing, and then a later status had it. */
  ghost predicate KeptAt(s: System, p: Partition) {
    match SavedAt(s, p)
    case None => At(s.env, p).None?
    case Some(saved) =>
      && !saved.record.IsClean() && saved.since <= |s.handed|
      && At(s.env, p) in {None, Some(saved.record)}
      && (At(s.env, p).None? ==> HandedOver(s, p, saved))
  }

  lemma StartKeeps(s: System, p: Partition)
    requires Start(s)
    ensures KeptAt(s, p)
  {
  }

  lemma NextKeeps(s: System, s': System, p: Partition)
    requires Next(s, s') && p !in s'.lost
    requires p !in s.lost ==> KeptAt(s, p)
    ensures KeptAt(s', p)
  {
    var report :| Follows(s, report, s');
    var newest := Recorded(At(s.env, p), At(report.persisted, p));
    assert At(s'.env, p) in {None, newest};
    assert SavedAt(s', p) == if SavesAt(report, p) then Some(Saved(report.persisted[p], |s.handed|)) else SavedAt(s, p);
    hide At, Follows;
    if newest.Some? {
      if At(s'.env, p).None? {
        HandedOverNow(s, report, s', p, newest.value);
      }
    } else if SavedAt(s, p).Some? {
      HandedOverBefore(s, s', p, SavedAt(s, p).value);
    }
  }

  lemma HandedOverNow(s: System, report: Report, s': System, p: Partition, record: Record)
    requires report.handed.Some? && s'.handed == s.handed + [report.handed.value]
    requires At(report.handed.value.status, p) == Some(record)
    ensures forall since: nat :: since <= |s.handed| ==> HandedOver(s', p, Saved(record, since))
  {
    assert s'.handed[|s.handed|] == report.handed.value;
  }

  lemma HandedOverBefore(s: System, s': System, p: Partition, saved: Saved)
    requires HandedOver(s, p, saved) && s.handed <= s'.handed
    ensures HandedOver(s', p, saved)
  {
    var i :| saved.since <= i < |s.handed| && At(s.handed[i].status, p) == Some(saved.record);
    assert s'.handed[i] == s.handed[i];
  }

  /**
   In every run, for a partition whose last save succeeded: its newest record is in the environment,
   or in a status that a boot handed over behind the save.
   */
  lemma {:induction false} NoPersistedRecordIsLost(run: seq<System>, n: nat, p: Partition)
    requires IsRun(run) && n < |run| && p !in run[n].lost
    ensures KeptAt(run[n], p)
    decreases n
  {
    if n == 0 {
      StartKeeps(run[0], p);
    } else {
      assert Next(run[n - 1], run[n]);
      if p !in run[n - 1].lost {
        NoPersistedRecordIsLost(run, n - 1, p);
      }
      NextKeeps(run[n - 1], run[n], p);
    }
  }

  /** A file written behind the save has the record. */
  ghost predicate Written(s: System, p: Partition, saved: Saved) {
    exists i :: saved.since <= i < |s.handed| && s.handed[i].written && At(s.handed[i].status, p) == Some(saved.record)
  }

  /** The newest saved record of p is still in the environment, or in a file. */
  ghost predicate SurvivesAt(s: System, p: Partition) {
    match SavedAt(s, p)
    case None => true
    case Some(saved) => At(s.env, p) == Some(saved.record) || Written(s, p, saved)
  }

  /** A record that is neither in the environment nor in a file was in a status that did not become a file. */
  lemma OnlyAFailedHandOverLosesARecord(run: seq<System>, n: nat, p: Partition)
    requires IsRun(run) && n < |run| && p !in run[n].lost && SavedAt(run[n], p).Some?
    requires var saved := SavedAt(run[n], p).value;
             forall i :: saved.since <= i < |run[n].handed| && At(run[n].handed[i].status, p) == Some(saved.record) ==>
               run[n].handed[i].written
    ensures SurvivesAt(run[n], p)
  {
    NoPersistedRecordIsLost(run, n, p);
  }

  // ---- when a record survives, without faults of the environment ----

  ghost predicate FaultlessNext(s: System, s': System) {
    exists report :: Follows(s, report, s') && Faultless(s.env, report, s'.env)
  }

  /** A run in which the environment does what it is told; power may be lost in any boot of it. */
  ghost predicate IsFaultlessRun(run: seq<System>) {
    && |run| > 0 && Start(run[0])
    && forall i :: 0 < i < |run| ==> FaultlessNext(run[i - 1], run[i])
  }

  /** This hand-over left the record of p where it was. */
  ghost predicate Passes(h: HandOver, p: Partition) {
    !h.complete && !h.written && p !in h.took
  }

  /** This hand-over knew nothing of p. */
  ghost predicate KnowsNothing(h: HandOver, p: Partition) {
    p !in h.took && (h.written ==> At(h.status, p).None?)
  }

  /** Hand-over k took the record. */
  ghost predicate TakenBy(handed: seq<HandOver>, p: Partition, saved: Saved, k: nat) {
    && saved.since <= k < |handed| && p in handed[k].took && At(handed[k].status, p) == Some(saved.record)
    && (forall i :: saved.since <= i < k ==> Passes(handed[i], p))
    && (forall i :: k < i < |handed| ==> KnowsNothing(handed[i], p))
  }

  /** The record is in the environment and nothing took it, or one hand-over took it. */
  ghost predicate TakenOnce(s: System, p: Partition) {
    match SavedAt(s, p)
    case None => At(s.env, p).None?
    case Some(saved) =>
      && !saved.record.IsClean() && saved.since <= |s.handed|
      && match At(s.env, p)
         case Some(record) =>
           record == saved.record && forall i :: saved.since <= i < |s.handed| ==> Passes(s.handed[i], p)
         case None => exists k :: TakenBy(s.handed, p, saved, k)
  }

  lemma StartTakesNothing(s: System, p: Partition)
    requires Start(s)
    ensures TakenOnce(s, p)
  {
  }

  /** A hand-over behind the others, which all let the record pass. */
  lemma TakesItNow(handed: seq<HandOver>, h: HandOver, p: Partition, saved: Saved)
    requires saved.since <= |handed| && p in h.took && At(h.status, p) == Some(saved.record)
    requires forall i :: saved.since <= i < |handed| ==> Passes(handed[i], p)
    ensures TakenBy(handed + [h], p, saved, |handed|)
  {
  }

  lemma TookItBefore(handed: seq<HandOver>, h: HandOver, p: Partition, saved: Saved, k: nat)
    requires TakenBy(handed, p, saved, k) && KnowsNothing(h, p)
    ensures TakenBy(handed + [h], p, saved, k)
  {
  }

  /** One partition in one faultless boot. */
  lemma FaultlessBootAt(before: Records, report: Report, after: Records, p: Partition)
    requires BootStep(before, report, after) && Faultless(before, report, after)
    ensures report.failed == {}
    ensures var newest := Recorded(At(before, p), At(report.persisted, p));
            At(after, p) in {None, newest} && (report.handed.None? ==> At(after, p) == newest)
    ensures report.handed.Some? ==>
              var h, newest := report.handed.value, Recorded(At(before, p), At(report.persisted, p));
              && (newest.Some? && At(after, p).Some? ==> Passes(h, p))
              && (newest.Some? && At(after, p).None? ==> p in h.took && At(h.status, p) == Recorded(None, newest))
              && (newest.None? ==> KnowsNothing(h, p))
  {
    assert BootStepAt(before, report, after, p);
  }

  lemma BootKeepsTakenOnce(s: System, report: Report, s': System, p: Partition)
    requires Follows(s, report, s') && Faultless(s.env, report, s'.env) && TakenOnce(s, p)
    ensures TakenOnce(s', p)
  {
    hide BootStep, Faultless, KnowsNothing, Passes;
    var newest := Recorded(At(s.env, p), At(report.persisted, p));
    assert SavedAt(s', p) == if SavesAt(report, p) then Some(Saved(report.persisted[p], |s.handed|)) else SavedAt(s, p);
    FaultlessBootAt(s.env, report, s'.env, p);
    if report.handed.None? {
      assert s'.handed == s.handed;
    } else if SavedAt(s', p).Some? {
      var saved := SavedAt(s', p).value;
      if newest.Some? && At(s'.env, p).None? {
        TakesItNow(s.handed, report.handed.value, p, saved);
      } else if newest.None? {
        var k: nat :| TakenBy(s.handed, p, saved, k);
        TookItBefore(s.handed, report.handed.value, p, saved, k);
      }
    }
  }

  lemma {:induction false} EveryRecordIsTakenOnce(run: seq<System>, n: nat, p: Partition)
    requires IsFaultlessRun(run) && n < |run|
    ensures TakenOnce(run[n], p)
    decreases n
  {
    if n == 0 {
      StartTakesNothing(run[0], p);
    } else {
      EveryRecordIsTakenOnce(run, n - 1, p);
      assert FaultlessNext(run[n - 1], run[n]);
      var report :| Follows(run[n - 1], report, run[n]) && Faultless(run[n - 1].env, report, run[n].env);
      BootKeepsTakenOnce(run[n - 1], report, run[n], p);
    }
  }

  /**
   A saved record survives if and only if the hand-over that took it out of the environment, if there was one, became
   a file, wherever power was lost.
   */
  lemma TheHandOverThatTookItDecides(run: seq<System>, n: nat, p: Partition)
    requires IsFaultlessRun(run) && n < |run| && SavedAt(run[n], p).Some?
    ensures var s, since := run[n], SavedAt(run[n], p).value.since;
            SurvivesAt(s, p) <==> forall i :: since <= i < |s.handed| && p in s.handed[i].took ==> s.handed[i].written
  {
    var s, saved := run[n], SavedAt(run[n], p).value;
    EveryRecordIsTakenOnce(run, n, p);
    if At(s.env, p).None? {
      var k: nat :| TakenBy(s.handed, p, saved, k);
      OnlyTheTakerHasIt(s.handed, p, saved, k);
    }
  }

  lemma OnlyTheTakerHasIt(handed: seq<HandOver>, p: Partition, saved: Saved, k: nat)
    requires TakenBy(handed, p, saved, k)
    ensures forall i ::
              saved.since <= i < |handed| && handed[i].written && At(handed[i].status, p) == Some(saved.record) ==>
                i == k
    ensures forall i :: saved.since <= i < |handed| && p in handed[i].took ==> i == k
  {
    forall i | saved.since <= i < |handed| && i != k
      ensures p !in handed[i].took && (handed[i].written ==> At(handed[i].status, p).None?)
    {
      assert if i < k then Passes(handed[i], p) else KnowsNothing(handed[i], p);
    }
  }

  /** If power is not lost in the drain behind the save, the first hand-over behind it decides. */
  lemma TheFirstHandOverDecides(run: seq<System>, n: nat, p: Partition)
    requires IsFaultlessRun(run) && n < |run| && SavedAt(run[n], p).Some?
    requires var s, since := run[n], SavedAt(run[n], p).value.since;
             since < |s.handed| ==> s.handed[since].complete
    ensures var s, since := run[n], SavedAt(run[n], p).value.since;
            SurvivesAt(s, p) <==> (since < |s.handed| ==> s.handed[since].written)
  {
    var s, saved := run[n], SavedAt(run[n], p).value;
    EveryRecordIsTakenOnce(run, n, p);
    if At(s.env, p).None? {
      var k: nat :| TakenBy(s.handed, p, saved, k);
      OnlyTheTakerHasIt(s.handed, p, saved, k);
      assert k > saved.since ==> Passes(s.handed[saved.since], p);
    } else if saved.since < |s.handed| {
      assert false;
    }
  }

  /** The drain clears the environment before the status is written, so that one failed write loses a record. */
  lemma AFailedHandOverLosesARecord(record: Record) returns (run: seq<System>)
    requires !record.IsClean()
    ensures IsRun(run) && IsFaultlessRun(run) && |run| == 2 && run[1].lost == {}
    ensures SavedAt(run[1], Data) == Some(Saved(record, 0)) && !SurvivesAt(run[1], Data)
  {
    var start := System(map[Data := record], [], map[Data := Saved(record, 0)], {});
    var lostHandOver := HandOver(map[Data := record], {Data}, true, false);
    var end := System(map[], [lostHandOver], map[Data := Saved(record, 0)], {});
    var report := Report(map[], {}, Some(lostHandOver));
    assert Follows(start, report, end) && Faultless(start.env, report, end.env);
    run := [start, end];
  }

  /** So does a loss of power in the drain, behind the read that removed the file. */
  lemma ALossOfPowerLosesARecord(record: Record) returns (run: seq<System>)
    requires !record.IsClean()
    ensures IsFaultlessRun(run) && |run| == 2 && |run[1].handed| == 1 && !run[1].handed[0].complete
    ensures SavedAt(run[1], Data) == Some(Saved(record, 0)) && !SurvivesAt(run[1], Data)
  {
    var start := System(map[Data := record], [], map[Data := Saved(record, 0)], {});
    var cut := HandOver(map[Data := record], {Data}, false, false);
    var end := System(map[], [cut], map[Data := Saved(record, 0)], {});
    var report := Report(map[], {}, Some(cut));
    assert Follows(start, report, end) && Faultless(start.env, report, end.env);
    run := [start, end];
  }

  /**
   A record whose save was refused still reaches the status at the drain, unless an older one is left in the
   environment: that one replaces it.
   */
  lemma RefusedSaveReachesTheStatusUnlessAnOlderRecordIsLeft(
    ods: Records, store: Records, ods': Records, store': Records, p: Partition)
    requires EmptiedAt(ods, store, ods', store', p) && p in ods
    ensures At(ods', p) == At(ods, p) <==> Recorded(None, At(store, p)) in {None, At(ods, p)}
  {
  }

  /** A boot in which that happens: one save is refused, nothing else fails, and the status has the older record. */
  lemma AnOlderRecordReplacesARefusedOne(older: Record, newer: Record)
    returns (ods: Records, start: Records, calls: SaveCalls, store: Records, ods': Records, store': Records)
    requires !older.IsClean() && !newer.IsClean() && older != newer
    ensures forall p :: TrackedAt(start, store, calls, p)
    ensures forall p :: HasNews(ods, p) ==> NewsSavedAt(ods, calls, p)
    ensures forall p :: EmptiedAt(ods, store, ods', store', p)
    ensures RefusedIn(calls) == {Data} && At(ods, Data) == Some(newer) && At(ods', Data) == Some(older)
  {
    ods, start, store := map[Data := newer], map[Data := older], map[Data := older];
    calls := map[Data := SaveCall(newer, false)];
    ods', store' := map[Data := older], map[];
  }
}
