/** Flash mode 2: the running disk is overwritten with an image that an operator uploads. */
module ScpFlash {
  import opened Common
  import opened BlockMap
  import opened RawIo
  import opened BmapCopy

  datatype BuildConstant = BootStart | BootSize | OmnectUserId

  datatype BuildConstants = BuildConstants(bootStart: Option<u64>, bootSize: Option<u64>, omnectUserId: Option<u64>)

  datatype Constants = Constants(headBytes: u64, omnectUserId: nat)

  datatype FlashError =
    | MissingBuildConstant(name: BuildConstant)
    | InvalidBuildConstant(name: BuildConstant)
    | SetupFailed
    | FifoFailed
    | InvalidBmap
    | InvalidDestination
    | CopyFailed(reason: CopyError)
    | ZeroingFailed
    | EfiFailed
    | DiskPartlyWritten(source: FlashError)
    | StalePartitionTable

  /** The length of the head, which ends with the boot partition. */
  function HeadKib(bootStart: Option<u64>, bootSize: Option<u64>): Result<u64, FlashError> {
    if bootStart.None? then Err(MissingBuildConstant(BootStart))
    else if bootSize.None? then Err(MissingBuildConstant(BootSize))
    else match CheckedAdd(bootStart.value, bootSize.value)
         case Some(kib) => Ok(kib)
         case None => Err(InvalidBuildConstant(BootSize))
  }

  /** The error names a constant that is missing, or that does not fit with the others present. */
  predicate Blames(raw: BuildConstants, error: FlashError) {
    match error
    case MissingBuildConstant(BootStart) => raw.bootStart.None?
    case MissingBuildConstant(BootSize) => raw.bootSize.None?
    case MissingBuildConstant(OmnectUserId) => raw.omnectUserId.None?
    case InvalidBuildConstant(BootSize) =>
      raw.bootStart.Some? && raw.bootSize.Some? && (raw.bootStart.value + raw.bootSize.value) * 1024 > U64_MAX
    case InvalidBuildConstant(OmnectUserId) => raw.omnectUserId.Some? && raw.omnectUserId.value > U32_MAX
    case _ => false
  }

  function RequiredConstants(raw: BuildConstants): (r: Result<Constants, FlashError>)
    ensures r.Ok? <==> && raw.bootStart.Some? && raw.bootSize.Some? && raw.omnectUserId.Some?
                       && (raw.bootStart.value + raw.bootSize.value) * 1024 <= U64_MAX
                       && raw.omnectUserId.value <= U32_MAX
    ensures r.Ok? ==> r.value.headBytes == raw.bootStart.value * 1024 + raw.bootSize.value * 1024
    ensures r.Ok? ==> r.value.omnectUserId == raw.omnectUserId.value
    ensures r.Err? ==> Blames(raw, r.error)
  {
    var kib := HeadKib(raw.bootStart, raw.bootSize);
    if kib.Err? then Err(kib.error)
    else
      var bytes := CheckedMul(kib.value, KIB);
      if bytes.None? then Err(InvalidBuildConstant(BootSize))
      else if raw.omnectUserId.None? then Err(MissingBuildConstant(OmnectUserId))
      else if raw.omnectUserId.value > U32_MAX then Err(InvalidBuildConstant(OmnectUserId))
      else Ok(Constants(bytes.value, raw.omnectUserId.value))
  }

  /** What one upload brings: the parsed bmap, or None if it is unusable, and the decoded image. */
  datatype Upload = Upload(bmap: Option<Bmap>, image: seq<byte>, interrupts: nat) {
    ghost predicate Valid() {
      (bmap.Some? ==> bmap.value.Valid()) && |image| <= U64_MAX
    }
  }

  /** How this system was built and what SHA-256 computes. */
  datatype Build = Build(direct: bool, grub: bool, usizeMax: nat, sha: Digest) {
    ghost predicate Valid() {
      COPY_BUFFER_SIZE <= usizeMax
    }
  }

  /** The disk a complete flash leaves: the image where it is mapped, a zeroed head, the old bytes elsewhere. */
  ghost predicate Flashed(bmap: Bmap, image: seq<byte>, head: ByteRange, before: seq<byte>, after: seq<byte>) {
    && |after| == |before|
    && (forall p :: 0 <= p < |after| && bmap.Maps(p) ==> p < |image| && after[p] == image[p])
    && (forall p :: 0 <= p < |after| && !bmap.Maps(p) ==>
          after[p] == if head.Covers(p) then 0 else before[p])
  }

  /** The upload, the head and the old disk decide every byte: flashing directly and verifying first end alike. */
  lemma FlashedDisksAreEqual(bmap: Bmap, image: seq<byte>, head: ByteRange, before: seq<byte>, a: seq<byte>,
                             b: seq<byte>)
    requires Flashed(bmap, image, head, before, a) && Flashed(bmap, image, head, before, b)
    ensures a == b
  {
    forall p | 0 <= p < |a|
      ensures a[p] == b[p]
    {
      if bmap.Maps(p) {
        assert a[p] == image[p] && b[p] == image[p];
      }
    }
  }

  /** Every byte is the old one, or from the image at its own place, or a zero of the unmapped head. */
  ghost predicate TouchedOnlyAsFlashed(bmap: Bmap, image: seq<byte>, head: ByteRange, before: seq<byte>,
                                       after: seq<byte>)
  {
    && |after| == |before|
    && (forall p :: 0 <= p < |after| && bmap.Maps(p) ==>
          after[p] == before[p] || (p < |image| && after[p] == image[p]))
    && (forall p :: 0 <= p < |after| && !bmap.Maps(p) ==>
          after[p] == before[p] || (head.Covers(p) && after[p] == 0))
  }

  /** Zeroes the gaps one after the other; a mapped byte is never touched. */
  method ZeroGaps(disk: Device, gaps: seq<ByteRange>, usizeMax: nat) returns (r: Result<(), FlashError>)
    requires COPY_BUFFER_SIZE <= usizeMax
    requires SeparateGaps(gaps)
    modifies disk, disk.bytes
    ensures r.Ok? ==> if gaps == [] then disk.unsynced == old(disk.unsynced) else disk.unsynced == 0
    ensures forall p :: 0 <= p < disk.bytes.Length ==>
              disk.bytes[p] == old(disk.bytes[p]) || (InSome(gaps, p) && disk.bytes[p] == 0)
    ensures r.Ok? ==> forall p :: 0 <= p < disk.bytes.Length && InSome(gaps, p) ==> disk.bytes[p] == 0
    ensures r.Err? ==> r.error == DiskPartlyWritten(ZeroingFailed)
    ensures disk.faults >= old(disk.faults) && disk.writeCalls >= old(disk.writeCalls)
    ensures r.Ok? ==> forall g :: 0 <= g < |gaps| ==> gaps[g].offset + gaps[g].len <= disk.bytes.Length
    ensures r.Err? && disk.faults == old(disk.faults) ==>
              exists g :: 0 <= g < |gaps| && gaps[g].offset + gaps[g].len > disk.bytes.Length
  {
    var k := 0;
    while k < |gaps|
      invariant 0 <= k <= |gaps|
      invariant forall p :: 0 <= p < disk.bytes.Length ==>
                  disk.bytes[p] == if InSome(gaps[..k], p) then 0 else old(disk.bytes[p])
      invariant forall g :: 0 <= g < k ==> gaps[g].offset + gaps[g].len <= disk.bytes.Length
      invariant disk.faults >= old(disk.faults) && disk.writeCalls >= old(disk.writeCalls)
      invariant if k == 0 then disk.unsynced == old(disk.unsynced) else disk.unsynced == 0
    {
      assert gaps[..k + 1][..k] == gaps[..k];
      forall p
        ensures InSome(gaps[..k + 1], p) <==> InSome(gaps[..k], p) || gaps[k].Covers(p)
        ensures InSome(gaps[..k + 1], p) ==> InSome(gaps, p)
      {
        InSomeIsExists(gaps, p);
        InSomeIsExists(gaps[..k + 1], p);
      }
      var ok, zeroed := ZeroRange(disk, gaps[k], usizeMax);
      if !ok {
        return Err(DiskPartlyWritten(ZeroingFailed));
      }
      k := k + 1;
    }
    assert gaps[..k] == gaps;
    r := Ok(());
  }

  /** The outcome of one upload when no I/O operation fails. */
  ghost predicate UploadIsGood(upload: Upload, build: Build, head: ByteRange, diskLen: nat) {
    && upload.bmap.Some?
    && upload.bmap.value.imageSize <= diskLen
    && Accepts(Stream, upload.bmap.value, build.sha, upload.image)
    && head.len <= diskLen
  }

  /** The steps of a run that have no result here. */
  datatype Step = Unmount | Network | CreateFifo | StartDropbear | RereadTable | EfiEntries

  const SET_UP: seq<Step> := [Unmount, Network, CreateFifo, StartDropbear]

  /** The steps of a run that were made, in order, and the one that ended it, if any. */
  datatype Log = Log(done: seq<Step>, refused: Option<Step>) {
    function With(step: Step, ok: bool): Log {
      if ok then Log(done + [step], refused) else Log(done, Some(step))
    }
  }

  /** One pipe for each attempt that failed. */
  ghost function Fifos(failed: nat): seq<Step> {
    if failed == 0 then [] else Fifos(failed - 1) + [CreateFifo]
  }

  /** What a run did before and during its attempts. */
  ghost function UpTo(failed: nat): seq<Step> {
    SET_UP + Fifos(failed)
  }

  /** The outcome of a run in its steps: all of them in order for a success, and the error of the one that failed. */
  ghost predicate LogMeans(log: Log, outcome: Option<Result<(), FlashError>>, attempts: nat, grub: bool) {
    match log.refused
    case None =>
      if outcome.None? then log.done == UpTo(attempts)
      else
        && outcome.value.Ok? && attempts > 0
        && log.done == UpTo(attempts - 1) + [RereadTable] + if grub then [EfiEntries] else []
    case Some(step) =>
      && outcome.Some? && outcome.value.Err?
      && match step
         case CreateFifo =>
           && outcome.value.error in {SetupFailed, FifoFailed, DiskPartlyWritten(FifoFailed)}
           && (attempts > 0 ==> outcome.value.error != SetupFailed && log.done == UpTo(attempts - 1))
         case RereadTable =>
           outcome.value.error == StalePartitionTable && attempts > 0 && log.done == UpTo(attempts - 1)
         case EfiEntries =>
           && outcome.value.error == EfiFailed && grub && attempts > 0
           && log.done == UpTo(attempts - 1) + [RereadTable]
         case _ => outcome.value.error == SetupFailed && attempts == 0
  }

  /**
   What is around a flash and may fail: the bmap file, the size of the disk, the pipe of the upload, the decoded
   file, and what the kernel knows of the partition table. `faults` counts what failed.
   */
  class Surroundings {
    ghost var faults: nat
    // The disk in which the kernel last read a partition table.
    ghost var tableSeen: seq<byte>
    ghost var log: Log

    method ReadBmap(upload: Upload) returns (bmap: Option<Bmap>)
      modifies this`faults
      ensures bmap.Some? ==> bmap == upload.bmap && faults == old(faults)
      ensures bmap.None? ==> upload.bmap.None? || faults > old(faults)
      ensures faults >= old(faults)
    {
      var readable: bool := *;
      if !readable {
        faults := faults + 1;
        return None;
      }
      bmap := upload.bmap;
    }

    method DeviceLen(disk: Device) returns (len: Option<nat>)
      modifies this`faults
      ensures if len.Some? then len.value == disk.bytes.Length && faults == old(faults) else faults == old(faults) + 1
    {
      var measured: bool := *;
      if !measured {
        faults := faults + 1;
        return None;
      }
      len := Some(disk.bytes.Length);
    }

    method Do(step: Step) returns (ok: bool)
      modifies this`faults, this`log
      ensures faults == old(faults) + if ok then 0 else 1
      ensures log == old(log).With(step, ok)
    {
      ok := *;
      log := log.With(step, ok);
      if !ok {
        faults := faults + 1;
      }
    }

    method Reread(disk: Device) returns (ok: bool)
      modifies this
      ensures tableSeen == if ok then disk.bytes[..] else old(tableSeen)
      ensures faults == old(faults) + if ok then 0 else 1
      ensures log == old(log).With(RereadTable, ok)
    {
      ok := Do(RereadTable);
      if ok {
        tableSeen := disk.bytes[..];
      }
    }

    /** Counts the troubles of a source or a file that is gone. */
    ghost method Count(troubles: nat)
      modifies this`faults
      ensures faults == old(faults) + troubles
    {
      faults := faults + troubles;
    }
  }

  /**
   The verify pass: the stream is decoded into a file of the image size. No disk is in its frame. Without faults it
   passes exactly the images that a direct flash accepts, and a file that passes is a source the flash pass accepts.
   */
  method Verify(around: Surroundings, bmap: Bmap, image: seq<byte>, interrupts: nat, build: Build)
    returns (r: Result<Input, CopyError>)
    requires bmap.Valid() && build.Valid() && |image| <= U64_MAX
    modifies around`faults
    ensures around.faults >= old(around.faults)
    ensures around.faults == old(around.faults) ==> (r.Ok? <==> Accepts(Stream, bmap, build.sha, image))
    ensures r.Ok? ==>
              && fresh(r.value) && fresh(r.value.inner)
              && r.value.Valid() && r.value.position == 0 && r.value.kind == Seekable
              && Accepts(Stream, bmap, build.sha, image)
              && Accepts(Seekable, bmap, build.sha, r.value.inner.data)
              && (forall p :: 0 <= p < bmap.imageSize && bmap.Maps(p) ==> r.value.inner.data[p] == image[p])
  {
    var reader := new Reader(image, interrupts);
    var input := new Input(Stream, reader);
    var file := new Device.Sparse(bmap.imageSize);
    ghost var blank := file.bytes[..];
    ghost var troubles, faults := input.Troubles(), file.faults;
    assert Fits(bmap, file.bytes.Length);
    var copied, frontier := Copy(bmap, build.sha, input, file, build.usizeMax);
    around.Count(input.Troubles() - troubles + file.faults - faults);
    if copied.Err? {
      return Err(copied.error);
    }
    DecodedFileIsAccepted(bmap, build.sha, image, blank, file.bytes[..]);
    var decoded := new Reader(file.bytes[..], interrupts);
    var source := new Input(Seekable, decoded);
    r := Ok(source);
  }

  lemma ImageFits(bmap: Bmap, length: nat)
    requires bmap.Valid() && bmap.imageSize <= length
    ensures Fits(bmap, length)
  {
  }

  /** The source has the bytes of the image wherever it has a mapped byte. */
  ghost predicate SameMapped(bmap: Bmap, data: seq<byte>, image: seq<byte>) {
    forall p :: 0 <= p < |data| && p < bmap.imageSize && bmap.Maps(p) ==> p < |image| && data[p] == image[p]
  }

  lemma SourceIsTheImage(bmap: Bmap, data: seq<byte>, image: seq<byte>)
    requires data == image || |image| == bmap.imageSize
    requires forall p :: 0 <= p < |data| && p < bmap.imageSize && bmap.Maps(p) && p < |image| ==> data[p] == image[p]
    ensures SameMapped(bmap, data, image)
  {
  }

  lemma AcceptedHasTheLength(bmap: Bmap, sha: Digest, image: seq<byte>)
    requires Accepts(Stream, bmap, sha, image)
    ensures |image| == bmap.imageSize
  {
  }

  /** The disk behind the copy: every mapped byte is the image's, all others are as before. */
  ghost predicate MappedDone(bmap: Bmap, image: seq<byte>, before: seq<byte>, after: seq<byte>) {
    && |after| == |before|
    && (forall p :: 0 <= p < |after| && bmap.Maps(p) ==> p < |image| && after[p] == image[p])
    && (forall p :: 0 <= p < |after| && !bmap.Maps(p) ==> after[p] == before[p])
  }

  /** No mapped byte is behind the image. */
  lemma MappedIsInside(bmap: Bmap)
    requires bmap.Valid()
    ensures forall p :: bmap.Maps(p) ==> 0 <= p < bmap.imageSize
  {
    forall p | bmap.Maps(p)
      ensures 0 <= p < bmap.imageSize
    {
      var i :| 0 <= i < |bmap.ranges| && bmap.ranges[i].bytes.Covers(p);
    }
  }

  lemma CopyTouches(bmap: Bmap, data: seq<byte>, image: seq<byte>, frontier: nat, head: ByteRange, before: seq<byte>,
                    after: seq<byte>)
    requires bmap.Valid() && CopiedUpTo(bmap, data, frontier, before, after) && SameMapped(bmap, data, image)
    ensures TouchedOnlyAsFlashed(bmap, image, head, before, after)
    ensures frontier == bmap.imageSize ==> MappedDone(bmap, image, before, after)
  {
    MappedIsInside(bmap);
    hide Bmap.Maps, Bmap.Valid;
  }

  lemma ThenTheGaps(bmap: Bmap, image: seq<byte>, head: ByteRange, gaps: seq<ByteRange>,
                    before: seq<byte>, copy: seq<byte>, after: seq<byte>, done: bool)
    requires MappedDone(bmap, image, before, copy) && IsFreeSpace(bmap, head, gaps) && head.offset == 0
    requires |after| == |copy|
    requires forall p :: 0 <= p < |after| ==> after[p] == copy[p] || (InSome(gaps, p) && after[p] == 0)
    requires done ==> forall p :: 0 <= p < |after| && InSome(gaps, p) ==> after[p] == 0
    ensures TouchedOnlyAsFlashed(bmap, image, head, before, after)
    ensures done ==> Flashed(bmap, image, head, before, after)
  {
    hide Bmap.Maps, InSome, TotalLen, SeparateGaps, MappedBytes;
  }

  /** One upload and flash, as the disk shows it. */
  datatype Attempt = Attempt(upload: Upload, before: seq<byte>, after: seq<byte>, result: Result<(), FlashError>)

  /** What an attempt may do to the disk. */
  ghost predicate AttemptStep(a: Attempt, build: Build, head: ByteRange) {
    && (if a.upload.bmap.None? then a.after == a.before
        else TouchedOnlyAsFlashed(a.upload.bmap.value, a.upload.image, head, a.before, a.after))
    && (a.result.Err? && !a.result.error.DiskPartlyWritten? ==> a.after == a.before)
    && (a.result.Ok? ==>
          && a.upload.bmap.Some?
          && a.upload.bmap.value.imageSize <= |a.before|
          && Accepts(Stream, a.upload.bmap.value, build.sha, a.upload.image)
          && Flashed(a.upload.bmap.value, a.upload.image, head, a.before, a.after))
  }

  method FlashOnce(around: Surroundings, disk: Device, upload: Upload, head: ByteRange, build: Build)
    returns (r: Result<(), FlashError>)
    requires upload.Valid() && build.Valid() && head.offset == 0
    modifies around`faults, disk, disk.bytes
    ensures AttemptStep(Attempt(upload, old(disk.bytes[..]), disk.bytes[..], r), build, head)
    ensures r.Err? && !r.error.DiskPartlyWritten? ==> disk.writeCalls == old(disk.writeCalls)
    ensures r.Ok? ==> disk.unsynced == 0
    ensures around.faults == old(around.faults) ==>
              && (r == Err(InvalidBmap) <==> upload.bmap.None?)
              && (r == Err(InvalidDestination) <==>
                  upload.bmap.Some? && upload.bmap.value.imageSize > disk.bytes.Length)
    ensures around.faults >= old(around.faults) && disk.faults >= old(disk.faults)
    ensures around.faults == old(around.faults) && disk.faults == old(disk.faults) ==>
              (r.Ok? <==> UploadIsGood(upload, build, head, disk.bytes.Length))
    ensures around.faults == old(around.faults) && disk.faults == old(disk.faults) && !build.direct && r.Err? ==>
              !(r.error.DiskPartlyWritten? && r.error.source.CopyFailed?)
    ensures build.direct && r.Err? ==> !r.error.CopyFailed?
    ensures disk.writeCalls >= old(disk.writeCalls)
  {
    hide Accepts, Fits, CopiedUpTo, IsFreeSpace, Flashed, TouchedOnlyAsFlashed, MappedDone, SameMapped, InSome;
    ghost var first := disk.bytes[..];
    if upload.bmap.Some? {
      NothingTouched(upload.bmap.value, upload.image, head, first);
    }
    var read := around.ReadBmap(upload);
    if read.None? {
      return Err(InvalidBmap);
    }
    var bmap := read.value;
    var len := around.DeviceLen(disk);
    if len.None? || bmap.imageSize > len.value {
      return Err(InvalidDestination);
    }

    var source: Input;
    if build.direct {
      var reader := new Reader(upload.image, upload.interrupts);
      source := new Input(Stream, reader);
      SourceIsTheImage(bmap, upload.image, upload.image);
    } else {
      var verified := Verify(around, bmap, upload.image, upload.interrupts, build);
      if verified.Err? {
        return Err(CopyFailed(verified.error));
      }
      source := verified.value;
      AcceptedHasTheLength(bmap, build.sha, upload.image);
      SourceIsTheImage(bmap, source.inner.data, upload.image);
    }
    ghost var data, troubles := source.inner.data, source.Troubles();

    ImageFits(bmap, disk.bytes.Length);
    var copied, frontier := Copy(bmap, build.sha, source, disk, build.usizeMax);
    around.Count(source.Troubles() - troubles);
    ghost var copy := disk.bytes[..];
    CopyTouches(bmap, data, upload.image, frontier, head, first, copy);
    if copied.Err? {
      return Err(DiskPartlyWritten(CopyFailed(copied.error)));
    }

    var gaps := Unmapped(bmap, head);
    GapsReachTheEnd(bmap, head, gaps, disk.bytes.Length);
    FreeSpaceIsSeparate(bmap, head, gaps);
    r := ZeroGaps(disk, gaps, build.usizeMax);
    ThenTheGaps(bmap, upload.image, head, gaps, first, copy, disk.bytes[..], r.Ok?);
  }

  lemma FreeSpaceIsSeparate(bmap: Bmap, head: ByteRange, gaps: seq<ByteRange>)
    requires IsFreeSpace(bmap, head, gaps)
    ensures SeparateGaps(gaps)
  {
  }

  lemma NothingTouched(bmap: Bmap, image: seq<byte>, head: ByteRange, disk: seq<byte>)
    ensures TouchedOnlyAsFlashed(bmap, image, head, disk, disk)
  {
  }

  /** The gaps of the head fit the disk exactly when the head does: nothing behind the image is mapped. */
  lemma GapsReachTheEnd(bmap: Bmap, head: ByteRange, gaps: seq<ByteRange>, diskLen: nat)
    requires bmap.Valid() && head.offset == 0 && bmap.imageSize <= diskLen
    requires IsFreeSpace(bmap, head, gaps)
    ensures (forall g :: 0 <= g < |gaps| ==> gaps[g].offset + gaps[g].len <= diskLen) <==> head.len <= diskLen
  {
    if head.len > diskLen {
      assert !bmap.Maps(head.len - 1);
      assert InSome(gaps, head.len - 1);
      InSomeIsExists(gaps, head.len - 1);
    } else {
      forall g | 0 <= g < |gaps|
        ensures gaps[g].offset + gaps[g].len <= diskLen
      {
        var last := gaps[g].offset + gaps[g].len - 1;
        assert gaps[g].Covers(last);
        InSomeIsExists(gaps, last);
      }
    }
  }

  /** Whether the run log goes onto the data partition of the disk. */
  predicate KeepsLog(outcome: Result<(), FlashError>) {
    !(outcome.Err? && (outcome.error.DiskPartlyWritten? || outcome.error.StalePartitionTable?))
  }

  /** The last attempt of the run flashed the disk. */
  ghost predicate Completed(attempts: seq<Attempt>) {
    attempts != [] && attempts[|attempts| - 1].result.Ok?
  }

  /** The attempts of a run, one behind the other: nothing else touches the disk, and only the last one may succeed. */
  ghost predicate IsRun(attempts: seq<Attempt>, uploads: seq<Upload>, build: Build, head: ByteRange,
                        first: seq<byte>, last: seq<byte>) {
    if attempts == [] then last == first
    else
      var n := |attempts| - 1;
      var a := attempts[n];
      && n < |uploads| && a.upload == uploads[n] && a.after == last && AttemptStep(a, build, head)
      && !Completed(attempts[..n]) && IsRun(attempts[..n], uploads, build, head, first, a.before)
  }

  lemma OneMoreAttempt(attempts: seq<Attempt>, a: Attempt, uploads: seq<Upload>, build: Build, head: ByteRange,
                       first: seq<byte>)
    requires IsRun(attempts, uploads, build, head, first, a.before) && !Completed(attempts)
    requires |attempts| < |uploads| && a.upload == uploads[|attempts|] && AttemptStep(a, build, head)
    ensures IsRun(attempts + [a], uploads, build, head, first, a.after)
  {
    hide AttemptStep;
    assert (attempts + [a])[..|attempts|] == attempts;
  }

  /** Upload k flashes the disk, and none in front of it does. */
  ghost predicate IsFirstGood(k: int, uploads: seq<Upload>, build: Build, head: ByteRange, diskLen: nat) {
    && 0 <= k < |uploads| && UploadIsGood(uploads[k], build, head, diskLen)
    && NoneIsGood(uploads[..k], build, head, diskLen)
  }

  ghost predicate NoneIsGood(uploads: seq<Upload>, build: Build, head: ByteRange, diskLen: nat) {
    forall i :: 0 <= i < |uploads| ==> !UploadIsGood(uploads[i], build, head, diskLen)
  }

  function Head(constants: Constants): ByteRange {
    ByteRange(0, constants.headBytes)
  }

  /**
   The retry loop, over every list of uploads, up to the first one that flashes the disk. No outcome means that all of
   them failed and the system waits for the next one.
   */
  method FlashUntilDone(around: Surroundings, disk: Device, uploads: seq<Upload>, head: ByteRange, build: Build)
    returns (outcome: Option<Result<(), FlashError>>, ghost attempts: seq<Attempt>)
    requires build.Valid() && head.offset == 0 && forall i :: 0 <= i < |uploads| ==> uploads[i].Valid()
    requires around.log == Log(SET_UP, None)
    modifies around`faults, around`log, disk, disk.bytes
    ensures IsRun(attempts, uploads, build, head, old(disk.bytes[..]), disk.bytes[..])
    ensures outcome.Some? && outcome.value.Ok? <==> Completed(attempts)
    ensures outcome.None? ==> |attempts| == |uploads|
    ensures outcome.Some? ==> attempts != []
    ensures around.log.done == UpTo(if outcome.Some? then |attempts| - 1 else |attempts|)
    ensures around.log.refused == if outcome.Some? && outcome.value.Err? then Some(CreateFifo) else None
    ensures outcome.Some? && outcome.value.Ok? ==> disk.unsynced == 0
    ensures outcome.Some? && outcome.value.Err? ==>
              && outcome.value.error == (if AnyWrote(attempts) then DiskPartlyWritten(FifoFailed) else FifoFailed)
              && (!outcome.value.error.DiskPartlyWritten? ==>
                    disk.writeCalls == old(disk.writeCalls) && disk.bytes[..] == old(disk.bytes[..]))
    ensures around.faults >= old(around.faults) && disk.faults >= old(disk.faults)
    ensures around.faults == old(around.faults) && disk.faults == old(disk.faults) ==>
              if outcome.None? then NoneIsGood(uploads, build, head, disk.bytes.Length)
              else outcome.value.Ok? && IsFirstGood(|attempts| - 1, uploads, build, head, disk.bytes.Length)
  {
    attempts := [];
    ghost var first := disk.bytes[..];
    hide AttemptStep, UploadIsGood, IsRun, NoneIsGood, AnyWrote;
    NoAttempts(uploads, build, head, first);
    NoUploads(uploads, build, head, disk.bytes.Length);
    var diskWritten := false;
    for n := 0 to |uploads|
      invariant n == |attempts| && !Completed(attempts)
      invariant around.log == Log(UpTo(n), None)
      invariant IsRun(attempts, uploads, build, head, first, disk.bytes[..])
      invariant diskWritten <==> AnyWrote(attempts)
      invariant !diskWritten ==> disk.writeCalls == old(disk.writeCalls) && disk.bytes[..] == first
      invariant around.faults >= old(around.faults) && disk.faults >= old(disk.faults)
      invariant around.faults == old(around.faults) && disk.faults == old(disk.faults) ==>
                  NoneIsGood(uploads[..n], build, head, disk.bytes.Length)
    {
      OneMoreUpload(uploads, n, build, head, disk.bytes.Length);
      ghost var before := disk.bytes[..];
      var r := FlashOnce(around, disk, uploads[n], head, build);
      ghost var attempt := Attempt(uploads[n], before, disk.bytes[..], r);
      OneMoreAttempt(attempts, attempt, uploads, build, head, first);
      OneMoreMayHaveWritten(attempts, attempt);
      attempts := attempts + [attempt];
      if r.Ok? {
        return Some(Ok(())), attempts;
      }
      diskWritten := diskWritten || r.error.DiskPartlyWritten?;
      var fifo := around.Do(CreateFifo);
      if !fifo {
        // A write of any attempt so far taints the outcome.
        return Some(Err(if diskWritten then DiskPartlyWritten(FifoFailed) else FifoFailed)), attempts;
      }
    }
    assert uploads[..|uploads|] == uploads;
    outcome := None;
  }

  /** What comes before the first upload. */
  method SetUp(around: Surroundings) returns (ok: bool)
    requires around.log == Log([], None)
    modifies around`faults, around`log
    ensures if ok then around.log == Log(SET_UP, None) && around.faults == old(around.faults)
            else && around.log.refused.Some? && around.log.refused.value in SET_UP
                 && LogMeans(around.log, Some(Err(SetupFailed)), 0, false) && around.faults > old(around.faults)
  {
    ok := around.Do(Unmount);
    if !ok {
      return;
    }
    ok := around.Do(Network);
    if !ok {
      return;
    }
    ok := around.Do(CreateFifo);
    if !ok {
      return;
    }
    ok := around.Do(StartDropbear);
  }

  /** What comes behind the attempt that flashed the disk. */
  method Finish(around: Surroundings, disk: Device, grub: bool, ghost attempts: nat) returns (r: Result<(), FlashError>)
    requires attempts > 0 && around.log == Log(UpTo(attempts - 1), None)
    modifies around
    ensures LogMeans(around.log, Some(r), attempts, grub)
    ensures r.Ok? || r.error == EfiFailed ==> around.tableSeen == disk.bytes[..]
    ensures r.Err? ==> r.error in {StalePartitionTable, EfiFailed}
    ensures around.faults >= old(around.faults) && (r.Err? ==> around.faults > old(around.faults))
  {
    hide UpTo;
    var tableRead := around.Reread(disk);
    if !tableRead {
      return Err(StalePartitionTable);
    }
    if grub {
      var efi := around.Do(EfiEntries);
      if !efi {
        return Err(EfiFailed);
      }
    }
    r := Ok(());
  }

  /** The whole run: set up, flash, have the kernel read the new table and write the EFI entries. */
  method Scp(around: Surroundings, disk: Device, raw: BuildConstants, uploads: seq<Upload>, build: Build)
    returns (outcome: Option<Result<(), FlashError>>, ghost attempts: seq<Attempt>)
    requires build.Valid() && forall i :: 0 <= i < |uploads| ==> uploads[i].Valid()
    requires around.log == Log([], None)
    modifies around, disk, disk.bytes
    ensures RequiredConstants(raw).Ok? ==>
              IsRun(attempts, uploads, build, Head(RequiredConstants(raw).value), old(disk.bytes[..]), disk.bytes[..])
    ensures RequiredConstants(raw).Err? ==>
              outcome == Some(Err(RequiredConstants(raw).error)) && attempts == []
              && disk.writeCalls == old(disk.writeCalls) && disk.bytes[..] == old(disk.bytes[..])
    ensures outcome.Some? && KeepsLog(outcome.value) ==>
              || (disk.writeCalls == old(disk.writeCalls) && disk.bytes[..] == old(disk.bytes[..]))
              || (Completed(attempts) && around.tableSeen == disk.bytes[..])
    ensures outcome == Some(Ok(())) ==>
              Completed(attempts) && around.tableSeen == disk.bytes[..] && disk.unsynced == 0
    ensures outcome.None? ==> |attempts| == |uploads| && !Completed(attempts)
    ensures outcome.Some? && outcome.value.Err? && outcome.value.error.DiskPartlyWritten? ==> AnyWrote(attempts)
    ensures RequiredConstants(raw).Ok? ==> LogMeans(around.log, outcome, |attempts|, build.grub)
    ensures around.faults == old(around.faults) && disk.faults == old(disk.faults) && RequiredConstants(raw).Ok? ==>
              var head := Head(RequiredConstants(raw).value);
              if outcome.None? then NoneIsGood(uploads, build, head, disk.bytes.Length)
              else outcome.value.Ok? && IsFirstGood(|attempts| - 1, uploads, build, head, disk.bytes.Length)
  {
    attempts := [];
    var constants := RequiredConstants(raw);
    if constants.Err? {
      return Some(Err(constants.error)), attempts;
    }
    hide RequiredConstants, IsRun, Completed, IsFirstGood, NoneIsGood, UpTo, LogMeans;
    var head := Head(constants.value);
    NoAttempts(uploads, build, head, disk.bytes[..]);
    var setUp := SetUp(around);
    if !setUp {
      SetUpDoesNotDependOnGrub(around.log, build.grub);
      return Some(Err(SetupFailed)), attempts;
    }
    NothingFailedYet();
    outcome, attempts := FlashUntilDone(around, disk, uploads, head, build);
    FlashingMeans(around.log, outcome, |attempts|, build.grub);
    if outcome.None? || outcome.value.Err? {
      return;
    }
    var r := Finish(around, disk, build.grub, |attempts|);
    outcome := Some(r);
  }

  /** A write of any attempt taints a later failure. */
  ghost predicate AnyWrote(attempts: seq<Attempt>) {
    exists i :: 0 <= i < |attempts| && Wrote(attempts[i])
  }

  lemma OneMoreMayHaveWritten(attempts: seq<Attempt>, a: Attempt)
    ensures AnyWrote(attempts + [a]) <==> AnyWrote(attempts) || Wrote(a)
  {
    var all := attempts + [a];
    assert all[|attempts|] == a && forall i :: 0 <= i < |attempts| ==> all[i] == attempts[i];
  }

  lemma NothingFailedYet()
    ensures UpTo(0) == SET_UP
  {
  }

  lemma SetUpDoesNotDependOnGrub(log: Log, grub: bool)
    requires LogMeans(log, Some(Err(SetupFailed)), 0, false)
    ensures LogMeans(log, Some(Err(SetupFailed)), 0, grub)
  {
  }

  lemma FlashingMeans(log: Log, outcome: Option<Result<(), FlashError>>, attempts: nat, grub: bool)
    requires outcome.Some? ==> attempts > 0
    requires log.done == UpTo(if outcome.Some? then attempts - 1 else attempts)
    requires log.refused == if outcome.Some? && outcome.value.Err? then Some(CreateFifo) else None
    requires outcome.Some? && outcome.value.Err? ==> outcome.value.error in {FifoFailed, DiskPartlyWritten(FifoFailed)}
    ensures outcome.None? || outcome.value.Err? ==> LogMeans(log, outcome, attempts, grub)
  {
    hide UpTo;
  }

  lemma NoUploads(uploads: seq<Upload>, build: Build, head: ByteRange, diskLen: nat)
    ensures NoneIsGood(uploads[..0], build, head, diskLen)
  {
  }

  lemma OneMoreUpload(uploads: seq<Upload>, n: nat, build: Build, head: ByteRange, diskLen: nat)
    requires n < |uploads|
    ensures NoneIsGood(uploads[..n + 1], build, head, diskLen)
            <==> NoneIsGood(uploads[..n], build, head, diskLen) && !UploadIsGood(uploads[n], build, head, diskLen)
  {
    hide UploadIsGood;
    assert uploads[..n + 1] == uploads[..n] + [uploads[n]];
  }

  lemma NoAttempts(uploads: seq<Upload>, build: Build, head: ByteRange, disk: seq<byte>)
    ensures IsRun([], uploads, build, head, disk, disk) && !AnyWrote([])
  {
  }

  // ---- where the bytes of the disk come from ----

  /** The attempt may have written the disk. */
  predicate Wrote(a: Attempt) {
    a.result.Err? && a.result.error.DiskPartlyWritten?
  }

  /** The byte that an attempt with this upload puts at p. */
  ghost predicate ComesFrom(upload: Upload, head: ByteRange, p: nat, value: byte) {
    && upload.bmap.Some?
    && if upload.bmap.value.Maps(p) then p < |upload.image| && value == upload.image[p]
       else head.Covers(p) && value == 0
  }

  lemma FailedAttemptWrites(a: Attempt, build: Build, head: ByteRange, p: nat)
    requires AttemptStep(a, build, head) && a.result.Err? && p < |a.before|
    ensures |a.after| == |a.before|
    ensures a.after[p] != a.before[p] ==> Wrote(a) && ComesFrom(a.upload, head, p, a.after[p])
  {
  }

  /** Behind failed attempts each byte is the one from before the run, or comes from an upload that wrote the disk. */
  lemma {:induction false} EveryByteHasAnOrigin(attempts: seq<Attempt>, uploads: seq<Upload>, build: Build,
                                                head: ByteRange, first: seq<byte>, last: seq<byte>, p: nat)
    requires IsRun(attempts, uploads, build, head, first, last) && !Completed(attempts) && p < |first|
    ensures |last| == |first|
    ensures last[p] == first[p]
         || exists i :: 0 <= i < |attempts| && Wrote(attempts[i]) && ComesFrom(attempts[i].upload, head, p, last[p])
  {
    if attempts != [] {
      var n := |attempts| - 1;
      var a, earlier := attempts[n], attempts[..n];
      EveryByteHasAnOrigin(earlier, uploads, build, head, first, a.before, p);
      FailedAttemptWrites(a, build, head, p);
      hide AttemptStep, IsRun, ComesFrom;
      if a.after[p] == a.before[p] && a.before[p] != first[p] {
        var i :| 0 <= i < n && Wrote(earlier[i]) && ComesFrom(earlier[i].upload, head, p, a.before[p]);
        assert attempts[i] == earlier[i];
      }
    }
  }

  lemma {:induction false} SameLength(attempts: seq<Attempt>, uploads: seq<Upload>, build: Build,
                                      head: ByteRange, first: seq<byte>, last: seq<byte>)
    requires IsRun(attempts, uploads, build, head, first, last)
    ensures |last| == |first|
  {
    if attempts != [] {
      var n := |attempts| - 1;
      SameLength(attempts[..n], uploads, build, head, first, attempts[n].before);
    }
  }

  /**
   A completed run leaves the disk that its last upload defines, on top of what the attempts before it left. If none
   of them wrote, that is the disk from before the run.
   */
  lemma CompletedRun(attempts: seq<Attempt>, uploads: seq<Upload>, build: Build, head: ByteRange,
                     first: seq<byte>, last: seq<byte>) returns (before: seq<byte>)
    requires IsRun(attempts, uploads, build, head, first, last) && Completed(attempts)
    ensures var n := |attempts| - 1;
            && n < |uploads| && uploads[n].bmap.Some?
            && Accepts(Stream, uploads[n].bmap.value, build.sha, uploads[n].image)
            && Flashed(uploads[n].bmap.value, uploads[n].image, head, before, last)
            && IsRun(attempts[..n], uploads, build, head, first, before) && !Completed(attempts[..n])
            && ((forall i :: 0 <= i < n ==> !Wrote(attempts[i])) ==> before == first)
  {
    var n := |attempts| - 1;
    before := attempts[n].before;
    var earlier := attempts[..n];
    assert AttemptStep(attempts[n], build, head);
    SameLength(earlier, uploads, build, head, first, before);
    if forall i :: 0 <= i < n ==> !Wrote(attempts[i]) {
      hide IsRun, AttemptStep, Flashed;
      forall p: nat | p < |first|
        ensures before[p] == first[p]
      {
        EveryByteHasAnOrigin(earlier, uploads, build, head, first, before, p);
        assert forall i :: 0 <= i < n ==> earlier[i] == attempts[i];
      }
    }
  }
}
