/**
 Copying the mapped ranges of an image to a disk or a file.

 SHA-256 is a parameter: an arbitrary function of the bytes that a hasher has been given.
 */
module BmapCopy {
  import opened Common
  import opened BlockMap
  import opened RawIo

  type Digest = seq<byte> -> seq<byte>

  datatype CopyError =
    | OpeningSource
    | OpeningDestination
    | ReadingSource
    | SeekingSource
    | SeekingDestination
    | WritingDestination
    | SyncingDestination
    | EndedAt(position: nat)
    | CannotMoveBack
    | ChecksumMismatch(range: ByteRange)
    | LongerThanImage

  /** A stream reads over the gaps of an image, a seekable source seeks over them. */
  datatype Kind = Stream | Seekable

  /** The distance to a target in front of the position. */
  function Distance(position: u64, target: u64): Option<u64> {
    CheckedSub(target, position)
  }

  /** An I/O error is one of the side that it names. */
  predicate NamesTheSide(e: CopyError, sourceTrouble: bool, outputFault: bool, full: bool) {
    match e
    case OpeningSource => sourceTrouble
    case ReadingSource => sourceTrouble
    case SeekingSource => sourceTrouble
    case OpeningDestination => outputFault
    case SeekingDestination => outputFault
    case SyncingDestination => outputFault
    case WritingDestination => outputFault || full
    case _ => true
  }

  /** An end in the middle is reported where the source has it. */
  predicate EndIsReal(r: Result<(), CopyError>, position: nat, length: nat) {
    r.Err? && r.error.EndedAt? ==> r.error.position == position >= length
  }

  class Input {
    const kind: Kind
    const inner: Reader
    /** Every byte of the image in front of it was consumed, by a read or by a skip. */
    var position: u64

    /** No stream is longer than a u64 can count. */
    ghost predicate Valid()
      reads this, inner
    {
      position == inner.pos && |inner.data| <= U64_MAX
    }

    constructor (kind: Kind, inner: Reader)
      requires inner.pos == 0 && |inner.data| <= U64_MAX
      ensures Valid() && this.kind == kind && this.inner == inner && position == 0
    {
      this.kind := kind;
      this.inner := inner;
      position := 0;
    }

    method Read(buf: array<byte>, want: nat) returns (r: Option<nat>)
      requires Valid() && inner.isOpen && 0 < want <= buf.Length
      modifies this, inner, buf
      ensures Valid() && inner.isOpen
      ensures position == old(position) + if r.Some? then r.value else 0
      ensures r.Some? ==> r.value <= want && (r.value == 0 <==> old(position) >= |inner.data|)
      ensures r.Some? && r.value > 0 ==>
                && position <= |inner.data|
                && forall p :: old(position) <= p < position ==> buf[p - old(position)] == inner.data[p]
      ensures Troubles() >= old(Troubles()) && (r.Some? <==> Troubles() == old(Troubles()))
    {
      var read := inner.Read(buf, want);
      if !read.Done? {
        return None;
      }
      position := position + read.count;
      r := Some(read.count);
    }

    /** How often the source failed or was interrupted. */
    ghost function Troubles(): int
      reads inner
    {
      inner.faults - inner.interruptsLeft
    }

    /** The next read starts at `target`, which is not behind the position. */
    method SkipTo(target: u64, buf: array<byte>, usizeMax: nat) returns (r: Result<(), CopyError>)
      requires Valid() && inner.isOpen && 0 < buf.Length <= usizeMax
      modifies this, inner, buf
      ensures Valid() && inner.isOpen
      ensures r.Ok? ==> position == target && old(position) <= target && Troubles() == old(Troubles())
      ensures Troubles() >= old(Troubles())
      ensures r == Err(CannotMoveBack) <==> target < old(position)
      ensures r.Err? ==> r.error in {CannotMoveBack, SeekingSource, ReadingSource, EndedAt(position)}
      ensures r.Err? ==> NamesTheSide(r.error, Troubles() > old(Troubles()), false, false)
      ensures EndIsReal(r, position, |inner.data|)
      ensures old(position) <= position <= Max(old(position), target)
      ensures Troubles() == old(Troubles()) ==>
                (r.Ok? <==> && old(position) <= target
                            && (kind.Stream? && old(position) < target ==> target <= |inner.data|))
    {
      var len := Distance(position, target);
      if len.None? {
        return Err(CannotMoveBack);
      }
      match kind
      case Stream =>
        r := ReadOver(this, len.value, buf, usizeMax);
      case Seekable =>
        var ok := inner.Seek(target);
        if !ok {
          return Err(SeekingSource);
        }
        position := target;
        r := Ok(());
    }
  }

  /** Reads exactly `len` bytes with the sink that drops them. */
  method ReadOver(input: Input, len: u64, buf: array<byte>, usizeMax: nat) returns (r: Result<(), CopyError>)
    requires input.Valid() && input.inner.isOpen && 0 < buf.Length <= usizeMax
    requires input.position + len <= U64_MAX
    modifies input, input.inner, buf
    ensures input.Valid() && input.inner.isOpen
    ensures old(input.position) <= input.position <= old(input.position) + len
    ensures r.Ok? ==> input.position == old(input.position) + len
    ensures r.Err? ==> r.error in {ReadingSource, EndedAt(input.position)}
    ensures r.Err? ==> NamesTheSide(r.error, input.Troubles() > old(input.Troubles()), false, false)
    ensures EndIsReal(r, input.position, |input.inner.data|)
    ensures input.Troubles() >= old(input.Troubles()) && (r.Ok? ==> input.Troubles() == old(input.Troubles()))
    ensures input.Troubles() == old(input.Troubles()) ==>
              (r.Ok? <==> len == 0 || old(input.position) + len <= |input.inner.data|)
  {
    var left: u64 := len;
    while left > 0
      invariant input.Valid() && input.inner.isOpen && input.position == old(input.position) + len - left
      invariant left < len ==> input.position <= |input.inner.data|
      invariant input.Troubles() == old(input.Troubles())
    {
      var chunk := ChunkLen(left, buf.Length, usizeMax);
      var read := input.Read(buf, chunk);
      if read.None? {
        return Err(ReadingSource);
      }
      if read.value == 0 {
        return Err(EndedAt(input.position));
      }
      left := left - read.value;
    }
    r := Ok(());
  }

  lemma EmptyWindow(data: seq<byte>, a: nat)
    ensures Window(data, a, a) == []
  {
  }

  lemma WindowGrows(data: seq<byte>, a: nat, b: nat, c: nat, chunk: seq<byte>)
    requires a <= b <= c <= |data| && |chunk| == c - b
    requires forall p :: b <= p < c ==> chunk[p - b] == data[p]
    ensures Window(data, a, b) + chunk == Window(data, a, c)
  {
    assert chunk == data[b..c];
  }

  /**
   Reads exactly `len` bytes with the sink that hashes them and writes them at the position
   of the output, which is the position of the input.
   */
  method PassThrough(input: Input, len: u64, buf: array<byte>, usizeMax: nat, output: Device)
    returns (r: Result<(), CopyError>, hashed: seq<byte>)
    requires input.Valid() && input.inner.isOpen && output.isOpen && 0 < buf.Length <= usizeMax
    requires input.position + len <= U64_MAX
    requires buf != output.bytes && output.pos == input.position
    modifies input, input.inner, buf, output, output.bytes
    ensures input.Valid() && input.inner.isOpen && output.isOpen
    ensures old(output.pos) <= output.pos <= input.position <= old(input.position) + len
    ensures input.position > old(input.position) ==> input.position <= |input.inner.data|
    ensures forall p :: 0 <= p < output.bytes.Length ==>
              output.bytes[p] == if old(output.pos) <= p < output.pos then input.inner.data[p] else old(output.bytes[p])
    ensures r.Ok? ==> input.position == output.pos == old(input.position) + len
    ensures r.Ok? ==> hashed == Window(input.inner.data, old(input.position), input.position)
    ensures r.Err? ==> r.error in {ReadingSource, WritingDestination, EndedAt(input.position)}
    ensures r.Err? ==> NamesTheSide(r.error, input.Troubles() > old(input.Troubles()),
                                    output.faults > old(output.faults), old(output.pos) + len > output.bytes.Length)
    ensures EndIsReal(r, input.position, |input.inner.data|)
    ensures input.Troubles() >= old(input.Troubles()) && output.faults >= old(output.faults)
    ensures output.writeCalls >= old(output.writeCalls)
    ensures r.Ok? ==> input.Troubles() == old(input.Troubles()) && output.faults == old(output.faults)
    ensures input.Troubles() == old(input.Troubles()) && output.faults == old(output.faults) ==>
              (r.Ok? <==> len == 0 || (old(input.position) + len <= |input.inner.data|
                                       && old(output.pos) + len <= output.bytes.Length))
  {
    hide Window, Device.Wrote;
    hashed := [];
    assert Window(input.inner.data, input.position, input.position) == [] by {
      EmptyWindow(input.inner.data, input.position);
    }
    var left: u64 := len;
    while left > 0
      invariant input.inner.isOpen && output.isOpen
      invariant input.Valid() && input.position == output.pos == old(input.position) + len - left
      invariant left < len ==> input.position <= |input.inner.data| && output.pos <= output.bytes.Length
      invariant hashed == Window(input.inner.data, old(input.position), input.position)
      invariant forall p :: 0 <= p < output.bytes.Length ==>
                  output.bytes[p] == if old(output.pos) <= p < output.pos then input.inner.data[p]
                                     else old(output.bytes[p])
      invariant input.Troubles() == old(input.Troubles())
      invariant output.faults == old(output.faults) && output.writeCalls >= old(output.writeCalls)
    {
      var chunk := ChunkLen(left, buf.Length, usizeMax);
      ghost var before := input.position;
      var read := input.Read(buf, chunk);
      if read.None? {
        return Err(ReadingSource), hashed;
      }
      if read.value == 0 {
        return Err(EndedAt(input.position)), hashed;
      }
      WindowGrows(input.inner.data, old(input.position), before, input.position, buf[..read.value]);
      hashed := hashed + buf[..read.value];
      var ok := output.WriteAll(buf, read.value);
      if !ok {
        return Err(WritingDestination), hashed;
      }
      left := left - read.value;
    }
    r := Ok(());
  }

  /** Every mapped range is in the source and has its declared checksum. */
  ghost predicate ChecksumsMatch(bmap: Bmap, sha: Digest, data: seq<byte>) {
    forall i :: 0 <= i < |bmap.ranges| ==> RangeMatches(bmap.ranges[i], sha, data)
  }

  ghost predicate RangeMatches(range: MappedRange, sha: Digest, data: seq<byte>) {
    var end := range.bytes.offset + range.bytes.len;
    end <= |data| && sha(data[range.bytes.offset..end]) == range.sha256
  }

  /** What the content has to do with an error: a range that is not as declared, or an end in the wrong place. */
  ghost predicate ErrorOfCopy(e: CopyError, ranges: seq<MappedRange>, sha: Digest, data: seq<byte>, imageSize: nat) {
    match e
    case ChecksumMismatch(bytes) =>
      exists i :: 0 <= i < |ranges| && ranges[i].bytes == bytes && bytes.offset + bytes.len <= |data|
                  && !RangeMatches(ranges[i], sha, data)
    case EndedAt(position) => position >= |data|
    case LongerThanImage => |data| > imageSize
    case CannotMoveBack => false
    case _ => true
  }

  /** What a source must be for a copy without I/O trouble to succeed. */
  ghost predicate Accepts(kind: Kind, bmap: Bmap, sha: Digest, data: seq<byte>) {
    && ChecksumsMatch(bmap, sha, data)
    && (if kind.Stream? then |data| == bmap.imageSize else |data| <= bmap.imageSize)
  }

  /** The output has room for every mapped range. */
  ghost predicate Fits(bmap: Bmap, length: nat) {
    forall i :: 0 <= i < |bmap.ranges| ==> bmap.ranges[i].bytes.offset + bmap.ranges[i].bytes.len <= length
  }

  /** `after` differs from `before` only in the mapped bytes below `frontier`, which are those of the source. */
  ghost predicate CopiedUpTo(bmap: Bmap, data: seq<byte>, frontier: nat, before: seq<byte>, after: seq<byte>) {
    && |after| == |before|
    && (forall p :: 0 <= p < |after| && bmap.Maps(p) && p < frontier ==> p < |data| && after[p] == data[p])
    && (forall p :: 0 <= p < |after| && !(bmap.Maps(p) && p < frontier) ==> after[p] == before[p])
  }

  /** A copy in which no I/O operation failed: whether it succeeds, and what it then leaves. */
  ghost predicate FaultlessCopy(kind: Kind, bmap: Bmap, sha: Digest, data: seq<byte>,
                                before: seq<byte>, after: seq<byte>, ok: bool) {
    && (ok <==> Accepts(kind, bmap, sha, data) && Fits(bmap, |before|))
    && (ok ==> CopiedUpTo(bmap, data, bmap.imageSize, before, after))
  }

  /** Ranges before n are exactly the mapped bytes before the end of range n-1. */
  lemma {:induction false} MapsBelow(bmap: Bmap, n: nat, p: int)
    requires bmap.Valid() && n <= |bmap.ranges|
    ensures bmap.MapsBefore(n, p) <==> bmap.Maps(p) && p < EndBefore(bmap, n)
  {
    bmap.MapsBeforeIsMaps(n, p);
    if bmap.Maps(p) {
      var i :| 0 <= i < |bmap.ranges| && bmap.ranges[i].bytes.Covers(p);
      if i < n {
        assert i < n - 1 ==> bmap.ranges[i].bytes.offset + bmap.ranges[i].bytes.len <= bmap.ranges[n - 1].bytes.offset;
      }
    }
  }

  /** Up to a frontier inside range n, the mapped bytes are those of the ranges before and of its head. */
  lemma FrontierInRange(bmap: Bmap, n: nat, frontier: nat, p: int)
    requires bmap.Valid() && n < |bmap.ranges|
    requires bmap.ranges[n].bytes.offset <= frontier <= bmap.ranges[n].bytes.offset + bmap.ranges[n].bytes.len
    ensures bmap.Maps(p) && p < frontier <==>
            bmap.MapsBefore(n, p) || bmap.ranges[n].bytes.offset <= p < frontier
  {
    MapsBelow(bmap, n, p);
    bmap.MapsBeforeIsMaps(n + 1, p);
    MapsBelow(bmap, n + 1, p);
    assert n > 0 ==> EndBefore(bmap, n) <= bmap.ranges[n].bytes.offset;
  }

  /** Where the copy of range n may have stopped, in terms of the whole image. */
  lemma FrontierIsGlobal(bmap: Bmap, n: nat, frontier: nat, data: seq<byte>, first: seq<byte>, before: seq<byte>,
                         after: seq<byte>)
    requires bmap.Valid() && n < |bmap.ranges|
    requires bmap.ranges[n].bytes.offset <= frontier <= bmap.ranges[n].bytes.offset + bmap.ranges[n].bytes.len
    requires frontier > bmap.ranges[n].bytes.offset ==> frontier <= |data|
    requires CopiedUpTo(bmap, data, EndBefore(bmap, n), first, before)
    requires |after| == |before|
    requires forall p :: 0 <= p < |after| ==>
               after[p] == if bmap.ranges[n].bytes.offset <= p < frontier then data[p] else before[p]
    ensures CopiedUpTo(bmap, data, frontier, first, after)
  {
    forall p | 0 <= p < |after|
      ensures bmap.Maps(p) && p < frontier <==>
              (bmap.Maps(p) && p < EndBefore(bmap, n)) || bmap.ranges[n].bytes.offset <= p < frontier
    {
      FrontierInRange(bmap, n, frontier, p);
      MapsBelow(bmap, n, p);
    }
  }

  lemma NothingCopied(bmap: Bmap, data: seq<byte>, before: seq<byte>)
    requires bmap.Valid()
    ensures CopiedUpTo(bmap, data, 0, before, before)
  {
    assert forall p :: bmap.Maps(p) ==> p >= 0;
  }

  /** Copies one mapped range; `frontier` is the end of what reached the output. */
  method CopyMapped(range: MappedRange, sha: Digest, input: Input, output: Device, buf: array<byte>, usizeMax: nat)
    returns (r: Result<(), CopyError>, ghost frontier: nat)
    requires input.Valid() && input.inner.isOpen && output.isOpen && 0 < buf.Length <= usizeMax && buf != output.bytes
    requires range.bytes.len > 0 && range.bytes.offset + range.bytes.len <= U64_MAX
    requires input.position <= range.bytes.offset
    modifies input, input.inner, buf, output, output.bytes
    ensures input.inner.isOpen && output.isOpen
    ensures input.Valid() && input.position <= range.bytes.offset + range.bytes.len
    ensures range.bytes.offset <= frontier <= range.bytes.offset + range.bytes.len
    ensures frontier > range.bytes.offset ==> frontier <= |input.inner.data|
    ensures forall p :: 0 <= p < output.bytes.Length ==>
              output.bytes[p] == if range.bytes.offset <= p < frontier then input.inner.data[p]
                                 else old(output.bytes[p])
    ensures r.Ok? ==> && input.position == frontier == range.bytes.offset + range.bytes.len
                      && RangeMatches(range, sha, input.inner.data) && frontier <= output.bytes.Length
    ensures r.Err? ==> NamesTheSide(r.error, input.Troubles() > old(input.Troubles()),
                                    output.faults > old(output.faults),
                                    range.bytes.offset + range.bytes.len > output.bytes.Length)
    ensures r.Err? ==> ErrorOfCopy(r.error, [range], sha, input.inner.data, |input.inner.data|)
    ensures input.Troubles() >= old(input.Troubles()) && output.faults >= old(output.faults)
    ensures output.writeCalls >= old(output.writeCalls)
    ensures r.Ok? ==> input.Troubles() == old(input.Troubles()) && output.faults == old(output.faults)
    ensures input.Troubles() == old(input.Troubles()) && output.faults == old(output.faults) ==>
              (r.Ok? <==> RangeMatches(range, sha, input.inner.data)
                          && range.bytes.offset + range.bytes.len <= output.bytes.Length)
  {
    var ByteRange(offset, len) := range.bytes;
    frontier := offset;
    r := input.SkipTo(offset, buf, usizeMax);
    if r.Err? {
      return;
    }
    var ok := output.Seek(offset);
    if !ok {
      return Err(SeekingDestination), frontier;
    }
    var hashed;
    r, hashed := PassThrough(input, len, buf, usizeMax, output);
    frontier := output.pos;
    if r.Err? {
      return;
    }
    if sha(hashed) != range.sha256 {
      assert [range][0] == range;
      return Err(ChecksumMismatch(range.bytes)), frontier;
    }
  }

  /**
   Copies the mapped ranges and reads the source to its end, so that a cut source or data
   behind the image is an error. `frontier` is the end of what reached the output.
   */
  method CopyStream(bmap: Bmap, sha: Digest, input: Input, output: Device, usizeMax: nat)
    returns (r: Result<(), CopyError>, ghost frontier: nat)
    requires input.inner.isOpen && output.isOpen
    requires bmap.Valid() && input.Valid() && input.position == 0 && COPY_BUFFER_SIZE <= usizeMax
    modifies input, input.inner, output, output.bytes
    ensures input.Valid() && output.isOpen
    ensures CopiedUpTo(bmap, input.inner.data, frontier, old(output.bytes[..]), output.bytes[..])
    ensures r.Ok? ==> frontier == bmap.imageSize && Accepts(input.kind, bmap, sha, input.inner.data)
                      && Fits(bmap, output.bytes.Length)
    ensures r.Err? ==> NamesTheSide(r.error, input.Troubles() > old(input.Troubles()),
                                    output.faults > old(output.faults), !Fits(bmap, output.bytes.Length))
    ensures r.Err? ==> ErrorOfCopy(r.error, bmap.ranges, sha, input.inner.data, bmap.imageSize)
    ensures input.Troubles() >= old(input.Troubles()) && output.faults >= old(output.faults)
    ensures output.writeCalls >= old(output.writeCalls)
    ensures input.Troubles() == old(input.Troubles()) && output.faults == old(output.faults) ==>
              FaultlessCopy(input.kind, bmap, sha, input.inner.data, old(output.bytes[..]), output.bytes[..], r.Ok?)
  {
    hide CopiedUpTo, RangeMatches;
    var buf := new byte[COPY_BUFFER_SIZE](_ => 0);
    frontier := 0;
    var n := 0;
    NothingCopied(bmap, input.inner.data, output.bytes[..]);
    while n < |bmap.ranges|
      invariant 0 <= n <= |bmap.ranges| && input.inner.isOpen && output.isOpen
      invariant input.Valid() && input.position == frontier == EndBefore(bmap, n)
      invariant n > 0 ==> frontier <= |input.inner.data|
      invariant CopiedUpTo(bmap, input.inner.data, frontier, old(output.bytes[..]), output.bytes[..])
      invariant forall i :: 0 <= i < n ==> RangeMatches(bmap.ranges[i], sha, input.inner.data)
      invariant forall i :: 0 <= i < n ==>
                  bmap.ranges[i].bytes.offset + bmap.ranges[i].bytes.len <= output.bytes.Length
      invariant input.Troubles() == old(input.Troubles()) && output.faults == old(output.faults)
      invariant output.writeCalls >= old(output.writeCalls)
    {
      assert n > 0 ==> EndBefore(bmap, n) <= bmap.ranges[n].bytes.offset;
      ghost var before := output.bytes[..];
      r, frontier := CopyMapped(bmap.ranges[n], sha, input, output, buf, usizeMax);
      FrontierIsGlobal(bmap, n, frontier, input.inner.data, old(output.bytes[..]), before, output.bytes[..]);
      if r.Err? {
        return;
      }
      n := n + 1;
    }
    WholeImage(bmap, input.inner.data, frontier, old(output.bytes[..]), output.bytes[..]);
    frontier := bmap.imageSize;
    r := input.SkipTo(bmap.imageSize, buf, usizeMax);
    if r.Err? {
      return;
    }
    var extra := input.Read(buf, 1);
    if extra.None? {
      return Err(ReadingSource), frontier;
    }
    if extra.value != 0 {
      return Err(LongerThanImage), frontier;
    }
  }

  /** Behind the last range there is nothing left to write. */
  lemma WholeImage(bmap: Bmap, data: seq<byte>, frontier: nat, before: seq<byte>, after: seq<byte>)
    requires bmap.Valid() && frontier == EndBefore(bmap, |bmap.ranges|)
    requires CopiedUpTo(bmap, data, frontier, before, after)
    ensures CopiedUpTo(bmap, data, bmap.imageSize, before, after)
    ensures frontier <= bmap.imageSize
  {
    forall p | bmap.Maps(p)
      ensures p < frontier
    {
      bmap.MapsBeforeIsMaps(|bmap.ranges|, p);
      MapsBelow(bmap, |bmap.ranges|, p);
    }
  }

  /** CopyStream between opening the files and syncing the destination. */
  method Copy(bmap: Bmap, sha: Digest, input: Input, output: Device, usizeMax: nat)
    returns (r: Result<(), CopyError>, ghost frontier: nat)
    requires bmap.Valid() && input.Valid() && input.position == 0 && COPY_BUFFER_SIZE <= usizeMax
    modifies input, input.inner, output, output.bytes
    ensures CopiedUpTo(bmap, input.inner.data, frontier, old(output.bytes[..]), output.bytes[..])
    ensures r.Ok? ==> frontier == bmap.imageSize && Accepts(input.kind, bmap, sha, input.inner.data)
                      && Fits(bmap, output.bytes.Length)
    ensures r.Err? ==> NamesTheSide(r.error, input.Troubles() > old(input.Troubles()),
                                    output.faults > old(output.faults), !Fits(bmap, output.bytes.Length))
    ensures r.Err? ==> ErrorOfCopy(r.error, bmap.ranges, sha, input.inner.data, bmap.imageSize)
    ensures input.Troubles() >= old(input.Troubles()) && output.faults >= old(output.faults)
    ensures output.writeCalls >= old(output.writeCalls)
    ensures r.Ok? ==> output.unsynced == 0
    ensures input.Troubles() == old(input.Troubles()) && output.faults == old(output.faults) ==>
              FaultlessCopy(input.kind, bmap, sha, input.inner.data, old(output.bytes[..]), output.bytes[..], r.Ok?)
  {
    frontier := 0;
    var ok := input.inner.Open();
    if !ok {
      return Err(OpeningSource), frontier;
    }
    ok := output.Open();
    if !ok {
      return Err(OpeningDestination), frontier;
    }
    r, frontier := CopyStream(bmap, sha, input, output, usizeMax);
    if r.Err? {
      return;
    }
    ok := output.SyncAll();
    if !ok {
      return Err(SyncingDestination), frontier;
    }
  }

  /**
   Two copies of the same source to the same disk, one reading over the gaps and one seeking over them: both leave
   the same disk, and they agree on success unless the source ends behind its last range but before the image does.
   */
  lemma BothKindsAgree(bmap: Bmap, sha: Digest, data: seq<byte>, before: seq<byte>,
                       read: seq<byte>, readOk: bool, sought: seq<byte>, soughtOk: bool)
    requires bmap.Valid()
    requires FaultlessCopy(Stream, bmap, sha, data, before, read, readOk)
    requires FaultlessCopy(Seekable, bmap, sha, data, before, sought, soughtOk)
    ensures readOk ==> soughtOk
    ensures readOk && soughtOk ==> read == sought
    ensures readOk == soughtOk <==>
            |data| >= bmap.imageSize || !ChecksumsMatch(bmap, sha, data) || !Fits(bmap, |before|)
  {
    if readOk {
      forall p | 0 <= p < |before|
        ensures read[p] == sought[p]
      {
        if bmap.Maps(p) && p < bmap.imageSize {
          assert read[p] == data[p] && sought[p] == data[p];
        }
      }
    }
  }

  /** Such a source: one mapped byte of an image of two, and nothing behind it. */
  lemma SeekingTakesAMissingTail() returns (bmap: Bmap, sha: Digest, data: seq<byte>)
    ensures bmap.Valid() && Fits(bmap, 2)
    ensures Accepts(Seekable, bmap, sha, data) && !Accepts(Stream, bmap, sha, data)
  {
    sha := bytes => [];
    data := [7];
    bmap := Bmap(2, [MappedRange(ByteRange(0, 1), [])]);
    assert RangeMatches(bmap.ranges[0], sha, data);
  }

  /** What the verify pass leaves in its file is a source that the seeking pass accepts. */
  lemma DecodedFileIsAccepted(bmap: Bmap, sha: Digest, image: seq<byte>, blank: seq<byte>, decoded: seq<byte>)
    requires bmap.Valid() && Accepts(Stream, bmap, sha, image)
    requires |blank| == bmap.imageSize && CopiedUpTo(bmap, image, bmap.imageSize, blank, decoded)
    ensures Accepts(Seekable, bmap, sha, decoded)
    ensures forall p :: 0 <= p < bmap.imageSize && bmap.Maps(p) ==> decoded[p] == image[p]
  {
    forall i | 0 <= i < |bmap.ranges|
      ensures RangeMatches(bmap.ranges[i], sha, decoded)
    {
      var from, end := bmap.ranges[i].bytes.offset, bmap.ranges[i].bytes.offset + bmap.ranges[i].bytes.len;
      assert RangeMatches(bmap.ranges[i], sha, image);
      forall p | from <= p < end
        ensures decoded[p] == image[p]
      {
        assert bmap.ranges[i].bytes.Covers(p);
      }
      assert decoded[from..end] == image[from..end];
    }
  }
}
