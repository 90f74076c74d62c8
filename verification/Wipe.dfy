/** The random overwrite of a partition in a reset: what it replaces, and how much a power loss can bring back. */
module Wipe {
  import opened Common
  import opened RawIo

  const WIPE_CHUNK_SIZE: nat := 1024 * 1024
  const WIPE_PROGRESS_INTERVAL: u64 := 1024 * 1024 * 1024

  /** /dev/urandom: it never ends, but a read may fail. */
  class RandomSource {
    // Every byte handed out.
    ghost var stream: seq<byte>
    ghost var faults: nat

    constructor ()
      ensures stream == []
    {
      stream := [];
    }

    method ReadExact(buf: array<byte>, len: nat) returns (ok: bool)
      requires len <= buf.Length
      modifies this, buf
      ensures ok ==> stream == old(stream) + buf[..len] && faults == old(faults)
      ensures !ok ==> stream == old(stream) && faults == old(faults) + 1
    {
      ok := *;
      if !ok {
        faults := faults + 1;
        return;
      }
      for i := 0 to len
        invariant stream == old(stream) + buf[..i] && faults == old(faults)
      {
        var random: byte := *;
        buf[i] := random;
        stream := stream + [random];
        assert buf[..i + 1] == buf[..i] + [random];
      }
    }
  }

  /** On a target with a narrow usize as well, a chunk is never empty before the end. */
  function ChunkLen(len: u64, written: u64): (chunk: nat)
    requires written <= len
    ensures chunk <= WIPE_CHUNK_SIZE && written + chunk <= len
    ensures written < len ==> chunk > 0
    ensures written + chunk < len ==> chunk == WIPE_CHUNK_SIZE
  {
    Min(len - written, WIPE_CHUNK_SIZE)
  }

  /** The most bytes that are written and not yet on the disk: the interval in whole chunks. */
  function UnsyncedBound(interval: u64): (bound: nat)
    ensures bound > 0 && bound % WIPE_CHUNK_SIZE == 0
    ensures interval <= bound < Max(interval, 1) + WIPE_CHUNK_SIZE
    ensures bound == interval <==> interval > 0 && interval % WIPE_CHUNK_SIZE == 0
  {
    (Max(interval, 1) + WIPE_CHUNK_SIZE - 1) / WIPE_CHUNK_SIZE * WIPE_CHUNK_SIZE
  }

  predicate WholeChunks(bytes: nat) {
    bytes % WIPE_CHUNK_SIZE == 0
  }

  lemma OneChunkMoreIsWhole(bytes: nat)
    requires WholeChunks(bytes)
    ensures WholeChunks(bytes + WIPE_CHUNK_SIZE) && WholeChunks(0)
  {
  }

  lemma WholeChunksAndBound(bytes: nat, interval: u64)
    requires WholeChunks(bytes)
    ensures bytes < Max(interval, 1) ==> bytes + WIPE_CHUNK_SIZE <= UnsyncedBound(interval)
    ensures bytes >= Max(interval, 1) ==> bytes >= UnsyncedBound(interval)
  {
    MultiplesAreApart(bytes, UnsyncedBound(interval), WIPE_CHUNK_SIZE);
  }

  lemma MultiplesAreApart(m: nat, n: nat, c: nat)
    requires c > 0 && m % c == 0 && n % c == 0
    ensures m < n ==> m + c <= n
    ensures n < m + c ==> n <= m
  {
    var a, b := m / c, n / c;
    assert m == c * a && n == c * b;
    if a < b {
      assert c * (a + 1) <= c * b;
    }
  }

  /** Between two chunks: `own` bytes are written since the last sync, in whole chunks, and the next sync is not due. */
  ghost predicate OnPace(len: u64, interval: u64, written: u64, own: nat, nextStep: u64) {
    && own <= written && nextStep <= written - own + interval
    && (own > 0 ==> written < nextStep)
    && (written < len ==> WholeChunks(own))
  }

  /** No sync so far. */
  ghost predicate FirstInterval(interval: u64, written: u64, own: nat, nextStep: u64) {
    own == written && nextStep == interval
  }

  /** One more chunk keeps the bound; a first sync that becomes due with it fills the bound, or the length. */
  lemma OneMoreChunk(len: u64, interval: u64, written: u64, own: nat, nextStep: u64, chunk: nat)
    requires OnPace(len, interval, written, own, nextStep) && written < len && chunk == ChunkLen(len, written)
    ensures own + chunk <= Min(UnsyncedBound(interval), len)
    ensures written + chunk < nextStep ==> OnPace(len, interval, written + chunk, own + chunk, nextStep)
    ensures written + chunk >= nextStep ==>
              OnPace(len, interval, written + chunk, 0, SaturatingAdd(nextStep, interval))
    ensures FirstInterval(interval, written, own, nextStep) && written + chunk >= nextStep ==>
              own + chunk >= Min(UnsyncedBound(interval), len)
    ensures FirstInterval(interval, written, own, nextStep) && written + chunk < nextStep ==>
              FirstInterval(interval, written + chunk, own + chunk, nextStep)
  {
    hide UnsyncedBound, WholeChunks;
    WholeChunksAndBound(own, interval);
    OneChunkMoreIsWhole(own);
    WholeChunksAndBound(own + WIPE_CHUNK_SIZE, interval);
  }

  /** What a device has unsynced: now, and at most so far. */
  datatype Unsynced = Unsynced(now: nat, peak: nat)

  ghost function PeakBound(len: u64, interval: u64, first: Unsynced): nat {
    Max(first.peak, first.now + Min(UnsyncedBound(interval), len))
  }

  /** The whole bookkeeping between two chunks, for a device that had `first` unsynced before. */
  ghost predicate InBound(len: u64, interval: u64, written: u64, own: nat, nextStep: u64, first: Unsynced,
                          u: Unsynced)
  {
    && OnPace(len, interval, written, own, nextStep)
    && own <= u.now <= first.now + own
    && own <= u.peak <= PeakBound(len, interval, first)
    && (FirstInterval(interval, written, own, nextStep) || u.peak >= Min(UnsyncedBound(interval), len))
  }

  lemma NothingWritten(len: u64, interval: u64, first: Unsynced)
    ensures InBound(len, interval, 0, 0, interval, first, first)
  {
    hide UnsyncedBound;
  }

  /** One chunk, of which n bytes were written, and the sync that may be due behind it. */
  lemma ChunkStaysInBound(len: u64, interval: u64, written: u64, own: nat, nextStep: u64, first: Unsynced, u: Unsynced,
                          n: nat, u': Unsynced)
    requires InBound(len, interval, written, own, nextStep, first, u) && written < len && n <= ChunkLen(len, written)
    requires u'.now == u.now + n && u.peak <= u'.peak <= Max(u.peak, u'.now)
    ensures u'.peak <= PeakBound(len, interval, first)
    ensures n == ChunkLen(len, written) && u'.peak >= u'.now ==>
              if written + n < nextStep then InBound(len, interval, written + n, own + n, nextStep, first, u')
              else InBound(len, interval, written + n, 0, SaturatingAdd(nextStep, interval), first, u'.(now := 0))
  {
    OneMoreChunk(len, interval, written, own, nextStep, ChunkLen(len, written));
    hide UnsyncedBound, OnPace, ChunkLen, SaturatingAdd;
  }

  /** What was written without any sync is unsynced. */
  lemma EverythingWritten(len: u64, interval: u64, own: nat, nextStep: u64, first: Unsynced, u: Unsynced)
    requires InBound(len, interval, len, own, nextStep, first, u)
    ensures Min(UnsyncedBound(interval), len) <= u.peak <= PeakBound(len, interval, first)
  {
    hide UnsyncedBound, OnPace;
  }

  /** A power loss brings back at most one interval, if and only if the chunk divides it or nothing is longer. */
  lemma OneIntervalIsLeft(interval: u64, len: u64)
    ensures Min(UnsyncedBound(interval), len) <= interval
            <==> (interval > 0 && interval % WIPE_CHUNK_SIZE == 0) || len <= interval
  {
    hide UnsyncedBound;
  }

  /** An interval with which it brings back more. */
  lemma MoreThanOneIntervalIsLeft() returns (interval: u64, len: u64)
    ensures Min(UnsyncedBound(interval), len) > interval > 0
  {
    hide UnsyncedBound;
    interval, len := 1, 2;
    OneIntervalIsLeft(interval, len);
  }

  /** The next chunk at the position of `target`. On an error a part of it may have been written. */
  method WriteRandomChunk(target: Device, buf: array<byte>, chunk: nat, urandom: RandomSource) returns (ok: bool)
    requires target.isOpen && chunk <= buf.Length && buf != target.bytes && target.pos == |urandom.stream|
    modifies target, target.bytes, buf, urandom
    ensures target.isOpen
    ensures old(target.pos) <= target.pos <= Min(old(target.pos) + chunk, |urandom.stream|)
    ensures target.pos > old(target.pos) ==> target.pos <= target.bytes.Length
    ensures forall p :: 0 <= p < old(target.pos) ==> urandom.stream[p] == old(urandom.stream[p])
    ensures forall p :: 0 <= p < target.bytes.Length ==>
              target.bytes[p] == if old(target.pos) <= p < target.pos then urandom.stream[p] else old(target.bytes[p])
    ensures ok ==> target.pos == old(target.pos) + chunk == |urandom.stream|
    ensures ok ==> target.faults == old(target.faults) && urandom.faults == old(urandom.faults)
    ensures !ok && target.faults == old(target.faults) && urandom.faults == old(urandom.faults) ==>
              old(target.pos) + chunk > target.bytes.Length
    ensures target.unsynced == old(target.unsynced) + (target.pos - old(target.pos))
    ensures target.peakUnsynced <= Max(old(target.peakUnsynced), target.unsynced)
    ensures ok ==> target.peakUnsynced >= target.unsynced
    ensures old(target.peakUnsynced) <= target.peakUnsynced
  {
    ok := urandom.ReadExact(buf, chunk);
    if ok {
      ok := target.WriteAll(buf, chunk);
    }
  }

  /** Replaces bytes 0..len of `target` by random ones; `done` of them were reached. */
  method OverwriteWithRandom(target: Device, len: u64, interval: u64, urandom: RandomSource)
    returns (ok: bool, ghost done: nat)
    requires target.isOpen && urandom.stream == []
    modifies target, target.bytes, urandom
    ensures done <= len && done <= |urandom.stream|
    ensures forall p :: 0 <= p < target.bytes.Length ==>
              target.bytes[p] == if p < done then urandom.stream[p] else old(target.bytes[p])
    ensures ok ==> done == len <= target.bytes.Length && target.unsynced == 0
    ensures target.faults == old(target.faults) && urandom.faults == old(urandom.faults) ==>
              (ok <==> len <= target.bytes.Length)
    ensures target.peakUnsynced
         <= Max(old(target.peakUnsynced), old(target.unsynced) + Min(UnsyncedBound(interval), len))
    ensures ok ==> target.peakUnsynced >= Min(UnsyncedBound(interval), len)
    ensures ok && old(target.unsynced) == old(target.peakUnsynced) == 0 ==>
              (target.peakUnsynced <= interval
               <==> (interval > 0 && interval % WIPE_CHUNK_SIZE == 0) || len <= interval)
  {
    hide UnsyncedBound, ChunkLen, InBound, SaturatingAdd;
    ghost var first := Unsynced(target.unsynced, target.peakUnsynced);
    OneIntervalIsLeft(interval, len);
    NothingWritten(len, interval, first);
    var buf := new byte[WIPE_CHUNK_SIZE];
    var written: u64 := 0;
    var nextStep: u64 := interval;
    done := 0;
    ok := target.Seek(0);
    if !ok {
      return;
    }
    // Bytes written here since the last sync.
    ghost var own: nat := 0;
    while written < len
      invariant target.isOpen && written <= len && done == written == |urandom.stream|
      invariant target.pos == written && (written > 0 ==> written <= target.bytes.Length)
      invariant forall p :: 0 <= p < target.bytes.Length ==>
                  target.bytes[p] == if p < written then urandom.stream[p] else old(target.bytes[p])
      invariant target.faults == old(target.faults) && urandom.faults == old(urandom.faults)
      invariant InBound(len, interval, written, own, nextStep, first, Unsynced(target.unsynced, target.peakUnsynced))
    {
      ghost var before := Unsynced(target.unsynced, target.peakUnsynced);
      var chunk := ChunkLen(len, written);
      ChunkFits(len, written, chunk);
      ok := WriteRandomChunk(target, buf, chunk, urandom);
      done := target.pos;
      ChunkStaysInBound(len, interval, written, own, nextStep, first, before, done - written,
                        Unsynced(target.unsynced, target.peakUnsynced));
      if !ok {
        return;
      }
      written := written + chunk;
      own := own + chunk;

      if written >= nextStep {
        ok := target.SyncAll();
        if !ok {
          return;
        }
        own := 0;
        nextStep := SaturatingAdd(nextStep, interval);
      }
    }
    EverythingWritten(len, interval, own, nextStep, first, Unsynced(target.unsynced, target.peakUnsynced));
    ok := target.SyncAll();
  }

  lemma ChunkFits(len: u64, written: u64, chunk: nat)
    requires written < len && chunk == ChunkLen(len, written)
    ensures 0 < chunk <= WIPE_CHUNK_SIZE && written + chunk <= len
  {
  }

  /**
   Mode 2: the whole device, unless it is mounted. With the interval of the program at most one interval of
   the old content is left after a power loss.
   */
  method WipeRandom(device: Device, mounted: bool, urandom: RandomSource) returns (ok: bool, ghost done: nat)
    requires urandom.stream == [] && device.bytes.Length <= U64_MAX
    modifies device, device.bytes, urandom
    ensures done <= |urandom.stream|
    ensures forall p :: 0 <= p < device.bytes.Length ==>
              device.bytes[p] == if p < done then urandom.stream[p] else old(device.bytes[p])
    ensures mounted ==> !ok && done == 0
    ensures ok ==> done == device.bytes.Length && device.unsynced == 0
    ensures device.faults == old(device.faults) && urandom.faults == old(urandom.faults) ==> (ok <==> !mounted)
    ensures device.peakUnsynced <= Max(old(device.peakUnsynced), old(device.unsynced) + WIPE_PROGRESS_INTERVAL)
  {
    done := 0;
    if mounted {
      return false, 0;
    }
    ok := device.Open();
    if !ok {
      return;
    }
    var len: u64 := device.bytes.Length;
    ok := device.Seek(len);
    if !ok {
      return;
    }
    ok := device.Seek(0);
    if !ok {
      return;
    }
    ok, done := OverwriteWithRandom(device, len, WIPE_PROGRESS_INTERVAL, urandom);
  }
}
