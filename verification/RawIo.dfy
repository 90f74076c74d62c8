/**
 Byte-range copies on devices whose reads and writes may be short, be interrupted or fail.

 A device is a fixed-length array: a write past its end is an error. Every I/O outcome that
 the environment chooses is an arbitrary value, so a contract holds for every fault pattern.
 */
module RawIo {
  import opened Common
  import opened BlockMap

  const KIB: u64 := 1024
  const COPY_BUFFER_SIZE: nat := 1024 * 1024

  /** The bytes of the next chunk, for a machine whose usize goes up to usizeMax. */
  function ChunkLen(left: u64, bufLen: nat, usizeMax: nat): (chunk: nat)
    requires bufLen <= usizeMax
    ensures chunk == Min(left, bufLen)
    ensures left > 0 && bufLen > 0 ==> chunk > 0
  {
    if left <= usizeMax then Min(left, bufLen) else bufLen
  }

  datatype IoResult = Done(count: nat) | Interrupted | Failed

  /** The bytes of s from position a up to b, as far as s has them. */
  function Window(s: seq<byte>, a: nat, b: nat): seq<byte>
    requires a <= b
  {
    s[Min(a, |s|)..Min(b, |s|)]
  }

  /** An open file or stream that is only read. */
  class Reader {
    const data: seq<byte>
    var pos: nat
    // How often a read may still be interrupted.
    var interruptsLeft: nat
    // Reads that failed for another reason.
    ghost var faults: nat
    ghost var isOpen: bool

    constructor (data: seq<byte>, interrupts: nat)
      ensures this.data == data && pos == 0 && interruptsLeft == interrupts && !isOpen
    {
      this.data := data;
      pos := 0;
      interruptsLeft := interrupts;
      isOpen := false;
    }

    /** Opens the source again; a new handle starts at byte 0. */
    method Open() returns (ok: bool)
      modifies this
      ensures interruptsLeft == old(interruptsLeft) && isOpen == (ok || old(isOpen))
      ensures if ok then pos == 0 && faults == old(faults) else pos == old(pos) && faults == old(faults) + 1
    {
      ok := *;
      if ok {
        pos, isOpen := 0, true;
      } else {
        faults := faults + 1;
      }
    }

    /** Moving past the end is allowed, as it is for a file. */
    method Seek(target: u64) returns (ok: bool)
      requires isOpen
      modifies this
      ensures interruptsLeft == old(interruptsLeft) && isOpen
      ensures if ok then pos == target && faults == old(faults) else pos == old(pos) && faults == old(faults) + 1
    {
      ok := *;
      if ok {
        pos := target;
      } else {
        faults := faults + 1;
      }
    }

    /** Reads at least one byte, unless the position is at or behind the end. */
    method Read(buf: array<byte>, want: nat) returns (r: IoResult)
      requires isOpen && 0 < want <= buf.Length
      modifies this, buf
      ensures isOpen
      ensures pos == old(pos) + if r.Done? then r.count else 0
      ensures r.Done? ==> r.count <= want && (r.count == 0 <==> old(pos) >= |data|)
      ensures r.Done? && r.count > 0 ==>
                pos <= |data| && forall p :: old(pos) <= p < pos ==> buf[p - old(pos)] == data[p]
      ensures faults == old(faults) + if r.Failed? then 1 else 0
      ensures interruptsLeft == old(interruptsLeft) - if r.Interrupted? then 1 else 0
    {
      var failed: bool := *;
      var interrupted: bool := *;
      if failed {
        faults := faults + 1;
        return Failed;
      }
      if interrupted && interruptsLeft > 0 {
        interruptsLeft := interruptsLeft - 1;
        return Interrupted;
      }
      if pos >= |data| {
        return Done(0);
      }
      var most := Min(want, |data| - pos);
      var n: nat :| 1 <= n <= most;
      forall i | 0 <= i < n {
        buf[i] := data[pos + i];
      }
      pos := pos + n;
      r := Done(n);
    }
  }

  /** A block device, or a file of fixed length, that is open for writing. */
  class Device {
    const bytes: array<byte>
    var pos: nat
    var interruptsLeft: nat
    // Calls that failed although the request itself could be met.
    ghost var faults: nat
    ghost var writeCalls: nat
    // Bytes written since the last sync, and the most there ever were.
    ghost var unsynced: nat
    ghost var peakUnsynced: nat
    ghost var isOpen: bool

    /** Created, or truncated, to `length` zero bytes. */
    constructor Sparse(length: nat)
      ensures fresh(bytes) && bytes.Length == length && pos == 0
      ensures forall p :: 0 <= p < length ==> bytes[p] == 0
    {
      bytes := new byte[length](_ => 0);
      pos := 0;
      interruptsLeft := 0;
    }

    /** Opens the existing device again; a new handle starts at byte 0. */
    method Open() returns (ok: bool)
      modifies this
      ensures unchanged(`writeCalls, `unsynced, `peakUnsynced, `interruptsLeft) && isOpen == (ok || old(isOpen))
      ensures if ok then pos == 0 && faults == old(faults) else pos == old(pos) && faults == old(faults) + 1
    {
      ok := *;
      if ok {
        pos, isOpen := 0, true;
      } else {
        faults := faults + 1;
      }
    }

    method Seek(target: u64) returns (ok: bool)
      requires isOpen
      modifies this
      ensures unchanged(`writeCalls, `unsynced, `peakUnsynced, `interruptsLeft, `isOpen)
      ensures if ok then pos == target && faults == old(faults) else pos == old(pos) && faults == old(faults) + 1
    {
      ok := *;
      if ok {
        pos := target;
      } else {
        faults := faults + 1;
      }
    }

    method SyncAll() returns (ok: bool)
      requires isOpen
      modifies this
      ensures unchanged(`pos, `writeCalls, `peakUnsynced, `interruptsLeft, `isOpen)
      ensures unsynced == if ok then 0 else old(unsynced)
      ensures faults == old(faults) + if ok then 0 else 1
    {
      ok := *;
      if ok {
        unsynced := 0;
      } else {
        faults := faults + 1;
      }
    }

    /** The bytes between the old and the new position come from buf[from..], all others are as before. */
    twostate predicate Wrote(buf: array<byte>, from: nat)
      reads this, bytes, buf
    {
      && old(pos) <= pos
      && (pos > old(pos) ==> pos <= bytes.Length)
      && from + (pos - old(pos)) <= buf.Length
      && (forall p :: 0 <= p < bytes.Length ==>
            bytes[p] == if old(pos) <= p < pos then buf[from + (p - old(pos))] else old(bytes[p]))
      && writeCalls == old(writeCalls) + 1
      && unsynced == old(unsynced) + (pos - old(pos))
      && peakUnsynced == Max(old(peakUnsynced), unsynced)
    }

    /** write(2): may take only a part of the request, none of it at the end of the device. */
    method Write(buf: array<byte>, from: nat, to: nat) returns (r: IoResult)
      requires isOpen && from < to <= buf.Length && buf != bytes
      modifies this, bytes
      ensures isOpen
      ensures Wrote(buf, from) && pos == old(pos) + if r.Done? then r.count else 0
      ensures r.Done? ==> r.count <= to - from
      ensures r == Done(0) && faults == old(faults) ==> old(pos) >= bytes.Length
      ensures r.Failed? ==> faults == old(faults) + 1
      ensures r.Interrupted? || (r.Done? && r.count > 0) ==> faults == old(faults)
      ensures old(faults) <= faults
      ensures interruptsLeft == old(interruptsLeft) - if r.Interrupted? then 1 else 0
    {
      writeCalls := writeCalls + 1;
      peakUnsynced := Max(peakUnsynced, unsynced);
      var failed: bool := *;
      var interrupted: bool := *;
      if failed {
        faults := faults + 1;
        var refused: bool := *;
        return if refused then Done(0) else Failed;
      }
      if interrupted && interruptsLeft > 0 {
        interruptsLeft := interruptsLeft - 1;
        return Interrupted;
      }
      if pos >= bytes.Length {
        return Done(0);
      }
      var most := Min(to - from, bytes.Length - pos);
      var n: nat :| 1 <= n <= most;
      forall i | 0 <= i < n {
        bytes[pos + i] := buf[from + i];
      }
      pos := pos + n;
      unsynced := unsynced + n;
      peakUnsynced := Max(peakUnsynced, unsynced);
      r := Done(n);
    }

    /** Write::write_all: on an error, some part of the request may have been written. */
    method WriteAll(buf: array<byte>, len: nat) returns (ok: bool)
      requires isOpen && len <= buf.Length && buf != bytes
      modifies this, bytes
      ensures isOpen
      ensures Wrote(buf, 0)
      ensures old(pos) <= pos <= old(pos) + len && (pos > old(pos) ==> pos <= bytes.Length)
      ensures forall p :: 0 <= p < bytes.Length ==>
                bytes[p] == if old(pos) <= p < pos then buf[p - old(pos)] else old(bytes[p])
      ensures writeCalls == old(writeCalls) + 1
      ensures ok ==> pos == old(pos) + len && faults == old(faults)
      ensures !ok && faults == old(faults) ==> old(pos) + len > bytes.Length
      ensures faults == old(faults) || faults == old(faults) + 1
      ensures interruptsLeft == old(interruptsLeft)
    {
      writeCalls := writeCalls + 1;
      var room := Max(0, Min(len, bytes.Length - pos));
      var n := room;
      var failed: bool := *;
      if failed {
        n :| 0 <= n <= room;
        faults := faults + 1;
      }
      forall i | 0 <= i < n {
        bytes[pos + i] := buf[i];
      }
      pos := pos + n;
      unsynced := unsynced + n;
      peakUnsynced := Max(peakUnsynced, unsynced);
      ok := !failed && n == len;
    }
  }

  /** Zeroes `range` of `dst`; `zeroed` tells how many of its bytes were reached. */
  method ZeroRange(dst: Device, range: ByteRange, usizeMax: nat) returns (ok: bool, ghost zeroed: nat)
    requires COPY_BUFFER_SIZE <= usizeMax
    modifies dst, dst.bytes
    ensures zeroed <= range.len
    ensures forall p :: 0 <= p < dst.bytes.Length ==>
              dst.bytes[p] == if range.offset <= p < range.offset + zeroed then 0 else old(dst.bytes[p])
    ensures ok ==> zeroed == range.len && (range.len > 0 ==> range.offset + range.len <= dst.bytes.Length)
    ensures ok ==> dst.unsynced == 0
    ensures old(dst.faults) <= dst.faults && old(dst.writeCalls) <= dst.writeCalls
    ensures dst.faults == old(dst.faults) ==>
              (ok <==> range.len == 0 || range.offset + range.len <= dst.bytes.Length)
  {
    zeroed := 0;
    ok := dst.Open();
    if !ok {
      return;
    }
    ok := dst.Seek(range.offset);
    if !ok {
      return;
    }
    var buf := new byte[COPY_BUFFER_SIZE](_ => 0);
    var left: u64 := range.len;
    while left > 0
      invariant zeroed == range.len - left && dst.isOpen
      invariant dst.pos == range.offset + zeroed && (zeroed > 0 ==> dst.pos <= dst.bytes.Length)
      invariant forall i :: 0 <= i < buf.Length ==> buf[i] == 0
      invariant forall p :: 0 <= p < dst.bytes.Length ==>
                  dst.bytes[p] == if range.offset <= p < range.offset + zeroed then 0 else old(dst.bytes[p])
      invariant dst.faults == old(dst.faults) && old(dst.writeCalls) <= dst.writeCalls
    {
      var chunk := ChunkLen(left, buf.Length, usizeMax);
      ok := dst.WriteAll(buf, chunk);
      if !ok {
        zeroed := dst.pos - range.offset;
        return;
      }
      left := left - chunk;
      zeroed := zeroed + chunk;
    }
    ok := dst.SyncAll();
  }

  datatype CopyRangeError = OpenOrSeek | ReadFailed | SourceEnded | DestinationFull | WriteFailed | SyncFailed

  /** The inner read loop of the copy: an interrupted read is tried again. */
  method ReadRetrying(src: Reader, buf: array<byte>, want: nat) returns (r: Option<nat>)
    requires src.isOpen && 0 < want <= buf.Length
    modifies src, buf
    ensures src.isOpen
    ensures r.Some? ==> r.value <= want && (r.value == 0 <==> old(src.pos) >= |src.data|)
    ensures r.Some? ==> src.pos == old(src.pos) + r.value && src.faults == old(src.faults)
    ensures r.Some? && r.value > 0 ==>
              src.pos <= |src.data| && forall p :: old(src.pos) <= p < src.pos ==> buf[p - old(src.pos)] == src.data[p]
    ensures r.None? ==> src.faults > old(src.faults)
  {
    while true
      invariant src.pos == old(src.pos) && src.faults == old(src.faults) && src.isOpen
      decreases src.interruptsLeft
    {
      var read := src.Read(buf, want);
      match read
      case Done(n) => return Some(n);
      case Interrupted =>
      case Failed => return None;
    }
  }

  /** The inner write loop of the copy: short and interrupted writes go on, a write of nothing is an error. */
  method WriteFully(dst: Device, buf: array<byte>, n: nat) returns (r: Option<CopyRangeError>)
    requires dst.isOpen && n <= buf.Length && buf != dst.bytes
    modifies dst, dst.bytes
    ensures dst.isOpen
    ensures old(dst.pos) <= dst.pos <= old(dst.pos) + n && (dst.pos > old(dst.pos) ==> dst.pos <= dst.bytes.Length)
    ensures forall p :: 0 <= p < dst.bytes.Length ==>
              dst.bytes[p] == if old(dst.pos) <= p < dst.pos then buf[p - old(dst.pos)] else old(dst.bytes[p])
    ensures r.None? ==> dst.pos == old(dst.pos) + n && dst.faults == old(dst.faults)
    ensures r.Some? ==> r.value in {DestinationFull, WriteFailed} && dst.faults >= old(dst.faults)
    ensures r == Some(WriteFailed) ==> dst.faults > old(dst.faults)
    ensures r.Some? && dst.faults == old(dst.faults) ==> old(dst.pos) + n > dst.bytes.Length
  {
    var written: nat := 0;
    while written < n
      invariant 0 <= written <= n && dst.isOpen
      invariant dst.pos == old(dst.pos) + written && (written > 0 ==> dst.pos <= dst.bytes.Length)
      invariant forall p :: 0 <= p < dst.bytes.Length ==>
                  dst.bytes[p] == if old(dst.pos) <= p < dst.pos then buf[p - old(dst.pos)] else old(dst.bytes[p])
      invariant dst.faults == old(dst.faults)
      decreases n - written, dst.interruptsLeft
    {
      var w := dst.Write(buf, written, n);
      match w
      case Done(count) =>
        if count == 0 {
          return Some(DestinationFull);
        }
        written := written + count;
      case Interrupted =>
      case Failed => return Some(WriteFailed);
    }
    r := None;
  }

  /** Both ends of a copy are opened and moved to their offsets. */
  method OpenAndSeek(src: Reader, srcOffset: u64, dst: Device, dstOffset: u64) returns (ok: bool)
    modifies src, dst
    ensures ok ==> src.isOpen && dst.isOpen && src.pos == srcOffset && dst.pos == dstOffset
    ensures dst.unsynced == old(dst.unsynced)
    ensures ok ==> src.faults == old(src.faults) && dst.faults == old(dst.faults)
    ensures !ok ==> src.faults > old(src.faults) || dst.faults > old(dst.faults)
  {
    ok := src.Open();
    if !ok {
      return;
    }
    ok := src.Seek(srcOffset);
    if !ok {
      return;
    }
    ok := dst.Open();
    if !ok {
      return;
    }
    ok := dst.Seek(dstOffset);
  }

  /**
   From an offset of one device to an offset of another, up to a length or to the end of the source. `done` bytes of
   the window reached the destination.
   */
  method CopyRange(src: Reader, srcOffset: u64, dst: Device, dstOffset: u64, len: Option<u64>, usizeMax: nat)
    returns (r: Result<nat, CopyRangeError>, ghost done: nat)
    requires COPY_BUFFER_SIZE <= usizeMax
    modifies src, dst, dst.bytes
    ensures len.Some? ==> done <= len.value
    ensures done > 0 ==> srcOffset + done <= |src.data| && dstOffset + done <= dst.bytes.Length
    ensures forall p :: 0 <= p < dst.bytes.Length ==>
              dst.bytes[p] == if dstOffset <= p < dstOffset + done then src.data[srcOffset + p - dstOffset]
                              else old(dst.bytes[p])
    ensures r.Ok? ==> r.value == done
    ensures r.Ok? ==> done == if len.Some? then len.value else Max(0, |src.data| - srcOffset)
    ensures r.Ok? ==> dst.unsynced == 0
    ensures r == Err(SourceEnded) ==> len.Some? && done < len.value && srcOffset + done >= |src.data|
    ensures r == Err(ReadFailed) ==> src.faults > old(src.faults)
    ensures r == Err(WriteFailed) || r == Err(SyncFailed) ==> dst.faults > old(dst.faults)
    ensures r == Err(OpenOrSeek) ==> src.faults > old(src.faults) || dst.faults > old(dst.faults)
    ensures src.faults == old(src.faults) && dst.faults == old(dst.faults) ==>
              (r.Ok? <==> var n := if len.Some? then len.value else Max(0, |src.data| - srcOffset);
                          n == 0 || (srcOffset + n <= |src.data| && dstOffset + n <= dst.bytes.Length))
  {
    hide ChunkLen;
    done := 0;
    var ok := OpenAndSeek(src, srcOffset, dst, dstOffset);
    if !ok {
      return Err(OpenOrSeek), 0;
    }
    var buf := new byte[COPY_BUFFER_SIZE](_ => 0);
    var copied: nat := 0;
    while true
      invariant copied == done && (len.Some? ==> done <= len.value) && src.isOpen && dst.isOpen
      invariant src.pos == srcOffset + done && dst.pos == dstOffset + done
      invariant done > 0 ==> src.pos <= |src.data| && dst.pos <= dst.bytes.Length
      invariant forall p :: 0 <= p < dst.bytes.Length ==>
                  dst.bytes[p] == if dstOffset <= p < dst.pos then src.data[srcOffset + p - dstOffset]
                                  else old(dst.bytes[p])
      invariant src.faults == old(src.faults) && dst.faults == old(dst.faults)
      decreases |src.data| - copied
    {
      if len.Some? && copied >= len.value {
        break;
      }
      var want := if len.Some? then ChunkLen(len.value - copied, buf.Length, usizeMax) else buf.Length;
      var read := ReadRetrying(src, buf, want);
      if read.None? {
        return Err(ReadFailed), done;
      }
      var n := read.value;
      if n == 0 {
        if len.Some? {
          return Err(SourceEnded), done;
        }
        break;
      }
      var failed := WriteFully(dst, buf, n);
      if failed.Some? {
        return Err(failed.value), dst.pos - dstOffset;
      }
      copied := copied + n;
      done := done + n;
    }
    ok := dst.SyncAll();
    if !ok {
      return Err(SyncFailed), done;
    }
    r := Ok(copied);
  }
}
