/** A checked block map and the parts of an area that it leaves out. */
module BlockMap {
  import opened Common

  datatype ByteRange = ByteRange(offset: u64, len: u64) {
    ghost predicate Covers(p: int) {
      offset <= p < offset + len
    }
  }

  datatype MappedRange = MappedRange(bytes: ByteRange, sha256: seq<byte>)

  datatype Bmap = Bmap(imageSize: u64, ranges: seq<MappedRange>) {

    /** What the parser establishes: non-empty ranges, sorted, disjoint, inside the image. */
    ghost predicate Valid() {
      && (forall i :: 0 <= i < |ranges| ==>
            ranges[i].bytes.len > 0 && ranges[i].bytes.offset + ranges[i].bytes.len <= imageSize)
      && (forall i, j :: 0 <= i < j < |ranges| ==>
            ranges[i].bytes.offset + ranges[i].bytes.len <= ranges[j].bytes.offset)
    }

    ghost predicate Maps(p: int) {
      exists i :: 0 <= i < |ranges| && ranges[i].bytes.Covers(p)
    }

    /** Maps, restricted to the first n ranges. */
    ghost predicate MapsBefore(n: nat, p: int)
      requires n <= |ranges|
    {
      n > 0 && (ranges[n - 1].bytes.Covers(p) || MapsBefore(n - 1, p))
    }

    lemma {:induction false} MapsBeforeIsMaps(n: nat, p: int)
      requires n <= |ranges|
      ensures MapsBefore(n, p) <==> exists i :: 0 <= i < n && ranges[i].bytes.Covers(p)
    {
      if n > 0 {
        MapsBeforeIsMaps(n - 1, p);
      }
    }
  }

  /** The end of an area, as the source computes it: it stops at the last u64. */
  function AreaEnd(area: ByteRange): u64 {
    SaturatingAdd(area.offset, area.len)
  }

  ghost predicate InSome(gaps: seq<ByteRange>, p: int) {
    gaps != [] && (gaps[|gaps| - 1].Covers(p) || InSome(gaps[..|gaps| - 1], p))
  }

  lemma {:induction false} InSomeIsExists(gaps: seq<ByteRange>, p: int)
    ensures InSome(gaps, p) <==> exists g :: 0 <= g < |gaps| && gaps[g].Covers(p)
  {
    if gaps != [] {
      var front := gaps[..|gaps| - 1];
      InSomeIsExists(front, p);
      assert forall g :: 0 <= g < |front| ==> front[g] == gaps[g];
    }
  }

  /** Every gap is non-empty and a mapped byte separates it from the next one. */
  ghost predicate SeparateGaps(gaps: seq<ByteRange>) {
    && (forall g :: 0 <= g < |gaps| ==> gaps[g].len > 0)
    && (forall g, h :: 0 <= g < h < |gaps| ==> gaps[g].offset + gaps[g].len < gaps[h].offset)
  }

  function TotalLen(gaps: seq<ByteRange>): nat {
    if gaps == [] then 0 else TotalLen(gaps[..|gaps| - 1]) + gaps[|gaps| - 1].len
  }

  /** How many bytes of [from, to) the range covers. */
  function Overlap(range: ByteRange, from: int, to: int): nat {
    Max(0, Min(range.offset + range.len, to) - Max(range.offset, from))
  }

  /** How many bytes of [from, to) the ranges map. */
  function MappedBytes(ranges: seq<MappedRange>, from: int, to: int): nat {
    if ranges == [] then 0
    else MappedBytes(ranges[..|ranges| - 1], from, to) + Overlap(ranges[|ranges| - 1].bytes, from, to)
  }

  lemma {:induction false} NothingMappedBehind(ranges: seq<MappedRange>, n: nat, from: int, to: int)
    requires n <= |ranges|
    requires forall i :: n <= i < |ranges| ==> ranges[i].bytes.offset >= to
    ensures MappedBytes(ranges, from, to) == MappedBytes(ranges[..n], from, to)
    decreases |ranges|
  {
    if n == |ranges| {
      assert ranges[..n] == ranges;
    } else {
      var front := ranges[..|ranges| - 1];
      NothingMappedBehind(front, n, from, to);
      assert front[..n] == ranges[..n];
    }
  }

  lemma AppendGap(gaps: seq<ByteRange>, gap: ByteRange)
    ensures forall p :: InSome(gaps + [gap], p) <==> InSome(gaps, p) || gap.Covers(p)
    ensures TotalLen(gaps + [gap]) == TotalLen(gaps) + gap.len
  {
    assert (gaps + [gap])[..|gaps|] == gaps;
  }

  /** `gaps` holds what the ranges before n leave free of the area, up to `cursor`. */
  ghost predicate GapsUpTo(bmap: Bmap, area: ByteRange, n: nat, cursor: int, gaps: seq<ByteRange>)
    requires n <= |bmap.ranges|
  {
    && SeparateGaps(gaps)
    && (forall g :: 0 <= g < |gaps| ==> gaps[g].offset + gaps[g].len < cursor)
    && (forall p :: p >= cursor ==> !bmap.MapsBefore(n, p))
    && (forall p :: InSome(gaps, p) <==> area.offset <= p < cursor && p < AreaEnd(area) && !bmap.MapsBefore(n, p))
  }

  ghost predicate LengthsUpTo(bmap: Bmap, area: ByteRange, n: nat, cursor: int, gaps: seq<ByteRange>)
    requires n <= |bmap.ranges|
  {
    TotalLen(gaps) + MappedBytes(bmap.ranges[..n], area.offset, AreaEnd(area))
    == Min(cursor, AreaEnd(area)) - area.offset
  }

  /** What one turn of the loop over the ranges does to the list of gaps. */
  function WithGapBefore(gaps: seq<ByteRange>, cursor: u64, start: u64): seq<ByteRange> {
    if start > cursor then gaps + [ByteRange(cursor, start - cursor)] else gaps
  }

  /** Where the ranges before n end. */
  function EndBefore(bmap: Bmap, n: nat): int
    requires n <= |bmap.ranges|
  {
    if n == 0 then 0 else bmap.ranges[n - 1].bytes.offset + bmap.ranges[n - 1].bytes.len
  }

  lemma NextRange(bmap: Bmap, area: ByteRange, n: nat, n': nat, cursor: u64, gaps: seq<ByteRange>)
    requires bmap.Valid() && n < |bmap.ranges| && n' == n + 1
    requires GapsUpTo(bmap, area, n, cursor, gaps)
    requires cursor == Max(area.offset, EndBefore(bmap, n))
    requires bmap.ranges[n].bytes.offset < AreaEnd(area)
    ensures var range := bmap.ranges[n].bytes;
            GapsUpTo(bmap, area, n', Max(cursor, range.offset + range.len), WithGapBefore(gaps, cursor, range.offset))
  {
    hide TotalLen;
    var range := bmap.ranges[n].bytes;
    var gaps' := WithGapBefore(gaps, cursor, range.offset);
    var cursor' := Max(cursor, range.offset + range.len);
    AppendGap(gaps, ByteRange(cursor, Max(0, range.offset - cursor)));
    forall p
      ensures bmap.MapsBefore(n', p) <==> bmap.MapsBefore(n, p) || range.Covers(p)
    {
      assert n' - 1 == n;
    }
    forall p
      ensures InSome(gaps', p) <==> area.offset <= p < cursor' && p < AreaEnd(area) && !bmap.MapsBefore(n', p)
    {
      assert InSome(gaps', p) <==> InSome(gaps, p) || cursor <= p < range.offset;
    }
  }

  lemma NextLength(bmap: Bmap, area: ByteRange, n: nat, cursor: u64, gaps: seq<ByteRange>)
    requires bmap.Valid() && n < |bmap.ranges|
    requires LengthsUpTo(bmap, area, n, cursor, gaps)
    requires cursor == Max(area.offset, EndBefore(bmap, n))
    requires bmap.ranges[n].bytes.offset < AreaEnd(area)
    ensures var range := bmap.ranges[n].bytes;
            LengthsUpTo(bmap, area, n + 1, Max(cursor, range.offset + range.len),
                        WithGapBefore(gaps, cursor, range.offset))
  {
    var range := bmap.ranges[n].bytes;
    assert bmap.ranges[..n + 1][..n] == bmap.ranges[..n];
    AppendGap(gaps, ByteRange(cursor, Max(0, range.offset - cursor)));
  }

  ghost predicate IsFreeSpace(bmap: Bmap, area: ByteRange, gaps: seq<ByteRange>) {
    && SeparateGaps(gaps)
    && (forall p :: InSome(gaps, p) <==> area.offset <= p < AreaEnd(area) && !bmap.Maps(p))
    && TotalLen(gaps) + MappedBytes(bmap.ranges, area.offset, AreaEnd(area)) == AreaEnd(area) - area.offset
  }

  lemma NoLaterRangeMaps(bmap: Bmap, area: ByteRange, n: nat)
    requires bmap.Valid() && n <= |bmap.ranges|
    requires n < |bmap.ranges| ==> bmap.ranges[n].bytes.offset >= AreaEnd(area)
    ensures forall i :: n <= i < |bmap.ranges| ==> bmap.ranges[i].bytes.offset >= AreaEnd(area)
    ensures forall p :: p < AreaEnd(area) ==> (bmap.Maps(p) <==> bmap.MapsBefore(n, p))
  {
    forall p | p < AreaEnd(area)
      ensures bmap.Maps(p) <==> bmap.MapsBefore(n, p)
    {
      bmap.MapsBeforeIsMaps(n, p);
    }
  }

  lemma TheRestIsFree(bmap: Bmap, area: ByteRange, n: nat, cursor: u64, gaps: seq<ByteRange>)
    requires bmap.Valid() && n <= |bmap.ranges|
    requires n < |bmap.ranges| ==> bmap.ranges[n].bytes.offset >= AreaEnd(area)
    requires area.offset <= cursor
    requires GapsUpTo(bmap, area, n, cursor, gaps) && LengthsUpTo(bmap, area, n, cursor, gaps)
    ensures IsFreeSpace(bmap, area, WithGapBefore(gaps, cursor, AreaEnd(area)))
  {
    hide MappedBytes, TotalLen, InSome, Bmap.MapsBefore, Bmap.Maps;
    var areaEnd := AreaEnd(area);
    var all := WithGapBefore(gaps, cursor, areaEnd);
    NoLaterRangeMaps(bmap, area, n);
    NothingMappedBehind(bmap.ranges, n, area.offset, areaEnd);
    AppendGap(gaps, ByteRange(cursor, Max(0, areaEnd - cursor)));
    forall p
      ensures InSome(all, p) <==> area.offset <= p < areaEnd && !bmap.Maps(p)
    {
      assert InSome(all, p) <==> InSome(gaps, p) || cursor <= p < areaEnd;
    }
  }

  lemma NothingYet(bmap: Bmap, area: ByteRange)
    ensures GapsUpTo(bmap, area, 0, area.offset, []) && LengthsUpTo(bmap, area, 0, area.offset, [])
  {
    assert bmap.ranges[..0] == [];
  }

  /** The gaps of `area`: where it is not mapped. */
  method Unmapped(bmap: Bmap, area: ByteRange) returns (gaps: seq<ByteRange>)
    requires bmap.Valid()
    ensures IsFreeSpace(bmap, area, gaps)
  {
    hide GapsUpTo, LengthsUpTo, IsFreeSpace;
    var areaEnd := AreaEnd(area);
    gaps := [];
    var cursor: u64 := area.offset;
    NothingYet(bmap, area);
    var n := 0;
    while n < |bmap.ranges|
      invariant 0 <= n <= |bmap.ranges|
      invariant cursor == Max(area.offset, EndBefore(bmap, n))
      invariant GapsUpTo(bmap, area, n, cursor, gaps) && LengthsUpTo(bmap, area, n, cursor, gaps)
    {
      var start := bmap.ranges[n].bytes.offset;
      var end: u64 := start + bmap.ranges[n].bytes.len;
      if start >= areaEnd {
        break;
      }
      NextRange(bmap, area, n, n + 1, cursor, gaps);
      NextLength(bmap, area, n, cursor, gaps);
      ghost var withGap := WithGapBefore(gaps, cursor, start);
      if start > cursor {
        gaps := gaps + [ByteRange(cursor, start - cursor)];
      }
      assert gaps == withGap;
      cursor := Max(cursor, end);
      n := n + 1;
    }
    TheRestIsFree(bmap, area, n, cursor, gaps);
    ghost var withGap := WithGapBefore(gaps, cursor, areaEnd);
    if cursor < areaEnd {
      gaps := gaps + [ByteRange(cursor, areaEnd - cursor)];
    }
    assert gaps == withGap;
  }
}
