/** The disk side of a block: its bytes in the block file, and a checksum for each slice. */
module DiskCache {
  import opened Common
  import opened Segments

  /** The part of the content that lies in slice j. */
  function SliceBytes(z: Sizes, content: seq<byte>, j: nat): seq<byte>
    requires z.SliceLower(j) <= |content|
  {
    content[z.SliceLower(j)..if z.SliceLower(j + 1) <= |content| then z.SliceLower(j + 1) else |content|]
  }

  type Checksum = seq<byte> -> nat

  /** The checksum tells any two runs of bytes of the same length apart. */
  ghost predicate Tells(crc: Checksum) {
    forall x, y :: |x| == |y| && crc(x) == crc(y) ==> x == y
  }

  /** What block files are kept on, and watched with: the checksum function, and whether the system may
      read or write fewer bytes than asked and call it a success. */
  datatype Medium = Medium(crc: Checksum, fallsShort: bool) {
    ghost predicate Trusted() {
      fallsShort ==> Tells(crc)
    }
  }

  /** Slice j has the checksum of the content recorded for it. */
  ghost predicate Summed(z: Sizes, crc: Checksum, content: seq<byte>, sums: seq<nat>, j: nat)
    requires z.SliceLower(j) <= |content| && j < |sums|
  {
    sums[j] == crc(SliceBytes(z, content, j))
  }

  ghost predicate AllSummed(z: Sizes, crc: Checksum, content: seq<byte>, sums: seq<nat>) {
    forall j :: 0 <= j < |sums| && z.SliceLower(j) < |content| ==> Summed(z, crc, content, sums, j)
  }

  /** The content's bytes from lo to hi are there. */
  ghost predicate Agrees(content: seq<byte>, data: seq<byte>, lo: nat, hi: nat)
    requires hi <= |content| <= |data|
  {
    forall p :: lo <= p < hi ==> data[p] == content[p]
  }

  ghost predicate Roomy(z: Sizes, content: seq<byte>, data: seq<byte>, sums: seq<nat>) {
    z.Valid() && |content| <= z.block == |data| && |sums| == z.count
  }

  // ----- Slices of a segment ----------------------------------------------------------------------------

  /** The part of a segment that lies in slice j is that slice's part of the content, whole. */
  lemma SlicePart(z: Sizes, content: seq<byte>, seg: Segment, j: nat)
    requires z.Valid() && Fits(z, content, seg)
    requires seg.offset <= z.SliceLower(j) < seg.offset + seg.size
    ensures var off := z.SliceLower(j) - seg.offset;
            var n := if z.slice <= seg.size - off then z.slice else seg.size - off;
            Extract(seg.buf, n, off) == SliceBytes(z, content, j)
  {
    z.Next(j);
    AlignedAfter(z, content, j, seg.offset + seg.size);
    var off := z.SliceLower(j) - seg.offset;
    var n := if z.slice <= seg.size - off then z.slice else seg.size - off;
    SliceOfSlice(seg.buf, 0, seg.size, off, off + n);
    assert seg.buf[..seg.size] == seg.buf[0..seg.size];
    SliceOfSlice(content, seg.offset, seg.offset + seg.size, off, off + n);
  }

  /** Bytes of a segment written over a block, the first `done` of them. */
  function Overwritten(data: seq<byte>, offset: nat, buf: seq<byte>, done: nat): seq<byte>
    requires done <= |buf| && offset + done <= |data|
  {
    data[..offset] + buf[..done] + data[offset + done..]
  }

  lemma OverwriteByte(z: Sizes, content: seq<byte>, data: seq<byte>, seg: Segment, done: nat, p: nat)
    requires z.Valid() && Fits(z, content, seg) && |data| == z.block
    requires done <= |seg.buf| && p < |content| <= z.block
    ensures Overwritten(data, seg.offset, seg.buf, done)[p] ==
            if seg.offset <= p < seg.offset + done then content[p] else data[p]
  {
    if seg.offset <= p < seg.offset + done {
      assert seg.buf[..seg.size][p - seg.offset] == content[seg.offset..seg.offset + seg.size][p - seg.offset];
    }
  }

  /** A write of some bytes of the content, however short it falls, loses nothing of the content, and
      what the block then lacks is exactly what it lacked and the write did not reach. */
  lemma OverwriteExact(z: Sizes, content: seq<byte>, data: seq<byte>, seg: Segment, done: nat, p: nat)
    requires Fit(z, content, data, seg) && done <= |seg.buf| && p < |content|
    ensures Overwritten(data, seg.offset, seg.buf, done)[p] == content[p] <==>
            seg.offset <= p < seg.offset + done || data[p] == content[p]
  {
    OverwriteByte(z, content, data, seg, done, p);
  }

  /** A block written in one go is whole afterwards exactly when what the write did not reach was right
      before; so always, if it reached all of it. */
  lemma WholeIff(z: Sizes, content: seq<byte>, data: seq<byte>, seg: Segment, done: nat)
    requires Fit(z, content, data, seg) && done <= |seg.buf| && seg.offset == 0 && seg.size == |content|
    ensures Agrees(content, Overwritten(data, 0, seg.buf, done), 0, |content|) <==>
            done >= |content| || Agrees(content, data, done, |content|)
  {
    var data' := Overwritten(data, 0, seg.buf, done);
    forall p: nat | p < |content|
      ensures data'[p] == content[p] <==> p < done || data[p] == content[p]
    {
      OverwriteExact(z, content, data, seg, done, p);
    }
    if done < |content| && Agrees(content, data', 0, |content|) {
      forall p: nat | done <= p < |content|
        ensures data[p] == content[p]
      {
        assert data'[p] == content[p];
      }
    }
  }

  ghost predicate Fit(z: Sizes, content: seq<byte>, data: seq<byte>, seg: Segment) {
    z.Valid() && |content| <= z.block == |data| && Fits(z, content, seg)
  }

  class DiskBlockItem {
    const z: Sizes
    const medium: Medium
    const checksums: array<nat>
    const data: array<byte>  // the region of the block file the block id stands for

    constructor (z: Sizes, medium: Medium)
      ensures this.z == z && this.medium == medium
      ensures fresh(checksums) && fresh(data)
      ensures checksums.Length == z.count && data.Length == z.block
    {
      this.z, this.medium := z, medium;
      var sums := new nat[z.count];
      var bytes := new byte[z.block];
      checksums, data := sums, bytes;
    }

    ghost predicate HasRoom(content: seq<byte>)
      reads data, checksums
    {
      Roomy(z, content, data[..], checksums[..])
    }

    /** The checksums are those of the content.  The content itself is there in whole, unless a write
        fell short, in which case the checksums will tell. */
    ghost predicate Valid(content: seq<byte>)
      reads data, checksums
    {
      && HasRoom(content) && AllSummed(z, medium.crc, content, checksums[..])
      && (if medium.fallsShort then Tells(medium.crc) else Agrees(content, data[..], 0, |content|))
    }

    method UpdateBlockChecksum(seg: Segment, ghost content: seq<byte>)
      requires HasRoom(content) && Fits(z, content, seg)
      modifies checksums
      ensures forall j :: 0 <= j < checksums.Length ==>
                (Spans(z, seg, j) ==>
                   z.SliceLower(j) < |content| && checksums[j] == medium.crc(SliceBytes(z, content, j)))
                && (!Spans(z, seg, j) ==> checksums[j] == old(checksums[j]))
    {
      hide Fits, Spans, Extract, SliceBytes, Sizes.SliceLower, Sizes.SliceOf;
      FitsBasics(z, content, seg);
      ghost var first := z.SliceOf(seg.offset);
      ghost var j: nat := first;
      var off: nat := 0;
      while off < seg.size
        invariant z.SliceLower(j) == seg.offset + off && first <= j
        invariant first < j ==> z.SliceLower(j - 1) < seg.offset + seg.size
        invariant forall i :: first <= i < j && i < checksums.Length ==>
                    z.SliceLower(i) < |content| && checksums[i] == medium.crc(SliceBytes(z, content, i))
        invariant forall i :: 0 <= i < checksums.Length && (i < first || j <= i) ==> checksums[i] == old(checksums[i])
        decreases seg.size - off + z.slice
      {
        z.Next(j);
        SliceInBlock(z, seg.offset + off);
        SlicePart(z, content, seg, j);
        var index := z.SliceOf(seg.offset + off);
        assert index == j;
        var size := if z.slice <= seg.size - off then z.slice else seg.size - off;
        checksums[index] := medium.crc(Extract(seg.buf, size, off));
        off := off + z.slice;
        j := j + 1;
      }
      forall i: nat | i < checksums.Length
        ensures Spans(z, seg, i) <==> first <= i < j
      {
        SpansBetween(z, content, seg, first, j, i);
      }
    }

    /** Checksums first, then the bytes, of which the first `done` reach the file.  The write counts as
        a success unless the system reports an error, even if it fell short. */
    method WriteBlock(seg: Segment, done: nat, io: bool, ghost content: seq<byte>) returns (ok: bool)
      requires HasRoom(content) && done <= |seg.buf|
      requires z.Aligned(seg.offset) ==> Fits(z, content, seg)
      modifies checksums, data
      ensures HasRoom(content) && ok == (z.Aligned(seg.offset) && io)
      ensures forall j: nat :: j < z.count && z.SliceLower(j) < |content| ==>
                (old(Summed(z, medium.crc, content, checksums[..], j)) || (ok && Spans(z, seg, j)) ==>
                  Summed(z, medium.crc, content, checksums[..], j))
      ensures forall p: nat :: p < |content| ==>
                (data[p] == content[p] <==>
                   old(data[p]) == content[p] || (z.Aligned(seg.offset) && seg.offset <= p < seg.offset + done))
    {
      hide Fits, Spans, SliceBytes;
      ghost var bytes := data[..];
      if seg.offset % z.slice != 0 {
        return false;
      }
      UpdateBlockChecksum(seg, content);
      FitsBasics(z, content, seg);
      forall k | 0 <= k < done {
        data[seg.offset + k] := seg.buf[k];
      }
      assert data[..] == Overwritten(bytes, seg.offset, seg.buf, done);
      forall p: nat | p < |content|
        ensures data[p] == content[p] <==> bytes[p] == content[p] || seg.offset <= p < seg.offset + done
      {
        OverwriteExact(z, content, bytes, seg, done, p);
      }
      return io;
    }

    /** What the system leaves in the buffer of a read: the bytes of the file, or, where it may fall
        short, some of them and whatever was there before. */
    method Fetch(offset: nat, size: nat, io: bool) returns (ok: bool, buf: seq<byte>)
      requires offset + size <= data.Length
      ensures |buf| == size && (io || !medium.fallsShort ==> ok == io)
      ensures io || !medium.fallsShort ==> buf == data[offset..offset + size]
    {
      buf := data[offset..offset + size];
      if io || !medium.fallsShort {
        return io, buf;
      }
      var reported: bool, got: nat, rest: nat -> byte := *, *, *;
      var bytes := buf;
      return reported, seq(size, k requires 0 <= k < size => if k < got then bytes[k] else rest(k));
    }

    /** A read that ends with a slice, or the content, has the content's bytes if it succeeds, and does
        so exactly when the file has them, if it is not hampered.  One that ends inside a slice is
        compared with the checksum of the whole slice, and may succeed or not; it has the right bytes
        where transfers do not fall short. */
    method ReadBlock(offset: nat, size: nat, io: bool, addr: nat, ghost content: seq<byte>)
      returns (ok: bool, segment: Segment)
      requires Valid(content) && 0 < size && offset + size <= |content|
      ensures segment.addr == addr && segment.offset == offset && segment.size == size
      ensures ok ==> z.Aligned(offset) && size <= |segment.buf|
      ensures ok && (EndsWell(z, content, offset + size) || !medium.fallsShort) ==>
              segment.buf[..size] == content[offset..offset + size]
      ensures EndsWell(z, content, offset + size) && io ==>
              (ok <==> z.Aligned(offset) && Agrees(content, data[..], offset, offset + size))
      ensures EndsWell(z, content, offset + size) && ok ==> Fits(z, content, segment)
    {
      hide SliceBytes, Tells, Fits, RoundUp;
      segment := Segment(addr, offset, size, []);
      if offset % z.slice != 0 {
        return false, segment;
      }
      var alignedSize := RoundUp(size, z.unit);
      RoundUpFits(z, content, offset, size);
      var done, buf := Fetch(offset, alignedSize, io);
      if !done {
        return false, segment;
      }
      segment := Segment(addr, offset, size, buf);
      if !medium.fallsShort { AgreesPart(content, data[..], offset, size, buf); }
      ok := CheckBlockChecksum(segment, content);
      if ok && EndsWell(z, content, offset + size) { ReadFits(z, content, segment); }
      if io { AgreesIff(content, data[..], offset, size, buf); }
    }

    /** The check passes bytes of the content, every slice looked at having been checksummed over the
        same extent when it was written; and nothing else, if the checksum tells bytes apart. */
    method CheckBlockChecksum(seg: Segment, ghost content: seq<byte>) returns (ok: bool)
      requires HasRoom(content) && AllSummed(z, medium.crc, content, checksums[..])
      requires z.Aligned(seg.offset) && 0 < seg.size <= |seg.buf| && seg.offset + seg.size <= |content|
      ensures EndsWell(z, content, seg.offset + seg.size) && (Tells(medium.crc) || Same(content, seg, seg.size)) ==>
              (ok <==> Same(content, seg, seg.size))
    {
      hide SliceBytes, Tells, Extract;
      var offset, size, buf := seg.offset, seg.size, seg.buf;
      ghost var told := GoodRange(z, content, offset, size) && (Tells(medium.crc) || Same(content, seg, size));
      ghost var j: nat := z.SliceOf(offset);
      z.Locate(offset);
      var off: nat := 0;
      while off < size
        invariant z.SliceLower(j) == offset + off
        invariant told ==> Same(content, seg, if off <= size then off else size)
        decreases size - off + z.slice
      {
        z.Next(j);
        SliceInBlock(z, offset + off);
        var index := z.SliceOf(offset + off);
        var n := if z.slice <= size - off then z.slice else size - off;
        assert Summed(z, medium.crc, content, checksums[..], j);
        if told { SliceCompared(z, medium.crc, content, seg, j, off, n); }
        if checksums[index] != medium.crc(Extract(buf, n, off)) {
          return false;
        }
        off := off + z.slice;
        j := j + 1;
      }
      return true;
    }
  }

  /** The first n bytes of the segment are the content's. */
  ghost predicate Same(content: seq<byte>, seg: Segment, n: nat)
    requires n <= seg.size <= |seg.buf| && seg.offset + seg.size <= |content|
  {
    seg.buf[..n] == content[seg.offset..seg.offset + n]
  }

  /** Where slice j of the content lies in the segment. */
  lemma SliceExtent(z: Sizes, content: seq<byte>, seg: Segment, j: nat, off: nat, n: nat)
    requires z.Valid() && GoodRange(z, content, seg.offset, seg.size)
    requires off < seg.size && z.SliceLower(j) == seg.offset + off
    requires n == if z.slice <= seg.size - off then z.slice else seg.size - off
    ensures SliceBytes(z, content, j) == content[seg.offset + off..seg.offset + off + n]
  {
    z.Next(j);
    AlignedAfter(z, content, j, seg.offset + seg.size);
  }

  /** The bytes of one slice are compared by their checksums: the first n bytes behind `off` go on being
      the content's exactly when the checksums match, where that can be told. */
  lemma SliceCompared(z: Sizes, crc: Checksum, content: seq<byte>, seg: Segment, j: nat, off: nat, n: nat)
    requires z.Valid() && GoodRange(z, content, seg.offset, seg.size) && seg.size <= |seg.buf|
    requires off < seg.size && z.SliceLower(j) == seg.offset + off
    requires n == if z.slice <= seg.size - off then z.slice else seg.size - off
    requires Tells(crc) || Same(content, seg, seg.size)
    requires Same(content, seg, off)
    ensures crc(Extract(seg.buf, n, off)) == crc(SliceBytes(z, content, j)) <==> Same(content, seg, off + n)
    ensures Same(content, seg, seg.size) ==> Same(content, seg, off + n)
  {
    hide Same, SliceBytes, Sizes.SliceLower, Sizes.Aligned;
    SliceExtent(z, content, seg, j, off, n);
    SameGrows(content, seg, off, n);
  }

  lemma SameGrows(content: seq<byte>, seg: Segment, off: nat, n: nat)
    requires off + n <= seg.size <= |seg.buf| && seg.offset + seg.size <= |content| && Same(content, seg, off)
    ensures Same(content, seg, off + n) <==> seg.buf[off..off + n] == content[seg.offset + off..seg.offset + off + n]
    ensures Same(content, seg, seg.size) ==> Same(content, seg, off + n)
  {
    var a, b := seg.buf[..off + n], content[seg.offset..seg.offset + off + n];
    assert a == seg.buf[..off] + seg.buf[off..off + n];
    assert b == content[seg.offset..seg.offset + off] + content[seg.offset + off..seg.offset + off + n];
    assert a[off..] == seg.buf[off..off + n] && b[off..] == content[seg.offset + off..seg.offset + off + n];
    if Same(content, seg, seg.size) {
      assert seg.buf[..seg.size][..off + n] == a;
      assert content[seg.offset..seg.offset + seg.size][..off + n] == b;
    }
  }

  lemma AgreesIff(content: seq<byte>, data: seq<byte>, offset: nat, size: nat, buf: seq<byte>)
    requires offset + size <= |content| <= |data| && size <= |buf| && offset + |buf| <= |data|
    requires buf == data[offset..offset + |buf|]
    ensures Agrees(content, data, offset, offset + size) <==> buf[..size] == content[offset..offset + size]
  {
    var part, whole := buf[..size], content[offset..offset + size];
    if part == whole {
      forall p | offset <= p < offset + size
        ensures data[p] == content[p]
      {
        var k := p - offset;
        assert part[k] == buf[k] == data[offset + k] && whole[k] == content[offset + k];
      }
    }
    if Agrees(content, data, offset, offset + size) {
      assert part == whole;
    }
  }

  lemma AgreesPart(content: seq<byte>, data: seq<byte>, offset: nat, size: nat, buf: seq<byte>)
    requires offset + size <= |content| <= |data| && size <= |buf| && offset + |buf| <= |data|
    requires buf == data[offset..offset + |buf|] && Agrees(content, data, 0, |content|)
    ensures buf[..size] == content[offset..offset + size]
  {
    AgreesIff(content, data, offset, size, buf);
  }

  /** Writes segments in order until one fails; none does if the system does as told (`io`).  What was
      written in full (`full`) is there afterwards: the whole block, if the listing has no gaps.  And no
      write, however it ends, spoils a byte that was right. */
  method WriteSegments(d: DiskBlockItem, segs: seq<Segment>, io: bool, ghost content: seq<byte>)
    returns (ok: bool, ghost full: bool)
    requires d.HasRoom(content) && AllFit(d.z, content, segs)
    modifies d.data, d.checksums
    ensures d.HasRoom(content) && (io ==> ok) && (ok && (io || !d.medium.fallsShort) ==> full)
    ensures ok && full ==> forall p: nat :: p < |content| && ListedBelow(segs, |segs|, p) ==> d.data[p] == content[p]
    ensures old(d.Valid(content)) ==> d.Valid(content)
    ensures forall p: nat :: p < |content| && old(d.data[p]) == content[p] ==> d.data[p] == content[p]
    ensures ok && Continuous(segs, 0) == |content| ==> AllSummed(d.z, d.medium.crc, content, d.checksums[..])
    ensures ok && Continuous(segs, 0) == |content| && full ==> Agrees(content, d.data[..], 0, |content|)
  {
    hide Fits, Spans, Tells, SliceBytes;
    ok, full := true, true;
    var k := 0;
    ghost var data, sums := d.data[..], d.checksums[..];
    while k < |segs| && ok
      invariant k <= |segs| && d.HasRoom(content) && (io ==> ok) && (ok && (io || !d.medium.fallsShort) ==> full)
      invariant forall j: nat :: j < d.z.count && d.z.SliceLower(j) < |content| ==>
                  (Summed(d.z, d.medium.crc, content, sums, j) || (ok && SpannedBelow(d.z, segs, k, j)) ==>
                    Summed(d.z, d.medium.crc, content, d.checksums[..], j))
      invariant forall p: nat :: p < |content| && data[p] == content[p] ==> d.data[p] == content[p]
      invariant ok && full ==> forall p: nat :: p < |content| && ListedBelow(segs, k, p) ==> d.data[p] == content[p]
      invariant ok || k < |segs|
      decreases |segs| - k, ok
    {
      FitsBasics(d.z, content, segs[k]);
      var carriedOut: bool, done: nat := *, *;
      carriedOut := carriedOut || io;
      if io || done > |segs[k].buf| || (carriedOut && !d.medium.fallsShort) {
        done := |segs[k].buf|;
      }
      ok := d.WriteBlock(segs[k], done, carriedOut, content);
      full := full && done == |segs[k].buf|;
      if ok {
        k := k + 1;
      }
    }
    if ok && Continuous(segs, 0) == |content| {
      forall j: nat | j < d.z.count && d.z.SliceLower(j) < |content|
        ensures SpannedBelow(d.z, segs, k, j)
      {
        AllSpanned(d.z, content, segs, j);
      }
      forall p: nat | p < |content|
        ensures ListedBelow(segs, k, p)
      {
        ContinuousCovers(segs, 0, p);
      }
    }
  }

  ghost predicate ListedBelow(segs: seq<Segment>, k: nat, p: nat)
    requires k <= |segs|
  {
    exists i :: 0 <= i < k && segs[i].offset <= p < segs[i].offset + segs[i].size
  }

  /** One of the first k segments is entered under slice j. */
  ghost predicate SpannedBelow(z: Sizes, segs: seq<Segment>, k: nat, j: nat)
    requires z.Valid() && k <= |segs|
  {
    exists i :: 0 <= i < k && Spans(z, segs[i], j)
  }

  /** Segments that reach the end without a gap span every slice of the content. */
  lemma AllSpanned(z: Sizes, content: seq<byte>, segs: seq<Segment>, j: nat)
    requires z.Valid() && AllFit(z, content, segs)
    requires Continuous(segs, 0) == |content| && z.SliceLower(j) < |content|
    ensures SpannedBelow(z, segs, |segs|, j)
  {
    ContinuousCovers(segs, 0, z.SliceLower(j));
    var k :| 0 <= k < |segs| && segs[k].offset <= z.SliceLower(j) < segs[k].offset + segs[k].size;
    SpanStarts(z, content, segs[k], j);
  }

  lemma FitsBasics(z: Sizes, content: seq<byte>, seg: Segment)
    requires z.Valid() && Fits(z, content, seg)
    ensures z.SliceLower(z.SliceOf(seg.offset)) == seg.offset
    ensures seg.offset + seg.size <= |content| && seg.size <= |seg.buf| && seg.offset + |seg.buf| <= z.block
  {
    z.Locate(seg.offset);
  }

  lemma SpansBetween(z: Sizes, content: seq<byte>, seg: Segment, first: nat, j: nat, i: nat)
    requires z.Valid() && Fits(z, content, seg)
    requires z.SliceLower(first) == seg.offset && first <= j
    requires seg.offset + seg.size <= z.SliceLower(j) && (first < j ==> z.SliceLower(j - 1) < seg.offset + seg.size)
    ensures Spans(z, seg, i) <==> first <= i < j
  {
    SpanStarts(z, content, seg, i);
    if i < first { z.Next(i); z.Mono(i + 1, first); } else { z.Mono(first, i); }
    if i < j { z.Mono(i, j - 1); } else { z.Mono(j, i); }
  }

  /** An aligned read never runs over the end of the block, and is longer than asked for at most at
      the content's end. */
  lemma RoundUpFits(z: Sizes, content: seq<byte>, offset: nat, size: nat)
    requires z.Valid() && z.Aligned(offset) && 0 < size && offset + size <= |content| <= z.block
    ensures offset + RoundUp(size, z.unit) <= z.block
    ensures z.Aligned(offset + size) ==> RoundUp(size, z.unit) == size
  {
    Multiple(offset, z.slice, z.unit);
    ModUnique(z.block, z.slice, z.count, 0);
    Multiple(z.block, z.slice, z.unit);
    if z.Aligned(offset + size) {
      Multiple(offset + size, z.slice, z.unit);
      DifferenceOfMultiples(offset + size, offset, z.unit);
      RoundUpExact(size, z.unit);
    }
    DifferenceOfMultiples(z.block, offset, z.unit);
    RoundUpBelow(size, z.block - offset, z.unit);
  }

  /** A read that has the content's bytes gives a segment that may be put in memory. */
  lemma ReadFits(z: Sizes, content: seq<byte>, seg: Segment)
    requires z.Valid() && GoodRange(z, content, seg.offset, seg.size) && |content| <= z.block
    requires |seg.buf| == RoundUp(seg.size, z.unit)
    requires seg.buf[..seg.size] == content[seg.offset..seg.offset + seg.size]
    ensures Fits(z, content, seg)
  {
    hide RoundUp, Sizes.Valid, Sizes.Aligned;
    RoundUpFits(z, content, seg.offset, seg.size);
  }
}
