/** How a cached object is cut up: blocks, slices, and the segments that hold some of a block's bytes. */
module Segments {
  import opened Common

  /** The configured sizes: a direct-I/O unit, slices of whole units, blocks of `count` slices. */
  datatype Sizes = Sizes(unit: nat, slice: nat, count: nat, block: nat) {
    ghost predicate Valid() {
      && unit > 0 && slice > 0 && count > 0
      && slice % unit == 0
      && block == slice * count
    }

    /** off2slice */
    function SliceOf(offset: nat): nat
      requires slice > 0
    {
      offset / slice
    }

    /** off2block */
    function BlockOf(offset: nat): nat
      requires block > 0
    {
      offset / block
    }

    /** slice_lower, before it is cut to 32 bits */
    function SliceLower(index: nat): nat {
      index * slice
    }

    /** An offset at a slice boundary; what the disk cache insists on. */
    predicate Aligned(offset: nat)
      requires slice > 0
    {
      offset % slice == 0
    }

    lemma Locate(offset: nat)
      requires Valid()
      ensures SliceLower(SliceOf(offset)) <= offset < SliceLower(SliceOf(offset) + 1)
      ensures Aligned(offset) <==> SliceLower(SliceOf(offset)) == offset
    {}

    lemma Next(index: nat)
      requires Valid()
      ensures SliceLower(index + 1) == SliceLower(index) + slice
      ensures SliceOf(SliceLower(index)) == index && Aligned(SliceLower(index))
    {
      Distribute(slice, index, 1);
      ModUnique(index * slice, slice, index, 0);
    }

    lemma Mono(i: nat, j: nat)
      requires i <= j
      ensures SliceLower(i) <= SliceLower(j)
    {}

    /** Offsets of one slice, and what being in it means. */
    lemma Within(offset: nat, index: nat)
      requires Valid()
      ensures SliceOf(offset) == index <==> SliceLower(index) <= offset < SliceLower(index) + slice
    {
      Locate(offset);
      Next(index);
      Next(SliceOf(offset));
      if SliceOf(offset) < index { Mono(SliceOf(offset) + 1, index); }
      if SliceOf(offset) > index { Mono(index + 1, SliceOf(offset)); }
    }

    lemma OfMono(a: nat, b: nat)
      requires Valid() && a <= b
      ensures SliceOf(a) <= SliceOf(b)
    {
      Locate(a);
      Locate(b);
      if SliceOf(a) > SliceOf(b) { Mono(SliceOf(b) + 1, SliceOf(a)); }
    }
  }

  /** A run of bytes kept in memory, from `offset` of its block.  `addr` is the identity of the shared
      segment: the code compares segments as pointers.  `buf` may be padded past `size`. */
  datatype Segment = Segment(addr: nat, offset: nat, size: nat, buf: seq<byte>)

  type Slices = seq<Option<Segment>>

  /** An end that falls on a slice boundary or at the end of the block's content. */
  ghost predicate EndsWell(z: Sizes, content: seq<byte>, end: nat)
    requires z.Valid()
  {
    z.Aligned(end) || end == |content|
  }

  /** The segment's bytes are those of the block's content, in whole slices but for the tail, and only
      the tail may be padded, within the block. */
  ghost predicate Fits(z: Sizes, content: seq<byte>, seg: Segment)
    requires z.Valid()
  {
    && z.Aligned(seg.offset) && 0 < seg.size
    && seg.offset + seg.size <= |content| && EndsWell(z, content, seg.offset + seg.size)
    && seg.size <= |seg.buf|
    && seg.buf[..seg.size] == content[seg.offset..seg.offset + seg.size]
    && (seg.size < |seg.buf| ==> seg.offset + seg.size == |content|)
    && seg.offset + |seg.buf| <= z.block
  }

  ghost predicate AllFit(z: Sizes, content: seq<byte>, segs: seq<Segment>)
    requires z.Valid()
  {
    forall k :: 0 <= k < |segs| ==> Fits(z, content, segs[k])
  }

  /** Slice j is one of those the segment is entered under. */
  ghost predicate Spans(z: Sizes, seg: Segment, j: nat)
    requires z.Valid()
  {
    seg.size > 0 && z.SliceOf(seg.offset) <= j <= z.SliceOf(seg.offset + seg.size - 1)
  }

  /** A memory block holds nothing but bytes of the content. */
  ghost predicate Held(z: Sizes, content: seq<byte>, ss: Slices) {
    && z.Valid() && |ss| == z.count && |content| <= z.block
    && forall j :: 0 <= j < |ss| && ss[j].Some? ==> Fits(z, content, ss[j].value) && Spans(z, ss[j].value, j)
  }

  /** The byte range asked of one block: from a slice boundary, to one or to the end of the content. */
  ghost predicate GoodRange(z: Sizes, content: seq<byte>, offset: nat, size: nat)
    requires z.Valid()
  {
    z.Aligned(offset) && 0 < size && offset + size <= |content| && EndsWell(z, content, offset + size)
  }

  /** A segment of a memory block covers all of the content that is in any slice it is entered under. */
  lemma SpanCovers(z: Sizes, content: seq<byte>, seg: Segment, j: nat, p: nat)
    requires z.Valid() && Fits(z, content, seg) && Spans(z, seg, j)
    requires p < |content| && z.SliceOf(p) == j
    ensures seg.offset <= p < seg.offset + seg.size
    ensures seg.buf[p - seg.offset] == content[p]
  {
    SpanReaches(z, content, seg, j, p);
    assert seg.buf[..seg.size][p - seg.offset] == content[seg.offset..seg.offset + seg.size][p - seg.offset];
  }

  lemma SpanReaches(z: Sizes, content: seq<byte>, seg: Segment, j: nat, p: nat)
    requires z.Valid() && Spans(z, seg, j) && z.Aligned(seg.offset) && EndsWell(z, content, seg.offset + seg.size)
    requires p < |content| && z.SliceOf(p) == j
    ensures seg.offset <= p < seg.offset + seg.size
  {
    var end := seg.offset + seg.size;
    z.Locate(seg.offset);
    z.Locate(p);
    z.Mono(z.SliceOf(seg.offset), j);
    if z.Aligned(end) {
      BoundaryMoves(z, end);
      z.Locate(end);
      z.Mono(j + 1, z.SliceOf(end));
    }
  }

  /** Crossing a slice boundary changes the slice. */
  lemma BoundaryMoves(z: Sizes, end: nat)
    requires z.Valid() && end > 0 && z.Aligned(end)
    ensures z.SliceOf(end - 1) + 1 == z.SliceOf(end)
  {
    z.Locate(end);
    z.Locate(end - 1);
    z.Next(z.SliceOf(end - 1));
    z.Within(end, z.SliceOf(end - 1) + 1);
    z.Next(z.SliceOf(end - 1) + 1);
    if z.SliceOf(end - 1) + 1 < z.SliceOf(end) { z.Mono(z.SliceOf(end - 1) + 2, z.SliceOf(end)); }
    if z.SliceOf(end) < z.SliceOf(end - 1) + 1 { z.Mono(z.SliceOf(end), z.SliceOf(end - 1)); }
  }

  lemma SpanInBlock(z: Sizes, content: seq<byte>, seg: Segment)
    requires z.Valid() && Fits(z, content, seg) && |content| <= z.block
    ensures z.SliceOf(seg.offset) <= z.SliceOf(seg.offset + seg.size - 1) < z.count
  {
    z.OfMono(seg.offset, seg.offset + seg.size - 1);
    SliceInBlock(z, seg.offset + seg.size - 1);
  }

  lemma SliceInBlock(z: Sizes, p: nat)
    requires z.Valid() && p < z.block
    ensures z.SliceOf(p) < z.count
  {
    z.Locate(p);
    assert z.SliceLower(z.count) == z.block;
    if z.SliceOf(p) >= z.count { z.Mono(z.count, z.SliceOf(p)); }
  }

  /** An end past the start of slice j is past the whole of the slice, or at the content's end. */
  lemma AlignedAfter(z: Sizes, content: seq<byte>, j: nat, end: nat)
    requires z.Valid() && z.SliceLower(j) < end && EndsWell(z, content, end)
    ensures z.SliceLower(j + 1) <= end || end == |content|
  {
    hide Sizes.SliceLower, Sizes.SliceOf, Sizes.Aligned;
    if z.Aligned(end) {
      z.Locate(end);
      if z.SliceOf(end) <= j {
        z.Mono(z.SliceOf(end), j);
      } else {
        z.Mono(j + 1, z.SliceOf(end));
      }
    }
  }

  lemma SpanStarts(z: Sizes, content: seq<byte>, seg: Segment, j: nat)
    requires z.Valid() && Fits(z, content, seg)
    ensures Spans(z, seg, j) <==> seg.offset <= z.SliceLower(j) < seg.offset + seg.size
  {
    hide Sizes.SliceLower, Sizes.SliceOf, Sizes.Aligned;
    z.Locate(seg.offset);
    z.Locate(seg.offset + seg.size - 1);
    z.Next(z.SliceOf(seg.offset + seg.size - 1));
    if z.SliceOf(seg.offset) <= j {
      z.Mono(z.SliceOf(seg.offset), j);
    } else {
      z.Mono(j + 1, z.SliceOf(seg.offset));
      z.Next(j);
    }
    if j <= z.SliceOf(seg.offset + seg.size - 1) {
      z.Mono(j, z.SliceOf(seg.offset + seg.size - 1));
    } else {
      z.Mono(z.SliceOf(seg.offset + seg.size - 1) + 1, j);
    }
  }

  // ----- Entering segments ---------------------------------------------------------------------------

  /** set_block_segment: slices lo to hi now belong to the segment. */
  function Entered(ss: Slices, lo: nat, hi: nat, seg: Segment): (r: Slices)
    ensures |r| == |ss|
    ensures forall j :: 0 <= j < |ss| ==> r[j] == if lo <= j <= hi then Some(seg) else ss[j]
  {
    seq(|ss|, j requires 0 <= j < |ss| => if lo <= j <= hi then Some(seg) else ss[j])
  }

  function LastSlice(z: Sizes, seg: Segment): nat
    requires z.slice > 0
  {
    if seg.offset + seg.size == 0 then 0 else z.SliceOf(seg.offset + seg.size - 1)
  }

  /** mem_cache's write_block: the segments in order, the empty ones passed over. */
  function Written(z: Sizes, ss: Slices, segs: seq<Segment>): (r: Slices)
    requires z.slice > 0
    ensures |r| == |ss|
  {
    if segs == [] then ss
    else
      var before := Written(z, ss, segs[..|segs| - 1]);
      var seg := segs[|segs| - 1];
      if seg.buf == [] then before
      else Entered(before, z.SliceOf(seg.offset), LastSlice(z, seg), seg)
  }

  lemma {:induction false} WrittenHeld(z: Sizes, content: seq<byte>, ss: Slices, segs: seq<Segment>)
    requires Held(z, content, ss)
    requires AllFit(z, content, segs)
    ensures Held(z, content, Written(z, ss, segs))
  {
    if segs != [] {
      WrittenHeld(z, content, ss, segs[..|segs| - 1]);
    }
  }

  /** A slice once entered stays so. */
  lemma {:induction false} WrittenGrows(z: Sizes, ss: Slices, segs: seq<Segment>, j: nat)
    requires z.slice > 0 && j < |ss| && ss[j].Some?
    ensures Written(z, ss, segs)[j].Some?
  {
    if segs != [] { WrittenGrows(z, ss, segs[..|segs| - 1], j); }
  }

  /** A segment that was entered has its slices entered, by it or by a later one. */
  lemma {:induction false} WrittenEnters(z: Sizes, ss: Slices, segs: seq<Segment>, k: nat, j: nat)
    requires z.Valid() && k < |segs| && segs[k].buf != [] && Spans(z, segs[k], j) && j < |ss|
    ensures Written(z, ss, segs)[j].Some?
  {
    if k < |segs| - 1 {
      assert segs[..|segs| - 1][k] == segs[k];
      WrittenEnters(z, ss, segs[..|segs| - 1], k, j);
    }
  }

  // ----- Reading a range ------------------------------------------------------------------------------

  /** IOBuf's append_to: at most n bytes from position pos. */
  function Extract(buf: seq<byte>, n: nat, pos: nat): seq<byte> {
    if pos >= |buf| then [] else buf[pos..if pos + n <= |buf| then pos + n else |buf|]
  }

  ghost predicate InPiece(seg: Segment, p: nat) {
    seg.offset <= p < seg.offset + |seg.buf|
  }

  /** Pieces of the content between lo and hi, in ascending order, whose bytes are right and which
      cover exactly the slices held in memory. */
  ghost predicate Pieces(z: Sizes, content: seq<byte>, ss: Slices, lo: nat, hi: nat, segs: seq<Segment>)
    requires Held(z, content, ss) && hi <= |content|
  {
    && (forall k :: 0 <= k < |segs| ==> GoodPiece(z, content, lo, hi, segs[k]))
    && (forall k, l :: 0 <= k < l < |segs| ==> segs[k].offset + |segs[k].buf| <= segs[l].offset)
    && (forall p :: lo <= p < hi ==>
          (InMemory(z, content, ss, p) <==> exists k :: 0 <= k < |segs| && InPiece(segs[k], p)))
  }

  ghost predicate InMemory(z: Sizes, content: seq<byte>, ss: Slices, p: nat)
    requires Held(z, content, ss) && p < |content|
  {
    SliceInBlock(z, p);
    ss[z.SliceOf(p)].Some?
  }

  ghost predicate GoodPiece(z: Sizes, content: seq<byte>, lo: nat, hi: nat, seg: Segment)
    requires z.Valid() && hi <= |content|
  {
    && lo <= seg.offset && 0 < |seg.buf| == seg.size && seg.offset + |seg.buf| <= hi
    && seg.buf == content[seg.offset..seg.offset + |seg.buf|]
    && (seg.offset == lo || z.Aligned(seg.offset))
    && (seg.offset + |seg.buf| == hi || z.Aligned(seg.offset + |seg.buf|))
  }

  /** The bytes from lo to hi all lie in slices entered under `cur`. */
  ghost predicate SameSlices(z: Sizes, content: seq<byte>, ss: Slices, lo: nat, hi: nat, cur: Option<Segment>)
    requires Held(z, content, ss) && hi <= |content|
  {
    forall p :: lo <= p < hi ==> (SliceInBlock(z, p); ss[z.SliceOf(p)] == cur)
  }

  lemma PieceBytes(z: Sizes, content: seq<byte>, ss: Slices, lo: nat, hi: nat, seg: Segment)
    requires Held(z, content, ss) && lo < hi <= |content| && SameSlices(z, content, ss, lo, hi, Some(seg))
    ensures lo >= seg.offset && Extract(seg.buf, hi - lo, lo - seg.offset) == content[lo..hi]
  {
    PieceByte(z, content, ss, lo, hi, seg, lo);
    PieceByte(z, content, ss, lo, hi, seg, hi - 1);
    var r := Extract(seg.buf, hi - lo, lo - seg.offset);
    forall k | 0 <= k < |r|
      ensures r[k] == content[lo..hi][k]
    {
      PieceByte(z, content, ss, lo, hi, seg, lo + k);
    }
  }

  lemma PieceByte(z: Sizes, content: seq<byte>, ss: Slices, lo: nat, hi: nat, seg: Segment, p: nat)
    requires Held(z, content, ss) && lo <= p < hi <= |content| && SameSlices(z, content, ss, lo, hi, Some(seg))
    ensures seg.offset <= p < seg.offset + seg.size <= seg.offset + |seg.buf|
    ensures seg.buf[p - seg.offset] == content[p]
  {
    SliceInBlock(z, p);
    assert ss[z.SliceOf(p)] == Some(seg);
    SpanCovers(z, content, seg, z.SliceOf(p), p);
  }

  /** What read_block appends when the run of one segment's slices ends at hi. */
  function Grown(segs: seq<Segment>, cur: Option<Segment>, lo: nat, hi: nat, addr: nat): seq<Segment>
    requires lo <= hi
    requires cur.Some? ==> lo >= cur.value.offset
  {
    if cur.None? then segs
    else
      var buf := Extract(cur.value.buf, hi - lo, lo - cur.value.offset);
      segs + [Segment(addr, lo, |buf|, buf)]
  }

  lemma PiecesGrow(z: Sizes, content: seq<byte>, ss: Slices, lo: nat, mid: nat, hi: nat,
                   segs: seq<Segment>, cur: Option<Segment>, addr: nat)
    requires Held(z, content, ss) && lo <= mid < hi <= |content|
    requires mid == lo || z.Aligned(mid)
    requires Pieces(z, content, ss, lo, mid, segs) && SameSlices(z, content, ss, mid, hi, cur)
    ensures cur.Some? ==> mid >= cur.value.offset
    ensures Pieces(z, content, ss, lo, hi, Grown(segs, cur, mid, hi, addr))
  {
    if cur.Some? { PieceBytes(z, content, ss, mid, hi, cur.value); }
    var segs' := Grown(segs, cur, mid, hi, addr);
    forall k | 0 <= k < |segs'|
      ensures GoodPiece(z, content, lo, hi, segs'[k])
    {
      if k < |segs| { assert GoodPiece(z, content, lo, mid, segs[k]); }
    }
    forall p | lo <= p < hi
      ensures InMemory(z, content, ss, p) <==> exists k :: 0 <= k < |segs'| && InPiece(segs'[k], p)
    {
      CoverGrow(z, content, ss, lo, mid, hi, segs, cur, segs', p);
    }
  }

  lemma CoverGrow(z: Sizes, content: seq<byte>, ss: Slices, lo: nat, mid: nat, hi: nat,
                  segs: seq<Segment>, cur: Option<Segment>, segs': seq<Segment>, p: nat)
    requires Held(z, content, ss) && lo <= mid < hi <= |content| && lo <= p < hi
    requires Pieces(z, content, ss, lo, mid, segs) && SameSlices(z, content, ss, mid, hi, cur)
    requires cur.None? ==> segs' == segs
    requires cur.Some? ==> |segs'| == |segs| + 1 && segs' == segs + [segs'[|segs|]]
    requires cur.Some? ==> segs'[|segs|].offset == mid && |segs'[|segs|].buf| == hi - mid
    ensures InMemory(z, content, ss, p) <==> exists k :: 0 <= k < |segs'| && InPiece(segs'[k], p)
  {
    SliceInBlock(z, p);
    if p < mid {
      if InMemory(z, content, ss, p) {
        var k :| 0 <= k < |segs| && InPiece(segs[k], p);
        assert InPiece(segs'[k], p);
      }
    } else {
      assert ss[z.SliceOf(p)] == cur;
      forall k | 0 <= k < |segs|
        ensures !InPiece(segs'[k], p)
      {
        assert GoodPiece(z, content, lo, mid, segs[k]);
      }
      if cur.Some? { assert InPiece(segs'[|segs|], p); }
    }
  }

  // ----- Segments that fill a block ---------------------------------------------------------------------

  /** _continuous_segments_size: how far the leading segments reach without a gap or an overlap. */
  function Continuous(segs: seq<Segment>, from: nat): nat {
    if segs == [] || segs[0].offset != from then from else Continuous(segs[1..], from + segs[0].size)
  }

  ghost predicate Listed(segs: seq<Segment>, p: nat) {
    exists k :: 0 <= k < |segs| && segs[k].offset <= p < segs[k].offset + segs[k].size
  }

  /** Whatever overlaps the listing has, every byte it reaches without a gap is in a listed segment. */
  lemma {:induction false} ContinuousCovers(segs: seq<Segment>, from: nat, p: nat)
    requires from <= p < Continuous(segs, from)
    ensures Listed(segs, p)
  {
    if p < from + segs[0].size {
      assert segs[0].offset <= p < segs[0].offset + segs[0].size;
    } else {
      ContinuousCovers(segs[1..], from + segs[0].size, p);
      var k :| 0 <= k < |segs[1..]| && segs[1..][k].offset <= p < segs[1..][k].offset + segs[1..][k].size;
      assert segs[k + 1] == segs[1..][k];
    }
  }
}
