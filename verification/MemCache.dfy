/** The memory side of a block: an array of slices, each shared by the segment that covers it. */
module MemCache {
  import opened Common
  import opened Segments

  class MemBlockItem {
    const z: Sizes
    const slices: array<Option<Segment>>
    var dirty: bool

    constructor (z: Sizes, dirty: bool)
      ensures this.z == z && this.dirty == dirty
      ensures fresh(slices) && slices.Length == z.count
      ensures forall j :: 0 <= j < z.count ==> slices[j] == None
    {
      this.z := z;
      this.dirty := dirty;
      slices := new Option<Segment>[z.count](_ => None);
    }

    ghost predicate Valid(content: seq<byte>)
      reads slices
    {
      Held(z, content, slices[..])
    }

    method SetBlockSegment(lo: nat, hi: nat, seg: Segment)
      requires hi < slices.Length
      modifies slices
      ensures slices[..] == Entered(old(slices[..]), lo, hi, seg)
    {
      var index := lo;
      while index <= hi
        invariant forall j :: 0 <= j < slices.Length ==>
                    slices[j] == if lo <= j <= hi && j < index then Some(seg) else old(slices[j])
        decreases hi + 1 - index
      {
        slices[index] := Some(seg);
        index := index + 1;
      }
    }

    /** Enters segments of the content into the slices they cover, the later ones on top. */
    method WriteBlock(segments: seq<Segment>, ghost content: seq<byte>)
      requires Valid(content)
      requires AllFit(z, content, segments)
      modifies slices
      ensures slices[..] == Written(z, old(slices[..]), segments)
      ensures Valid(content)
    {
      for k := 0 to |segments|
        invariant slices[..] == Written(z, old(slices[..]), segments[..k])
      {
        var seg := segments[k];
        assert segments[..k + 1][..k] == segments[..k];
        if seg.buf != [] {
          SpanInBlock(z, content, seg);
          SetBlockSegment(z.SliceOf(seg.offset), z.SliceOf(seg.offset + seg.size - 1), seg);
        }
      }
      assert segments[..|segments|] == segments;
      WrittenHeld(z, content, old(slices[..]), segments);
    }

    /** The segments of the block in slice order, each run of slices of one segment giving one entry. */
    method ListSegments(ghost content: seq<byte>) returns (segments: seq<Segment>)
      requires Valid(content)
      ensures segments == Listing(slices[..]) && AllFit(z, content, segments)
    {
      segments := [];
      for i := 0 to slices.Length
        invariant segments == Listing(slices[..i]) && AllFit(z, content, segments)
      {
        assert slices[..i + 1][..i] == slices[..i];
        if slices[i].Some? && (segments == [] || slices[i].value != segments[|segments| - 1]) {
          assert slices[..][i] == slices[i];
          segments := segments + [slices[i].value];
        }
      }
      assert slices[..slices.Length] == slices[..];
    }

    /** The pieces of the range that memory holds, adjacent slices of one segment taken together. */
    method ReadBlock(offset: nat, size: nat, ghost content: seq<byte>) returns (segments: seq<Segment>)
      requires Valid(content) && offset + size <= |content|
      ensures Pieces(z, content, slices[..], offset, offset + size, segments)
    {
      hide Held, Pieces, SameTo, SameSlices, Sizes.SliceLower, Sizes.SliceOf, Sizes.Aligned;
      segments := [];
      HeldShape(z, content, slices[..]);
      if size == 0 {
        NoPieces(z, content, slices[..], offset);
        return;
      }
      ghost var ss, end := slices[..], offset + size;
      SliceInBlock(z, offset);
      SliceInBlock(z, offset + size - 1);
      z.OfMono(offset, offset + size - 1);
      var start, last := z.SliceOf(offset), z.SliceOf(offset + size - 1);
      var curSegment, segmentOff, left := slices[start], offset, size;
      SameBegin(z, content, ss, offset, end);
      z.Locate(offset);
      NoPieces(z, content, ss, offset);
      for index := start + 1 to last + 1
        invariant segmentOff + left == end && offset <= segmentOff < end
        invariant segmentOff == offset || z.Aligned(segmentOff)
        invariant segmentOff < z.SliceLower(index)
        invariant Pieces(z, content, ss, offset, segmentOff, segments)
        invariant SameTo(z, content, ss, segmentOff, index, end, curSegment)
      {
        z.Next(index);
        if slices[index] == curSegment {
          SameStep(z, content, ss, segmentOff, index, end, curSegment);
          continue;
        }
        Turn(z, content, ss, segmentOff, index, end, curSegment);
        var boundary := z.SliceLower(index);
        var addr: nat := *;
        PiecesGrow(z, content, ss, offset, segmentOff, boundary, segments, curSegment, addr);
        var length := boundary - segmentOff;
        segments := Grown(segments, curSegment, segmentOff, boundary, addr);
        left := left - length;
        curSegment := slices[index];
        segmentOff := boundary;
      }
      SameEnd(z, content, ss, segmentOff, end, curSegment);
      var addr: nat := *;
      PiecesGrow(z, content, ss, offset, segmentOff, end, segments, curSegment, addr);
      segments := Grown(segments, curSegment, segmentOff, segmentOff + left, addr);
    }
  }

  /** The size of the run of segments that starts at 0, each beginning where the one before ends. */
  method ContinuousSegmentsSize(segments: seq<Segment>) returns (size: nat)
    ensures size == Continuous(segments, 0)
  {
    size := 0;
    var k := 0;
    while k < |segments| && segments[k].offset == size
      invariant k <= |segments| && Continuous(segments, 0) == Continuous(segments[k..], size)
      decreases |segments| - k
    {
      assert segments[k..][1..] == segments[k + 1..];
      size := size + segments[k].size;
      k := k + 1;
    }
  }

  /** list_segments over a prefix of the slices. */
  function Listing(ss: Slices): (segments: seq<Segment>) {
    if ss == [] then []
    else
      var before, last := Listing(ss[..|ss| - 1]), ss[|ss| - 1];
      if last.Some? && (before == [] || last.value != before[|before| - 1]) then before + [last.value] else before
  }

  /** Every slice's segment is listed, and nothing else. */
  lemma {:induction false} ListingIsAll(ss: Slices, seg: Segment)
    ensures seg in Listing(ss) <==> Some(seg) in ss
  {
    if ss != [] {
      ListingIsAll(ss[..|ss| - 1], seg);
      assert ss == ss[..|ss| - 1] + [ss[|ss| - 1]];
    }
  }

  /** So every byte of the content that is in memory is in a listed segment. */
  lemma ListingHasByte(z: Sizes, content: seq<byte>, ss: Slices, p: nat)
    requires Held(z, content, ss) && p < |content| && InMemory(z, content, ss, p)
    ensures Listed(Listing(ss), p)
  {
    hide Fits, Spans, Listing;
    SliceInBlock(z, p);
    var j := z.SliceOf(p);
    var seg := ss[j].value;
    SpanCovers(z, content, seg, j, p);
    assert Some(seg) in ss;
    ListingIsAll(ss, seg);
    var k :| 0 <= k < |Listing(ss)| && Listing(ss)[k] == seg;
    assert Listing(ss)[k].offset <= p < Listing(ss)[k].offset + Listing(ss)[k].size;
  }

  lemma HeldShape(z: Sizes, content: seq<byte>, ss: Slices)
    requires Held(z, content, ss)
    ensures z.Valid() && |ss| == z.count && |content| <= z.block
  {}

  // ----- When memory has all of a block --------------------------------------------------------------

  /** A segment is entered under every slice it spans, or under none. */
  ghost predicate Undisturbed(z: Sizes, ss: Slices)
    requires z.Valid()
  {
    forall j, k :: 0 <= j < |ss| && 0 <= k < |ss| && ss[j].Some? && Spans(z, ss[j].value, k) ==> ss[k] == ss[j]
  }

  /** Each segment begins where the one before ends, the first at 0. */
  ghost predicate Tiles(segs: seq<Segment>) {
    forall k :: 0 <= k < |segs| ==> segs[k].offset == if k == 0 then 0 else segs[k - 1].offset + segs[k - 1].size
  }

  lemma {:induction false} TilesReach(segs: seq<Segment>, k: nat)
    requires Tiles(segs) && k <= |segs|
    ensures Continuous(segs[k..], if k == 0 then 0 else segs[k - 1].offset + segs[k - 1].size)
         == if segs == [] then 0 else segs[|segs| - 1].offset + segs[|segs| - 1].size
    decreases |segs| - k
  {
    if k == |segs| {
      assert segs[k..] == [];
    } else {
      assert segs[k..][0] == segs[k] && segs[k..][1..] == segs[k + 1..];
      TilesReach(segs, k + 1);
    }
  }

  lemma TilesOne(seg: Segment)
    requires seg.offset == 0
    ensures Tiles([seg])
  {}

  lemma TilesMore(segs: seq<Segment>, next: Segment)
    requires Tiles(segs) && segs != [] && next.offset == segs[|segs| - 1].offset + segs[|segs| - 1].size
    ensures Tiles(segs + [next])
  {
    var more := segs + [next];
    forall k | 0 <= k < |more|
      ensures more[k].offset == if k == 0 then 0 else more[k - 1].offset + more[k - 1].size
    {
      if k < |segs| {
        assert more[k] == segs[k] && (k > 0 ==> more[k - 1] == segs[k - 1]);
      } else {
        assert more[k] == next && more[k - 1] == segs[|segs| - 1];
      }
    }
  }

  /** Segments that are not disturbed and leave no slice out tile the block. */
  lemma {:induction false} ListingTiles(z: Sizes, content: seq<byte>, ss: Slices, n: nat)
    requires Held(z, content, ss) && Undisturbed(z, ss) && 0 < n <= |ss| && z.SliceLower(n - 1) < |content|
    requires forall j :: 0 <= j < n ==> ss[j].Some?
    ensures var segs := Listing(ss[..n]);
            segs != [] && Tiles(segs) && segs[|segs| - 1] == ss[n - 1].value
  {
    hide Fits, Undisturbed, Tiles, Sizes.SliceLower, Sizes.SliceOf;
    assert ss[..n][..n - 1] == ss[..n - 1];
    if n == 1 {
      FirstAtZero(z, content, ss);
      TilesOne(ss[0].value);
      assert ss[..1] == [ss[0]] && Listing([ss[0]][..0]) == [] && Listing([ss[0]]) == [ss[0].value];
    } else {
      z.Mono(n - 2, n - 1);
      ListingTiles(z, content, ss, n - 1);
      if ss[n - 1] != ss[n - 2] {
        NextBegins(z, content, ss, n - 1);
        TilesMore(Listing(ss[..n - 1]), ss[n - 1].value);
      }
    }
  }

  lemma FirstAtZero(z: Sizes, content: seq<byte>, ss: Slices)
    requires Held(z, content, ss) && 0 < |ss| && ss[0].Some?
    ensures ss[0].value.offset == 0
  {
    z.Locate(ss[0].value.offset);
  }

  /** Where one segment's slices end and another's begin, so do they. */
  lemma NextBegins(z: Sizes, content: seq<byte>, ss: Slices, n: nat)
    requires Held(z, content, ss) && Undisturbed(z, ss) && 0 < n < |ss| && z.SliceLower(n) < |content|
    requires ss[n].Some? && ss[n - 1].Some? && ss[n] != ss[n - 1]
    ensures ss[n].value.offset == ss[n - 1].value.offset + ss[n - 1].value.size
  {
    var seg, next := ss[n - 1].value, ss[n].value;
    SpanStarts(z, content, seg, n - 1);
    SpanStarts(z, content, seg, n);
    SpanStarts(z, content, next, n - 1);
    SpanStarts(z, content, next, n);
    EndAt(z, content, seg, n - 1);
    StartAt(z, content, next, n);
  }

  /** A segment whose last slice is j ends with it, or with the content. */
  lemma EndAt(z: Sizes, content: seq<byte>, seg: Segment, j: nat)
    requires z.Valid() && Fits(z, content, seg)
    requires z.SliceLower(j) < seg.offset + seg.size <= z.SliceLower(j + 1)
    ensures seg.offset + seg.size == if z.SliceLower(j + 1) <= |content| then z.SliceLower(j + 1) else |content|
  {
    AlignedAfter(z, content, j, seg.offset + seg.size);
  }

  lemma StartAt(z: Sizes, content: seq<byte>, seg: Segment, j: nat)
    requires z.Valid() && Fits(z, content, seg) && j > 0
    requires z.SliceLower(j - 1) < seg.offset <= z.SliceLower(j)
    ensures seg.offset == z.SliceLower(j)
  {
    hide Sizes.SliceLower, Sizes.SliceOf, Sizes.Aligned;
    z.Locate(seg.offset);
    if z.SliceOf(seg.offset) < j {
      z.Mono(z.SliceOf(seg.offset), j - 1);
    } else {
      z.Mono(j, z.SliceOf(seg.offset));
    }
  }

  /** The listing reaches the end of the block exactly if memory has every slice of it. */
  lemma WholeIsHeld(z: Sizes, content: seq<byte>, ss: Slices)
    requires Held(z, content, ss) && Undisturbed(z, ss) && 0 < |content|
    ensures Continuous(Listing(ss), 0) == |content| <==>
            forall j :: 0 <= j < |ss| && z.SliceLower(j) < |content| ==> ss[j].Some?
  {
    hide Fits, Undisturbed;
    if forall j :: 0 <= j < |ss| && z.SliceLower(j) < |content| ==> ss[j].Some? { AllHeldReaches(z, content, ss); }
    if Continuous(Listing(ss), 0) == |content| {
      forall j | 0 <= j < |ss| && z.SliceLower(j) < |content|
        ensures ss[j].Some?
      {
        ContinuousCovers(Listing(ss), 0, z.SliceLower(j));
        ListedIsHeld(z, content, ss, j);
      }
    }
  }

  lemma ListedIsHeld(z: Sizes, content: seq<byte>, ss: Slices, j: nat)
    requires Held(z, content, ss) && Undisturbed(z, ss) && j < |ss| && Listed(Listing(ss), z.SliceLower(j))
    ensures ss[j].Some?
  {
    hide Fits, Listing, Spans;
    var k :| 0 <= k < |Listing(ss)| &&
      Listing(ss)[k].offset <= z.SliceLower(j) < Listing(ss)[k].offset + Listing(ss)[k].size;
    var seg := Listing(ss)[k];
    ListingIsAll(ss, seg);
    var i :| 0 <= i < |ss| && ss[i] == Some(seg);
    SpanStarts(z, content, seg, j);
    assert ss[j] == ss[i];
  }

  lemma AllHeldReaches(z: Sizes, content: seq<byte>, ss: Slices)
    requires Held(z, content, ss) && Undisturbed(z, ss) && 0 < |content|
    requires forall j :: 0 <= j < |ss| && z.SliceLower(j) < |content| ==> ss[j].Some?
    ensures Continuous(Listing(ss), 0) == |content|
  {
    hide Fits, Undisturbed, Listing, Sizes.SliceLower, Sizes.SliceOf;
    var n := z.SliceOf(|content| - 1) + 1;
    SliceInBlock(z, |content| - 1);
    z.Locate(|content| - 1);
    forall j | 0 <= j < n
      ensures ss[j].Some?
    {
      z.Mono(j, n - 1);
    }
    ListingTiles(z, content, ss, n);
    LastReaches(z, content, ss, n);
    NoneBeyond(z, content, ss, n, |ss|);
    assert ss[..|ss|] == ss;
    var segs := Listing(ss);
    TilesReach(segs, 0);
    assert segs[0..] == segs;
  }

  lemma LastReaches(z: Sizes, content: seq<byte>, ss: Slices, n: nat)
    requires Held(z, content, ss) && 0 < n <= |ss| && ss[n - 1].Some?
    requires z.SliceLower(n - 1) < |content| <= z.SliceLower(n)
    ensures ss[n - 1].value.offset + ss[n - 1].value.size == |content|
  {
    SpanStarts(z, content, ss[n - 1].value, n - 1);
    EndAt(z, content, ss[n - 1].value, n - 1);
  }

  /** Slices past the content are not entered. */
  lemma {:induction false} NoneBeyond(z: Sizes, content: seq<byte>, ss: Slices, n: nat, m: nat)
    requires Held(z, content, ss) && 0 < n <= m <= |ss| && |content| <= z.SliceLower(n)
    ensures Listing(ss[..m]) == Listing(ss[..n])
  {
    if n < m {
      NoneBeyond(z, content, ss, n, m - 1);
      assert ss[..m][..m - 1] == ss[..m - 1];
      z.Mono(n, m - 1);
      if ss[m - 1].Some? { SpanStarts(z, content, ss[m - 1].value, m - 1); }
    }
  }

  lemma NoPieces(z: Sizes, content: seq<byte>, ss: Slices, lo: nat)
    requires Held(z, content, ss) && lo <= |content|
    ensures Pieces(z, content, ss, lo, lo, [])
  {}

  // ----- The run of slices read_block is in -------------------------------------------------------

  /** From lo on, and below slice `index`, all bytes of the range are in slices of one segment. */
  ghost predicate SameTo(z: Sizes, content: seq<byte>, ss: Slices, lo: nat, index: nat, end: nat, cur: Option<Segment>)
    requires Held(z, content, ss) && end <= |content|
  {
    SameSlices(z, content, ss, lo, if z.SliceLower(index) <= end then z.SliceLower(index) else end, cur)
  }

  lemma SameBegin(z: Sizes, content: seq<byte>, ss: Slices, lo: nat, end: nat)
    requires Held(z, content, ss) && lo < end <= |content|
    requires z.SliceOf(lo) < |ss|
    ensures SameTo(z, content, ss, lo, z.SliceOf(lo) + 1, end, ss[z.SliceOf(lo)])
  {
    SliceRun(z, content, ss, lo, z.SliceOf(lo), end);
  }

  /** The bytes of the range from lo that are in slice j. */
  lemma SliceRun(z: Sizes, content: seq<byte>, ss: Slices, lo: nat, j: nat, end: nat)
    requires Held(z, content, ss) && end <= |content| && j < |ss| && lo >= z.SliceLower(j)
    ensures SameTo(z, content, ss, lo, j + 1, end, ss[j])
  {
    z.Next(j);
    forall p | lo <= p < z.SliceLower(j + 1) && p < end
      ensures z.SliceOf(p) == j
    {
      z.Within(p, j);
    }
  }

  lemma SameStep(z: Sizes, content: seq<byte>, ss: Slices, lo: nat, index: nat, end: nat, cur: Option<Segment>)
    requires Held(z, content, ss) && end <= |content| && index < |ss|
    requires SameTo(z, content, ss, lo, index, end, cur) && ss[index] == cur
    ensures SameTo(z, content, ss, lo, index + 1, end, cur)
  {
    z.Next(index);
    forall p | lo <= p < end && z.SliceLower(index) <= p < z.SliceLower(index + 1)
      ensures z.SliceOf(p) == index
    {
      z.Within(p, index);
    }
  }

  /** The run ends where the next slice begins. */
  lemma Turn(z: Sizes, content: seq<byte>, ss: Slices, lo: nat, index: nat, end: nat, cur: Option<Segment>)
    requires Held(z, content, ss) && 0 < end <= |content| && index <= z.SliceOf(end - 1)
    requires SameTo(z, content, ss, lo, index, end, cur)
    ensures z.SliceLower(index) < end && z.Aligned(z.SliceLower(index)) && index < |ss|
    ensures SameSlices(z, content, ss, lo, z.SliceLower(index), cur)
    ensures SameTo(z, content, ss, z.SliceLower(index), index + 1, end, ss[index])
    ensures z.SliceLower(index) < z.SliceLower(index + 1)
  {
    z.Next(index);
    z.Locate(end - 1);
    z.Mono(index, z.SliceOf(end - 1));
    SliceInBlock(z, end - 1);
    SliceRun(z, content, ss, z.SliceLower(index), index, end);
  }

  lemma SameEnd(z: Sizes, content: seq<byte>, ss: Slices, lo: nat, end: nat, cur: Option<Segment>)
    requires Held(z, content, ss) && 0 < end <= |content|
    requires SameTo(z, content, ss, lo, z.SliceOf(end - 1) + 1, end, cur)
    ensures SameSlices(z, content, ss, lo, end, cur)
  {
    z.Locate(end - 1);
  }
}
