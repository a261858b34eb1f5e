/** The byte range a read works on: aligned to slices, with the 32-bit narrowing of the index helpers. */
module ReadRange {
  import opened Common
  import opened Segments
  import opened CacheItems

  /** A segment's place in its block, and its size, are 32-bit numbers. */
  ghost predicate Addressable(z: Sizes) {
    z.Valid() && z.block < TWO_TO_THE_32
  }

  /** What a read is meant to return: the bytes from the offset on, as many as asked for and there. */
  function Clip(value: seq<byte>, offset: nat, size: nat): seq<byte> {
    if offset >= |value| then []
    else value[offset..if offset + size <= |value| then offset + size else |value|]
  }

  /** The size of a read, cut off at the object's end if the end of the read, a 64-bit number, is past it. */
  function ClippedSize(total: uint64, offset: uint64, size: uint64): (n: uint64)
    ensures n <= size
  {
    if (offset + size) % TWO_TO_THE_64 > total then (if offset >= total then 0 else total - offset) else size
  }

  /** The end of the read wraps at 64 bits to a place within the object, and so nothing is cut off. */
  predicate Slips(total: uint64, offset: uint64, size: uint64) {
    0 <= offset + size - TWO_TO_THE_64 <= total
  }

  /** The offset of the last of n bytes, a 64-bit number again. */
  function LastByte(offset: uint64, n: uint64): uint64 {
    (offset + n - 1) % TWO_TO_THE_64
  }

  /** slice_lower of the first byte's slice, a 32-bit value. */
  function Lower(z: Sizes, offset: nat): nat
    requires z.slice > 0
  {
    z.SliceLower(z.SliceOf(offset)) % TWO_TO_THE_32
  }

  /** slice_upper of the last byte's slice, a 32-bit value, kept inside the object. */
  function Upper(z: Sizes, total: nat, last: nat): int
    requires z.slice > 0
  {
    var upper := (z.SliceOf(last) * z.slice + (z.slice - 1)) % TWO_TO_THE_32;
    if upper >= total then total - 1 else upper
  }

  /** The byte's slice ends within 32 bits. */
  predicate Narrow(z: Sizes, last: nat)
    requires z.slice > 0
  {
    z.SliceLower(z.SliceOf(last) + 1) <= TWO_TO_THE_32
  }

  /** A range that goes to `upper` ends with a slice, or with the object. */
  predicate EndsClean(z: Sizes, total: nat, upper: nat)
    requires z.slice > 0
  {
    z.Aligned(upper + 1) || upper + 1 == total
  }

  /** No slice is read in part: the aligned range begins at a slice boundary, and ends at one or at the
      object's end. */
  predicate Even(z: Sizes, total: uint64, offset: uint64, size: uint64)
    requires z.slice > 0
  {
    var n := ClippedSize(total, offset, size);
    n > 0 ==>
      var lower, upper := Lower(z, offset), Upper(z, total, LastByte(offset, n));
      lower > upper || (z.Aligned(lower) && EndsClean(z, total, upper))
  }

  /** What a read does return, if the blocks it touches can be read: the aligned range, less what is in
      front of the offset, and no more than was asked for. */
  function Answer(z: Sizes, value: Buffer, offset: uint64, size: uint64): seq<byte>
    requires z.slice > 0
  {
    var n := ClippedSize(|value|, offset, size);
    if n == 0 then []
    else
      var lower, upper := Lower(z, offset), Upper(z, |value|, LastByte(offset, n));
      if lower > upper then [] else Trimmed(value[lower..upper + 1], offset - lower, n)
  }

  /** IOBuf's pop_front, then pop_back down to at most n bytes. */
  function Trimmed(buf: seq<byte>, front: int, n: nat): seq<byte> {
    var rest := if front <= 0 then buf else if front >= |buf| then [] else buf[front..];
    if |rest| > n then rest[..n] else rest
  }

  lemma Bounds(z: Sizes, total: nat, offset: nat, last: nat)
    requires Addressable(z) && offset <= last < total
    ensures Lower(z, offset) <= offset && Upper(z, total, last) < total
    ensures Narrow(z, last) ==> Lower(z, offset) == z.SliceLower(z.SliceOf(offset)) && last <= Upper(z, total, last)
    ensures !Narrow(z, last) ==> Upper(z, total, last) < last
  {
    z.Locate(offset);
    z.Locate(last);
    z.OfMono(offset, last);
    z.Next(z.SliceOf(last));
    z.Mono(z.SliceOf(offset), z.SliceOf(last));
    var top := z.SliceOf(last) * z.slice + (z.slice - 1);
    assert top + 1 == z.SliceLower(z.SliceOf(last) + 1);
    if !Narrow(z, last) {
      MulMono(z.slice, 1, z.count);
      NarrowedBy(top);
    }
  }

  lemma NarrowedBy(x: nat)
    requires x >= TWO_TO_THE_32
    ensures x % TWO_TO_THE_32 <= x - TWO_TO_THE_32
  {}

  /** Unless it slips, a read asks for the bytes it is meant to return. */
  lemma ClippedRight(total: uint64, offset: uint64, size: uint64)
    requires !Slips(total, offset, size)
    ensures var n := ClippedSize(total, offset, size);
            && (n == 0 <==> size == 0 || offset >= total)
            && (n > 0 ==> LastByte(offset, n) == offset + n - 1 < total)
            && (n > 0 ==> offset + n == if offset + size <= total then offset + size else total)
  {}

  /** Whatever wraps, a read answers with bytes from the offset on, in order: too few at worst, never
      others. */
  lemma AnswerPrefix(z: Sizes, value: Buffer, offset: uint64, size: uint64)
    requires z.Valid()
    ensures Answer(z, value, offset, size) <= Clip(value, offset, size)
  {
    hide Clip, Trimmed, Upper, Lower;
    AnswerIs(z, value, offset, size);
    var n := ClippedSize(|value|, offset, size);
    if n > 0 {
      var upper := Upper(z, |value|, LastByte(offset, n));
      if upper >= 0 { ClipWithin(value, upper + 1, offset, n, size); }
    }
  }

  /** The answer is the range asked for in what lies before the aligned range's end. */
  lemma AnswerIs(z: Sizes, value: Buffer, offset: uint64, size: uint64)
    requires z.Valid()
    ensures var n := ClippedSize(|value|, offset, size);
            n > 0 ==>
              var upper := Upper(z, |value|, LastByte(offset, n));
              -1 <= upper < |value| && Answer(z, value, offset, size) == Clip(value[..upper + 1], offset, n)
  {
    hide Trimmed, Upper, Lower;
    var n := ClippedSize(|value|, offset, size);
    if n > 0 {
      LowerBelow(z, offset);
      UpperInside(z, |value|, LastByte(offset, n));
      var lower, upper := Lower(z, offset), Upper(z, |value|, LastByte(offset, n));
      if lower <= upper { TrimmedIs(value, lower, upper + 1, offset, n); }
    }
  }

  lemma ClipWithin(value: seq<byte>, end: nat, offset: nat, n: nat, size: nat)
    requires end <= |value| && n <= size
    ensures Clip(value[..end], offset, n) <= Clip(value, offset, size)
  {
    if offset < end {
      var last := if offset + n <= end then offset + n else end;
      SliceOfSlice(value, 0, end, offset, last);
      assert value[..end] == value[0..end];
      var whole := Clip(value, offset, size);
      SliceOfSlice(value, offset, offset + |whole|, 0, last - offset);
      assert whole[..last - offset] == whole[0..last - offset];
    }
  }

  lemma LowerBelow(z: Sizes, offset: nat)
    requires z.Valid()
    ensures Lower(z, offset) <= offset
  {
    z.Locate(offset);
  }

  lemma UpperInside(z: Sizes, total: nat, last: nat)
    requires z.slice > 0
    ensures -1 <= Upper(z, total, last) < total
  {}

  lemma TrimmedIs(value: seq<byte>, lower: nat, end: nat, offset: nat, n: nat)
    requires lower <= offset && lower <= end <= |value|
    ensures Trimmed(value[lower..end], offset - lower, n) == Clip(value[..end], offset, n)
  {
    if offset < end {
      var aligned, stop := value[lower..end], if offset + n <= end then offset + n else end;
      SliceOfSlice(value, lower, end, offset - lower, end - lower);
      assert (if offset == lower then aligned else aligned[offset - lower..]) == value[offset..end];
      SliceOfSlice(value, offset, end, 0, stop - offset);
      SliceOfSlice(value, 0, end, offset, stop);
      assert value[0..end] == value[..end];
    }
  }

  /** When a read is answered in full: its last slice ends within 32 bits, or, should it slip, at the
      object's end. */
  predicate Exact(z: Sizes, total: uint64, offset: uint64, size: uint64)
    requires z.slice > 0
  {
    if Slips(total, offset, size) then offset >= total || Upper(z, total, LastByte(offset, size)) == total - 1
    else
      var n := ClippedSize(total, offset, size);
      n == 0 || Narrow(z, offset + n - 1)
  }

  /** A read answers with the bytes it is meant to return exactly when that is so; and where its end is a
      64-bit number, exactly when the last of them is in a slice that ends within 32 bits. */
  lemma AnswerExact(z: Sizes, value: Buffer, offset: uint64, size: uint64)
    requires Addressable(z)
    ensures Answer(z, value, offset, size) == Clip(value, offset, size) <==> Exact(z, |value|, offset, size)
    ensures var wanted := |Clip(value, offset, size)|;
            offset + size < TWO_TO_THE_64 ==>
              (Exact(z, |value|, offset, size) <==> wanted == 0 || Narrow(z, offset + wanted - 1))
  {
    hide Answer, Trimmed, Upper, Narrow, Lower;
    AnswerIs(z, value, offset, size);
    AnswerPrefix(z, value, offset, size);
    var n := ClippedSize(|value|, offset, size);
    if n > 0 && !Slips(|value|, offset, size) {
      ClippedRight(|value|, offset, size);
      Bounds(z, |value|, offset, LastByte(offset, n));
    }
  }

  /** Asked for whole, an object is answered with whole exactly when its last slice ends within 32 bits. */
  lemma WholeAnswer(z: Sizes, value: Buffer)
    requires Addressable(z)
    ensures Answer(z, value, 0, |value|) <= value
    ensures Answer(z, value, 0, |value|) == value <==> value == [] || Narrow(z, |value| - 1)
  {
    hide Answer, Narrow;
    AnswerPrefix(z, value, 0, |value|);
    AnswerExact(z, value, 0, |value|);
  }

  /** A slice does if it starts a whole slice below 4 GiB, or if slices tile the 32-bit offsets. */
  lemma NarrowWithin(z: Sizes, last: nat)
    requires z.Valid()
    requires last + z.slice <= TWO_TO_THE_32 || (last < TWO_TO_THE_32 && TWO_TO_THE_32 % z.slice == 0)
    ensures Narrow(z, last)
  {
    z.Locate(last);
    z.Next(z.SliceOf(last));
    if last + z.slice > TWO_TO_THE_32 {
      WholeSlices(z, last, TWO_TO_THE_32 / z.slice);
    }
  }

  lemma WholeSlices(z: Sizes, last: nat, q: nat)
    requires z.Valid() && last < z.SliceLower(q)
    ensures z.SliceLower(z.SliceOf(last) + 1) <= z.SliceLower(q)
  {
    z.Locate(last);
    if z.SliceOf(last) >= q { z.Mono(q, z.SliceOf(last)); }
    z.Mono(z.SliceOf(last) + 1, q);
  }

  /** No slice is read in part if nothing wraps at 32 bits, or slices tile the 32-bit offsets. */
  lemma RangeAligned(z: Sizes, total: uint64, offset: uint64, size: uint64)
    requires Addressable(z)
    requires TWO_TO_THE_32 % z.slice == 0 ||
          (Narrow(z, offset) && Narrow(z, LastByte(offset, ClippedSize(total, offset, size))))
    ensures Even(z, total, offset, size)
  {
    hide ClippedSize, Narrow, Sizes.Aligned;
    var n := ClippedSize(total, offset, size);
    if n > 0 {
      LowerAligned(z, offset);
      UpperAligned(z, total, LastByte(offset, n));
    }
  }

  lemma LowerAligned(z: Sizes, offset: nat)
    requires Addressable(z) && (TWO_TO_THE_32 % z.slice == 0 || Narrow(z, offset))
    ensures z.Aligned(Lower(z, offset))
  {
    z.Next(z.SliceOf(offset));
    if !Narrow(z, offset) {
      KeepsMultiple(z.SliceLower(z.SliceOf(offset)), 0, z.slice, TWO_TO_THE_32);
    }
  }

  lemma UpperAligned(z: Sizes, total: nat, last: nat)
    requires Addressable(z) && (TWO_TO_THE_32 % z.slice == 0 || Narrow(z, last))
    ensures var upper := Upper(z, total, last);
            upper >= 0 ==> EndsClean(z, total, upper)
  {
    z.Next(z.SliceOf(last));
    z.Next(z.SliceOf(last) + 1);
    if !Narrow(z, last) {
      KeepsMultiple(z.SliceOf(last) * z.slice + (z.slice - 1), 1, z.slice, TWO_TO_THE_32);
    }
  }

  lemma KeepsMultiple(x: nat, k: nat, unit: nat, m: nat)
    requires unit > 0 && m > 0 && m % unit == 0 && (x + k) % unit == 0
    ensures (x % m + k) % unit == 0
  {
    var q, r := x / m, m / unit;
    assert x % m + k == (x + k) - q * m && m == unit * r;
    MulAssoc(q, unit, r);
    assert x % m + k == (x + k) + unit * (-(q * r));
    ModShift(x + k, -(q * r), unit);
  }

  // ----- The part of the range in one block --------------------------------------------------------------

  function PartFrom(z: Sizes, lower: nat, i: nat): nat
    requires z.block > 0
  {
    if i == lower / z.block then lower else i * z.block
  }

  function PartTo(z: Sizes, upper: nat, i: nat): nat
    requires z.block > 0
  {
    if i == upper / z.block then upper + 1 else (i + 1) * z.block
  }

  /** The part of the aligned range in its i-th block: bytes from..to of the object. */
  ghost predicate InBlock(z: Sizes, lower: nat, upper: nat, i: nat, from: nat, to: nat)
    requires z.block > 0
  {
    && lower / z.block <= i <= upper / z.block
    && from == PartFrom(z, lower, i) && to == PartTo(z, upper, i)
  }

  lemma InBlockBounds(z: Sizes, lower: nat, upper: nat, i: nat, from: nat, to: nat)
    requires z.Valid() && lower <= upper && InBlock(z, lower, upper, i, from, to)
    ensures i * z.block <= from < to <= (i + 1) * z.block && lower <= from && to <= upper + 1
    ensures from == lower || from == i * z.block
    ensures to == upper + 1 || to == (i + 1) * z.block
    ensures (i + 1) * z.block == i * z.block + z.block
  {
    BlockBounds(z, lower);
    BlockBounds(z, upper);
    Distribute(z.block, i, 1);
    if lower / z.block < i { MulMono(z.block, lower / z.block + 1, i); }
    if i < upper / z.block { MulMono(z.block, i + 1, upper / z.block); }
    assert from < (i + 1) * z.block;
    assert to > i * z.block;
  }

  /** How much a read takes from its i-th block, and where that leaves it. */
  function PartLength(z: Sizes, upper: nat, i: nat, cursor: nat): int
    requires z.block > 0
  {
    if i == upper / z.block then upper - (i * z.block + (cursor - i * z.block)) + 1
    else z.block - (cursor - i * z.block)
  }

  lemma NextPart(z: Sizes, lower: nat, upper: nat, i: nat, cursor: nat)
    requires z.Valid() && z.block > 0 && lower <= upper && lower / z.block <= i <= upper / z.block
    requires cursor == if i == lower / z.block then lower else i * z.block
    ensures i * z.block <= cursor && 0 < PartLength(z, upper, i, cursor)
    ensures InBlock(z, lower, upper, i, cursor, cursor + PartLength(z, upper, i, cursor))
    ensures cursor == PartFrom(z, lower, i) && cursor + PartLength(z, upper, i, cursor) == PartTo(z, upper, i)
    ensures lower <= cursor && cursor + PartLength(z, upper, i, cursor) <= upper + 1
    ensures i < upper / z.block ==> cursor + PartLength(z, upper, i, cursor) == (i + 1) * z.block
    ensures i == upper / z.block ==> cursor + PartLength(z, upper, i, cursor) == upper + 1
  {
    Distribute(z.block, i, 1);
    InBlockBounds(z, lower, upper, i, cursor, if i == upper / z.block then upper + 1 else (i + 1) * z.block);
  }

  lemma BlockRange(z: Sizes, value: seq<byte>, lower: nat, upper: nat, i: nat, base: nat, from: nat, to: nat)
    requires z.Valid() && lower <= upper < |value| && base == i * z.block
    requires InBlock(z, lower, upper, i, from, to)
    ensures base <= from < to <= |value|
    ensures var content := BlockContent(z, value, i);
            && to - base <= |content| && content[from - base..to - base] == value[from..to]
            && (z.Aligned(lower) ==> z.Aligned(from - base))
            && (EndsClean(z, |value|, upper) ==> EndsWell(z, content, to - base))
  {
    hide InBlock, BlockContent, EndsWell, EndsClean, Sizes.Aligned, Sizes.Valid;
    InBlockBounds(z, lower, upper, i, from, to);
    BlockAligned(z, i);
    BlockAligned(z, i + 1);
    ContentPart(z, value, i, base);
    AlignedPart(z, value, base, base + z.block, lower, upper, from, to, BlockContent(z, value, i));
  }

  lemma ContentPart(z: Sizes, value: seq<byte>, i: nat, base: nat)
    requires base == i * z.block <= |value|
    ensures BlockContent(z, value, i) == value[base..if base + z.block <= |value| then base + z.block else |value|]
  {
    Distribute(z.block, i, 1);
  }

  lemma AlignedPart(z: Sizes, value: seq<byte>, base: nat, end: nat, lower: nat, upper: nat, from: nat, to: nat,
                    content: seq<byte>)
    requires z.Valid() && base <= from < to <= end && to <= |value| && z.Aligned(base) && z.Aligned(end)
    requires (from == lower || from == base) && (to == upper + 1 || to == end)
    requires content == value[base..if end <= |value| then end else |value|]
    ensures to - base <= |content| && content[from - base..to - base] == value[from..to]
    ensures z.Aligned(lower) ==> z.Aligned(from - base)
    ensures EndsClean(z, |value|, upper) ==> EndsWell(z, content, to - base)
  {
    hide Sizes.Aligned;
    if z.Aligned(from) { AlignedDifference(z, from, base); }
    if z.Aligned(to) { AlignedDifference(z, to, base); }
    var stop := if end <= |value| then end else |value|;
    SliceOfSlice(value, base, stop, from - base, to - base);
  }

  lemma AlignedDifference(z: Sizes, a: nat, b: nat)
    requires z.Valid() && z.Aligned(a) && z.Aligned(b) && b <= a
    ensures z.Aligned(a - b)
  {
    DifferenceOfMultiples(a, b, z.slice);
  }

  lemma BlockAligned(z: Sizes, i: nat)
    requires z.Valid()
    ensures z.Aligned(i * z.block)
  {
    MulAssoc(i, z.slice, z.count);
    ModUnique(i * z.block, z.slice, i * z.count, 0);
  }

  /** With the default sizes: asked for all of an object one byte longer than 4 GiB, a read answers
      with its first slice only. */
  lemma AnswerShort(value: Buffer)
    requires |value| == TWO_TO_THE_32 + 1
    ensures var z := Sizes(4096, 65536, 16, 1048576);
            Addressable(z) && Answer(z, value, 0, |value|) == value[..65536] != Clip(value, 0, |value|)
  {
    var z := Sizes(4096, 65536, 16, 1048576);
    assert Addressable(z);
    assert z.SliceOf(TWO_TO_THE_32) == 65536;
    assert Lower(z, 0) == 0;
    assert Upper(z, |value|, TWO_TO_THE_32) == 65535;
  }

  // ----- When a read succeeds ----------------------------------------------------------------------------

  /** The part of the range in the object's i-th block can be had. */
  ghost predicate PartHad(z: Sizes, value: seq<byte>, stocks: seq<Stock>, lower: nat, upper: nat, i: nat)
    requires z.slice > 0 && z.block > 0
  {
    && i < |stocks| && i * z.block <= |value|
    && Had(z, BlockContent(z, value, i), stocks[i], PartFrom(z, lower, i) - i * z.block,
           PartTo(z, upper, i) - PartFrom(z, lower, i))
  }

  lemma PartIs(z: Sizes, value: seq<byte>, stocks: seq<Stock>, lower: nat, upper: nat, i: nat, from: nat, to: nat)
    requires z.slice > 0 && z.block > 0 && InBlock(z, lower, upper, i, from, to)
    requires i < |stocks| && i * z.block <= |value|
    ensures PartHad(z, value, stocks, lower, upper, i) <==>
          Had(z, BlockContent(z, value, i), stocks[i], from - i * z.block, to - from)
  {}

  ghost predicate RangeHad(z: Sizes, value: seq<byte>, stocks: seq<Stock>, lower: nat, upper: nat)
    requires z.slice > 0 && z.block > 0
  {
    forall i: nat :: lower / z.block <= i <= upper / z.block ==> PartHad(z, value, stocks, lower, upper, i)
  }

  /** What there is of the blocks in memory alone. */
  function InMemoryOnly(stocks: seq<Stock>): (r: seq<Stock>)
    ensures |r| == |stocks|
  {
    seq(|stocks|, i requires 0 <= i < |stocks| => MemoryOnly(stocks[i]))
  }

  /** How a read of the i-th part ends, with one stock before it and another after: it succeeds exactly if
      the part could be had (`exactly`), from memory in any case, and leaves it in memory (`keeps`). */
  ghost predicate PartOutcome(z: Sizes, value: seq<byte>, before: seq<Stock>, after: seq<Stock>, lower: nat,
                              upper: nat, i: nat, exactly: bool, keeps: bool, ok: bool)
    requires z.slice > 0 && z.block > 0
  {
    && (exactly ==> (ok <==> PartHad(z, value, before, lower, upper, i)))
    && (PartHad(z, value, InMemoryOnly(before), lower, upper, i) ==> ok)
    && (keeps && ok ==> PartHad(z, value, InMemoryOnly(after), lower, upper, i))
  }

  ghost predicate RangeOutcome(z: Sizes, value: seq<byte>, before: seq<Stock>, after: seq<Stock>, lower: nat,
                               upper: nat, exactly: bool, keeps: bool, ok: bool)
    requires z.slice > 0 && z.block > 0
  {
    && (exactly ==> (ok <==> RangeHad(z, value, before, lower, upper)))
    && (RangeHad(z, value, InMemoryOnly(before), lower, upper) ==> ok)
    && (keeps && ok ==> RangeHad(z, value, InMemoryOnly(after), lower, upper))
  }

  /** Nothing changed but one of the stocks. */
  ghost predicate OthersStay(before: seq<Stock>, after: seq<Stock>, i: nat) {
    |after| == |before| && forall j :: 0 <= j < |after| && j != i ==> after[j] == before[j]
  }

  /** The stocks from the i-th on are the same. */
  ghost predicate AlikeFrom(a: seq<Stock>, b: seq<Stock>, i: nat) {
    |b| == |a| && forall j :: i <= j < |a| ==> b[j] == a[j]
  }

  /** The parts below i have been read, with these stocks at first and those now. */
  ghost predicate PartsRead(z: Sizes, value: seq<byte>, before: seq<Stock>, now: seq<Stock>, lower: nat, upper: nat,
                            i: nat, exactly: bool, keeps: bool, ok: bool)
    requires z.slice > 0 && z.block > 0
  {
    var cached := RangeHad(z, value, InMemoryOnly(before), lower, upper);
    && (exactly && ok ==> forall j: nat :: lower / z.block <= j < i ==> PartHad(z, value, before, lower, upper, j))
    && (exactly && !ok ==> i <= upper / z.block && !PartHad(z, value, before, lower, upper, i))
    && (cached ==> ok)
    && (keeps && ok ==> forall j: nat :: lower / z.block <= j < i ==>
          PartHad(z, value, InMemoryOnly(now), lower, upper, j))
    && ((exactly || cached) && ok ==> AlikeFrom(before, now, i))
  }

  /** The i-th part is read, of which there still is what there was at first. */
  lemma PartsReadOn(z: Sizes, value: seq<byte>, first: seq<Stock>, before: seq<Stock>, after: seq<Stock>, lower: nat,
                    upper: nat, i: nat, exactly: bool, keeps: bool, ok: bool)
    requires z.slice > 0 && z.block > 0 && lower / z.block <= i <= upper / z.block
    requires PartsRead(z, value, first, before, lower, upper, i, exactly, keeps, true)
    requires PartOutcome(z, value, before, after, lower, upper, i, exactly, keeps, ok)
    requires exactly || keeps || PartHad(z, value, InMemoryOnly(before), lower, upper, i) ==>
          OthersStay(before, after, i)
    ensures PartsRead(z, value, first, after, lower, upper, if ok then i + 1 else i, exactly, keeps, ok)
  {
    hide PartHad, MemoryOnly;
    if AlikeFrom(first, before, i) {
      PartOfStock(z, value, first, before, lower, upper, i);
      PartOfStock(z, value, InMemoryOnly(first), InMemoryOnly(before), lower, upper, i);
    }
    forall j: nat | keeps && j < i && PartHad(z, value, InMemoryOnly(before), lower, upper, j)
      ensures PartHad(z, value, InMemoryOnly(after), lower, upper, j)
    {
      PartOfStock(z, value, InMemoryOnly(before), InMemoryOnly(after), lower, upper, j);
    }
  }

  /** From memory, if all of the range is there. */
  lemma CachedPart(z: Sizes, value: seq<byte>, first: seq<Stock>, now: seq<Stock>, lower: nat, upper: nat, i: nat,
                   exactly: bool, keeps: bool)
    requires z.slice > 0 && z.block > 0 && lower / z.block <= i <= upper / z.block
    requires PartsRead(z, value, first, now, lower, upper, i, exactly, keeps, true)
    requires RangeHad(z, value, InMemoryOnly(first), lower, upper)
    ensures PartHad(z, value, InMemoryOnly(now), lower, upper, i)
  {
    hide PartHad, MemoryOnly;
    PartOfStock(z, value, InMemoryOnly(first), InMemoryOnly(now), lower, upper, i);
  }

  lemma PartsReadAll(z: Sizes, value: seq<byte>, first: seq<Stock>, now: seq<Stock>, lower: nat, upper: nat, i: nat,
                     exactly: bool, keeps: bool, ok: bool)
    requires z.slice > 0 && z.block > 0 && lower / z.block <= i && (ok ==> i > upper / z.block)
    requires PartsRead(z, value, first, now, lower, upper, i, exactly, keeps, ok)
    ensures RangeOutcome(z, value, first, now, lower, upper, exactly, keeps, ok)
  {
    hide PartHad, InMemoryOnly;
  }

  lemma NoPartsRead(z: Sizes, value: seq<byte>, stocks: seq<Stock>, lower: nat, upper: nat, exactly: bool, keeps: bool)
    requires z.slice > 0 && z.block > 0
    ensures PartsRead(z, value, stocks, stocks, lower, upper, lower / z.block, exactly, keeps, true)
  {}

  /** Whether a part can be had is a matter of its own block. */
  lemma PartOfStock(z: Sizes, value: seq<byte>, a: seq<Stock>, b: seq<Stock>, lower: nat, upper: nat, i: nat)
    requires z.slice > 0 && z.block > 0 && |a| == |b| && (i < |a| ==> a[i] == b[i])
    ensures PartHad(z, value, a, lower, upper, i) <==> PartHad(z, value, b, lower, upper, i)
  {}

  /** A read of the range would find all it needs, the stocks being those of the object's blocks. */
  ghost predicate Answerable(z: Sizes, value: Buffer, stocks: seq<Stock>, offset: uint64, size: uint64)
    requires z.slice > 0 && z.block > 0
  {
    var n := ClippedSize(|value|, offset, size);
    n > 0 ==>
      var lower, upper := Lower(z, offset), Upper(z, |value|, LastByte(offset, n));
      if lower <= upper then RangeHad(z, value, stocks, lower, upper)
      else upper + 1 == lower || lower / z.block != upper / z.block
  }

  /** The range is empty and then some: the read asks a block for a negative number of bytes. */
  predicate Negative(z: Sizes, total: uint64, offset: uint64, size: uint64)
    requires z.slice > 0 && z.block > 0
  {
    var n := ClippedSize(total, offset, size);
    n > 0 &&
      var lower, upper := Lower(z, offset), Upper(z, total, LastByte(offset, n));
      upper + 1 < lower && lower / z.block == upper / z.block
  }

  /** Where a read would be answered in full, it is not negative, unless it slips from past the object. */
  lemma ExactNotNegative(z: Sizes, total: uint64, offset: uint64, size: uint64)
    requires Addressable(z) && z.block > 0 && Exact(z, total, offset, size)
    requires Slips(total, offset, size) ==> offset < total
    ensures !Negative(z, total, offset, size)
  {
    hide Upper, Narrow, Lower;
    var n := ClippedSize(total, offset, size);
    LowerBelow(z, offset);
    if n > 0 && !Slips(total, offset, size) {
      ClippedRight(total, offset, size);
      Bounds(z, total, offset, LastByte(offset, n));
    }
  }

  /** With the default sizes and an object of one block: asked for all there is from the third slice on,
      and more, a read succeeds with nothing, as if the object ended there. */
  lemma AnswerSlips(value: Buffer, stocks: seq<Stock>)
    requires |value| == 1048576
    ensures var z, size := Sizes(4096, 65536, 16, 1048576), TWO_TO_THE_64 - 1;
            && Addressable(z) && Answerable(z, value, stocks, 131072, size)
            && Answer(z, value, 131072, size) == [] != value[131072..] == Clip(value, 131072, size)
  {
    var z, size := Sizes(4096, 65536, 16, 1048576), TWO_TO_THE_64 - 1;
    assert LastByte(131072, size) == 131070;
    assert z.SliceOf(131070) == 1 && z.SliceOf(131072) == 2;
    assert Lower(z, 131072) == 131072 && Upper(z, |value|, 131070) == 131071;
    assert value[131072..][0] == value[131072];
  }

  /** Asked for so much from the fourth slice on that the end wraps to that of the first, it fails,
      whatever there is of the object. */
  lemma ReadSlips(value: Buffer, stocks: seq<Stock>)
    requires |value| == 1048576
    ensures var z, size := Sizes(4096, 65536, 16, 1048576), TWO_TO_THE_64 - 131072;
            Addressable(z) && !Answerable(z, value, stocks, 196608, size)
  {
    var z, size := Sizes(4096, 65536, 16, 1048576), TWO_TO_THE_64 - 131072;
    assert LastByte(196608, size) == 65535;
    assert z.SliceOf(65535) == 0 && z.SliceOf(196608) == 3;
    assert Lower(z, 196608) == 196608 && Upper(z, |value|, 65535) == 65535;
  }

  ghost predicate AllNoLess(before: seq<Stock>, after: seq<Stock>) {
    |after| == |before| && forall i :: 0 <= i < |before| ==> NoLess(before[i], after[i])
  }

  /** What can be answered goes on to be while the stocks only grow. */
  lemma AnswerableStill(z: Sizes, value: Buffer, before: seq<Stock>, after: seq<Stock>, offset: uint64, size: uint64)
    requires z.slice > 0 && z.block > 0 && AllNoLess(before, after)
    requires Answerable(z, value, before, offset, size)
    ensures Answerable(z, value, after, offset, size)
  {
    hide Had, NoLess, Lower, Upper, PartFrom, PartTo, BlockContent;
    var n := ClippedSize(|value|, offset, size);
    if n > 0 {
      var lower, upper := Lower(z, offset), Upper(z, |value|, LastByte(offset, n));
      forall i: nat | lower <= upper && lower / z.block <= i <= upper / z.block
        ensures PartHad(z, value, after, lower, upper, i)
      {
        assert PartHad(z, value, before, lower, upper, i);
        HadStill(z, BlockContent(z, value, i), before[i], after[i], PartFrom(z, lower, i) - i * z.block,
                 PartTo(z, upper, i) - PartFrom(z, lower, i));
      }
    }
  }

  /** Byte p of the object can be had. */
  ghost predicate ByteHad(z: Sizes, value: seq<byte>, stocks: seq<Stock>, p: nat)
    requires z.slice > 0 && z.block > 0
  {
    var i := p / z.block;
    && i < |stocks| && i * z.block <= p < |value| && p - i * z.block < |BlockContent(z, value, i)|
    && HasByte(z, BlockContent(z, value, i), stocks[i], p - i * z.block)
  }

  ghost predicate BytesHad(z: Sizes, value: seq<byte>, stocks: seq<Stock>, lower: nat, upper: nat)
    requires z.slice > 0 && z.block > 0
  {
    forall p: nat :: lower <= p <= upper ==> ByteHad(z, value, stocks, p)
  }

  /** A range can be had exactly when each of its bytes can. */
  lemma RangeIsBytes(z: Sizes, value: seq<byte>, stocks: seq<Stock>, lower: nat, upper: nat)
    requires z.Valid() && z.block > 0 && lower <= upper < |value|
    ensures RangeHad(z, value, stocks, lower, upper) <==> BytesHad(z, value, stocks, lower, upper)
  {
    hide PartHad, ByteHad;
    if RangeHad(z, value, stocks, lower, upper) {
      forall p: nat | lower <= p <= upper
        ensures ByteHad(z, value, stocks, p)
      {
        DivMono(lower, p, z.block);
        DivMono(p, upper, z.block);
        PartByte(z, value, stocks, lower, upper, p / z.block, p);
      }
    }
    if BytesHad(z, value, stocks, lower, upper) { PartsOfBytes(z, value, stocks, lower, upper); }
  }

  lemma PartsOfBytes(z: Sizes, value: seq<byte>, stocks: seq<Stock>, lower: nat, upper: nat)
    requires z.Valid() && z.block > 0 && lower <= upper < |value| && BytesHad(z, value, stocks, lower, upper)
    ensures RangeHad(z, value, stocks, lower, upper)
  {
    hide PartHad, BytesHad;
    forall i: nat | lower / z.block <= i <= upper / z.block
      ensures PartHad(z, value, stocks, lower, upper, i)
    {
      BytesPart(z, value, stocks, lower, upper, i);
    }
  }

  lemma PartByte(z: Sizes, value: seq<byte>, stocks: seq<Stock>, lower: nat, upper: nat, i: nat, p: nat)
    requires z.Valid() && z.block > 0 && lower <= p <= upper < |value| && i == p / z.block
    requires PartHad(z, value, stocks, lower, upper, i)
    ensures ByteHad(z, value, stocks, p)
  {
    hide HasByte, Sizes.Valid;
    BlockBounds(z, p);
  }

  lemma BytesPart(z: Sizes, value: seq<byte>, stocks: seq<Stock>, lower: nat, upper: nat, i: nat)
    requires z.Valid() && z.block > 0 && lower <= upper < |value|
    requires lower / z.block <= i <= upper / z.block
    requires BytesHad(z, value, stocks, lower, upper)
    ensures PartHad(z, value, stocks, lower, upper, i)
  {
    hide HasByte, PartFrom, PartTo;
    var from, to := PartFrom(z, lower, i), PartTo(z, upper, i);
    InBlockBounds(z, lower, upper, i, from, to);
    var base, content := i * z.block, BlockContent(z, value, i);
    assert ByteHad(z, value, stocks, from) && from / z.block == i by { InThisBlock(z, from, i); }
    forall q: nat | from - base <= q < to - base
      ensures q < |content| && HasByte(z, content, stocks[i], q)
    {
      assert ByteHad(z, value, stocks, base + q);
      InThisBlock(z, base + q, i);
    }
    assert to - base <= |content|;
  }

  lemma InThisBlock(z: Sizes, p: nat, i: nat)
    requires z.block > 0 && i * z.block <= p < (i + 1) * z.block
    ensures p / z.block == i
  {
    Distribute(z.block, i, 1);
    ModUnique(p, z.block, i, p - i * z.block);
  }

  lemma DivMono(a: nat, b: nat, d: nat)
    requires d > 0 && a <= b
    ensures a / d <= b / d
  {
    if a / d > b / d {
      MulMono(d, b / d + 1, a / d);
      Distribute(d, b / d, 1);
    }
  }
}
