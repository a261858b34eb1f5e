/** The block files of a cache directory, and where in them each block lies. */
module BlockFiles {
  import opened Common

  datatype Layout = Layout(blockSize: nat, fileSize: nat, quota: nat) {
    ghost predicate Valid() {
      blockSize > 0 && fileSize > 0 && fileSize % blockSize == 0
    }

    /** file_block_count */
    function FileBlocks(): nat
      requires blockSize > 0
    {
      fileSize / blockSize
    }

    function TotalBlocks(): nat
      requires blockSize > 0
    {
      quota / blockSize
    }

    lemma FileBlocksExact()
      requires Valid()
      ensures FileBlocks() > 0 && fileSize == blockSize * FileBlocks()
    {}

    /** get_block_file */
    function FileOf(b: nat): nat
      requires blockSize > 0 && FileBlocks() > 0
    {
      b / FileBlocks()
    }

    /** get_block_file_offset */
    function OffsetOf(b: nat, off: nat): nat
      requires blockSize > 0 && FileBlocks() > 0
    {
      b % FileBlocks() * blockSize + off
    }

    /** How long each file is: full ones, and a short one for what is left of the quota. */
    function FileSizes(): (sizes: seq<nat>)
      requires fileSize > 0
    {
      seq(quota / fileSize, _ => fileSize) + if quota % fileSize > 0 then [quota % fileSize] else []
    }

    /** _init_block_files */
    method InitBlockFiles() returns (sizes: seq<nat>)
      requires Valid()
      ensures sizes == FileSizes()
    {
      sizes := [];
      var freeBytes := quota;
      var fileCount := freeBytes / fileSize;
      for i := 0 to fileCount
        invariant sizes == seq(i, _ => fileSize) && freeBytes == quota - fileSize * i
      {
        Remaining(i);
        var size := if freeBytes <= fileSize then freeBytes else fileSize;
        sizes := sizes + [size];
        freeBytes := freeBytes - size;
      }
      assert quota == fileSize * fileCount + quota % fileSize;
      if freeBytes > 0 {
        sizes := sizes + [freeBytes];
      }
    }

    lemma Remaining(i: nat)
      requires fileSize > 0 && i < quota / fileSize
      ensures fileSize * (i + 1) <= quota && fileSize * (i + 1) == fileSize * i + fileSize
    {
      MulMono(fileSize, i + 1, quota / fileSize);
      Distribute(fileSize, i, 1);
    }

    /** End to end, the files are one stretch in which block follows block. */
    lemma Flat(b: nat, off: nat)
      requires Valid() && FileBlocks() > 0
      ensures fileSize * FileOf(b) + OffsetOf(b, off) == blockSize * b + off
    {
      FileBlocksExact();
      var n := FileBlocks();
      assert b == n * (b / n) + b % n;
      Distribute(blockSize, n * (b / n), b % n);
      MulAssoc3(blockSize, n, b / n);
    }

    /** A block lies in one file. */
    lemma WithinFile(b: nat, off: nat, len: nat)
      requires Valid() && FileBlocks() > 0 && off + len <= blockSize
      ensures OffsetOf(b, off) + len <= fileSize
    {
      FileBlocksExact();
      MulMono(blockSize, b % FileBlocks() + 1, FileBlocks());
      Distribute(blockSize, b % FileBlocks(), 1);
    }

    /** Every transfer within a block of the directory stays within a file the directory has, the short
        last one included. */
    lemma InsideFiles(b: nat, off: nat, len: nat)
      requires Valid() && FileBlocks() > 0 && b < TotalBlocks() && off + len <= blockSize
      ensures FileOf(b) < |FileSizes()|
      ensures OffsetOf(b, off) + len <= FileSizes()[FileOf(b)]
    {
      WithinFile(b, 0, blockSize);
      WithinFile(b, off, len);
      Flat(b, 0);
      Flat(b, off);
      MulMono(blockSize, b + 1, TotalBlocks());
      Distribute(blockSize, b, 1);
      EndInFiles(FileOf(b), OffsetOf(b, 0) + blockSize);
    }

    /** A file of which some byte is within the quota exists, and is long enough for it. */
    lemma EndInFiles(f: nat, end: nat)
      requires fileSize > 0 && 0 < end <= fileSize && fileSize * f + end <= quota
      ensures f < |FileSizes()| && end <= FileSizes()[f]
    {
      var q, r := quota / fileSize, quota % fileSize;
      assert quota == fileSize * q + r;
      if f > q {
        MulMono(fileSize, q + 1, f);
        Distribute(fileSize, q, 1);
      }
    }

    /** Distinct blocks share no byte: a place in the files belongs to one byte of one block. */
    lemma NoOverlap(b: nat, p: nat, b': nat, p': nat)
      requires Valid() && FileBlocks() > 0 && p < blockSize && p' < blockSize
      requires FileOf(b) == FileOf(b') && OffsetOf(b, p) == OffsetOf(b', p')
      ensures b == b' && p == p'
    {
      Flat(b, p);
      Flat(b', p');
      ModUnique(blockSize * b + p, blockSize, b, p);
      ModUnique(blockSize * b + p, blockSize, b', p');
    }

    /** Direct I/O moves whole units, and even so stays within the block. */
    lemma AlignedWithin(unit: nat, off: nat, size: nat)
      requires Valid() && unit > 0 && blockSize % unit == 0 && off % unit == 0 && off + size <= blockSize
      ensures off + RoundUp(size, unit) <= blockSize
    {
      DifferenceOfMultiples(blockSize, off, unit);
      RoundUpBelow(size, blockSize - off, unit);
    }

    /** Aligned transfers of distinct blocks touch different bytes, all inside the files there are. */
    lemma TransfersDisjoint(unit: nat, b: nat, off: nat, size: nat, b': nat, off': nat, size': nat, k: nat, k': nat)
      requires Valid() && FileBlocks() > 0 && unit > 0 && blockSize % unit == 0
      requires b != b' && b < TotalBlocks() && b' < TotalBlocks()
      requires off % unit == 0 && off + size <= blockSize && off' % unit == 0 && off' + size' <= blockSize
      requires k < RoundUp(size, unit) && k' < RoundUp(size', unit)
      ensures FileOf(b) < |FileSizes()| && OffsetOf(b, off) + k < FileSizes()[FileOf(b)]
      ensures FileOf(b) != FileOf(b') || OffsetOf(b, off) + k != OffsetOf(b', off') + k'
    {
      AlignedWithin(unit, off, size);
      AlignedWithin(unit, off', size');
      InsideFiles(b, off, k + 1);
      if FileOf(b) == FileOf(b') && OffsetOf(b, off) + k == OffsetOf(b', off') + k' {
        NoOverlap(b, off + k, b', off' + k');
      }
    }
  }

  function SizesSum(sizes: seq<nat>): nat {
    if sizes == [] then 0 else SizesSum(sizes[..|sizes| - 1]) + sizes[|sizes| - 1]
  }

  /** The files take up the quota, to the byte. */
  lemma FilesFillQuota(l: Layout)
    requires l.Valid()
    ensures SizesSum(l.FileSizes()) == l.quota
  {
    var q, full := l.quota / l.fileSize, seq(l.quota / l.fileSize, _ => l.fileSize);
    SumOfEqual(q, l.fileSize);
    if l.quota % l.fileSize > 0 {
      assert l.FileSizes()[..q] == full;
    } else {
      assert l.FileSizes() == full;
    }
  }

  lemma {:induction false} SumOfEqual(n: nat, size: nat)
    ensures SizesSum(seq(n, _ => size)) == size * n
  {
    if n > 0 {
      SumOfEqual(n - 1, size);
      assert seq(n, _ => size)[..n - 1] == seq(n - 1, _ => size);
      Distribute(size, n - 1, 1);
    }
  }
}
