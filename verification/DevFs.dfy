/** Unaligned byte access to a block device (fs/devfs.c). */
module DevFs {
  import opened Bytes
  import opened Block

  /** The number of bytes a request moves: `off + len` is a 64-bit sum, clipped to the device. */
  function Clip(off: nat, len: nat, size: nat): nat {
    var end := Min(W64(off + len), size);
    if end <= off then 0 else end - off
  }

  /** What a caller wants: everything from `off` on that is on the device, up to `len` bytes. */
  function Wanted(off: nat, len: nat, size: nat): nat {
    if off >= size then 0 else Min(len, size - off)
  }

  /** Byte by byte: byte `i` of the request is wanted exactly when the device has it. */
  lemma WantedHas(off: nat, len: nat, size: nat, i: nat)
    ensures i < Wanted(off, len, size) <==> i < len && off + i < size
  {
  }

  /** The request is served in full up to the end of the device except when the 64-bit sum wraps. */
  lemma ClipIsWanted(off: nat, len: nat, size: nat)
    requires off < TWO64 && len < TWO64 && size < TWO64
    ensures Clip(off, len, size) == Wanted(off, len, size) <==> off + len < TWO64 || off >= size
  {
    assert off + len < TWO64 ==> W64(off + len) == off + len;
    assert off + len >= TWO64 ==> W64(off + len) == off + len - TWO64;
  }

  /** A request that wraps: the last byte of the device is there, and none is returned. */
  lemma WrappedRequestReadsNothing(size: nat)
    requires 2 <= size < TWO64
    ensures Clip(size - 1, TWO64 - 1, size) == 0 && Wanted(size - 1, TWO64 - 1, size) == 1
  {
    assert W64(size - 1 + (TWO64 - 1)) == size - 2;
  }

  /** Full sectors per transfer: the 32-bit quotient, at most 128. */
  method Chunk(remaining: nat, sec: nat) returns (cnt: nat)
    requires 0 < sec <= remaining < 0x8000_0000
    ensures 1 <= cnt <= 128 && cnt * sec <= remaining
  {
    DivModPos(remaining, sec);
    cnt := remaining / sec % TWO32;
    if cnt > 128 {
      MulMono(128, remaining / sec, sec);
      cnt := 128;
    }
  }

  /** The sector that holds byte `off`, and the byte's place in it. */
  method Locate(off: nat, sec: nat) returns (lba: nat, head: nat)
    requires 0 < sec
    ensures off == lba * sec + head && head < sec
  {
    lba, head := off / sec, off % sec;
    DivModPos(off, sec);
  }

  /** A byte on the device lies in one of its sectors. */
  lemma SectorOf(lba: nat, sec: nat, total: nat)
    requires 0 < sec && lba * sec < total * sec
    ensures lba + 1 <= total
  {
    MulLess(total, lba, sec);
  }

  /** Full sectors that end on the device. */
  lemma SectorsOf(lba: nat, cnt: nat, sec: nat, total: nat)
    requires 0 < sec && lba * sec + cnt * sec <= total * sec
    ensures lba + cnt <= total
  {
    MulAdd(lba, cnt, sec);
    MulLess(lba + cnt, total, sec);
  }

  /** The head and tail step of a read: bytes `from .. from + n` of one sector, by way of a scratch sector. */
  method ReadPart(b: BlockDevice, lba: nat, from: nat, buf: array<byte>, pos: nat, n: nat)
    requires b.Valid() && b.Inside() && b.data.Length < TWO64 && buf != b.data
    requires 0 < n && from + n <= b.sectorSize && lba + 1 <= b.sectorCount && pos + n <= buf.Length
    modifies buf
    ensures lba * b.sectorSize + from + n <= |b.Contents()|
    ensures buf[..] == Splice(old(buf[..]), pos, b.Contents()[lba * b.sectorSize + from..lba * b.sectorSize + from + n])
  {
    var tmp := new byte[b.sectorSize];
    b.ReadInside(lba, tmp, 0, 1);
    ghost var was, got := buf[..], tmp[..];
    assert got == b.Contents()[lba * b.sectorSize..lba * b.sectorSize + b.sectorSize];
    SpliceEmpty(was, pos, got, from);
    for i := 0 to n
      invariant tmp[..] == got
      invariant buf[..] == Splice(was, pos, got[from..from + i])
    {
      SpliceStep(was, pos, got, from, from + i);
      buf[pos + i] := tmp[from + i];
    }
    SliceSlice(b.Contents(), lba * b.sectorSize, b.sectorSize, from, n);
  }

  /** The middle of a read: full sectors, at most 128 at a time; the sector after the last one is returned. */
  method ReadFull(b: BlockDevice, lba: nat, buf: array<byte>, pos: nat, len: nat) returns (next: nat)
    requires b.Valid() && b.Inside() && b.data.Length < TWO64 && buf != b.data
    requires pos + len <= buf.Length && len < 0x8000_0000 && lba * b.sectorSize + len <= |b.Contents()|
    modifies buf
    ensures lba * b.sectorSize <= next * b.sectorSize <= lba * b.sectorSize + len < next * b.sectorSize + b.sectorSize
    ensures next * b.sectorSize <= |b.Contents()|
    ensures buf[..] == Splice(old(buf[..]), pos, b.Contents()[lba * b.sectorSize..next * b.sectorSize])
  {
    ghost var all, from := b.Contents(), lba * b.sectorSize;
    var sec := b.sectorSize;
    var at: nat, remaining: nat := pos, len;
    next := lba;
    SpliceEmpty(buf[..], pos, all, from);
    while remaining >= sec
      invariant at + remaining == pos + len && next * sec == from + (at - pos) && pos <= at
      invariant buf[..] == Splice(old(buf[..]), pos, all[from..next * sec])
    {
      var cnt := Chunk(remaining, sec);
      SectorsOf(next, cnt, sec, b.sectorCount);
      ghost var cur := buf[..];
      b.ReadInside(next, buf, at, cnt);
      SpliceChunk(old(buf[..]), cur, buf[..], pos, all, from, next * sec, next * sec + cnt * sec, at);
      MulAdd(next, cnt, sec);
      at, remaining, next := at + cnt * sec, remaining - cnt * sec, next + cnt;
    }
  }

  /** The sector-aligned part of a read: full sectors, then the front of one more. */
  method ReadRest(b: BlockDevice, lba: nat, buf: array<byte>, pos: nat, len: nat)
    requires b.Valid() && b.Inside() && b.data.Length < TWO64 && buf != b.data
    requires pos + len <= buf.Length && len < 0x8000_0000 && lba * b.sectorSize + len <= |b.Contents()|
    modifies buf
    ensures buf[..] == Splice(old(buf[..]), pos, b.Contents()[lba * b.sectorSize..lba * b.sectorSize + len])
  {
    var next := ReadFull(b, lba, buf, pos, len);
    var from, mid := lba * b.sectorSize, next * b.sectorSize;
    if mid < from + len {
      SectorOf(next, b.sectorSize, b.sectorCount);
      ReadPart(b, next, 0, buf, pos + (mid - from), from + len - mid);
      SpliceSlices(old(buf[..]), pos, b.Contents(), from, mid, from + len);
    }
  }

  /** Head, middle and tail of a non-empty read that lies on the device. */
  method ReadBytes(b: BlockDevice, off: nat, buf: array<byte>, n: nat)
    requires b.Valid() && b.Inside() && b.data.Length < TWO64 && buf != b.data
    requires 0 < n <= buf.Length && n < 0x8000_0000 && off + n <= |b.Contents()|
    modifies buf
    ensures buf[..] == Splice(old(buf[..]), 0, b.Contents()[off..off + n])
  {
    var sec := b.sectorSize;
    var lba, head := Locate(off, sec);
    if head == 0 {
      ReadRest(b, lba, buf, 0, n);
    } else {
      var pos := Min(sec - head, n);
      SectorOf(lba, sec, b.sectorCount);
      ReadPart(b, lba, head, buf, 0, pos);
      if pos < n {
        MulAdd(lba, 1, sec);
        ReadRest(b, lba + 1, buf, pos, n - pos);
        SpliceSlices(old(buf[..]), 0, b.Contents(), off, off + pos, off + n);
      }
    }
  }

  /** Read `len` bytes from byte `off` of the device into the front of `buf`. */
  method Read(isDir: bool, b: BlockDevice, off: nat, buf: array<byte>, len: nat) returns (rc: int)
    requires b.Valid() && b.Inside() && b.data.Length < TWO64 && buf != b.data
    requires off < TWO64 && len < TWO64
    requires Clip(off, len, |b.Contents()|) <= buf.Length && Clip(off, len, |b.Contents()|) < 0x8000_0000
    modifies buf
    ensures isDir ==> rc == -1 && buf[..] == old(buf[..])
    ensures !isDir ==>
              var n := Clip(off, len, |b.Contents()|);
              && rc == n && n <= len && (n > 0 ==> off + n <= |b.Contents()|)
              && buf[..] == if n == 0 then old(buf[..]) else Splice(old(buf[..]), 0, b.Contents()[off..off + n])
  {
    if isDir { return -1; }
    var sec := b.sectorSize;
    var end := W64(off + len);
    if end > b.sectorCount * sec { end := b.sectorCount * sec; }
    if end <= off { return 0; }
    ReadBytes(b, off, buf, end - off);
    return end - off;
  }

  /** The same through `Read`: the last byte of the device is wanted, and none is returned. */
  method ReadWrapped(b: BlockDevice, buf: array<byte>) returns (rc: int)
    requires b.Valid() && b.Inside() && b.data.Length < TWO64 && buf != b.data && 2 <= |b.Contents()|
    modifies buf
    ensures Wanted(|b.Contents()| - 1, TWO64 - 1, |b.Contents()|) == 1
    ensures rc == 0 && buf[..] == old(buf[..])
  {
    b.InsideBounds();
    WrappedRequestReadsNothing(|b.Contents()|);
    rc := Read(false, b, b.sectorCount * b.sectorSize - 1, buf, TWO64 - 1);
  }

  /** The head and tail step of a write: read the sector, change bytes `from .. from + n`, write it back. */
  method WritePart(b: BlockDevice, lba: nat, from: nat, src: array<byte>, pos: nat, n: nat)
    requires b.Valid() && b.Inside() && b.data.Length < TWO64 && src != b.data
    requires 0 < n && from + n <= b.sectorSize && lba + 1 <= b.sectorCount && pos + n <= src.Length
    modifies b.data
    ensures lba * b.sectorSize + from + n <= |b.Contents()|
    ensures b.Contents() == Splice(old(b.Contents()), lba * b.sectorSize + from, src[..][pos..pos + n])
    ensures b.OnlyChanged(old(b.data[..]), b.data[..])
  {
    var tmp := new byte[b.sectorSize];
    b.ReadInside(lba, tmp, 0, 1);
    ghost var sector, new_ := tmp[..], src[..];
    ghost var all := b.Contents();
    assert sector == all[lba * b.sectorSize..lba * b.sectorSize + b.sectorSize];
    SpliceEmpty(sector, from, new_, pos);
    for i := 0 to n
      modifies tmp
      invariant tmp[..] == Splice(sector, from, new_[pos..pos + i])
    {
      SpliceStep(sector, from, new_, pos, pos + i);
      tmp[from + i] := src[pos + i];
    }
    WriteSector(b, lba, tmp);
    SpliceBack(all, lba * b.sectorSize, sector, from, new_[pos..pos + n], tmp[..], b.Contents(),
      lba * b.sectorSize + from);
  }

  method WriteSector(b: BlockDevice, lba: nat, tmp: array<byte>)
    requires b.Valid() && b.Inside() && b.data.Length < TWO64 && tmp != b.data
    requires tmp.Length == b.sectorSize && lba + 1 <= b.sectorCount
    modifies b.data
    ensures lba * b.sectorSize + b.sectorSize <= |b.Contents()|
    ensures b.Contents() == Splice(old(b.Contents()), lba * b.sectorSize, tmp[..])
    ensures b.OnlyChanged(old(b.data[..]), b.data[..])
  {
    b.WriteInside(lba, tmp, 0, 1);
    assert tmp[0..1 * b.sectorSize] == tmp[..];
  }

  /** The middle of a write. */
  method WriteFull(b: BlockDevice, lba: nat, src: array<byte>, pos: nat, len: nat) returns (next: nat)
    requires b.Valid() && b.Inside() && b.data.Length < TWO64 && src != b.data
    requires pos + len <= src.Length && len < 0x8000_0000 && lba * b.sectorSize + len <= |b.Contents()|
    modifies b.data
    ensures lba * b.sectorSize <= next * b.sectorSize <= lba * b.sectorSize + len < next * b.sectorSize + b.sectorSize
    ensures b.Contents() == Splice(old(b.Contents()), lba * b.sectorSize,
                                   src[..][pos..pos + (next * b.sectorSize - lba * b.sectorSize)])
    ensures b.OnlyChanged(old(b.data[..]), b.data[..])
  {
    ghost var all, from, new_ := b.Contents(), lba * b.sectorSize, src[..];
    var sec := b.sectorSize;
    var at: nat, remaining: nat := pos, len;
    next := lba;
    SpliceEmpty(all, from, new_, pos);
    while remaining >= sec
      invariant at + remaining == pos + len && next * sec == from + (at - pos) && pos <= at
      invariant src[..] == new_
      invariant b.Contents() == Splice(all, from, new_[pos..at])
      invariant b.OnlyChanged(old(b.data[..]), b.data[..])
    {
      var cnt := Chunk(remaining, sec);
      SectorsOf(next, cnt, sec, b.sectorCount);
      ghost var cur, size := b.Contents(), cnt * sec;
      b.WriteInside(next, src, at, cnt);
      SpliceChunk(all, cur, b.Contents(), from, new_, pos, at, at + size, next * sec);
      MulAdd(next, cnt, sec);
      at, remaining, next := at + cnt * sec, remaining - cnt * sec, next + cnt;
    }
  }

  /** The sector-aligned part of a write. */
  method WriteRest(b: BlockDevice, lba: nat, src: array<byte>, pos: nat, len: nat)
    requires b.Valid() && b.Inside() && b.data.Length < TWO64 && src != b.data
    requires pos + len <= src.Length && len < 0x8000_0000 && lba * b.sectorSize + len <= |b.Contents()|
    modifies b.data
    ensures b.Contents() == Splice(old(b.Contents()), lba * b.sectorSize, src[..][pos..pos + len])
    ensures b.OnlyChanged(old(b.data[..]), b.data[..])
  {
    var next := WriteFull(b, lba, src, pos, len);
    var from, mid := lba * b.sectorSize, next * b.sectorSize;
    if mid < from + len {
      SectorOf(next, b.sectorSize, b.sectorCount);
      WritePart(b, next, 0, src, pos + (mid - from), from + len - mid);
      SpliceSlices(old(b.Contents()), from, src[..], pos, pos + (mid - from), pos + len);
    }
  }

  /** Head, middle and tail of a non-empty write that lies on the device. */
  method WriteBytes(b: BlockDevice, off: nat, src: array<byte>, n: nat)
    requires b.Valid() && b.Inside() && b.data.Length < TWO64 && src != b.data
    requires 0 < n <= src.Length && n < 0x8000_0000 && off + n <= |b.Contents()|
    modifies b.data
    ensures b.Contents() == Splice(old(b.Contents()), off, src[..][0..n])
    ensures b.OnlyChanged(old(b.data[..]), b.data[..])
  {
    var sec := b.sectorSize;
    var lba, head := Locate(off, sec);
    if head == 0 {
      WriteRest(b, lba, src, 0, n);
    } else {
      var pos := Min(sec - head, n);
      SectorOf(lba, sec, b.sectorCount);
      WritePart(b, lba, head, src, 0, pos);
      if pos < n {
        MulAdd(lba, 1, sec);
        WriteRest(b, lba + 1, src, pos, n - pos);
        SpliceSlices(old(b.Contents()), off, src[..], 0, pos, n);
      }
    }
  }

  /** Write the first `len` bytes of `src` to byte `off` of the device. */
  method Write(isDir: bool, b: BlockDevice, off: nat, src: array<byte>, len: nat) returns (rc: int)
    requires b.Valid() && b.Inside() && b.data.Length < TWO64 && src != b.data
    requires off < TWO64 && len < TWO64
    requires Clip(off, len, |b.Contents()|) <= src.Length && Clip(off, len, |b.Contents()|) < 0x8000_0000
    modifies b.data
    ensures isDir ==> rc == -1 && b.Contents() == old(b.Contents())
    ensures !isDir ==>
              var n := Clip(off, len, |old(b.Contents())|);
              && rc == n && n <= len && (n > 0 ==> off + n <= |old(b.Contents())|)
              && b.Contents() == if n == 0 then old(b.Contents()) else Splice(old(b.Contents()), off, src[..][0..n])
    ensures b.OnlyChanged(old(b.data[..]), b.data[..])
  {
    if isDir { return -1; }
    var sec := b.sectorSize;
    var end := W64(off + len);
    if end > b.sectorCount * sec { end := b.sectorCount * sec; }
    if end <= off { return 0; }
    WriteBytes(b, off, src, end - off);
    return end - off;
  }
}
