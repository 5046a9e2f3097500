/** RAM disks, and partitions stacked on block devices (block/ramdisk.c, block/block.c). */
module Block {
  import opened Bytes

  lemma WrappedProduct(m: nat, n: nat)
    requires 0 < m && 0 < n && m * n < TWO64
    ensures W64((TWO64 - m) * n) == TWO64 - m * n
  {
    assert (TWO64 - m) * n == (n - 1) * TWO64 + (TWO64 - m * n);
    DivModUnique(n - 1, TWO64 - m * n, TWO64);
  }

  lemma WrappedSum(a: nat, m: nat)
    requires a < TWO64 && 0 < m <= TWO64
    ensures W64(a + (TWO64 - m)) == if m <= a then a - m else TWO64 - (m - a)
  {
  }

  lemma WrapAdd(t: nat, y: nat, x: nat, p: nat)
    requires W64(t + y) == p && p + x < TWO64
    ensures W64(t + (x + y)) == p + x
  {
  }

  /** A block device. With no parent it is a RAM disk that owns `data`; with a parent it is a
      partition, and `data` names the array of the RAM disk at the bottom of the stack. */
  class BlockDevice {
    const sectorSize: nat
    const sectorCount: nat
    const parent: BlockDevice?
    const lbaBase: nat
    const data: array<byte>
    ghost const depth: nat

    ghost predicate Valid()
      decreases depth
    {
      && 0 < sectorSize
      && (parent == null ==> data.Length == sectorCount * sectorSize)
      && (parent != null ==>
            && parent.depth < depth && parent.Valid()
            && parent.data == data && parent.sectorSize == sectorSize)
    }

    /** The byte of the RAM disk at which sector 0 of this device lies. */
    ghost function Start(): nat
      requires Valid()
      decreases depth
    {
      if parent == null then 0 else parent.Start() + lbaBase * sectorSize
    }

    /** Every partition on the way down lies inside its parent. */
    ghost predicate Inside()
      requires Valid()
      decreases depth
    {
      parent != null ==> lbaBase + sectorCount <= parent.sectorCount && parent.Inside()
    }

    /** The byte of the RAM disk at which sector `lba` lies, in the source's 64-bit arithmetic. */
    ghost function Target(lba: nat): nat
      requires Valid()
      decreases depth
    {
      if parent == null then W64(lba * sectorSize) else parent.Target(W64(lbaBase + lba))
    }

    /** Sectors `lba .. lba + count` pass the bound checks of the partitions, whose sums are 64-bit. */
    ghost predicate PassesParts(lba: nat, count: nat)
      requires Valid()
      decreases depth
    {
      parent != null ==> W64(lba + count) <= sectorCount && parent.PassesParts(W64(lbaBase + lba), count)
    }

    /** They pass the bound check of every level. */
    ghost predicate Passes(lba: nat, count: nat)
      requires Valid()
    {
      PassesParts(lba, count) && W64(Target(lba) + count * sectorSize) <= data.Length
    }

    /** The addresses that the RAM disk computes do not go beyond the address space. */
    ghost predicate Addressable(lba: nat, count: nat)
      requires Valid()
    {
      Target(lba) + count * sectorSize < TWO64
    }

    /** The request does not make the RAM disk leave its memory. */
    ghost predicate Safe(lba: nat, count: nat)
      requires Valid()
    {
      Passes(lba, count) ==> Addressable(lba, count)
    }

    /** The bytes this device exposes. */
    ghost function Contents(): (s: seq<byte>)
      requires Valid() && Inside()
      reads data
      ensures |s| == sectorCount * sectorSize
    {
      InsideBounds();
      data[..][Start()..Start() + sectorCount * sectorSize]
    }

    /** The disk changed from `was` to `now` in bytes of this device only. */
    ghost predicate OnlyChanged(was: seq<byte>, now: seq<byte>)
      requires Valid()
    {
      && |was| == |now|
      && forall i :: 0 <= i < |was| && !(Start() <= i < Start() + sectorCount * sectorSize) ==> was[i] == now[i]
    }

    lemma InsideBounds()
      requires Valid() && Inside()
      ensures Start() + sectorCount * sectorSize <= data.Length
      decreases depth
    {
      if parent != null {
        parent.InsideBounds();
        MulMono(lbaBase + sectorCount, parent.sectorCount, sectorSize);
        MulAdd(lbaBase, sectorCount, sectorSize);
      }
    }

    lemma InsideRoom(lba: nat, count: nat)
      requires Valid() && Inside() && lba + count <= sectorCount && data.Length < TWO64
      ensures Start() + lba * sectorSize + count * sectorSize <= data.Length && lba + count < TWO64
    {
      InsideBounds();
      MulMono(lba + count, sectorCount, sectorSize);
      MulMono(1, sectorSize, lba + count);
      MulAdd(lba, count, sectorSize);
    }

    lemma InsideParts(lba: nat, count: nat)
      requires Valid() && Inside() && lba + count <= sectorCount && data.Length < TWO64
      ensures PassesParts(lba, count)
      decreases depth
    {
      if parent != null {
        InsideRoom(lba, count);
        parent.InsideRoom(lbaBase + lba, count);
        assert W64(lba + count) == lba + count by { Unwrapped(lba + count); }
        assert W64(lbaBase + lba) == lbaBase + lba by { Unwrapped(lbaBase + lba); }
        parent.InsideParts(lbaBase + lba, count);
      }
    }

    lemma InsideTarget(lba: nat)
      requires Valid() && Inside() && lba <= sectorCount && data.Length < TWO64
      ensures Target(lba) == Start() + lba * sectorSize
      decreases depth
    {
      InsideRoom(lba, 0);
      if parent == null {
        assert W64(lba * sectorSize) == lba * sectorSize by { Unwrapped(lba * sectorSize); }
      } else {
        parent.InsideRoom(lbaBase + lba, 0);
        assert W64(lbaBase + lba) == lbaBase + lba by { Unwrapped(lbaBase + lba); }
        parent.InsideTarget(lbaBase + lba);
        MulAdd(lbaBase, lba, sectorSize);
      }
    }

    /** On a device inside its parents, sectors of the device pass every check and lie where they should. */
    lemma InsidePasses(lba: nat, count: nat)
      requires Valid() && Inside() && lba + count <= sectorCount && data.Length < TWO64
      ensures Passes(lba, count) && Target(lba) == Start() + lba * sectorSize
      ensures Target(lba) + count * sectorSize <= data.Length
    {
      InsideRoom(lba, count);
      InsideParts(lba, count);
      InsideTarget(lba);
      Unwrapped(Target(lba) + count * sectorSize);
    }

    /** Without a wrap, the top bound check of a partition inside its parents is the only one that can fail. */
    lemma InsidePassesIff(lba: nat, count: nat)
      requires Valid() && Inside() && parent != null && data.Length < TWO64 && lba + count < TWO64
      ensures Passes(lba, count) <==> lba + count <= sectorCount
    {
      Unwrapped(lba + count);
      if lba + count <= sectorCount { InsidePasses(lba, count); }
    }

    /** Sectors whose number wraps past 2^64, `m` of them before it: in 64-bit addresses they are the `m` sectors
        in front of the device, however deep partitions are stacked. */
    lemma WrappedTarget(m: nat)
      requires Valid() && Inside() && sectorSize < TWO32 && data.Length < TWO64 && 0 < m < TWO32
      ensures W64(Target(TWO64 - m) + m * sectorSize) == Start()
      decreases depth
    {
      InsideBounds();
      if parent == null {
        assert W64(Target(TWO64 - m) + m * sectorSize) == 0 by {
          MulMono(sectorSize, TWO32, m);
          WrappedProduct(m, sectorSize);
        }
      } else {
        parent.InsideRoom(lbaBase, 0);
        WrappedSum(lbaBase, m);
        if m <= lbaBase {
          assert Target(TWO64 - m) + m * sectorSize == Start() by {
            parent.InsideTarget(lbaBase - m);
            MulAdd(lbaBase - m, m, sectorSize);
          }
          Unwrapped(Start());
        } else {
          parent.WrappedTarget(m - lbaBase);
          MulAdd(lbaBase, m - lbaBase, sectorSize);
          WrapAdd(Target(TWO64 - m), (m - lbaBase) * sectorSize, lbaBase * sectorSize, parent.Start());
        }
      }
    }

    /** An accepted request stays in the RAM disk's memory exactly when its last address does not wrap. */
    lemma StaysInMemoryIff(lba: nat, count: nat)
      requires Valid() && data.Length < TWO64 && Passes(lba, count)
      ensures Target(lba) + count * sectorSize <= data.Length <==> Addressable(lba, count)
    {
      if Addressable(lba, count) { Unwrapped(Target(lba) + count * sectorSize); }
    }

    lemma WrappedLeaves(lba: nat, count: nat)
      requires Valid() && Inside() && sectorSize < TWO32 && data.Length < TWO64
      requires lba < TWO64 && 0 < count < TWO32 && lba + count >= TWO64
      ensures Target(lba) < Start() || Target(lba) + count * sectorSize > data.Length
    {
      var m := TWO64 - lba;
      WrappedTarget(m);
      MulMono(1, m, sectorSize);
      MulMono(m, count, sectorSize);
      if Addressable(lba, count) { Unwrapped(Target(lba) + m * sectorSize); }
    }

    /** A partition is isolated exactly as long as sector numbers do not wrap: an accepted request stays inside
        the device exactly when `lba + count` fits 64 bits. */
    lemma IsolatedIff(lba: nat, count: nat)
      requires Valid() && Inside() && parent != null && sectorSize < TWO32 && data.Length < TWO64
      requires lba < TWO64 && 0 < count < TWO32 && Passes(lba, count)
      ensures Start() <= Target(lba) && Target(lba) + count * sectorSize <= Start() + sectorCount * sectorSize <==>
              lba + count < TWO64
    {
      InsideBounds();
      if lba + count >= TWO64 {
        WrappedLeaves(lba, count);
      } else {
        Unwrapped(lba + count);
        InsideTarget(lba);
        MulAdd(lba, count, sectorSize);
        MulMono(lba + count, sectorCount, sectorSize);
      }
    }

    /** The sector that an escaping request reaches: on a partition of a RAM disk, sector number 2^64 - 1 passes
        the checks and is the sector in front of the partition. */
    lemma LastNumberEscapes()
      requires Valid() && Inside() && parent != null && parent.parent == null
      requires 0 < lbaBase && sectorSize < TWO32 && data.Length < TWO64
      ensures Passes(TWO64 - 1, 1) && Addressable(TWO64 - 1, 1)
      ensures Target(TWO64 - 1) + sectorSize == Start()
    {
      MulMono(1, sectorSize, lbaBase);
      InsideBounds();
      parent.InsidePasses(lbaBase - 1, 1);
      assert W64(lbaBase + (TWO64 - 1)) == lbaBase - 1 && W64(TWO64 - 1 + 1) == 0;
      MulAdd(lbaBase - 1, 1, sectorSize);
    }

    /** A request that leaves the memory of a RAM disk of 512-byte sectors, without any sector number wrapping:
        two sectors from number 2^55 - 1 on pass the check and start 512 bytes in front of the disk. */
    lemma LastAddressEscapes()
      requires Valid() && parent == null && sectorSize == 512 && 0 < sectorCount
      ensures Passes(0x7F_FFFF_FFFF_FFFF, 2) && !Addressable(0x7F_FFFF_FFFF_FFFF, 2)
      ensures Target(0x7F_FFFF_FFFF_FFFF) == TWO64 - 512
    {
      MulMono(1, sectorCount, 512);
    }

    /** A zeroed RAM disk, its size rounded up to whole 512-byte sectors. */
    constructor RamDisk(bytes: nat)
      requires 0 < bytes
      ensures Valid() && parent == null && fresh(data) && sectorSize == 512
      ensures bytes <= data.Length < bytes + 512
      ensures forall i :: 0 <= i < data.Length ==> data[i] == 0
    {
      sectorSize := 512;
      sectorCount := (bytes + 511) / 512;
      parent := null;
      lbaBase := 0;
      var d := new byte[(bytes + 511) / 512 * 512](_ => 0);
      data := d;
      depth := 0;
    }

    /** A partition of `count` sectors from sector `base` of `p`; nothing checks that it fits. */
    constructor Partition(p: BlockDevice, base: nat, count: nat)
      requires p.Valid()
      ensures Valid() && parent == p && lbaBase == base && sectorCount == count
    {
      sectorSize := p.sectorSize;
      sectorCount := count;
      parent := p;
      lbaBase := base;
      data := p.data;
      depth := p.depth + 1;
    }

    /** Copy `count` sectors from sector `lba` into `dst` at `at`. */
    method Read(lba: nat, dst: array<byte>, at: nat, count: nat) returns (rc: int)
      requires Valid() && Safe(lba, count) && data.Length < TWO64
      requires dst != data && at + count * sectorSize <= dst.Length
      modifies dst
      ensures count == 0 ==> dst[..] == old(dst[..]) && rc == if PassesParts(lba, 0) then 0 else -1
      ensures 0 < count && Passes(lba, count) ==>
                && rc == Int32(count) && Target(lba) + count * sectorSize <= data.Length
                && dst[..] == Splice(old(dst[..]), at, data[Target(lba)..Target(lba) + count * sectorSize])
      ensures 0 < count && !Passes(lba, count) ==> rc == -1 && dst[..] == old(dst[..])
      decreases depth
    {
      if parent != null {
        if W64(lba + count) > sectorCount { return -1; }
        rc := parent.Read(W64(lbaBase + lba), dst, at, count);
        return;
      }
      if count == 0 { return 0; }
      var off := W64(lba * sectorSize);
      var len := count * sectorSize;
      if W64(off + len) > data.Length { return -1; }
      CopyOut(off, dst, at, len);
      return Int32(count);
    }

    /** Copy `count` sectors of `src` at `at` to sector `lba`. */
    method Write(lba: nat, src: array<byte>, at: nat, count: nat) returns (rc: int)
      requires Valid() && Safe(lba, count) && data.Length < TWO64
      requires src != data && at + count * sectorSize <= src.Length
      modifies data
      ensures Passes(lba, count) ==>
                && rc == Int32(count) && Target(lba) + count * sectorSize <= data.Length
                && data[..] == Splice(old(data[..]), Target(lba), src[at..at + count * sectorSize])
      ensures !Passes(lba, count) ==> rc == -1 && data[..] == old(data[..])
      decreases depth
    {
      if parent != null {
        if W64(lba + count) > sectorCount { return -1; }
        rc := parent.Write(W64(lbaBase + lba), src, at, count);
        return;
      }
      var off := W64(lba * sectorSize);
      var len := count * sectorSize;
      if W64(off + len) > data.Length { return -1; }
      CopyIn(off, src, at, len);
      return Int32(count);
    }

    /** The byte loops of the RAM disk. */
    method CopyOut(off: nat, dst: array<byte>, at: nat, len: nat)
      requires dst != data && off + len <= data.Length && at + len <= dst.Length
      modifies dst
      ensures dst[..] == Splice(old(dst[..]), at, data[off..off + len])
    {
      for i := 0 to len
        invariant dst[..] == Splice(old(dst[..]), at, data[off..off + i])
      {
        dst[at + i] := data[off + i];
      }
    }

    method CopyIn(off: nat, src: array<byte>, at: nat, len: nat)
      requires src != data && off + len <= data.Length && at + len <= src.Length
      modifies data
      ensures data[..] == Splice(old(data[..]), off, src[at..at + len])
    {
      for i := 0 to len
        invariant data[..] == Splice(old(data[..]), off, src[at..at + i])
        invariant src[..] == old(src[..])
      {
        data[off + i] := src[at + i];
      }
    }

    /** `Read` on a device inside its parents, in terms of the device's own bytes. */
    method ReadInside(lba: nat, dst: array<byte>, at: nat, count: nat)
      requires Valid() && Inside() && data.Length < TWO64
      requires 0 < count && lba + count <= sectorCount
      requires dst != data && at + count * sectorSize <= dst.Length
      modifies dst
      ensures lba * sectorSize + count * sectorSize <= |Contents()|
      ensures dst[..] == Splice(old(dst[..]), at, Contents()[lba * sectorSize..lba * sectorSize + count * sectorSize])
    {
      InsidePasses(lba, count);
      InsideBounds();
      MulMono(lba + count, sectorCount, sectorSize);
      MulAdd(lba, count, sectorSize);
      var rc := Read(lba, dst, at, count);
      SliceSlice(data[..], Start(), sectorCount * sectorSize, lba * sectorSize, count * sectorSize);
    }

    /** `Write` on a device inside its parents cannot fail. */
    method WriteOwn(lba: nat, src: array<byte>, at: nat, count: nat)
      requires Valid() && Inside() && data.Length < TWO64
      requires 0 < count && lba + count <= sectorCount
      requires src != data && at + count * sectorSize <= src.Length
      modifies data
      ensures Start() + lba * sectorSize + count * sectorSize <= data.Length
      ensures data[..] == Splice(old(data[..]), Start() + lba * sectorSize, src[at..at + count * sectorSize])
    {
      InsidePasses(lba, count);
      var rc := Write(lba, src, at, count);
    }

    /** `Write` on a device inside its parents: the device's bytes, and no others, change. */
    method WriteInside(lba: nat, src: array<byte>, at: nat, count: nat)
      requires Valid() && Inside() && data.Length < TWO64
      requires 0 < count && lba + count <= sectorCount
      requires src != data && at + count * sectorSize <= src.Length
      modifies data
      ensures lba * sectorSize + count * sectorSize <= |Contents()|
      ensures Contents() == Splice(old(Contents()), lba * sectorSize, src[..][at..at + count * sectorSize])
      ensures OnlyChanged(old(data[..]), data[..])
    {
      InsideBounds();
      MulMono(lba + count, sectorCount, sectorSize);
      MulAdd(lba, count, sectorSize);
      ghost var was, from, size, pos := data[..], Start(), sectorCount * sectorSize, lba * sectorSize;
      ghost var d := src[..][at..at + count * sectorSize];
      assert d == src[at..at + count * sectorSize];
      WriteOwn(lba, src, at, count);
      SpliceInside(was, data[..], from, size, pos, from + pos, d);
    }
  }
}
