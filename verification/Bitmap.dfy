/** The bit maps of `src/kernel/bitmap.c`: a byte array read one bit at a time, and the
    first-fit search for a run of clear bits. */
module Bitmaps {

  /** `BITMAP_MASK << k`. */
  function Mask(k: nat): bv8
    requires k < 8
  {
    if k == 0 then 0x01 else if k == 1 then 0x02 else if k == 2 then 0x04 else if k == 3 then 0x08
    else if k == 4 then 0x10 else if k == 5 then 0x20 else if k == 6 then 0x40 else 0x80
  }

  predicate BitOf(b: bv8, k: nat)
    requires k < 8
  {
    b & Mask(k) != 0
  }

  /** Bit number `i` of a byte sequence, least significant bit of each byte first. */
  predicate BitAt(bytes: seq<bv8>, i: nat)
    requires i < 8 * |bytes|
  {
    BitOf(bytes[i / 8], i % 8)
  }

  /** `contents` are the bits of `bytes`. */
  ghost predicate Represents(contents: seq<bool>, bytes: seq<bv8>) {
    && |contents| == 8 * |bytes|
    && forall i {:trigger BitAt(bytes, i)} :: 0 <= i < |contents| ==> contents[i] == BitAt(bytes, i)
  }

  /** `cnt` clear bits begin at `start`. */
  predicate FreeRun(bits: seq<bool>, start: nat, cnt: nat) {
    start + cnt <= |bits| && forall i :: start <= i < start + cnt ==> !bits[i]
  }

  /** The number of clear bits. */
  ghost function FreeCount(bits: seq<bool>): nat {
    multiset(bits)[false]
  }

  lemma OrMask(b: bv8, j: nat, k: nat)
    requires j < 8 && k < 8
    ensures BitOf(b | Mask(j), k) == (j == k || BitOf(b, k))
  {
  }

  lemma ClearMask(b: bv8, j: nat, k: nat)
    requires j < 8 && k < 8
    ensures BitOf(b & !Mask(j), k) == (j != k && BitOf(b, k))
  {
  }

  /** The byte `b` with bit `k` set or cleared. */
  function WithBit(b: bv8, k: nat, value: bool): bv8
    requires k < 8
  {
    if value then b | Mask(k) else b & !Mask(k)
  }

  lemma SetByte(contents: seq<bool>, bytes: seq<bv8>, bitIdx: nat, value: bool)
    requires Represents(contents, bytes) && bitIdx < |contents|
    ensures Represents(contents[bitIdx := value],
                       bytes[bitIdx / 8 := WithBit(bytes[bitIdx / 8], bitIdx % 8, value)])
  {
    var byte := WithBit(bytes[bitIdx / 8], bitIdx % 8, value);
    forall k | 0 <= k < 8
      ensures BitOf(byte, k) == (if k == bitIdx % 8 then value else BitOf(bytes[bitIdx / 8], k))
    {
      OrMask(bytes[bitIdx / 8], bitIdx % 8, k);
      ClearMask(bytes[bitIdx / 8], bitIdx % 8, k);
    }
    var after := bytes[bitIdx / 8 := byte];
    forall i | 0 <= i < |contents|
      ensures BitAt(after, i) == contents[bitIdx := value][i]
    {
      assert BitAt(bytes, i) == contents[i];
      if i / 8 == bitIdx / 8 {
        assert BitAt(after, i) == BitOf(byte, i % 8);
      }
    }
  }

  class Bitmap {
    const bytesLen: nat
    /** `bytesLen` bytes of the map, followed by the byte that happens to lie behind it in memory:
        the search may read that one. */
    const bits: array<bv8>
    ghost var contents: seq<bool>

    ghost predicate Valid()
      reads this, bits
    {
      && bits.Length == bytesLen + 1
      && 8 * bytesLen < 0x8000_0000
      && |contents| == 8 * bytesLen
      && Represents(contents, bits[..bytesLen])
    }

    constructor (bytesLen: nat, behind: bv8)
      requires 8 * bytesLen < 0x8000_0000
      ensures Valid() && this.bytesLen == bytesLen && fresh(bits)
      ensures contents == seq(8 * bytesLen, i => false)
    {
      this.bytesLen := bytesLen;
      this.bits := new bv8[bytesLen + 1](i => if i == bytesLen then behind else 0);
      this.contents := seq(8 * bytesLen, i => false);
    }

    /** The bytes of the map are read from elsewhere. */
    method Load(bytes: seq<bv8>)
      requires Valid() && |bytes| == bytesLen
      modifies this`contents, bits
      ensures Valid() && bits[..bytesLen] == bytes
    {
      forall k | 0 <= k < bytesLen {
        bits[k] := bytes[k];
      }
      assert bits[..bytesLen] == bytes;
      contents := seq(8 * bytesLen, i requires 0 <= i < 8 * bytesLen => BitAt(bytes, i));
    }

    method ScanTest(bitIdx: nat) returns (r: bool)
      requires Valid() && bitIdx / 8 <= bytesLen
      ensures r == BitOf(bits[bitIdx / 8], bitIdx % 8)
      ensures bitIdx < 8 * bytesLen ==> r == contents[bitIdx]
    {
      if bitIdx < 8 * bytesLen {
        assert contents[bitIdx] == BitAt(bits[..bytesLen], bitIdx);
      }
      r := bits[bitIdx / 8] & Mask(bitIdx % 8) != 0;
    }

    /** First fit. The answer depends on `contents` only, so not on the byte behind the map. */
    method Scan(cnt: nat) returns (r: int)
      requires Valid()
      ensures -1 <= r
      ensures r >= 0 ==> cnt > 0 && FreeRun(contents, r, cnt)
      ensures r >= 0 ==> forall s: nat :: s < r ==> !FreeRun(contents, s, cnt)
      ensures r == -1 ==> cnt == 0 || forall s: nat :: !FreeRun(contents, s, cnt)
    {
      ghost var c := contents;
      var areaStart, areaSize := 0, 0;
      while true
        invariant areaStart <= |c| + 1 && (areaStart == |c| + 1 ==> cnt == 0)
        invariant cnt > 0 ==> forall s: nat :: s < areaStart ==> !FreeRun(c, s, cnt)
        decreases |c| + 2 - areaStart
      {
        var used := ScanTest(areaStart);
        while used && areaStart / 8 < bytesLen
          invariant areaStart <= |c| + 1 && (areaStart == |c| + 1 ==> cnt == 0)
          invariant areaStart < |c| ==> used == c[areaStart]
          invariant cnt > 0 ==> forall s: nat :: s < areaStart ==> !FreeRun(c, s, cnt)
          decreases |c| + 1 - areaStart
        {
          areaStart := areaStart + 1;
          used := ScanTest(areaStart);
        }
        if areaStart / 8 >= bytesLen {
          return -1;
        }
        areaSize := 1;
        while areaSize < cnt
          invariant 1 <= areaSize && areaStart + areaSize <= |c|
          invariant cnt > 0 ==> areaSize <= cnt
          invariant forall i :: areaStart <= i < areaStart + areaSize ==> !c[i]
        {
          if (areaStart + areaSize) / 8 < bytesLen {
            var taken := ScanTest(areaStart + areaSize);
            if !taken {
              areaSize := areaSize + 1;
            } else {
              break;
            }
          } else {
            return -1;
          }
        }
        if areaSize == cnt {
          return areaStart;
        }
        areaStart := areaStart + areaSize + 1;
      }
    }

    method Set(bitIdx: nat, value: bool)
      requires Valid() && bitIdx < |contents|
      modifies this`contents, bits
      ensures Valid() && contents == old(contents)[bitIdx := value]
      ensures bits[bytesLen] == old(bits[bytesLen])
    {
      SetByte(contents, bits[..bytesLen], bitIdx, value);
      ghost var was := bits[..bytesLen];
      bits[bitIdx / 8] := WithBit(bits[bitIdx / 8], bitIdx % 8, value);
      contents := contents[bitIdx := value];
      assert bits[..bytesLen] == was[bitIdx / 8 := bits[bitIdx / 8]];
    }

    /** Scan for one clear bit and set it: `inode_bitmap_alloc` and `block_bitmap_alloc` up to the
        conversion of the bit number. */
    method AllocOne() returns (r: int)
      requires Valid()
      modifies this`contents, bits
      ensures Valid()
      ensures r == -1 || 0 <= r < |contents|
      ensures r == -1 <==> FreeCount(old(contents)) == 0
      ensures r == -1 ==> contents == old(contents)
      ensures r != -1 ==> !old(contents)[r] && contents == old(contents)[r := true]
      ensures r != -1 ==> forall j :: 0 <= j < r ==> old(contents)[j]
    {
      ghost var c := contents;
      r := Scan(1);
      forall j: nat | j < |c| && (r == -1 || j < r)
        ensures c[j]
      {
        assert !FreeRun(contents, j, 1);
      }
      if r != -1 {
        assert false in multiset(c) by { assert c[r] == false; }
        Set(r, true);
      } else {
        assert false !in c;
      }
    }
  }
}
