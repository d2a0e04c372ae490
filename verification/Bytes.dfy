/** Bytes, sectors and little-endian 32-bit words: the memory format of the structures that
    `src/fs/` copies to and from the disk. */
module Bytes {

  type byte = x: nat | x < 0x100
  type u32 = x: nat | x < 0x1_0000_0000
  type u64 = x: nat | x < 0x1_0000_0000_0000_0000

  type Sector = s: seq<byte> | |s| == 512 witness seq(512, _ => 0)

  function ZeroBytes(n: nat): (z: seq<byte>)
    ensures |z| == n && forall i :: 0 <= i < n ==> z[i] == 0
  {
    seq(n, _ => 0)
  }

  const ZERO_SECTOR: Sector := ZeroBytes(512)

  function Zeros(n: nat): (z: seq<u32>)
    ensures |z| == n && forall i :: 0 <= i < n ==> z[i] == 0
  {
    ZeroBytes(n)
  }

  /** The word at byte offset `off`. */
  function WordAt(s: seq<byte>, off: nat): u32
    requires off + 4 <= |s|
  {
    s[off] as nat + 0x100 * (s[off + 1] as nat) + 0x1_0000 * (s[off + 2] as nat) + 0x100_0000 * (s[off + 3] as nat)
  }

  function Words(s: seq<byte>): (ws: seq<u32>)
    ensures |ws| == |s| / 4
  {
    if |s| < 4 then [] else [WordAt(s, 0)] + Words(s[4..])
  }

  function WordBytes(w: u32): (s: seq<byte>)
    ensures |s| == 4
  {
    [w % 0x100, w / 0x100 % 0x100, w / 0x1_0000 % 0x100, w / 0x100_0000]
  }

  function BytesOf(ws: seq<u32>): (s: seq<byte>)
    ensures |s| == 4 * |ws|
  {
    if ws == [] then [] else WordBytes(ws[0]) + BytesOf(ws[1..])
  }

  lemma WordOfBytes(w: u32)
    ensures WordAt(WordBytes(w), 0) == w
  {
    assert w / 0x1_0000 == w / 0x100 / 0x100;
    assert w / 0x100_0000 == w / 0x100 / 0x100 / 0x100;
  }

  /** Storing words and loading them again gives the same words. */
  lemma {:induction false} WordsOfBytes(ws: seq<u32>)
    ensures Words(BytesOf(ws)) == ws
  {
    if ws != [] {
      var head, rest := WordBytes(ws[0]), BytesOf(ws[1..]);
      assert (head + rest)[4..] == rest;
      assert WordAt(head + rest, 0) == WordAt(head, 0);
      WordOfBytes(ws[0]);
      WordsOfBytes(ws[1..]);
    }
  }

  /** The same when other bytes follow. */
  lemma {:induction false} WordsBefore(ws: seq<u32>, pad: seq<byte>, i: nat)
    requires i < |ws|
    ensures Words(BytesOf(ws) + pad)[i] == ws[i]
  {
    WordsAt(BytesOf(ws) + pad, i);
    WordsAt(BytesOf(ws), i);
    WordsOfBytes(ws);
  }

  lemma {:induction false} WordsAt(s: seq<byte>, i: nat)
    requires i < |s| / 4
    ensures Words(s)[i] == WordAt(s, 4 * i)
  {
    if i > 0 {
      WordsAt(s[4..], i - 1);
    }
  }

  /** Two neighbouring sectors in one buffer. */
  function Join(a: Sector, b: Sector): (r: seq<byte>)
    ensures |r| == 1024
    ensures forall i :: 0 <= i < 1024 ==> r[i] == if i < 512 then a[i] else b[i - 512]
  {
    var (x: seq<byte>, y: seq<byte>) := (a, b);
    x + y
  }

  /** A 64-bit value from its two words. */
  function Wide(lo: u32, hi: u32): (r: u64) {
    lo as nat + 0x1_0000_0000 * (hi as nat)
  }

  /** `memcpy(buf + off, src, |src|)`. */
  function Splice<T>(buf: seq<T>, off: nat, src: seq<T>): (r: seq<T>)
    requires off + |src| <= |buf|
    ensures |r| == |buf|
    ensures forall i :: 0 <= i < |buf| ==> r[i] == if off <= i < off + |src| then src[i - off] else buf[i]
  {
    buf[..off] + src + buf[off + |src|..]
  }
}
