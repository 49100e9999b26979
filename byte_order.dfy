/**
 Network byte order (big-endian) for the unsigned integer widths that the
 USB/IP wire format uses, and the fixed-width, NUL-padded character fields
 of a device record.
 */
module ByteOrder {

  type byte = x: int | 0 <= x < 0x100
  type u16 = x: int | 0 <= x < 0x1_0000
  type u32 = x: int | 0 <= x < 0x1_0000_0000

  /** The two bytes of `x`, most significant first (htons). */
  function EncodeU16(x: u16): (s: seq<byte>)
    ensures |s| == 2
  {
    [x / 0x100, x % 0x100]
  }

  /** The value of two bytes in network order (ntohs). */
  function DecodeU16(s: seq<byte>): u16
    requires |s| == 2
  {
    (s[0] as int) * 0x100 + s[1]
  }

  /** The four bytes of `x`, most significant first (htonl): the high half,
      then the low half, each in network order. */
  function EncodeU32(x: u32): (s: seq<byte>)
    ensures |s| == 4
  {
    EncodeU16(x / 0x1_0000) + EncodeU16(x % 0x1_0000)
  }

  /** The value of four bytes in network order (ntohl). */
  function DecodeU32(s: seq<byte>): u32
    requires |s| == 4
  {
    DecodeU16(s[..2]) * 0x1_0000 + DecodeU16(s[2..])
  }

  lemma DecodeEncodeU16(x: u16)
    ensures DecodeU16(EncodeU16(x)) == x
  {
  }

  lemma EncodeDecodeU16(s: seq<byte>)
    requires |s| == 2
    ensures EncodeU16(DecodeU16(s)) == s
  {
  }

  lemma DecodeEncodeU32(x: u32)
    ensures DecodeU32(EncodeU32(x)) == x
  {
    var s := EncodeU32(x);
    assert s[..2] == EncodeU16(x / 0x1_0000) && s[2..] == EncodeU16(x % 0x1_0000);
    DecodeEncodeU16(x / 0x1_0000);
    DecodeEncodeU16(x % 0x1_0000);
  }

  lemma EncodeDecodeU32(s: seq<byte>)
    requires |s| == 4
    ensures EncodeU32(DecodeU32(s)) == s
  {
    var hi, lo := DecodeU16(s[..2]), DecodeU16(s[2..]);
    var x := DecodeU32(s);
    assert x / 0x1_0000 == hi && x % 0x1_0000 == lo;
    EncodeDecodeU16(s[..2]);
    EncodeDecodeU16(s[2..]);
    assert s == s[..2] + s[2..];
  }

  /** The four bytes are the value's bytes from the most significant down. */
  lemma EncodeU32Bytes(x: u32)
    ensures EncodeU32(x) == [x / 0x100_0000, (x / 0x1_0000) % 0x100, (x / 0x100) % 0x100, x % 0x100]
  {
    var hi, lo := x / 0x1_0000, x % 0x1_0000;
    var h1, h0, l1, l0 := hi / 0x100, hi % 0x100, lo / 0x100, lo % 0x100;
    assert x == h1 * 0x100_0000 + h0 * 0x1_0000 + l1 * 0x100 + l0;
    assert x / 0x100_0000 == h1;
    assert x / 0x100 == h1 * 0x1_0000 + h0 * 0x100 + l1;
  }

  /** A string that fits a NUL-terminated field of `width` bytes: shorter
      than the field, and every character a non-NUL byte. */
  predicate FitsField(s: string, width: nat)
  {
    |s| < width && forall i :: 0 <= i < |s| ==> 0 < s[i] as int < 0x100
  }

  /** The field bytes for `s`: its characters, then NUL padding. */
  function EncodeField(s: string, width: nat): (b: seq<byte>)
    requires FitsField(s, width)
    ensures |b| == width
    ensures forall i :: 0 <= i < |s| ==> b[i] == s[i] as int
    ensures forall i :: |s| <= i < width ==> b[i] == 0
  {
    seq(width, i requires 0 <= i < width => if i < |s| then s[i] as int else 0)
  }

  /** The number of bytes before the first NUL, or |b| when there is none. */
  function NulIndex(b: seq<byte>): (n: nat)
    ensures n <= |b|
    ensures forall i :: 0 <= i < n ==> b[i] != 0
    ensures n < |b| ==> b[n] == 0
  {
    if b == [] || b[0] == 0 then 0 else 1 + NulIndex(b[1..])
  }

  /** The C string held by a field: its characters up to the first NUL. */
  function DecodeField(b: seq<byte>): (s: string)
    ensures |s| == NulIndex(b)
    ensures forall i :: 0 <= i < |s| ==> s[i] as int == b[i]
  {
    seq(NulIndex(b), i requires 0 <= i < NulIndex(b) => b[i] as char)
  }

  lemma DecodeEncodeField(s: string, width: nat)
    requires FitsField(s, width)
    ensures DecodeField(EncodeField(s, width)) == s
  {
    var b := EncodeField(s, width);
    NulIndexOf(b, |s|);
  }

  /** The first NUL of a field is at `k` when the bytes before it are non-NUL
      and the byte at `k` is NUL. */
  lemma {:induction false} NulIndexOf(b: seq<byte>, k: nat)
    requires k < |b| && b[k] == 0
    requires forall i :: 0 <= i < k ==> b[i] != 0
    ensures NulIndex(b) == k
  {
    if k > 0 {
      NulIndexOf(b[1..], k - 1);
    }
  }
}
