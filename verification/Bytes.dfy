/**
 Bytes, fixed-width unsigned integers and the big-endian encoding both wire
 formats are built from.
 */
module Bytes {
  type byte = x: int | 0 <= x < 0x100
  type uint16 = x: int | 0 <= x < 0x1_0000
  type uint64 = x: int | 0 <= x < 0x1_0000_0000_0000_0000

  /** Number of values that fit in `width` bytes. */
  function Capacity(width: nat): (n: nat)
    ensures n > 0
  {
    if width == 0 then 1 else Capacity(width - 1) * 256
  }

  lemma WireCapacities()
    ensures Capacity(2) == 0x1_0000
    ensures Capacity(4) == 0x1_0000_0000
    ensures Capacity(8) == 0x1_0000_0000_0000_0000
  {
    assert Capacity(1) == 256;
    assert Capacity(3) == 0x100_0000;
    assert Capacity(5) == 0x100_0000_0000;
    assert Capacity(6) == 0x1_0000_0000_0000;
    assert Capacity(7) == 0x100_0000_0000_0000;
  }

  /** The low `width` bytes of `n`, most significant first. */
  function BigEndian(n: nat, width: nat): (s: seq<byte>)
    ensures |s| == width
    decreases width
  {
    if width == 0 then [] else BigEndian(n / 256, width - 1) + [n % 256]
  }

  lemma BigEndianNext(n: nat, width: nat, last: byte)
    ensures BigEndian(n * 256 + last, width + 1) == BigEndian(n, width) + [last]
  {
  }

  function FromBigEndian(s: seq<byte>): (n: nat)
    decreases |s|
  {
    if s == [] then 0 else FromBigEndian(s[..|s| - 1]) * 256 + s[|s| - 1]
  }

  lemma {:induction false} FromBigEndianBound(s: seq<byte>)
    ensures FromBigEndian(s) < Capacity(|s|)
    decreases |s|
  {
    if s != [] {
      FromBigEndianBound(s[..|s| - 1]);
    }
  }

  lemma {:induction false} DecodeInteger(n: nat, width: nat)
    requires n < Capacity(width)
    ensures FromBigEndian(BigEndian(n, width)) == n
    decreases width
  {
    if width > 0 {
      DecodeInteger(n / 256, width - 1);
      var s := BigEndian(n, width);
      assert s[..|s| - 1] == BigEndian(n / 256, width - 1);
    }
  }

  lemma {:induction false} EncodeInteger(s: seq<byte>)
    ensures BigEndian(FromBigEndian(s), |s|) == s
    decreases |s|
  {
    if s != [] {
      var front, last := s[..|s| - 1], s[|s| - 1];
      EncodeInteger(front);
      BigEndianNext(FromBigEndian(front), |front|, last);
      assert s == front + [last];
    }
  }

  /** Stores `n` in `buf[at..at + width]`, big-endian; the rest of the buffer keeps its content. */
  method PutBigEndian(buf: array<byte>, at: nat, width: nat, n: nat)
    requires at + width <= buf.Length
    modifies buf
    ensures buf[at..at + width] == BigEndian(n, width)
    ensures buf[..at] == old(buf[..at]) && buf[at + width..] == old(buf[at + width..])
  {
    var i, rest := width, n;
    while i > 0
      invariant 0 <= i <= width && rest >= 0
      invariant BigEndian(rest, i) + buf[at + i..at + width] == BigEndian(n, width)
      invariant buf[..at] == old(buf[..at]) && buf[at + width..] == old(buf[at + width..])
    {
      ghost var tail := buf[at + i..at + width];
      i := i - 1;
      buf[at + i] := rest % 256;
      assert buf[at + i..at + width] == [rest % 256] + tail;
      assert BigEndian(rest, i + 1) + tail == BigEndian(rest / 256, i) + ([rest % 256] + tail);
      rest := rest / 256;
    }
  }
}
