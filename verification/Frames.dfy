/** The length-field frame codec (protocol/frame.go). */
module Frames {
  import opened Bytes
  import opened Wrappers
  import opened Sequences

  const FRAME_MAGIC := 0xCAFE
  const FRAME_VERSION := 1
  const HEADER_LEN := 8
  const MAX_BODY := 1024 * 1024

  datatype Frame = Frame(version: byte, flags: byte, body: seq<byte>)

  datatype FrameError = BadMagic(magic: nat) | BadVersion(version: byte) | TooLarge

  /** The three outcomes of `Decode`: "(nil, 0, nil)", an error, or a frame with its length on the wire. */
  datatype Decoded = Incomplete | Invalid(error: FrameError) | Complete(frame: Frame, consumed: nat)

  function Decode(buf: seq<byte>): Decoded {
    if |buf| < HEADER_LEN then Incomplete
    else if FromBigEndian(buf[0..2]) != FRAME_MAGIC then Invalid(BadMagic(FromBigEndian(buf[0..2])))
    else if buf[2] != FRAME_VERSION then Invalid(BadVersion(buf[2]))
    else
      var length := FromBigEndian(buf[4..8]);
      if length > MAX_BODY then Invalid(TooLarge)
      else if |buf| < length + HEADER_LEN then Incomplete
      else Complete(Frame(buf[2], buf[3], buf[HEADER_LEN..length + HEADER_LEN]), length + HEADER_LEN)
  }

  function WireVersion(f: Frame): byte {
    if f.version == 0 then FRAME_VERSION else f.version
  }

  /** The bytes of `f` on the wire, field by field. */
  function Encoding(f: Frame): (wire: seq<byte>)
    ensures |wire| == HEADER_LEN + |f.body|
  {
    BigEndian(FRAME_MAGIC, 2) + [WireVersion(f), f.flags] + BigEndian(|f.body|, 4) + f.body
  }

  /** Fills a fresh buffer in place; `None` stands for the panic on an oversized body. */
  method Encode(f: Frame) returns (wire: Option<seq<byte>>)
    ensures wire == if |f.body| > MAX_BODY then None else Some(Encoding(f))
  {
    var bodyLen := |f.body|;
    if bodyLen > MAX_BODY {
      return None;
    }
    var buf := new byte[HEADER_LEN + bodyLen];
    PutBigEndian(buf, 0, 2, FRAME_MAGIC);
    var version := f.version;
    if version == 0 {
      version := FRAME_VERSION;
    }
    buf[2] := version;
    buf[3] := f.flags;
    assert buf[..4] == BigEndian(FRAME_MAGIC, 2) + [version, f.flags];
    PutBigEndian(buf, 4, 4, bodyLen);
    assert buf[..8] == buf[..4] + buf[4..8];
    ghost var header := buf[..8];
    forall i | 0 <= i < bodyLen {
      buf[HEADER_LEN + i] := f.body[i];
    }
    assert buf[..8] == header;
    assert buf[..] == header + f.body;
    return Some(buf[..]);
  }

  /** The header fields of an encoded frame, as `Decode` reads them back from any longer buffer. */
  lemma EncodedHeader(f: Frame, buf: seq<byte>)
    requires |f.body| <= MAX_BODY
    requires HEADER_LEN <= |buf| && buf[..HEADER_LEN] == Encoding(f)[..HEADER_LEN]
    ensures FromBigEndian(buf[0..2]) == FRAME_MAGIC
    ensures buf[2] == WireVersion(f) && buf[3] == f.flags
    ensures FromBigEndian(buf[4..8]) == |f.body|
  {
    WireCapacities();
    DecodeInteger(FRAME_MAGIC, 2);
    DecodeInteger(|f.body|, 4);
    var header := buf[..HEADER_LEN];
    assert buf[0..2] == header[0..2] == BigEndian(FRAME_MAGIC, 2);
    assert buf[4..8] == header[4..8] == BigEndian(|f.body|, 4);
    assert buf[2] == header[2] && buf[3] == header[3];
  }

  /**
   Decoding what was encoded gives the frame back and consumes exactly its encoding, whatever
   bytes follow; a version other than 0 or 1 is written as it is and refused by the reader.
   */
  lemma DecodeEncoding(f: Frame, rest: seq<byte>)
    requires |f.body| <= MAX_BODY
    ensures Decode(Encoding(f) + rest) ==
            if f.version <= 1 then Complete(f.(version := 1), |Encoding(f)|)
            else Invalid(BadVersion(f.version))
  {
    var wire := Encoding(f);
    var buf := wire + rest;
    assert buf[..HEADER_LEN] == wire[..HEADER_LEN];
    EncodedHeader(f, buf);
    assert buf[HEADER_LEN..HEADER_LEN + |f.body|] == f.body;
  }

  /** Whatever `Decode` accepts re-encodes to exactly the bytes it consumed. */
  lemma EncodeDecoded(buf: seq<byte>)
    requires Decode(buf).Complete?
    ensures var Complete(f, n) := Decode(buf);
            HEADER_LEN <= n <= |buf| && f.version == 1 && |f.body| <= MAX_BODY && Encoding(f) == buf[..n]
  {
    var Complete(f, n) := Decode(buf);
    EncodeInteger(buf[0..2]);
    EncodeInteger(buf[4..8]);
    var head := buf[0..2] + [buf[2], buf[3]] + buf[4..8];
    assert head == buf[..8];
    assert buf[..8] + buf[8..n] == buf[..n];
  }

  /** A frame or an error is final: bytes arriving later never change it. */
  lemma DecodeStable(buf: seq<byte>, more: seq<byte>)
    requires Decode(buf) != Incomplete
    ensures Decode(buf + more) == Decode(buf)
  {
    var all := buf + more;
    assert all[0..2] == buf[0..2] && all[4..8] == buf[4..8];
    if Decode(buf).Complete? {
      var n := Decode(buf).consumed;
      assert all[HEADER_LEN..n] == buf[HEADER_LEN..n];
    }
  }

  /** Prefix-freeness: no strict prefix of a valid encoding decodes to anything. */
  lemma StrictPrefixIncomplete(f: Frame, k: nat)
    requires |f.body| <= MAX_BODY && f.version <= 1
    requires k < |Encoding(f)|
    ensures Decode(Encoding(f)[..k]) == Incomplete
  {
    var part := Encoding(f)[..k];
    if HEADER_LEN <= k {
      assert part[..HEADER_LEN] == Encoding(f)[..HEADER_LEN];
      EncodedHeader(f, part);
    }
  }

  /** Enough zero bytes to complete a frame whose header is valid. */
  function Padding(): seq<byte> {
    seq(HEADER_LEN + MAX_BODY, _ => 0)
  }

  /** An error is reported exactly when a whole header is there and no continuation makes a frame of it. */
  lemma InvalidExactly(buf: seq<byte>)
    ensures Decode(buf).Invalid? <==> |buf| >= HEADER_LEN && forall more :: !Decode(buf + more).Complete?
  {
    if Decode(buf).Invalid? {
      forall more
        ensures !Decode(buf + more).Complete?
      {
        DecodeStable(buf, more);
      }
    } else if |buf| >= HEADER_LEN {
      var all := buf + Padding();
      assert all[0..2] == buf[0..2] && all[4..8] == buf[4..8];
      assert Decode(all).Complete?;
    }
  }

  /** A frame a reader accepts, and the bytes are a strict prefix of it. */
  ghost predicate StartOfFrame(buf: seq<byte>, f: Frame) {
    f.version == 1 && |f.body| <= 1_048_576 && buf < Encoding(f)
  }

  /** The bytes start with such a frame. */
  ghost predicate StartsWithFrame(buf: seq<byte>, f: Frame) {
    f.version == 1 && |f.body| <= 1_048_576 && Encoding(f) <= buf
  }

  /** More bytes are awaited exactly while the header is not complete, or for a strict prefix of some frame. */
  lemma IncompleteExactly(buf: seq<byte>)
    ensures Decode(buf) == Incomplete <==> |buf| < 8 || exists f :: StartOfFrame(buf, f)
  {
    if Decode(buf) == Incomplete && |buf| >= 8 {
      var all := buf + Padding();
      assert all[0..2] == buf[0..2] && all[4..8] == buf[4..8];
      EncodeDecoded(all);
      assert StartOfFrame(buf, Decode(all).frame);
    }
    if f :| StartOfFrame(buf, f) {
      StrictPrefixIncomplete(f, |buf|);
      assert Encoding(f)[..|buf|] == buf;
    }
  }

  /** A frame is decoded exactly if the bytes start with it. */
  lemma CompleteExactly(buf: seq<byte>, f: Frame)
    ensures Decode(buf) == Complete(f, HEADER_LEN + |f.body|) <==> StartsWithFrame(buf, f)
    ensures Decode(buf).Complete? && Decode(buf).frame == f ==> Decode(buf).consumed == HEADER_LEN + |f.body|
  {
    if StartsWithFrame(buf, f) {
      DecodeEncoding(f, buf[|Encoding(f)|..]);
      assert Encoding(f) + buf[|Encoding(f)|..] == buf;
    }
    if Decode(buf).Complete? {
      EncodeDecoded(buf);
    }
  }

  /** Two or four bytes, most significant first. */
  lemma BigEndianBytes(s: seq<byte>)
    ensures |s| == 2 ==> FromBigEndian(s) == s[0] as int * 0x100 + s[1]
    ensures |s| == 4 ==>
              FromBigEndian(s) == s[0] as int * 0x100_0000 + s[1] as int * 0x1_0000 + s[2] as int * 0x100 + s[3]
  {
    if |s| == 2 {
      assert s == [s[0], s[1]] && s[..1] == [s[0]] && s[..1][..0] == [];
      assert FromBigEndian(s[..1]) == s[0];
    } else if |s| == 4 {
      assert s[..3][..2] == s[..2] && s[..2][..1] == s[..1] && s[..1][..0] == [];
      assert FromBigEndian(s[..1]) == s[0];
      assert FromBigEndian(s[..2]) == s[0] as int * 0x100 + s[1];
      assert FromBigEndian(s[..3]) == s[0] as int * 0x1_0000 + s[1] as int * 0x100 + s[2];
    }
  }

  /** Decoding byte by byte: the magic CA FE, version 1, the flags, and a length of at most 1 MiB. */
  lemma DecodeBytes(buf: seq<byte>)
    requires |buf| >= 8
    ensures var length := buf[4] as int * 0x100_0000 + buf[5] as int * 0x1_0000 + buf[6] as int * 0x100 + buf[7];
            Decode(buf) ==
            if buf[0] != 0xCA || buf[1] != 0xFE then Invalid(BadMagic(buf[0] as int * 0x100 + buf[1]))
            else if buf[2] != 1 then Invalid(BadVersion(buf[2]))
            else if length > 1_048_576 then Invalid(TooLarge)
            else if |buf| < 8 + length then Incomplete
            else Complete(Frame(1, buf[3], buf[8..8 + length]), 8 + length)
  {
    BigEndianBytes(buf[0..2]);
    BigEndianBytes(buf[4..8]);
  }

  /** Bytes a buffer that starts with a valid header announces; 0 while the header is not complete. */
  function Announced(buf: seq<byte>): nat {
    if |buf| < HEADER_LEN then 0 else FromBigEndian(buf[4..8]) + HEADER_LEN
  }

  // ----- whole streams -----

  function EncodeAll(frames: seq<Frame>): seq<byte> {
    if frames == [] then [] else Encoding(frames[0]) + EncodeAll(frames[1..])
  }

  datatype Parsed = Parsed(frames: seq<Frame>, rest: seq<byte>, error: Option<FrameError>)

  /** Every complete frame at the front of `buf`, the bytes left over, and the error that stopped the parse. */
  function ParseAll(buf: seq<byte>): Parsed
    decreases |buf|
  {
    match Decode(buf)
    case Incomplete => Parsed([], buf, None)
    case Invalid(e) => Parsed([], buf, Some(e))
    case Complete(f, n) =>
      EncodeDecoded(buf);
      var tail := ParseAll(buf[n..]);
      tail.(frames := [f] + tail.frames)
  }

  ghost predicate Sendable(frames: seq<Frame>) {
    forall i :: 0 <= i < |frames| ==> frames[i].version == 1 && |frames[i].body| <= MAX_BODY
  }

  lemma ParseEncoding(f: Frame, rest: seq<byte>)
    requires f.version == 1 && |f.body| <= MAX_BODY
    ensures ParseAll(Encoding(f) + rest) == ParseAll(rest).(frames := [f] + ParseAll(rest).frames)
  {
    DecodeEncoding(f, rest);
    assert (Encoding(f) + rest)[|Encoding(f)|..] == rest;
  }

  /** A concatenation of encodings parses back to the same list; what follows it is parsed on its own. */
  lemma {:induction false} ParseEncodings(frames: seq<Frame>, tail: seq<byte>)
    requires Sendable(frames)
    ensures ParseAll(EncodeAll(frames) + tail) == ParseAll(tail).(frames := frames + ParseAll(tail).frames)
    decreases |frames|
  {
    if frames == [] {
      assert EncodeAll(frames) + tail == tail;
      assert frames + ParseAll(tail).frames == ParseAll(tail).frames;
    } else {
      var rest := EncodeAll(frames[1..]) + tail;
      assert EncodeAll(frames) + tail == Encoding(frames[0]) + rest;
      ParseEncodings(frames[1..], tail);
      ParseEncoding(frames[0], rest);
      ConsAppend(frames, ParseAll(tail).frames);
    }
  }

  lemma SendableCons(f: Frame, frames: seq<Frame>)
    requires f.version == 1 && |f.body| <= MAX_BODY && Sendable(frames)
    ensures Sendable([f] + frames) && EncodeAll([f] + frames) == Encoding(f) + EncodeAll(frames)
  {
    assert ([f] + frames)[1..] == frames;
  }

  /** Parsing loses nothing: the frames re-encode to everything before the leftover. */
  lemma {:induction false} ParseLossless(buf: seq<byte>)
    ensures var p := ParseAll(buf); Sendable(p.frames) && EncodeAll(p.frames) + p.rest == buf
    decreases |buf|
  {
    if Decode(buf).Complete? {
      var Complete(f, n) := Decode(buf);
      EncodeDecoded(buf);
      ParseLossless(buf[n..]);
      var tail := ParseAll(buf[n..]);
      SendableCons(f, tail.frames);
      Reassemble(buf, n, Encoding(f), EncodeAll(tail.frames), tail.rest);
    } else {
      assert EncodeAll([]) + buf == buf;
    }
  }

  /** Bytes that arrive later only add frames at the end. */
  lemma {:induction false} ParseAppend(buf: seq<byte>, more: seq<byte>)
    ensures var p, all := ParseAll(buf), ParseAll(buf + more);
            if p.error.Some? then all.frames == p.frames && all.error == p.error
            else all == ParseAll(p.rest + more).(frames := p.frames + ParseAll(p.rest + more).frames)
    decreases |buf|
  {
    if Decode(buf) != Incomplete {
      DecodeStable(buf, more);
    }
    if Decode(buf).Complete? {
      var Complete(f, n) := Decode(buf);
      EncodeDecoded(buf);
      assert (buf + more)[n..] == buf[n..] + more;
      ParseAppend(buf[n..], more);
      var p := ParseAll(buf[n..]);
      AppendAssoc([f], p.frames, ParseAll(p.rest + more).frames);
    } else if Decode(buf) == Incomplete {
      assert [] + ParseAll(buf + more).frames == ParseAll(buf + more).frames;
    }
  }
}
