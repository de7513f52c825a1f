/** Frame flags and frame bodies around an abstract compressor (protocol/compress.go). */
module Bodies {
  import opened Bytes
  import opened Wrappers
  import opened Frames

  const FLAG_COMPRESSED: bv8 := 1
  const FLAG_ENCRYPTED: bv8 := 2
  const FLAG_ONE_WAY: bv8 := 4

  predicate Compressed(flags: byte) { flags % 2 == 1 }

  predicate Encrypted(flags: byte) { flags / 2 % 2 == 1 }

  predicate OneWay(flags: byte) { flags / 4 % 2 == 1 }

  /** The three predicates are the source's bit tests, and `flags % 2` is the masking with FLAG_COMPRESSED. */
  lemma FlagBits(flags: byte)
    ensures Compressed(flags) <==> (flags as bv8) & FLAG_COMPRESSED != 0
    ensures Encrypted(flags) <==> (flags as bv8) & FLAG_ENCRYPTED != 0
    ensures OneWay(flags) <==> (flags as bv8) & FLAG_ONE_WAY != 0
    ensures (flags % 2) as bv8 == (flags as bv8) & FLAG_COMPRESSED
  {
  }

  /** The gzip library: `inflate` gives the whole content of a well-formed archive, `None` otherwise. */
  datatype Gzip = Gzip(compress: seq<byte> -> seq<byte>, inflate: seq<byte> -> Option<seq<byte>>) {
    ghost predicate Lawful() {
      forall data :: inflate(compress(data)) == Some(data)
    }
  }

  datatype BodyError = UnsupportedFlags | BadArchive | InflatedTooLarge

  function DecodeFrameBody(gz: Gzip, f: Frame): Result<seq<byte>, BodyError> {
    if Encrypted(f.flags) then Err(UnsupportedFlags)
    else if !Compressed(f.flags) then Ok(f.body)
    else match gz.inflate(f.body)
      case None => Err(BadArchive)
      case Some(out) => if |out| > MAX_BODY then Err(InflatedTooLarge) else Ok(out)
  }

  function EncodeFrameBody(gz: Gzip, flags: byte, body: seq<byte>): Result<seq<byte>, BodyError> {
    if Encrypted(flags) then Err(UnsupportedFlags)
    else if !Compressed(flags) then Ok(body)
    else Ok(gz.compress(body))
  }

  /**
   A body survives the trip exactly when the flags are supported and, if compressed, it is
   at most 1 MiB long before compression.
   */
  lemma BodyRoundTrip(gz: Gzip, version: byte, flags: byte, body: seq<byte>)
    requires gz.Lawful()
    ensures EncodeFrameBody(gz, flags, body).Ok? <==> !Encrypted(flags)
    ensures var wire := EncodeFrameBody(gz, flags, body);
            wire.Ok? ==> (DecodeFrameBody(gz, Frame(version, flags, wire.value)) == Ok(body)
                          <==> !Compressed(flags) || |body| <= MAX_BODY)
  {
    assert gz.inflate(gz.compress(body)) == Some(body);
  }
}
