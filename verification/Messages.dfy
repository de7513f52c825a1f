/** The message codec: command, request ID and payload (protocol/message.go). */
module Messages {
  import opened Bytes
  import opened Wrappers

  const MESSAGE_HEADER_LEN := 10

  datatype Message = Message(command: uint16, requestId: uint64, payload: seq<byte>)

  /** The bytes of `m`, field by field. */
  function MessageBytes(m: Message): (wire: seq<byte>)
    ensures |wire| == MESSAGE_HEADER_LEN + |m.payload|
  {
    BigEndian(m.command, 2) + BigEndian(m.requestId, 8) + m.payload
  }

  method EncodeMessage(m: Message) returns (wire: seq<byte>)
    ensures wire == MessageBytes(m)
  {
    var buf := new byte[MESSAGE_HEADER_LEN + |m.payload|];
    PutBigEndian(buf, 0, 2, m.command);
    PutBigEndian(buf, 2, 8, m.requestId);
    assert buf[..10] == buf[..2] + buf[2..10];
    ghost var header := buf[..10];
    forall i | 0 <= i < |m.payload| {
      buf[10 + i] := m.payload[i];
    }
    assert buf[..10] == header;
    assert buf[..] == header + m.payload;
    return buf[..];
  }

  /** `None` is the "message too short" error. */
  function DecodeMessage(data: seq<byte>): Option<Message> {
    if |data| < MESSAGE_HEADER_LEN then None
    else
      WireCapacities();
      FromBigEndianBound(data[0..2]);
      FromBigEndianBound(data[2..10]);
      Some(Message(FromBigEndian(data[0..2]), FromBigEndian(data[2..10]), data[10..]))
  }

  lemma DecodeMessageBytes(m: Message)
    ensures DecodeMessage(MessageBytes(m)) == Some(m)
  {
    WireCapacities();
    DecodeInteger(m.command, 2);
    DecodeInteger(m.requestId, 8);
    var wire := MessageBytes(m);
    assert wire[0..2] == BigEndian(m.command, 2);
    assert wire[2..10] == BigEndian(m.requestId, 8);
    assert wire[10..] == m.payload;
  }

  lemma EncodeDecodedMessage(data: seq<byte>)
    ensures DecodeMessage(data).Some? <==> |data| >= MESSAGE_HEADER_LEN
    ensures DecodeMessage(data).Some? ==> MessageBytes(DecodeMessage(data).value) == data
  {
    if |data| >= MESSAGE_HEADER_LEN {
      EncodeInteger(data[0..2]);
      EncodeInteger(data[2..10]);
      assert data == data[0..2] + data[2..10] + data[10..];
    }
  }

  /** The layout in bytes: command, request ID, payload, most significant byte first. */
  lemma MessageLayout(payload: seq<byte>)
    ensures MessageBytes(Message(0x0102, 0x0304_0506_0708_090A, payload)) == [1, 2, 3, 4, 5, 6, 7, 8, 9, 10] + payload
  {
    BigEndianNext(0, 0, 1);
    BigEndianNext(1, 1, 2);
    LayoutOfId();
    assert BigEndian(0, 0) == [];
  }

  lemma LayoutOfId()
    ensures BigEndian(0x0304_0506_0708_090A, 8) == [3, 4, 5, 6, 7, 8, 9, 10]
  {
    BigEndianNext(0, 0, 3);
    BigEndianNext(0x03, 1, 4);
    BigEndianNext(0x0304, 2, 5);
    BigEndianNext(0x03_0405, 3, 6);
    BigEndianNext(0x0304_0506, 4, 7);
    BigEndianNext(0x03_0405_0607, 5, 8);
    BigEndianNext(0x0304_0506_0708, 6, 9);
    BigEndianNext(0x03_0405_0607_0809, 7, 10);
  }
}
