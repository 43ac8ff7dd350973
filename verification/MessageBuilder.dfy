/** The length-prefixed frame of both ports: four big-endian bytes, then the body. */
module MessageBuilders {
  import opened ByteStrings

  const U32 := 0x1_0000_0000

  /** The larger of the two read buffers; no slice handed to `Parse` is longer. */
  const MAX_READ := 1024 * 1024

  /** A frame as far as it has been received. */
  datatype Frame = Frame(size: nat, content: Bytes)

  /** What parsing the first read of a frame does. `SliceOutOfRange` is the panic of
      slicing past the end of the read. */
  datatype Parsed = TooShort | SliceOutOfRange | Parsed(frame: Frame)

  function Pack(body: Bytes): Bytes
    requires |body| < U32
  {
    PackAs(|body|, body)
  }

  function PackAs(size: nat, content: Bytes): Bytes
    requires size < U32
  {
    assert Power256(4) == U32;
    BigEndian(size, 4) + content
  }

  function ParseFrame(message: Bytes): (r: Parsed)
    ensures r.Parsed? ==> 4 + |r.frame.content| <= |message|
  {
    if |message| < 4 then TooShort
    else
      var size := FromBigEndian(message[..4]);
      if size >= |message| then Parsed(Frame(size, message[4..]))
      else if size + 4 > |message| then SliceOutOfRange
      else Parsed(Frame(size, message[4..size + 4]))
  }

  /** Exactly how the parser answers a read that begins a frame, however many bytes
      of the frame (and of what follows it) the read holds: a read that stops one to
      three bytes short of the frame's end is the only one it cannot slice. */
  lemma {:induction false} ParseReadOfFrame(body: Bytes, rest: Bytes, read: Bytes)
    requires |body| < U32
    requires read <= Pack(body) + rest
    ensures |read| < 4 <==> ParseFrame(read) == TooShort
    ensures 4 <= |read| && 1 <= |Pack(body)| - |read| <= 3 <==> ParseFrame(read) == SliceOutOfRange
    ensures 4 <= |read| <= |body| ==> ParseFrame(read) == Parsed(Frame(|body|, body[..|read| - 4]))
    ensures 4 + |body| <= |read| ==> ParseFrame(read) == Parsed(Frame(|body|, body))
  {
    assert Power256(4) == U32;
    BigEndianRoundTrip(|body|, 4);
    var packed := Pack(body) + rest;
    if 4 <= |read| {
      assert read[..4] == packed[..4] == BigEndian(|body|, 4);
      if |read| <= |body| {
        assert read[4..] == packed[4..|read|] == body[..|read| - 4];
      } else if 4 + |body| <= |read| {
        assert read[4..4 + |body|] == packed[4..4 + |body|] == body;
      }
    }
  }

  /** The builder and the parser are inverse: a packed message parses back whole. */
  lemma {:induction false} PackThenParse(body: Bytes)
    requires |body| < U32
    ensures ParseFrame(Pack(body)) == Parsed(Frame(|body|, body))
  {
    ParseReadOfFrame(body, [], Pack(body));
  }

  class MessageBuilder {
    var size: nat
    var content: Bytes
    var utf8Content: Option<Bytes>

    constructor (size: nat, content: Bytes)
      ensures this.size == size && this.content == content && utf8Content == None
    {
      this.size, this.content, utf8Content := size, content, None;
    }

    constructor FromBytes(message: Bytes)
      requires |message| < U32
      ensures View() == Frame(|message|, message) && utf8Content == None
    {
      size, content, utf8Content := |message|, message, None;
    }

    ghost function View(): Frame
      reads this
    {
      Frame(size, content)
    }

    static method Parse(message: Bytes) returns (outcome: Parsed, builder: MessageBuilder?)
      requires |message| <= MAX_READ
      ensures outcome == ParseFrame(message)
      ensures builder != null <==> outcome.Parsed?
      ensures builder != null ==> fresh(builder) && builder.View() == outcome.frame && builder.utf8Content == None
    {
      if |message| < 4 {
        return TooShort, null;
      }
      var size := FromBigEndian(message[..4]);
      var content: Bytes;
      if size < |message| {
        if size + 4 > |message| {
          return SliceOutOfRange, null;
        }
        content := message[4..size + 4];
      } else {
        content := message[4..];
      }
      builder := new MessageBuilder(size, content);
      outcome := Parsed(Frame(size, content));
    }

    method Extend(buffer: Bytes)
      modifies this`content
      ensures content == old(content) + buffer
    {
      content := content + buffer;
    }

    predicate Ready()
      reads this
    {
      if utf8Content.Some? then |utf8Content.value| >= size else |content| >= size
    }

    method Clear()
      modifies this`content, this`size
      ensures content == [] && size == 0
    {
      content := [];
      size := 0;
    }

    /** Validates the content once; afterwards the cached text answers. */
    method ContentUtf8() returns (text: Option<Bytes>)
      modifies this`content, this`utf8Content
      ensures text == utf8Content
      ensures old(utf8Content).Some? ==> utf8Content == old(utf8Content) && content == old(content)
      ensures old(utf8Content) == None ==>
                content == [] && utf8Content == if ValidUtf8(old(content)) then Some(old(content)) else None
    {
      if utf8Content == None {
        utf8Content := if ValidUtf8(content) then Some(content) else None;
        content := [];
      }
      text := utf8Content;
    }

    method Packed() returns (message: Bytes)
      requires size < U32
      ensures message == PackAs(size, content)
      ensures size == |content| ==> ParseFrame(message) == Parsed(View())
    {
      assert Power256(4) == U32;
      message := BigEndian(size, 4) + content;
      if size == |content| {
        PackThenParse(content);
      }
    }
  }
}
