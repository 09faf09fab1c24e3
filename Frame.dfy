/** The shutdown channel's message framing: a two-byte big-endian length
    (at most 65535) followed by that many payload bytes, written and read on
    a byte stream. */
module Frame {
  import opened Wrappers
  import opened Utf16

  /** `UInt16.MaxValue`, the largest length the prefix can carry. */
  const MaxLength: nat := 0xFFFF

  /** The length the sender announces: the payload length, capped. */
  function FrameLength(payload: seq<Byte>): (len: nat)
    ensures len <= MaxLength && len <= |payload|
    ensures len == |payload| || (|payload| > MaxLength && len == MaxLength)
  {
    if |payload| > MaxLength then MaxLength else |payload|
  }

  /** The bytes the sender writes for `payload`. */
  function EncodeFrame(payload: seq<Byte>): seq<Byte>
  {
    var len := FrameLength(payload);
    [len / 0x100, len % 0x100] + payload[..len]
  }

  /** `Stream.ReadByte`: the byte at `pos`, or -1 past the end. */
  function ReadByteAt(stream: seq<Byte>, pos: nat): (b: int)
    ensures -1 <= b < 0x100
  {
    if pos < |stream| then stream[pos] else -1
  }

  function Zeros(n: nat): seq<Byte>
  {
    seq(n, _ => 0)
  }

  /** What the listener makes of the stream: `len` from the first two
      `ReadByte` results; a negative `len` (an empty stream, or a single
      zero byte; see `ReadFrameFaults`) makes the buffer allocation fault, which is `None`. Otherwise
      the payload is the `len`-byte buffer, zero-initialised, with as many of
      the following bytes copied in as the stream still holds. */
  function ReadFrame(stream: seq<Byte>): (r: Option<seq<Byte>>)
    ensures r.Some? ==> |r.value| == ReadByteAt(stream, 0) * 0x100 + ReadByteAt(stream, 1)
  {
    var len := ReadByteAt(stream, 0) * 0x100 + ReadByteAt(stream, 1);
    if len < 0 then None
    else
      var start := if |stream| < 2 then |stream| else 2;
      var stop := if start + len < |stream| then start + len else |stream|;
      var got := stream[start..stop];
      Some(got + Zeros(len - |got|))
  }

  /** `ReadFrame` in the terms of the listener's steps: the length from the
      first two bytes, then as many of the remaining bytes as it asks for,
      zero-filled. */
  lemma ReadFrameParts(input: seq<Byte>)
    ensures var len := ReadByteAt(input, 0) * 0x100 + ReadByteAt(input, 1);
      var body := if |input| < 2 then [] else input[2..];
      var n := if len < |body| then len else |body|;
      len >= 0 ==> ReadFrame(input) == Some(body[..n] + Zeros(len - n))
  {
    var len := ReadByteAt(input, 0) * 0x100 + ReadByteAt(input, 1);
    if len >= 0 {
      if |input| < 2 {
        assert input[|input|..|input|] == [];
      } else {
        var body := input[2..];
        var n := if len < |body| then len else |body|;
        assert input[2..2 + n] == body[..n];
      }
    }
  }

  /** The listener faults only when the announced length is negative: on an
      empty stream, or one holding a single zero byte. A single non-zero
      byte `b` announces `256 * b - 1` bytes, all read as zeros. */
  lemma ReadFrameFaults(stream: seq<Byte>)
    ensures ReadFrame(stream).None? <==> stream == [] || stream == [0]
    ensures |stream| == 1 && stream[0] != 0 ==> ReadFrame(stream) == Some(Zeros(0x100 * stream[0] as int - 1))
  {
    if |stream| == 1 && stream[0] != 0 {
      var len := 0x100 * stream[0] as int - 1;
      assert stream[1..1] == [];
      assert [] + Zeros(len) == Zeros(len);
    }
  }

  /** The header carries the capped length big-endian, and the rest of the
      frame is exactly that many leading payload bytes; a payload longer
      than 65535 bytes is cut to its first 65535. */
  lemma FrameLayout(payload: seq<Byte>)
    ensures var f := EncodeFrame(payload);
      && |f| == 2 + FrameLength(payload)
      && f[0] as int * 0x100 + f[1] as int == FrameLength(payload)
      && f[2..] == payload[..FrameLength(payload)]
      && (|payload| > MaxLength ==> f[0] == 0xFF && f[1] == 0xFF && f[2..] == payload[..MaxLength])
  {
  }

  /** The listener recovers the sender's length and payload, whatever
      follows the frame on the stream. */
  lemma FrameRoundTrip(payload: seq<Byte>, rest: seq<Byte>)
    ensures ReadFrame(EncodeFrame(payload) + rest) == Some(payload[..FrameLength(payload)])
  {
    var f := EncodeFrame(payload);
    var len := FrameLength(payload);
    var stream := f + rest;
    assert stream[0] == f[0] && stream[1] == f[1];
    assert ReadByteAt(stream, 0) * 0x100 + ReadByteAt(stream, 1) == len;
    assert stream[2..2 + len] == payload[..len];
    assert payload[..len] + Zeros(0) == payload[..len];
  }

  /** A stream holding less than the announced payload reads as if padded
      with zero bytes. */
  lemma ShortFrameZeroFilled(len: nat, partial: seq<Byte>)
    requires len <= MaxLength && |partial| <= len
    ensures ReadFrame([len / 0x100, len % 0x100] + partial) == Some(partial + Zeros(len - |partial|))
  {
    var stream := [len / 0x100, len % 0x100] + partial;
    assert stream[2..] == partial;
    assert stream[2..|stream|] == partial;
  }

  /** An in-memory byte stream: the bytes written so far and a read
      position. The pipe transport beneath it is not modelled. */
  class ByteStream {
    var data: seq<Byte>
    var position: nat

    ghost predicate Valid()
      reads this
    {
      position <= |data|
    }

    /** The bytes not yet read. */
    function Unread(): seq<Byte>
      reads this
      requires Valid()
    {
      data[position..]
    }

    constructor(data: seq<Byte>)
      ensures Valid() && this.data == data && position == 0
    {
      this.data := data;
      position := 0;
    }

    method WriteByte(b: Byte)
      modifies this`data
      ensures data == old(data) + [b]
    {
      data := data + [b];
    }

    /** `Stream.Write(buffer, offset, count)`. */
    method Write(buffer: seq<Byte>, offset: nat, count: nat)
      requires offset + count <= |buffer|
      modifies this`data
      ensures data == old(data) + buffer[offset..offset + count]
    {
      data := data + buffer[offset..offset + count];
    }

    method ReadByte() returns (b: int)
      requires Valid()
      modifies this`position
      ensures Valid()
      ensures b == ReadByteAt(old(Unread()), 0)
      ensures Unread() == if old(Unread()) == [] then [] else old(Unread())[1..]
    {
      if position < |data| {
        b := data[position];
        position := position + 1;
      } else {
        b := -1;
      }
    }

    /** `Stream.Read(buffer, offset, count)` on an ideal stream: copies as
        many of the next `count` bytes as remain, returning how many. */
    method Read(buffer: array<Byte>, offset: nat, count: nat) returns (n: nat)
      requires Valid() && offset + count <= buffer.Length
      modifies this`position, buffer
      ensures Valid()
      ensures n == if count < |old(Unread())| then count else |old(Unread())|
      ensures buffer[..] == old(buffer[..offset]) + old(Unread())[..n] + old(buffer[offset + n..])
      ensures Unread() == old(Unread())[n..]
    {
      n := if count < |data| - position then count else |data| - position;
      forall k | offset <= k < offset + n {
        buffer[k] := data[position + k - offset];
      }
      position := position + n;
    }
  }

  /** Writes `outBuffer` as one frame: the capped length, high byte then low
      byte, then that many bytes of the buffer. */
  method SendFrame(stream: ByteStream, outBuffer: seq<Byte>)
    modifies stream`data
    ensures stream.data == old(stream.data) + EncodeFrame(outBuffer)
  {
    var len := |outBuffer|;
    if len > MaxLength {
      len := MaxLength;
    }
    stream.WriteByte(len / 0x100);
    stream.WriteByte(len % 0x100);  // `len & 255`, the same for 0 <= len
    stream.Write(outBuffer, 0, len);
  }

  /** Reads one frame: two `ReadByte` calls, a zeroed buffer of the
      announced length (its allocation faults when the length is negative),
      and one `Read` into it. */
  method ReceiveFrame(stream: ByteStream) returns (r: Option<seq<Byte>>)
    requires stream.Valid()
    modifies stream`position
    ensures stream.Valid()
    ensures r == ReadFrame(old(stream.Unread()))
  {
    ghost var input := stream.Unread();
    var b0 := stream.ReadByte();
    var b1 := stream.ReadByte();
    var len := b0 * 0x100 + b1;
    if len < 0 {
      return None;
    }
    var inBuffer := new Byte[len](_ => 0);
    assert inBuffer[..] == Zeros(len);
    ghost var body := stream.Unread();
    assert body == if |input| < 2 then [] else input[2..];
    var n := stream.Read(inBuffer, 0, len);
    assert inBuffer[..] == body[..n] + Zeros(len - n);
    ReadFrameParts(input);
    r := Some(inBuffer[..]);
  }
}
