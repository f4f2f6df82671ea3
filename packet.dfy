/** Outbound framing (`webSocketPacket`): two copies of a little-endian length field, the
    message type 689, the body bytes from `stringToByte`, and a terminating zero byte that
    the zero-initialised buffer already holds. */
module Packet {
  import opened Bytes
  import opened Transcoder

  /** The message type of a client-to-server frame. */
  const MsgType: int := 689

  /** The value of both length fields: the body plus the type field and the five bytes the
      source counts as `4 + 2 + 1 + 1 + 1`. */
  function LengthField(bodyLength: nat): nat {
    bodyLength + 4 + 2 + 1 + 1 + 1
  }

  /** The bytes `webSocketPacket(str)` returns. */
  function Frame(str: JsString): seq<Byte> {
    var body := Encode(str);
    U32Bytes(LengthField(|body|)) + U32Bytes(LengthField(|body|)) + U32Bytes(MsgType) + body + [0]
  }

  /** The type field holds 689 as the little-endian bytes B1 02 00 00. */
  lemma TypeField()
    ensures U32Bytes(MsgType) == [0xB1, 0x02, 0x00, 0x00] && U32Value(U32Bytes(MsgType)) == 689
  {
    U32ValueOfBytes(689);
  }

  /** The frame layout: 13 bytes more than the body; bytes 0-3 and 4-7 both hold the body
      length plus 9 as a little-endian u32 (modulo 2^32, as `Uint32Array` stores it); bytes
      8-11 hold 689 as B1 02 00 00; the body follows in order; the last byte is zero. */
  lemma FrameLayout(str: JsString)
    ensures var f := Frame(str); var n := |Encode(str)|;
      |f| == n + 13 &&
      f[0..4] == f[4..8] &&
      U32Value(f[0..4]) == (n + 9) % 0x1_0000_0000 &&
      f[8..12] == [0xB1, 0x02, 0x00, 0x00] &&
      U32Value(f[8..12]) == 689 &&
      f[12..n + 12] == Encode(str) &&
      f[n + 12] == 0
  {
    var body := Encode(str);
    var n := |body|;
    var len, typ := U32Bytes(LengthField(n)), U32Bytes(MsgType);
    assert Frame(str) == len + len + typ + body + [0];
    FrameParts(len, typ, body);
    assert LengthField(n) == n + 9;
    U32ValueOfBytes(LengthField(n));
    TypeField();
  }

  /** Where the fields of a frame laid out from its parts sit. */
  lemma FrameParts(len: seq<Byte>, typ: seq<Byte>, body: seq<Byte>)
    requires |len| == 4 && |typ| == 4
    ensures var f := len + len + typ + body + [0]; var n := |body|;
      |f| == n + 13 && f[0..4] == len && f[4..8] == len && f[8..12] == typ &&
      f[12..n + 12] == body && f[n + 12] == 0
  {
    var f := len + len + typ + body + [0];
    assert f[0..4] == len;
    assert f[4..8] == len;
    assert f[8..12] == typ;
    assert f[12..|body| + 12] == body;
  }

  /** A sequence with `src` written over it from `offset` on. */
  function Overwrite(s: seq<Byte>, src: seq<Byte>, offset: nat): seq<Byte>
    requires offset + |src| <= |s|
  {
    s[..offset] + src + s[offset + |src|..]
  }

  /** `buffer.set(src, offset)`: copies `src` into the buffer from `offset` on. */
  method SetBytes(buffer: array<Byte>, src: seq<Byte>, offset: nat)
    requires offset + |src| <= buffer.Length
    modifies buffer
    ensures buffer[..] == Overwrite(old(buffer[..]), src, offset)
  {
    for k := 0 to |src|
      invariant buffer[..offset] == old(buffer[..offset])
      invariant buffer[offset..offset + k] == src[..k]
      invariant buffer[offset + k..] == old(buffer[offset + k..])
    {
      buffer[offset + k] := src[k];
      assert buffer[offset..offset + k + 1] == buffer[offset..offset + k] + [src[k]];
    }
    assert buffer[..] == buffer[..offset] + buffer[offset..offset + |src|] + buffer[offset + |src|..];
  }

  /** Writing the two length fields, the type field and the body over a zeroed buffer of the
      frame's size gives the frame. */
  lemma Assembly(zeros: seq<Byte>, len: seq<Byte>, typ: seq<Byte>, body: seq<Byte>)
    requires |len| == 4 && |typ| == 4 && |zeros| == |body| + 13
    requires forall i :: 0 <= i < |zeros| ==> zeros[i] == 0
    ensures Overwrite(Overwrite(Overwrite(Overwrite(zeros, len, 0), len, 4), typ, 8), body, 12)
            == len + len + typ + body + [0]
  {
    var n := |body|;
    var s1 := Overwrite(zeros, len, 0);
    assert s1 == len + zeros[4..];
    var s2 := Overwrite(s1, len, 4);
    assert s2 == len + len + zeros[8..];
    var s3 := Overwrite(s2, typ, 8);
    assert s3 == len + len + typ + zeros[12..];
    var s4 := Overwrite(s3, body, 12);
    assert s4 == len + len + typ + body + zeros[n + 12..];
    assert zeros[n + 12..] == [0];
  }

  /** The body's bytes copied one by one into a new array of their length (`p_content`). */
  method CopyOf(bytes: seq<Byte>) returns (a: array<Byte>)
    ensures fresh(a)
    ensures a[..] == bytes
  {
    a := new Byte[|bytes|](_ => 0);
    for i := 0 to a.Length
      invariant a[..i] == bytes[..i]
    {
      a[i] := bytes[i];
      assert a[..i + 1] == a[..i] + [bytes[i]];
    }
    assert a[..] == a[..|bytes|] && bytes[..|bytes|] == bytes;
  }

  /** `webSocketPacket`: a zeroed buffer of body length plus 13, the body copied into
      `p_content`, then the two length fields, the type field and the body set in place. */
  method WebSocketPacket(str: JsString) returns (buffer: array<Byte>)
    ensures fresh(buffer)
    ensures buffer[..] == Frame(str)
  {
    var bytesArr := StringToByte(str);
    var n := |bytesArr|;
    buffer := new Byte[n + 4 + 4 + 2 + 1 + 1 + 1](_ => 0);
    ghost var zeros := buffer[..];
    var pContent := CopyOf(bytesArr);
    var pLength := U32Bytes(LengthField(n));
    var pType := U32Bytes(MsgType);
    SetBytes(buffer, pLength, 0);
    SetBytes(buffer, pLength, 4);
    SetBytes(buffer, pType, 8);
    SetBytes(buffer, pContent[..], 12);
    Assembly(zeros, pLength, pType, bytesArr);
  }
}
