/** Machine-level values shared by the codec: bytes, UTF-16 code units, and the
    little-endian unsigned 32-bit layout that `Uint32Array` gives on every browser. */
module Bytes {

  /** An element of a `Uint8Array`. */
  type Byte = x: int | 0 <= x < 0x100

  /** One UTF-16 code unit, what `charCodeAt` returns and `String.fromCharCode` takes. */
  type CodeUnit = x: int | 0 <= x < 0x1_0000

  /** A JavaScript string: a sequence of UTF-16 code units (lone surrogates allowed). */
  type JsString = seq<CodeUnit>

  /** The code units of a string literal of printable ASCII characters: each character is one
      unit of the same value, neither NUL nor above 0x7F. */
  function Ascii(s: string): (r: JsString)
    requires forall i :: 0 <= i < |s| ==> 0 < s[i] as int < 0x80
    ensures |r| == |s| && forall i :: 0 <= i < |s| ==> r[i] == s[i] as int && 0 < r[i] < 0x80
  {
    seq(|s|, i requires 0 <= i < |s| => s[i] as int)
  }

  /** The four bytes a one-element `Uint32Array` holding `v` exposes through its buffer:
      `v` is first reduced modulo 2^32 (ToUint32), then laid out least-significant byte first. */
  function U32Bytes(v: int): (r: seq<Byte>)
    ensures |r| == 4
  {
    var w := v % 0x1_0000_0000;
    [w % 0x100, w / 0x100 % 0x100, w / 0x1_0000 % 0x100, w / 0x100_0000 % 0x100]
  }

  /** The unsigned value of four bytes read little-endian. */
  function U32Value(b: seq<Byte>): (r: int)
    requires |b| == 4
    ensures 0 <= r < 0x1_0000_0000
  {
    b[0] as int + 0x100 * (b[1] as int + 0x100 * (b[2] as int + 0x100 * b[3] as int))
  }

  /** Reading back the bytes of a stored value gives the value modulo 2^32. */
  lemma U32ValueOfBytes(v: int)
    ensures U32Value(U32Bytes(v)) == v % 0x1_0000_0000
  {
    var w := v % 0x1_0000_0000;
    var q1 := w / 0x100;
    var q2 := q1 / 0x100;
    var q3 := q2 / 0x100;
    assert w / 0x1_0000 == q2;
    assert w / 0x100_0000 == q3;
    assert q3 < 0x100;
  }

  /** Storing the value of four bytes lays out the same four bytes. */
  lemma U32BytesOfValue(b: seq<Byte>)
    requires |b| == 4
    ensures U32Bytes(U32Value(b)) == b
  {
    var w := U32Value(b);
    assert w % 0x1_0000_0000 == w;
    assert w / 0x100 == b[1] as int + 0x100 * (b[2] as int + 0x100 * b[3] as int);
    assert w / 0x1_0000 == b[2] as int + 0x100 * b[3] as int;
    assert w / 0x100_0000 == b[3];
  }
}

/** The optional value of the source's `T | null` results. */
module Wrappers {
  datatype Option<T> = None | Some(value: T)
}
