/** The hand-written text transcoder of the danmaku client: `stringToByte` turns the UTF-16
    code units of a string into bytes with the bit layout of UTF-8 (section 3 of RFC 3629),
    and `byteToString` turns bytes back into code units by reading the bits of each byte's
    binary numeral. */
module Transcoder {
  import opened Bytes
  import opened Wrappers

  // ---------------------------------------------------------------------------------------
  // stringToByte
  // ---------------------------------------------------------------------------------------

  /** The bytes one code unit becomes. The four-byte branch of the source is for values of
      0x10000 and more, which a code unit never reaches, so it is absent here. Bit `|` on
      disjoint bits is written `+`, `>>` and `&` as division and remainder. */
  function EncodeUnit(c: CodeUnit): (r: seq<Byte>)
    ensures 1 <= |r| <= 3
  {
    if 0x800 <= c then
      [c / 0x1000 % 0x10 + 0xE0, c / 0x40 % 0x40 + 0x80, c % 0x40 + 0x80]
    else if 0x80 <= c then
      [c / 0x40 % 0x20 + 0xC0, c % 0x40 + 0x80]
    else
      [c % 0x100]
  }

  /** The bit layout of section 3 of RFC 3629 for one code unit: below 0x80 the unit itself;
      up to 0x7FF a `110xxxxx` byte and a `10xxxxxx` byte; from 0x800 a `1110xxxx` byte and
      two `10xxxxxx` bytes, whose payload bits read in order are the unit. */
  lemma EncodeUnitLayout(c: CodeUnit)
    ensures c < 0x80 ==> EncodeUnit(c) == [c]
    ensures 0x80 <= c < 0x800 ==>
      var r := EncodeUnit(c);
      |r| == 2 && 0xC0 <= r[0] < 0xE0 && 0x80 <= r[1] < 0xC0 &&
      (r[0] as int - 0xC0) * 0x40 + (r[1] as int - 0x80) == c
    ensures 0x800 <= c ==>
      var r := EncodeUnit(c);
      |r| == 3 && 0xE0 <= r[0] < 0xF0 && 0x80 <= r[1] < 0xC0 && 0x80 <= r[2] < 0xC0 &&
      ((r[0] as int - 0xE0) * 0x40 + (r[1] as int - 0x80)) * 0x40 + (r[2] as int - 0x80) == c
  {
    if 0x800 <= c {
      ThreeBytePayloadBits(c);
    } else if 0x80 <= c {
      TwoBytePayloadBits(c);
    }
  }

  lemma TwoBytePayloadBits(c: int)
    requires 0x80 <= c < 0x800
    ensures c / 0x40 % 0x20 * 0x40 + c % 0x40 == c
  {
    assert c / 0x40 < 0x20;
  }

  lemma ThreeBytePayloadBits(c: int)
    requires 0x800 <= c < 0x1_0000
    ensures (c / 0x1000 % 0x10 * 0x40 + c / 0x40 % 0x40) * 0x40 + c % 0x40 == c
  {
    var q := c / 0x40;
    assert c == q * 0x40 + c % 0x40;
    assert q == q / 0x40 * 0x40 + q % 0x40;
    assert q / 0x40 == c / 0x1000;
    assert c / 0x1000 < 0x10;
  }

  /** The bytes of a whole string: each code unit encoded on its own, in order. */
  function Encode(s: JsString): (r: seq<Byte>)
    ensures |s| <= |r| <= 3 * |s|
  {
    if s == [] then [] else EncodeUnit(s[0]) + Encode(s[1..])
  }

  /** Encoding distributes over concatenation. */
  lemma {:induction false} EncodeAppend(s: JsString, t: JsString)
    ensures Encode(s + t) == Encode(s) + Encode(t)
  {
    if s == [] {
      assert s + t == t;
    } else {
      assert (s + t)[0] == s[0] && (s + t)[1..] == s[1..] + t;
      EncodeAppend(s[1..], t);
      calc {
        Encode(s + t);
        EncodeUnit(s[0]) + Encode(s[1..] + t);
        EncodeUnit(s[0]) + (Encode(s[1..]) + Encode(t));
        (EncodeUnit(s[0]) + Encode(s[1..])) + Encode(t);
      }
    }
  }

  /** A string of code units below 0x80 encodes to the same values, one byte each. */
  lemma {:induction false} EncodeAscii(s: JsString)
    requires forall i :: 0 <= i < |s| ==> s[i] < 0x80
    ensures Encode(s) == s
  {
    if s != [] {
      EncodeAscii(s[1..]);
    }
  }

  /** `stringToByte`: one pass over the code units, pushing the one, two or three bytes of
      each (`EncodeUnit` holds the branches and the bit arithmetic of the pushes). */
  method StringToByte(str: JsString) returns (bytes: seq<Byte>)
    ensures bytes == Encode(str)
  {
    bytes := [];
    var i := 0;
    while i < |str|
      invariant 0 <= i <= |str|
      invariant bytes == Encode(str[..i])
    {
      var c := str[i];
      bytes := bytes + EncodeUnit(c);
      assert Encode([c]) == EncodeUnit(c) by { assert [c][1..] == []; }
      assert str[..i + 1] == str[..i] + [c];
      EncodeAppend(str[..i], [c]);
      i := i + 1;
    }
    assert str[..i] == str;
  }

  // ---------------------------------------------------------------------------------------
  // byteToString
  // ---------------------------------------------------------------------------------------

  /** What `byteToString` accepts: an array of byte values, or a string it hands back as is. */
  datatype ByteInput = ByteArray(bytes: seq<Byte>) | Text(text: JsString)

  function Pow2(n: nat): (r: nat)
    ensures r >= 1
  {
    if n == 0 then 1 else 2 * Pow2(n - 1)
  }

  /** The number of digits of `x.toString(2)`; zero is written "0". */
  function BinaryLength(x: nat): (r: nat)
    ensures r >= 1
  {
    if x < 2 then 1 else 1 + BinaryLength(x / 2)
  }

  /** The number of leading 1-bits of a byte written with eight binary digits. */
  function LeadingOnes(b: Byte): (k: nat)
    ensures k <= 8
    ensures 0x80 <= b < 0xFF <==> 1 <= k <= 7
  {
    if b < 0x80 then 0
    else if b < 0xC0 then 1
    else if b < 0xE0 then 2
    else if b < 0xF0 then 3
    else if b < 0xF8 then 4
    else if b < 0xFC then 5
    else if b < 0xFE then 6
    else if b < 0xFF then 7
    else 8
  }

  /** A byte starts a multi-byte unit when its binary numeral has eight digits (the byte is
      at least 0x80) and the lookahead regular expression finds a 0 after the leading
      1-bits (the byte is not 0xFF). */
  predicate IsLead(b: Byte) {
    0x80 <= b < 0xFF
  }

  /** The number of bits a byte adds to the numeral when it follows a lead byte:
      `toString(2).slice(2)` drops the first two binary digits. */
  function ContinuationWidth(c: Byte): nat {
    if BinaryLength(c) >= 2 then BinaryLength(c) - 2 else 0
  }

  /** Appending the digits a following byte contributes to the binary numeral `acc`. */
  function AppendBits(acc: nat, c: Byte): nat {
    acc * Pow2(ContinuationWidth(c)) + c % Pow2(ContinuationWidth(c))
  }

  /** The numeral after appending the contributions of `cs`, left to right. */
  function AppendAll(acc: nat, cs: seq<Byte>): nat
    decreases |cs|
  {
    if cs == [] then acc else AppendAll(AppendBits(acc, cs[0]), cs[1..])
  }

  /** How much of a lead byte with `k` leading 1-bits the decoder keeps. The source cuts
      its eight binary digits with `slice(7 - k)`, keeping the low `k + 1` bits; the payload
      of a lead byte (section 3 of RFC 3629) is the `7 - k` bits after the leading 1-bits
      and the 0 that ends them. The two agree for three-byte units only. */
  datatype LeadCut = KeepKPlusOne | KeepPayload

  function LeadBits(cut: LeadCut, k: nat): nat {
    match cut
    case KeepKPlusOne => k + 1
    case KeepPayload => if k <= 7 then 7 - k else 0
  }

  /** The code unit read from a lead byte and its `k - 1` following bytes: the lead keeps
      its low bits as `cut` says, each following byte adds its digits, and
      `String.fromCharCode` keeps the value modulo 2^16. */
  function UnitOf(cut: LeadCut, lead: Byte, following: seq<Byte>): CodeUnit {
    AppendAll(lead % Pow2(LeadBits(cut, LeadingOnes(lead))), following) % 0x1_0000
  }

  /** Every lead byte is followed by the bytes it asks for; otherwise the source reads
      `undefined.toString` past the end of the array and throws. */
  predicate Complete(a: seq<Byte>)
    decreases |a|
  {
    if a == [] then true
    else if IsLead(a[0]) then LeadingOnes(a[0]) <= |a| && Complete(a[LeadingOnes(a[0])..])
    else Complete(a[1..])
  }

  /** The code units a decoder cutting lead bytes as `cut` says returns for a byte array:
      a lead byte and its following bytes make one unit, any other byte is a unit of its
      own. `byteToString` is `Decode(KeepKPlusOne, _)`. */
  function Decode(cut: LeadCut, a: seq<Byte>): JsString
    requires Complete(a)
    decreases |a|
  {
    if a == [] then []
    else if IsLead(a[0]) then [UnitOf(cut, a[0], a[1..LeadingOnes(a[0])])] + Decode(cut, a[LeadingOnes(a[0])..])
    else [a[0]] + Decode(cut, a[1..])
  }

  /** An array with no lead byte (only bytes below 0x80 and 0xFF) is complete and decodes,
      under either cut, to its own bytes, one unit each. */
  lemma {:induction false} PlainBytes(cut: LeadCut, a: seq<Byte>)
    requires forall i :: 0 <= i < |a| ==> !IsLead(a[i])
    ensures Complete(a) && Decode(cut, a) == a
    decreases |a|
  {
    if a != [] {
      PlainBytes(cut, a[1..]);
    }
  }

  /** `byteToString`, with the numeral of each unit kept as a number instead of a string of
      binary digits (`parseInt(store, 2)` of the concatenated digits is that number). `None`
      stands for the `TypeError` thrown when a lead byte asks for more following bytes than
      the array has left. */
  method ByteToString(arr: ByteInput) returns (result: Option<JsString>)
    ensures arr.Text? ==> result == Some(arr.text)
    ensures arr.ByteArray? ==> (result.Some? <==> Complete(arr.bytes))
    ensures arr.ByteArray? && result.Some? ==> result.value == Decode(KeepKPlusOne, arr.bytes)
  {
    if arr.Text? {
      return Some(arr.text);
    }
    var a := arr.bytes;
    var str: JsString := [];
    var i := 0;
    assert a[0..] == a;
    while i < |a|
      invariant 0 <= i <= |a|
      invariant Complete(a) <==> Complete(a[i..])
      invariant Complete(a) ==> str + Decode(KeepKPlusOne, a[i..]) == Decode(KeepKPlusOne, a)
    {
      ghost var next := NextCursor(a, i);
      if IsLead(a[i]) {
        var bytesLength := LeadingOnes(a[i]);
        if i + bytesLength > |a| {
          assert !Complete(a[i..]) by {
            assert a[i..][0] == a[i];
          }
          return None;
        }
        DecodeAdvance(a, i, str);
        var store := ReadUnit(a, i, bytesLength);
        str := str + [store % 0x1_0000];
        i := i + bytesLength - 1;
      } else {
        DecodeAdvance(a, i, str);
        str := str + [a[i]];
      }
      i := i + 1;
      assert i == next;
    }
    assert a[i..] == [];
    return Some(str);
  }

  /** The cursor after the unit that starts at `i`. */
  function NextCursor(a: seq<Byte>, i: nat): nat
    requires i < |a|
  {
    if IsLead(a[i]) then i + LeadingOnes(a[i]) else i + 1
  }

  /** The code unit the decoder appends for the unit that starts at `i`. */
  function UnitAt(a: seq<Byte>, i: nat): CodeUnit
    requires i < |a| && (IsLead(a[i]) ==> i + LeadingOnes(a[i]) <= |a|)
  {
    if IsLead(a[i]) then UnitOf(KeepKPlusOne, a[i], a[i + 1..i + LeadingOnes(a[i])]) else a[i]
  }

  /** The inner loop of `byteToString`: the low `bytesLength + 1` bits of the lead byte,
      followed by the digits of each following byte, give the unit's numeral. */
  method ReadUnit(a: seq<Byte>, i: nat, bytesLength: nat) returns (store: nat)
    requires i < |a| && IsLead(a[i]) && bytesLength == LeadingOnes(a[i])
    requires i + bytesLength <= |a|
    ensures store % 0x1_0000 == UnitAt(a, i)
  {
    store := a[i] % Pow2(bytesLength + 1);
    ghost var numeral := AppendAll(store, a[i + 1..i + bytesLength]);
    var st := 1;
    while st < bytesLength
      invariant 1 <= st <= bytesLength
      invariant AppendAll(store, a[i + st..i + bytesLength]) == numeral
    {
      AppendFront(store, a, i + st, i + bytesLength);
      store := AppendBits(store, a[st + i]);
      st := st + 1;
    }
    AppendNone(store, a, i + st);
    assert LeadBits(KeepKPlusOne, bytesLength) == bytesLength + 1;
  }

  /** Appending a non-empty run of bytes appends its first byte, then the rest. */
  lemma AppendFront(acc: nat, a: seq<Byte>, lo: nat, hi: nat)
    requires lo < hi <= |a|
    ensures AppendAll(acc, a[lo..hi]) == AppendAll(AppendBits(acc, a[lo]), a[lo + 1..hi])
  {
    assert a[lo..hi][1..] == a[lo + 1..hi];
  }

  /** Appending an empty run changes nothing. */
  lemma AppendNone(acc: nat, a: seq<Byte>, lo: nat)
    requires lo <= |a|
    ensures AppendAll(acc, a[lo..lo]) == acc
  {
    assert a[lo..lo] == [];
  }

  /** The decoder's loop invariant survives one unit whose following bytes are all present. */
  lemma DecodeAdvance(a: seq<Byte>, i: nat, str: JsString)
    requires i < |a| && (IsLead(a[i]) ==> i + LeadingOnes(a[i]) <= |a|)
    requires Complete(a) <==> Complete(a[i..])
    requires Complete(a) ==> str + Decode(KeepKPlusOne, a[i..]) == Decode(KeepKPlusOne, a)
    ensures NextCursor(a, i) <= |a|
    ensures Complete(a) <==> Complete(a[NextCursor(a, i)..])
    ensures Complete(a) ==>
      str + [UnitAt(a, i)] + Decode(KeepKPlusOne, a[NextCursor(a, i)..]) == Decode(KeepKPlusOne, a)
  {
    var t, n := a[i..], NextCursor(a, i);
    assert t[0] == a[i];
    assert t[n - i..] == a[n..];
    if IsLead(a[i]) {
      assert t[1..n - i] == a[i + 1..n];
    }
  }

  // ---------------------------------------------------------------------------------------
  // Properties of the decoder
  // ---------------------------------------------------------------------------------------

  lemma Pow2Small()
    ensures Pow2(1) == 2 && Pow2(2) == 4 && Pow2(3) == 8 && Pow2(4) == 16
    ensures Pow2(5) == 32 && Pow2(6) == 64
  {
  }

  /** Every byte of 0x80 and more is written with eight binary digits, so as a following
      byte it contributes six. */
  lemma HighByteWidth(c: Byte)
    requires 0x80 <= c
    ensures BinaryLength(c) == 8 && ContinuationWidth(c) == 6
  {
    var x: nat := c;
    assert BinaryLength(x / 128) == 1;
    assert x / 64 / 2 == x / 128 && BinaryLength(x / 64) == 2;
    assert x / 32 / 2 == x / 64 && BinaryLength(x / 32) == 3;
    assert x / 16 / 2 == x / 32 && BinaryLength(x / 16) == 4;
    assert x / 8 / 2 == x / 16 && BinaryLength(x / 8) == 5;
    assert x / 4 / 2 == x / 8 && BinaryLength(x / 4) == 6;
    assert x / 2 / 2 == x / 4 && BinaryLength(x / 2) == 7;
  }

  /** The base-64 number whose digits are the low six bits of the given bytes. */
  function Low6(cs: seq<Byte>): nat
    decreases |cs|
  {
    if cs == [] then 0 else Low6(cs[..|cs| - 1]) * 64 + cs[|cs| - 1] % 64
  }

  /** For following bytes of 0x80 and more (proper continuation bytes), the numeral gains
      exactly the low six bits of each, in order. */
  lemma {:induction false} AppendContinuations(acc: nat, cs: seq<Byte>)
    requires forall j :: 0 <= j < |cs| ==> 0x80 <= cs[j]
    ensures AppendAll(acc, cs) == acc * Pow2(6 * |cs|) + Low6(cs)
    decreases |cs|
  {
    if cs != [] {
      var n := |cs|;
      var d := cs[0] % 64;
      var p := Pow2(6 * (n - 1));
      var next := AppendBits(acc, cs[0]);
      assert next == acc * 64 + d by {
        HighByteWidth(cs[0]);
        Pow2Small();
      }
      AppendContinuations(next, cs[1..]);
      Low6Front(cs);
      assert Pow2(6 * n) == 64 * p by {
        Pow2Add(6, 6 * (n - 1));
        Pow2Small();
      }
      Distribute(acc, d, p);
    }
  }

  lemma Distribute(a: int, d: int, p: int)
    ensures (a * 64 + d) * p == a * (64 * p) + d * p
  {
  }

  lemma ShiftDigit(d: int, p: int, rest: int, last: int)
    ensures (d * p + rest) * 64 + last == d * (p * 64) + (rest * 64 + last)
  {
  }

  lemma {:induction false} Pow2Add(m: nat, n: nat)
    ensures Pow2(m + n) == Pow2(m) * Pow2(n)
    decreases m
  {
    if m > 0 {
      Pow2Add(m - 1, n);
    }
  }

  /** `Low6` read from the front: the first digit is the most significant. */
  lemma {:induction false} Low6Front(cs: seq<Byte>)
    requires cs != []
    ensures Low6(cs) == (cs[0] % 64) * Pow2(6 * (|cs| - 1)) + Low6(cs[1..])
    decreases |cs|
  {
    var n := |cs|;
    if n == 1 {
      assert Low6(cs[..0]) == 0;
    } else {
      var init := cs[..n - 1];
      var d := cs[0] % 64;
      var p := Pow2(6 * (n - 2));
      Low6Front(init);
      assert init[1..] == cs[1..][..n - 2];
      assert cs[1..][n - 2] == cs[n - 1];
      assert Low6(cs[1..]) == Low6(init[1..]) * 64 + cs[n - 1] % 64;
      assert Pow2(6 * (n - 1)) == p * 64 by {
        Pow2Add(6, 6 * (n - 2));
        Pow2Small();
      }
      ShiftDigit(d, p, Low6(init[1..]), cs[n - 1] % 64);
    }
  }

  /** A unit opened by a lead byte with k leading 1-bits and closed by k - 1 proper
      continuation bytes is the lead's kept low bits followed by six bits per continuation,
      modulo 2^16. */
  lemma UnitOfContinuations(cut: LeadCut, lead: Byte, following: seq<Byte>)
    requires IsLead(lead)
    requires forall j :: 0 <= j < |following| ==> 0x80 <= following[j]
    ensures UnitOf(cut, lead, following) ==
      ((lead % Pow2(LeadBits(cut, LeadingOnes(lead)))) * Pow2(6 * |following|) + Low6(following)) % 0x1_0000
  {
    AppendContinuations(lead % Pow2(LeadBits(cut, LeadingOnes(lead))), following);
  }

  /** What a code unit becomes after encoding and decoding: with the source's cut, units
      from 0x200 to 0x7FF lose the two top bits of their five-bit lead payload; every other
      unit, and every unit under the payload cut, survives. */
  function RoundTripUnit(cut: LeadCut, c: CodeUnit): CodeUnit {
    if cut == KeepKPlusOne && 0x200 <= c < 0x800 then c % 0x200 else c
  }

  /** A whole unit (a lead byte and as many following bytes as it announces) in front of a
      complete sequence decodes to one code unit. */
  lemma DecodeUnitPrefix(cut: LeadCut, u: seq<Byte>, rest: seq<Byte>)
    requires |u| >= 1 && IsLead(u[0]) && LeadingOnes(u[0]) == |u| && Complete(rest)
    ensures Complete(u + rest)
    ensures Decode(cut, u + rest) == [UnitOf(cut, u[0], u[1..])] + Decode(cut, rest)
  {
    var b := u + rest;
    assert b[0] == u[0] && b[|u|..] == rest;
    assert b[1..|u|] == u[1..];
  }

  /** The unit read from a two-byte sequence `110xxxxx 10xxxxxx`: the source keeps three
      bits of the lead byte, the payload cut all five. */
  lemma TwoByteUnit(e0: Byte, e1: Byte)
    requires 0xC0 <= e0 < 0xE0 && 0x80 <= e1 < 0xC0
    ensures IsLead(e0) && LeadingOnes(e0) == 2
    ensures UnitOf(KeepKPlusOne, e0, [e1]) == (e0 as int % 8) * 0x40 + e1 as int % 0x40
    ensures UnitOf(KeepPayload, e0, [e1]) == (e0 as int % 32) * 0x40 + e1 as int % 0x40
  {
    Pow2Small();
    HighByteWidth(e1);
    assert LeadBits(KeepKPlusOne, 2) == 3 && LeadBits(KeepPayload, 2) == 5;
    assert [e1][1..] == [];
    assert AppendAll(e0 % 8, [e1]) == AppendBits(e0 % 8, e1);
    assert AppendAll(e0 % 32, [e1]) == AppendBits(e0 % 32, e1);
  }

  /** The unit read from a three-byte sequence `1110xxxx 10xxxxxx 10xxxxxx`; both cuts keep
      the four payload bits of the lead byte. */
  lemma ThreeByteUnit(cut: LeadCut, e0: Byte, e1: Byte, e2: Byte)
    requires 0xE0 <= e0 < 0xF0 && 0x80 <= e1 < 0xC0 && 0x80 <= e2 < 0xC0
    ensures IsLead(e0) && LeadingOnes(e0) == 3
    ensures UnitOf(cut, e0, [e1, e2]) == ((e0 as int % 16) * 0x40 + e1 as int % 0x40) * 0x40 + e2 as int % 0x40
  {
    Pow2Small();
    HighByteWidth(e1);
    HighByteWidth(e2);
    assert LeadBits(cut, 3) == 4;
    assert [e1, e2][1..] == [e2];
    assert [e2][1..] == [];
    var a1 := AppendBits(e0 % 16, e1);
    assert a1 == (e0 as int % 16) * 0x40 + e1 as int % 0x40;
    assert AppendAll(e0 % 16, [e1, e2]) == AppendAll(a1, [e2]) == AppendBits(a1, e2);
  }

  /** Keeping three of the five payload bits of the lead byte keeps the unit modulo 0x200. */
  lemma TwoBytePayload(c: int)
    requires 0x80 <= c < 0x800
    ensures (c / 0x40 % 0x20 + 0xC0) % 8 * 0x40 + (c % 0x40 + 0x80) % 0x40 == c % 0x200
  {
    var q := c / 0x40;
    assert (q % 0x20 + 0xC0) % 8 == q % 8;
    assert (c % 0x40 + 0x80) % 0x40 == c % 0x40;
    assert c == q * 0x40 + c % 0x40;
    assert q == q / 8 * 8 + q % 8;
    var r := q % 8 * 0x40 + c % 0x40;
    assert c == 0x200 * (q / 8) + r;
  }

  /** Keeping all five payload bits of the lead byte rebuilds the unit. */
  lemma TwoByteFullPayload(c: int)
    requires 0x80 <= c < 0x800
    ensures (c / 0x40 % 0x20 + 0xC0) % 32 * 0x40 + (c % 0x40 + 0x80) % 0x40 == c
  {
    assert (c / 0x40 % 0x20 + 0xC0) % 32 == c / 0x40 % 0x20;
    assert (c % 0x40 + 0x80) % 0x40 == c % 0x40;
    TwoBytePayloadBits(c);
  }

  /** The four lead bits and twelve continuation bits rebuild the unit. */
  lemma ThreeBytePayload(c: int)
    requires 0x800 <= c < 0x1_0000
    ensures ((c / 0x1000 % 0x10 + 0xE0) % 16 * 0x40 + (c / 0x40 % 0x40 + 0x80) % 0x40) * 0x40
            + (c % 0x40 + 0x80) % 0x40 == c
  {
    var q := c / 0x40;
    assert (c / 0x1000 % 0x10 + 0xE0) % 16 == c / 0x1000 % 0x10;
    assert (q % 0x40 + 0x80) % 0x40 == q % 0x40;
    assert (c % 0x40 + 0x80) % 0x40 == c % 0x40;
    ThreeBytePayloadBits(c);
  }

  lemma TwoByteValue(c: CodeUnit)
    requires 0x80 <= c < 0x800
    ensures |EncodeUnit(c)| == 2
    ensures IsLead(EncodeUnit(c)[0]) && LeadingOnes(EncodeUnit(c)[0]) == 2
    ensures UnitOf(KeepKPlusOne, EncodeUnit(c)[0], EncodeUnit(c)[1..]) == c % 0x200
    ensures UnitOf(KeepPayload, EncodeUnit(c)[0], EncodeUnit(c)[1..]) == c
  {
    var b0: Byte := c / 0x40 % 0x20 + 0xC0;
    var b1: Byte := c % 0x40 + 0x80;
    assert EncodeUnit(c)[1..] == [b1];
    TwoByteUnit(b0, b1);
    TwoBytePayload(c);
    TwoByteFullPayload(c);
  }

  lemma ThreeByteValue(cut: LeadCut, c: CodeUnit)
    requires 0x800 <= c
    ensures |EncodeUnit(c)| == 3
    ensures IsLead(EncodeUnit(c)[0]) && LeadingOnes(EncodeUnit(c)[0]) == 3
    ensures UnitOf(cut, EncodeUnit(c)[0], EncodeUnit(c)[1..]) == c
  {
    var b0: Byte := c / 0x1000 % 0x10 + 0xE0;
    var b1: Byte := c / 0x40 % 0x40 + 0x80;
    var b2: Byte := c % 0x40 + 0x80;
    assert EncodeUnit(c)[1..] == [b1, b2];
    ThreeByteUnit(cut, b0, b1, b2);
    ThreeBytePayload(c);
  }

  /** Decoding the bytes of one code unit in front of any complete byte sequence. */
  lemma DecodeEncodedUnit(cut: LeadCut, c: CodeUnit, rest: seq<Byte>)
    requires Complete(rest)
    ensures Complete(EncodeUnit(c) + rest)
    ensures Decode(cut, EncodeUnit(c) + rest) == [RoundTripUnit(cut, c)] + Decode(cut, rest)
  {
    if c < 0x80 {
      DecodeAsciiUnit(cut, c, rest);
    } else if c < 0x800 {
      DecodeTwoByteUnit(cut, c, rest);
    } else {
      DecodeThreeByteUnit(cut, c, rest);
    }
  }

  /** An ASCII byte decodes to itself. */
  lemma DecodeAsciiUnit(cut: LeadCut, c: CodeUnit, rest: seq<Byte>)
    requires c < 0x80 && Complete(rest)
    ensures Complete(EncodeUnit(c) + rest)
    ensures Decode(cut, EncodeUnit(c) + rest) == [RoundTripUnit(cut, c)] + Decode(cut, rest)
  {
    assert EncodeUnit(c) == [c];
    assert ([c] + rest)[0] == c && ([c] + rest)[1..] == rest;
  }

  /** A two-byte encoding decodes to the unit's low nine bits under the source's cut and to
      the unit under the payload cut. */
  lemma DecodeTwoByteUnit(cut: LeadCut, c: CodeUnit, rest: seq<Byte>)
    requires 0x80 <= c < 0x800 && Complete(rest)
    ensures Complete(EncodeUnit(c) + rest)
    ensures Decode(cut, EncodeUnit(c) + rest) == [RoundTripUnit(cut, c)] + Decode(cut, rest)
  {
    var u := EncodeUnit(c);
    TwoByteValue(c);
    DecodeUnitPrefix(cut, u, rest);
    if cut == KeepKPlusOne {
      assert RoundTripUnit(cut, c) == c % 0x200;
    } else {
      assert RoundTripUnit(cut, c) == c;
    }
  }

  /** A three-byte encoding decodes to the unit itself. */
  lemma DecodeThreeByteUnit(cut: LeadCut, c: CodeUnit, rest: seq<Byte>)
    requires 0x800 <= c && Complete(rest)
    ensures Complete(EncodeUnit(c) + rest)
    ensures Decode(cut, EncodeUnit(c) + rest) == [RoundTripUnit(cut, c)] + Decode(cut, rest)
  {
    ThreeByteValue(cut, c);
    DecodeUnitPrefix(cut, EncodeUnit(c), rest);
  }

  /** Decoding the encoding of a string gives each code unit back through `RoundTripUnit`;
      the encoding never leaves a unit without its continuation bytes. */
  lemma {:induction false} DecodeEncode(cut: LeadCut, s: JsString)
    ensures Complete(Encode(s))
    ensures |Decode(cut, Encode(s))| == |s|
    ensures forall i :: 0 <= i < |s| ==> Decode(cut, Encode(s))[i] == RoundTripUnit(cut, s[i])
  {
    if s != [] {
      DecodeEncode(cut, s[1..]);
      DecodeEncodedUnit(cut, s[0], Encode(s[1..]));
    }
  }

  /** With the source's cut the round trip is exact for strings whose code units are below
      0x200 or from 0x800 on: all of ASCII and Latin-1, the CJK ranges, and surrogate
      halves. */
  lemma DecodeEncodeExact(s: JsString)
    requires forall i :: 0 <= i < |s| ==> s[i] < 0x200 || 0x800 <= s[i]
    ensures Complete(Encode(s)) && Decode(KeepKPlusOne, Encode(s)) == s
  {
    DecodeEncode(KeepKPlusOne, s);
  }

  /** With the source's cut, U+0400 (Cyrillic capital Ie with grave) travels as D0 80 and
      comes back as U+0000. */
  lemma TwoByteUnitLost()
    ensures Encode([0x400]) == [0xD0, 0x80]
    ensures Decode(KeepKPlusOne, Encode([0x400])) == [0]
  {
    DecodeEncode(KeepKPlusOne, [0x400]);
  }

  /** With the payload cut, decoding undoes encoding for every string of code units. */
  lemma PayloadRoundTrip(s: JsString)
    ensures Complete(Encode(s)) && Decode(KeepPayload, Encode(s)) == s
  {
    DecodeEncode(KeepPayload, s);
  }
}
