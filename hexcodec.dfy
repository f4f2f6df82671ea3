/** The auxiliary hex/word codec: `hex2bin` reads a hex string as a sequence of unsigned
    32-bit words, eight digits each, stored least-significant byte first; `hex` writes words
    back the same way with lower-case digits. */
module HexCodec {
  import opened Bytes
  import opened Wrappers

  predicate IsHexDigit(c: char) {
    '0' <= c <= '9' || 'a' <= c <= 'f' || 'A' <= c <= 'F'
  }

  predicate AllHex(s: string) {
    forall i :: 0 <= i < |s| ==> IsHexDigit(s[i])
  }

  /** The digits `hex` writes. */
  predicate IsLowerHex(s: string) {
    forall i :: 0 <= i < |s| ==> '0' <= s[i] <= '9' || 'a' <= s[i] <= 'f'
  }

  /** The value `parseInt(_, 16)` gives a digit, in either case. Other characters, for which
      the source's `parseInt` yields `NaN`, are kept out by the precondition of `Hex2Bin`;
      they are given 0 here only so that the numeral functions need no precondition. */
  function DigitValue(c: char): (v: nat)
    ensures v < 16
  {
    if '0' <= c <= '9' then c as int - '0' as int
    else if 'A' <= c <= 'F' then c as int - 'A' as int + 10
    else if 'a' <= c <= 'f' then c as int - 'a' as int + 10
    else 0
  }

  /** `'0123456789abcdef'.split('')[d]`. */
  function DigitChar(d: nat): (c: char)
    requires d < 16
    ensures '0' <= c <= '9' || 'a' <= c <= 'f'
    ensures IsHexDigit(c) && DigitValue(c) == d
  {
    "0123456789abcdef"[d]
  }

  /** `parseInt(s, 16)` for a non-empty string of hex digits. */
  function ParseHex(s: string): nat
  {
    if s == [] then 0 else ParseHex(s[..|s| - 1]) * 16 + DigitValue(s[|s| - 1])
  }

  /** The byte a two-digit token stands for. */
  function TokenByte(t: string): Byte
    requires |t| == 2
  {
    DigitValue(t[0]) * 16 + DigitValue(t[1])
  }

  /** The word of one group of eight digits: four two-digit byte tokens, the first of them
      the least significant. */
  function GroupWord(g: string): int
    requires |g| == 8
  {
    U32Value([TokenByte(g[0..2]), TokenByte(g[2..4]), TokenByte(g[4..6]), TokenByte(g[6..8])])
  }

  /** The words of a hex string whose length is a multiple of eight. */
  function Words(e: string): (r: seq<int>)
    requires |e| % 8 == 0
    ensures |r| == |e| / 8
    decreases |e|
  {
    if e == [] then [] else [GroupWord(e[..8])] + Words(e[8..])
  }

  /** The word of group `j`, digits `8j` to `8j + 8`. */
  function GroupAt(e: string, j: nat): int
    requires 8 * j + 8 <= |e|
  {
    GroupWord(e[8 * j..8 * j + 8])
  }

  /** Word `j` is read from digits `8j` to `8j + 8`. */
  lemma {:induction false} WordsAt(e: string, j: nat)
    requires |e| % 8 == 0 && j < |e| / 8
    ensures Words(e)[j] == GroupAt(e, j)
    decreases j
  {
    if j > 0 {
      WordsTail(e);
      WordsAt(e[8..], j - 1);
      GroupShift(e, j);
    }
  }

  /** The words of a non-empty string are its first group's word, then the rest's words. */
  lemma WordsTail(e: string)
    requires |e| % 8 == 0 && |e| >= 8
    ensures |e[8..]| % 8 == 0 && |e[8..]| / 8 == |e| / 8 - 1
    ensures Words(e) == [GroupWord(e[..8])] + Words(e[8..])
  {
  }

  /** Group `j` of a string is group `j - 1` of the string without its first group. */
  lemma GroupShift(e: string, j: nat)
    requires 1 <= j && 8 * j + 8 <= |e|
    ensures 8 * (j - 1) + 8 <= |e[8..]|
    ensures GroupAt(e[8..], j - 1) == GroupAt(e, j)
  {
    var t, lo := e[8..], 8 * (j - 1);
    assert lo + 8 == 8 * j;
    forall k | lo <= k < lo + 8 ensures t[k] == e[8 + k] {
    }
    assert t[lo..lo + 8] == e[8 * j..8 * j + 8];
  }

  /** A sequence holding the word of every group is the words of the string. */
  lemma WordsOfGroups(e: string, n: seq<int>)
    requires |e| % 8 == 0 && |n| == |e| / 8
    requires forall j :: 0 <= j < |n| ==> n[j] == GroupAt(e, j)
    ensures n == Words(e)
  {
    forall j | 0 <= j < |n| ensures n[j] == Words(e)[j] {
      WordsAt(e, j);
    }
  }

  /** Appending a two-digit token to a numeral shifts it by one byte. */
  lemma ParseHexToken(x: string, t: string)
    requires |t| == 2
    ensures ParseHex(x + t) == ParseHex(x) * 256 + TokenByte(t)
  {
    var xt := x + t;
    assert xt[..|xt| - 1] == x + [t[0]];
    assert (x + [t[0]])[..|x|] == x;
  }

  /** Parsing the four tokens of a group in reverse order reads it as a little-endian word. */
  lemma ReversedGroup(g: string)
    requires |g| == 8
    ensures ParseHex(g[6..8] + g[4..6] + g[2..4] + g[0..2]) == GroupWord(g)
  {
    var t3, t2, t1, t0 := g[6..8], g[4..6], g[2..4], g[0..2];
    assert ParseHex([]) == 0;
    ParseHexToken([], t3);
    assert [] + t3 == t3;
    ParseHexToken(t3, t2);
    ParseHexToken(t3 + t2, t1);
    ParseHexToken(t3 + t2 + t1, t0);
  }

  /** Token `i` of the group of eight digits at `a` is the two digits at `a + 2i`. */
  lemma TokenInGroup(e: string, a: nat, i: nat)
    requires a + 8 <= |e| && i < 4
    ensures e[a..a + 8][2 * i..2 * i + 2] == e[a + 2 * i..a + 2 * i + 2]
  {
    var x, y := e[a..a + 8][2 * i..2 * i + 2], e[a + 2 * i..a + 2 * i + 2];
    assert |x| == 2 == |y|;
    assert x[0] == e[a + 2 * i] == y[0];
    assert x[1] == e[a + 2 * i + 1] == y[1];
  }

  /** Four consecutive tokens, reversed and parsed, give the word of their group. */
  lemma GroupOfTokens(e: string, r: seq<string>, j: nat)
    requires |r| == |e| / 2 && 4 * j + 4 <= |r|
    requires forall k :: 0 <= k < |r| ==> r[k] == e[2 * k..2 * k + 2]
    ensures var s := 4 * j;
      ParseHex(r[s + 3] + r[s + 2] + r[s + 1] + r[s]) == GroupAt(e, j)
  {
    var s := 4 * j;
    var g := e[2 * s..2 * s + 8];
    assert g == e[8 * j..8 * j + 8];
    TokenInGroup(e, 2 * s, 0);
    TokenInGroup(e, 2 * s, 1);
    TokenInGroup(e, 2 * s, 2);
    TokenInGroup(e, 2 * s, 3);
    assert r[s] == g[0..2] && r[s + 1] == g[2..4] && r[s + 2] == g[4..6] && r[s + 3] == g[6..8];
    assert r[s + 3] + r[s + 2] + r[s + 1] + r[s] == g[6..8] + g[4..6] + g[2..4] + g[0..2];
    ReversedGroup(g);
  }

  /** The first loop of `hex2bin`: the digits cut into consecutive two-digit tokens. */
  method Tokens(e: string) returns (r: seq<string>)
    requires |e| % 2 == 0
    ensures |r| == |e| / 2
    ensures forall k :: 0 <= k < |r| ==> r[k] == e[2 * k..2 * k + 2]
  {
    r := [];
    var o := 0;
    while o < |e|
      invariant o == 2 * |r| <= |e|
      invariant forall k :: 0 <= k < |r| ==> r[k] == e[2 * k..2 * k + 2]
    {
      r := r + [e[o..o + 2]];
      o := o + 2;
    }
  }

  /** `hex2bin`: null unless the length is a multiple of eight; otherwise the digits are
      cut into two-digit tokens, and each run of four tokens is reversed and parsed. */
  method Hex2Bin(e: string) returns (result: Option<seq<int>>)
    requires |e| % 8 == 0 ==> AllHex(e)
    ensures result.None? <==> |e| % 8 != 0
    ensures result.Some? ==> result.value == Words(e)
  {
    if |e| % 8 != 0 {
      return None;
    }
    var r := Tokens(e);
    assert |r| == 4 * (|e| / 8);
    var n: seq<int> := [];
    var s := 0;
    while s < |r|
      invariant s == 4 * |n| <= |r|
      invariant forall j :: 0 <= j < |n| ==> n[j] == GroupAt(e, j)
    {
      GroupOfTokens(e, r, |n|);
      n := n + [ParseHex(r[s + 3] + r[s + 2] + r[s + 1] + r[s])];
      s := s + 4;
    }
    WordsOfGroups(e, n);
    return Some(n);
  }

  /** The eight digits `hex` writes for one word: for each byte, least significant first,
      the high digit then the low digit. `>>` on the word works on its 32-bit two's
      complement pattern, which is the word modulo 2^32. */
  function WordHex(v: int): (r: string)
    ensures |r| == 8 && IsLowerHex(r) && AllHex(r)
  {
    var w := v % 0x1_0000_0000;
    [DigitChar(w / 0x10 % 16), DigitChar(w % 16),
     DigitChar(w / 0x1000 % 16), DigitChar(w / 0x100 % 16),
     DigitChar(w / 0x10_0000 % 16), DigitChar(w / 0x1_0000 % 16),
     DigitChar(w / 0x1000_0000 % 16), DigitChar(w / 0x100_0000 % 16)]
  }

  /** `hex`: the digits of every word, joined. */
  function Hex(ws: seq<int>): (r: string)
    ensures |r| == 8 * |ws| && IsLowerHex(r) && AllHex(r)
  {
    if ws == [] then "" else WordHex(ws[0]) + Hex(ws[1..])
  }

  /** The two digits written for the byte `x % 0x100` read back as that byte. */
  lemma ByteDigits(x: nat)
    ensures TokenByte([DigitChar(x / 0x10 % 16), DigitChar(x % 16)]) == x % 0x100
  {
    var t := [DigitChar(x / 0x10 % 16), DigitChar(x % 16)];
    assert TokenByte(t) == x / 0x10 % 16 * 16 + x % 16;
    ByteSplit(x);
  }

  /** A byte is its high hex digit times 16 plus its low one. */
  lemma ByteSplit(x: nat)
    ensures x % 0x100 == x / 0x10 % 16 * 16 + x % 16
  {
    var q := x / 0x10;
    var hi, lo := q % 16, x % 16;
    assert x == q * 0x10 + lo;
    assert q == q / 16 * 16 + hi;
    assert x == q / 16 * 0x100 + (hi * 16 + lo);
    LowByte(x, q / 16, hi * 16 + lo);
  }

  /** The remainder modulo 256 is the low part of any split `256 h + r` with `r < 256`. */
  lemma LowByte(x: int, h: int, r: int)
    requires x == 0x100 * h + r && 0 <= r < 0x100
    ensures x % 0x100 == r
  {
  }

  /** The digits of a word are the two-digit tokens of its four little-endian bytes. */
  lemma WordHexTokens(v: int)
    ensures var g := WordHex(v); var b := U32Bytes(v);
      TokenByte(g[0..2]) == b[0] && TokenByte(g[2..4]) == b[1] &&
      TokenByte(g[4..6]) == b[2] && TokenByte(g[6..8]) == b[3]
  {
    var w := v % 0x1_0000_0000;
    var g := WordHex(v);
    assert g[0..2] == [DigitChar(w / 0x10 % 16), DigitChar(w % 16)];
    assert g[2..4] == [DigitChar(w / 0x1000 % 16), DigitChar(w / 0x100 % 16)];
    assert g[4..6] == [DigitChar(w / 0x10_0000 % 16), DigitChar(w / 0x1_0000 % 16)];
    assert g[6..8] == [DigitChar(w / 0x1000_0000 % 16), DigitChar(w / 0x100_0000 % 16)];
    ByteDigits(w);
    assert w / 0x100 / 0x10 == w / 0x1000;
    ByteDigits(w / 0x100);
    assert w / 0x1_0000 / 0x10 == w / 0x10_0000;
    ByteDigits(w / 0x1_0000);
    assert w / 0x100_0000 / 0x10 == w / 0x1000_0000;
    ByteDigits(w / 0x100_0000);
  }

  /** Eight digits per word make a multiple of eight digits. */
  lemma EightDigitsEach(k: nat)
    ensures (8 * k) % 8 == 0 && (8 * k) / 8 == k
  {
  }

  /** Reading back what `hex` wrote gives every word modulo 2^32. */
  lemma {:induction false} WordsOfHex(ws: seq<int>)
    ensures |Hex(ws)| % 8 == 0
    ensures |Words(Hex(ws))| == |ws|
    ensures forall j :: 0 <= j < |ws| ==> Words(Hex(ws))[j] == ws[j] % 0x1_0000_0000
  {
    EightDigitsEach(|ws|);
    if ws != [] {
      var h := Hex(ws);
      assert h[..8] == WordHex(ws[0]);
      assert h[8..] == Hex(ws[1..]);
      WordsOfHex(ws[1..]);
      GroupOfWordHex(ws[0]);
    }
  }

  /** The eight digits of a word read back as the word modulo 2^32. */
  lemma GroupOfWordHex(v: int)
    ensures GroupWord(WordHex(v)) == v % 0x1_0000_0000
  {
    var g, b := WordHex(v), U32Bytes(v);
    WordHexTokens(v);
    assert [TokenByte(g[0..2]), TokenByte(g[2..4]), TokenByte(g[4..6]), TokenByte(g[6..8])] == b;
    U32ValueOfBytes(v);
  }

  /** Words below 2^32 survive `hex` followed by `hex2bin`. */
  lemma Hex2BinOfHex(ws: seq<int>)
    requires forall j :: 0 <= j < |ws| ==> 0 <= ws[j] < 0x1_0000_0000
    ensures |Hex(ws)| % 8 == 0 && Words(Hex(ws)) == ws
  {
    WordsOfHex(ws);
    SameWords(Words(Hex(ws)), ws);
  }

  lemma SameWords(back: seq<int>, ws: seq<int>)
    requires |back| == |ws|
    requires forall j :: 0 <= j < |ws| ==> back[j] == ws[j] % 0x1_0000_0000
    requires forall j :: 0 <= j < |ws| ==> 0 <= ws[j] < 0x1_0000_0000
    ensures back == ws
  {
  }

  /** Writing back the word of a lower-case group gives the same eight digits. */
  lemma WordHexOfGroup(g: string)
    requires |g| == 8 && IsLowerHex(g)
    ensures WordHex(GroupWord(g)) == g
  {
    var b := [TokenByte(g[0..2]), TokenByte(g[2..4]), TokenByte(g[4..6]), TokenByte(g[6..8])];
    var h := WordHex(GroupWord(g));
    assert U32Bytes(GroupWord(g)) == b by {
      U32BytesOfValue(b);
    }
    WordHexTokens(GroupWord(g));
    SameTokens(h, g);
  }

  /** Two groups of lower-case digits whose tokens are the same bytes are the same digits. */
  lemma SameTokens(h: string, g: string)
    requires |h| == 8 && |g| == 8 && IsLowerHex(h) && IsLowerHex(g)
    requires TokenByte(h[0..2]) == TokenByte(g[0..2]) && TokenByte(h[2..4]) == TokenByte(g[2..4])
    requires TokenByte(h[4..6]) == TokenByte(g[4..6]) && TokenByte(h[6..8]) == TokenByte(g[6..8])
    ensures h == g
  {
    DigitsOfToken(h[0..2], g[0..2]);
    DigitsOfToken(h[2..4], g[2..4]);
    DigitsOfToken(h[4..6], g[4..6]);
    DigitsOfToken(h[6..8], g[6..8]);
    assert h == h[0..2] + h[2..4] + h[4..6] + h[6..8];
    assert g == g[0..2] + g[2..4] + g[4..6] + g[6..8];
  }

  /** Two lower-case tokens with the same byte value are the same digits. */
  lemma DigitsOfToken(s: string, t: string)
    requires |s| == 2 && |t| == 2 && IsLowerHex(s) && IsLowerHex(t)
    requires TokenByte(s) == TokenByte(t)
    ensures s == t
  {
    assert DigitValue(s[0]) == DigitValue(t[0]);
    assert DigitValue(s[1]) == DigitValue(t[1]);
  }

  /** A lower-case hex string survives `hex2bin` followed by `hex`. */
  lemma {:induction false} HexOfHex2Bin(h: string)
    requires |h| % 8 == 0 && IsLowerHex(h)
    ensures Hex(Words(h)) == h
    decreases |h|
  {
    if h != [] {
      HexOfHex2Bin(h[8..]);
      WordHexOfGroup(h[..8]);
      assert h[..8] + h[8..] == h;
    }
  }
}
