/** Which byte strings are UTF-8 (sections 3 and 4 of RFC 3629). */
module Utf8 {
  import opened Base

  predicate Continues(b: Byte) {
    0x80 <= b <= 0xBF
  }

  /** The length of the character a string starts with, zero if it starts with none. */
  function CharacterLength(s: Bytes): (n: nat)
    ensures n <= |s|
  {
    if s == [] then 0
    else if s[0] < 0x80 then 1
    else if 0xC2 <= s[0] <= 0xDF then
      if |s| >= 2 && Continues(s[1]) then 2 else 0
    else if 0xE0 <= s[0] <= 0xEF then
      if |s| >= 3 && Continues(s[1]) && Continues(s[2])
         && (s[0] == 0xE0 ==> s[1] >= 0xA0) && (s[0] == 0xED ==> s[1] <= 0x9F) then 3 else 0
    else if 0xF0 <= s[0] <= 0xF4 then
      if |s| >= 4 && Continues(s[1]) && Continues(s[2]) && Continues(s[3])
         && (s[0] == 0xF0 ==> s[1] >= 0x90) && (s[0] == 0xF4 ==> s[1] <= 0x8F) then 4 else 0
    else 0
  }

  predicate Valid(s: Bytes)
    decreases |s|
  {
    s == [] || (CharacterLength(s) > 0 && Valid(s[CharacterLength(s)..]))
  }

  /** A character number other than those kept for surrogates. */
  predicate Scalar(code: int) {
    0 <= code < 0xD800 || 0xE000 <= code < 0x11_0000
  }

  function Encode(code: int): Bytes
    requires Scalar(code)
  {
    if code < 0x80 then [code]
    else if code < 0x800 then [0xC0 + code / 64, 0x80 + code % 64]
    else if code < 0x1_0000 then [0xE0 + code / 4096, 0x80 + code / 64 % 64, 0x80 + code % 64]
    else [0xF0 + code / 262144, 0x80 + code / 4096 % 64, 0x80 + code / 64 % 64, 0x80 + code % 64]
  }

  function EncodeAll(codes: seq<int>): Bytes
    requires forall code | code in codes :: Scalar(code)
  {
    if codes == [] then [] else Encode(codes[0]) + EncodeAll(codes[1..])
  }

  lemma TwoByteText(code: int)
    requires 0x80 <= code < 0x800
    ensures var e := Encode(code); |e| == 2 && 0xC2 <= e[0] <= 0xDF && Continues(e[1])
  {
  }

  lemma ThreeByteText(code: int)
    requires Scalar(code) && 0x800 <= code < 0x1_0000
    ensures var e := Encode(code);
            && |e| == 3 && 0xE0 <= e[0] <= 0xEF && Continues(e[1]) && Continues(e[2])
            && (e[0] == 0xE0 ==> e[1] >= 0xA0) && (e[0] == 0xED ==> e[1] <= 0x9F)
  {
  }

  lemma FourByteText(code: int)
    requires 0x1_0000 <= code < 0x11_0000
    ensures var e := Encode(code);
            && |e| == 4 && 0xF0 <= e[0] <= 0xF4 && Continues(e[1]) && Continues(e[2]) && Continues(e[3])
            && (e[0] == 0xF0 ==> e[1] >= 0x90) && (e[0] == 0xF4 ==> e[1] <= 0x8F)
  {
  }

  lemma EncodedFirst(code: int, rest: Bytes)
    requires Scalar(code)
    ensures CharacterLength(Encode(code) + rest) == |Encode(code)|
  {
    if 0x80 <= code < 0x800 {
      TwoByteText(code);
    } else if 0x800 <= code < 0x1_0000 {
      ThreeByteText(code);
    } else if 0x1_0000 <= code {
      FourByteText(code);
    } else {
      assert Encode(code) == [code];
    }
    hide Encode;
  }

  /** The text of any characters is valid ... */
  lemma {:induction false} EncodedIsValid(codes: seq<int>)
    requires forall code | code in codes :: Scalar(code)
    ensures Valid(EncodeAll(codes))
  {
    if codes != [] {
      EncodedFirst(codes[0], EncodeAll(codes[1..]));
      EncodedIsValid(codes[1..]);
      assert EncodeAll(codes)[|Encode(codes[0])|..] == EncodeAll(codes[1..]);
    }
  }

  lemma TwoBytes(a: Byte, b: Byte) returns (code: int)
    requires CharacterLength([a, b]) == 2
    ensures Scalar(code) && Encode(code) == [a, b]
  {
    var high: int, low: int := a, b;
    code := (high - 0xC0) * 64 + (low - 0x80);
  }

  lemma ThreeBytes(a: Byte, b: Byte, c: Byte) returns (code: int)
    requires CharacterLength([a, b, c]) == 3
    ensures Scalar(code) && Encode(code) == [a, b, c]
  {
    var high: int, middle: int, low: int := a, b, c;
    code := (high - 0xE0) * 4096 + (middle - 0x80) * 64 + (low - 0x80);
  }

  lemma FourSextets(h: int, m: int, n: int, l: int)
    requires 0 <= h && 0 <= m < 64 && 0 <= n < 64 && 0 <= l < 64
    ensures var code := h * 262144 + m * 4096 + n * 64 + l;
            && code / 262144 == h && code / 4096 == h * 64 + m && code / 64 == h * 4096 + m * 64 + n
            && code / 4096 % 64 == m && code / 64 % 64 == n && code % 64 == l
  {
    var code := h * 262144 + m * 4096 + n * 64 + l;
    assert code == 262144 * h + (m * 4096 + n * 64 + l);
    assert code == 4096 * (h * 64 + m) + (n * 64 + l);
    assert code == 64 * (h * 4096 + m * 64 + n) + l;
  }

  lemma FourBytes(a: Byte, b: Byte, c: Byte, d: Byte) returns (code: int)
    requires CharacterLength([a, b, c, d]) == 4
    ensures Scalar(code) && Encode(code) == [a, b, c, d]
  {
    assert 0xF0 <= a <= 0xF4 && Continues(b) && Continues(c) && Continues(d);
    assert (a == 0xF0 ==> b >= 0x90) && (a == 0xF4 ==> b <= 0x8F);
    hide CharacterLength;
    var h: int, m: int, n: int, l: int := a, b, c, d;
    code := (h - 0xF0) * 262144 + (m - 0x80) * 4096 + (n - 0x80) * 64 + (l - 0x80);
    FourSextets(h - 0xF0, m - 0x80, n - 0x80, l - 0x80);
    assert code >= 0x1_0000;
  }

  lemma FirstWasEncoded(s: Bytes) returns (code: int)
    requires CharacterLength(s) > 0
    ensures Scalar(code) && Encode(code) == s[..CharacterLength(s)]
  {
    var n := CharacterLength(s);
    match n {
      case 1 =>
        code := s[0];
        assert s[..1] == [s[0]];
      case 2 =>
        code := TwoBytes(s[0], s[1]);
        assert s[..2] == [s[0], s[1]];
      case 3 =>
        code := ThreeBytes(s[0], s[1], s[2]);
        assert s[..3] == [s[0], s[1], s[2]];
      case _ =>
        code := FourBytes(s[0], s[1], s[2], s[3]);
        assert s[..4] == [s[0], s[1], s[2], s[3]];
    }
  }

  lemma FirstThenOthers(code: int, others: seq<int>)
    requires Scalar(code) && forall other | other in others :: Scalar(other)
    ensures EncodeAll([code] + others) == Encode(code) + EncodeAll(others)
  {
    assert ([code] + others)[1..] == others;
  }

  /** ... and every valid string is the text of some. */
  lemma {:induction false} ValidWasEncoded(s: Bytes) returns (codes: seq<int>)
    requires Valid(s)
    ensures (forall code | code in codes :: Scalar(code)) && EncodeAll(codes) == s
    decreases |s|
  {
    hide Encode, CharacterLength, Scalar;
    if s == [] {
      codes := [];
    } else {
      var n := CharacterLength(s);
      var first := FirstWasEncoded(s);
      var others := ValidWasEncoded(s[n..]);
      codes := [first] + others;
      FirstThenOthers(first, others);
      assert s == s[..n] + s[n..];
    }
  }
}
