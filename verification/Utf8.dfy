/** Well-formed UTF-8, as section 4 of RFC 3629 spells it, over one character per byte. */
module Utf8 {

  predicate InRange(c: char, lo: int, hi: int) {
    lo <= c as int <= hi
  }

  predicate Tail(c: char) {
    InRange(c, 0x80, 0xBF)
  }

  /** Length in bytes of the well-formed character at the head of `s`, or 0. */
  function HeadLength(s: string): (n: nat)
    ensures n <= |s|
  {
    if s == "" then 0
    else if InRange(s[0], 0x00, 0x7F) then 1
    else if |s| < 2 then 0
    else if InRange(s[0], 0xC2, 0xDF) && Tail(s[1]) then 2
    else if |s| < 3 || !Tail(s[2]) then 0
    else if s[0] as int == 0xE0 && InRange(s[1], 0xA0, 0xBF) then 3
    else if s[0] as int == 0xED && InRange(s[1], 0x80, 0x9F) then 3
    else if (InRange(s[0], 0xE1, 0xEC) || InRange(s[0], 0xEE, 0xEF)) && Tail(s[1]) then 3
    else if |s| < 4 || !Tail(s[3]) then 0
    else if s[0] as int == 0xF0 && InRange(s[1], 0x90, 0xBF) then 4
    else if InRange(s[0], 0xF1, 0xF3) && Tail(s[1]) then 4
    else if s[0] as int == 0xF4 && InRange(s[1], 0x80, 0x8F) then 4
    else 0
  }

  predicate Valid(s: string)
    decreases |s|
  {
    s == "" || (HeadLength(s) > 0 && Valid(s[HeadLength(s)..]))
  }

  lemma {:induction false} AsciiIsValid(s: string)
    requires forall i :: 0 <= i < |s| ==> s[i] as int <= 0x7F
    ensures Valid(s)
  {
    if s == "" {
    } else {
      assert HeadLength(s) == 1;
      AsciiIsValid(s[1..]);
    }
  }

  lemma {:induction false} ValidConcat(a: string, b: string)
    requires Valid(a) && Valid(b)
    ensures Valid(a + b)
    decreases |a|
  {
    if a == "" {
      assert a + b == b;
    } else {
      var n := HeadLength(a);
      assert HeadLength(a + b) == n;
      assert (a + b)[n..] == a[n..] + b;
      ValidConcat(a[n..], b);
    }
  }

  lemma ValidJoin(a: string, c: char, b: string)
    requires Valid(a) && Valid(b) && c as int <= 0x7F
    ensures Valid(a + [c] + b)
  {
    AsciiIsValid([c]);
    ValidConcat(a, [c]);
    ValidConcat(a + [c], b);
  }

  /** A one-byte character is no part of a longer one, so valid text can be cut around it. */
  lemma {:induction false} ValidAroundAscii(a: string, c: char, b: string)
    requires Valid(a + [c] + b) && c as int <= 0x7F
    ensures Valid(a) && Valid(b)
    decreases |a|
  {
    var s := a + [c] + b;
    if a == "" {
      assert s[0] == c && s[1..] == b;
    } else {
      var n := HeadLength(s);
      HeadBeforeAscii(a, c, b);
      assert s[n..] == a[n..] + [c] + b;
      ValidAroundAscii(a[n..], c, b);
    }
  }

  lemma HeadBeforeAscii(a: string, c: char, b: string)
    requires a != "" && c as int <= 0x7F && HeadLength(a + [c] + b) > 0
    ensures HeadLength(a + [c] + b) <= |a|
    ensures HeadLength(a) == HeadLength(a + [c] + b)
  {
    var s := a + [c] + b;
    assert s[|a|] == c;
    assert forall i :: 0 <= i < |a| ==> s[i] == a[i];
  }

  // ---- The characters behind the bytes -------------------------------------------------

  /** A Unicode scalar value: a code point that is no surrogate. */
  predicate Scalar(cp: int) {
    0 <= cp <= 0xD7FF || 0xE000 <= cp <= 0x10FFFF
  }

  /** The bytes of a character, section 3 of RFC 3629. */
  function Encode(cp: int): (b: seq<int>)
    requires Scalar(cp)
    ensures 1 <= |b| <= 4
  {
    if cp < 0x80 then [cp]
    else if cp < 0x800 then [0xC0 + cp / 0x40, 0x80 + cp % 0x40]
    else if cp < 0x1_0000 then [0xE0 + cp / 0x1000, 0x80 + cp / 0x40 % 0x40, 0x80 + cp % 0x40]
    else [0xF0 + cp / 0x4_0000, 0x80 + cp / 0x1000 % 0x40, 0x80 + cp / 0x40 % 0x40, 0x80 + cp % 0x40]
  }

  /** The text begins with the character. */
  predicate BeginsWith(s: string, cp: int)
    requires Scalar(cp)
  {
    |Encode(cp)| <= |s| && forall i :: 0 <= i < |Encode(cp)| ==> s[i] as int == Encode(cp)[i]
  }

  lemma EncodedHead(s: string, cp: int)
    requires Scalar(cp) && BeginsWith(s, cp)
    ensures HeadLength(s) == |Encode(cp)|
  {
    var b := Encode(cp);
    assert s[0] as int == b[0];
    assert |b| > 1 ==> s[1] as int == b[1];
    assert |b| > 2 ==> s[2] as int == b[2];
    assert |b| > 3 ==> s[3] as int == b[3];
  }

  /** The pieces of a number written in groups of six bits. */
  lemma SixBits(a: int, b: int, c: int)
    requires 0 <= a && 0 <= b < 0x40 && 0 <= c < 0x40
    ensures var cp := (a * 0x40 + b) * 0x40 + c;
            cp / 0x40 == a * 0x40 + b && cp % 0x40 == c && cp / 0x1000 == a && cp / 0x40 % 0x40 == b
  {
    var cp := (a * 0x40 + b) * 0x40 + c;
    assert cp == a * 0x1000 + (b * 0x40 + c) && 0 <= b * 0x40 + c < 0x1000;
  }

  lemma HeadEncoded(s: string) returns (cp: int)
    requires HeadLength(s) > 0
    ensures Scalar(cp) && BeginsWith(s, cp) && |Encode(cp)| == HeadLength(s)
  {
    if HeadLength(s) == 1 {
      cp := s[0] as int;
    } else if HeadLength(s) == 2 {
      cp := (s[0] as int - 0xC0) * 0x40 + (s[1] as int - 0x80);
    } else if HeadLength(s) == 3 {
      cp := ThreeBytes(s);
    } else {
      cp := FourBytes(s);
    }
  }

  lemma ThreeBytes(s: string) returns (cp: int)
    requires HeadLength(s) == 3
    ensures Scalar(cp) && BeginsWith(s, cp) && |Encode(cp)| == 3
  {
    var a, b, c := s[0] as int - 0xE0, s[1] as int - 0x80, s[2] as int - 0x80;
    cp := (a * 0x40 + b) * 0x40 + c;
    SixBits(a, b, c);
    assert 0x800 <= cp < 0x1_0000 && Scalar(cp);
    assert Encode(cp) == [0xE0 + a, 0x80 + b, 0x80 + c];
  }

  lemma FourBytes(s: string) returns (cp: int)
    requires HeadLength(s) == 4
    ensures Scalar(cp) && BeginsWith(s, cp) && |Encode(cp)| == 4
  {
    var a, b, c, d := s[0] as int - 0xF0, s[1] as int - 0x80, s[2] as int - 0x80, s[3] as int - 0x80;
    cp := ((a * 0x40 + b) * 0x40 + c) * 0x40 + d;
    SixBits(a * 0x40 + b, c, d);
    SixBits(a, b, c);
    assert cp / 0x4_0000 == a;
    assert 0x1_0000 <= cp <= 0x10_FFFF;
    assert Encode(cp) == [0xF0 + a, 0x80 + b, 0x80 + c, 0x80 + d];
  }

  /** The byte ranges are right: a text begins with a well-formed character of `n` bytes exactly when
      it begins with the encoding of some scalar value, `n` bytes long. */
  lemma HeadExactly(s: string, n: nat)
    requires n > 0
    ensures HeadLength(s) == n <==> exists cp :: Scalar(cp) && BeginsWith(s, cp) && |Encode(cp)| == n
  {
    if HeadLength(s) == n {
      var cp := HeadEncoded(s);
    }
    if cp :| Scalar(cp) && BeginsWith(s, cp) && |Encode(cp)| == n {
      EncodedHead(s, cp);
    }
  }
}
