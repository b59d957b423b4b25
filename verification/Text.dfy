/** Byte strings, delimiters and decimal numerals.

    A Go string is a sequence of bytes; throughout this project a `string` holds one
    character per byte. */
module Text {

  datatype Option<+T> = None | Some(value: T)

  type Uint32 = x: int | 0 <= x < 0x1_0000_0000
  type Int64 = x: int | -0x8000_0000_0000_0000 <= x < 0x8000_0000_0000_0000

  predicate HasPrefix(s: string, prefix: string) {
    |prefix| <= |s| && s[..|prefix|] == prefix
  }

  lemma Assoc(a: string, b: string, c: string)
    ensures a + b + c == a + (b + c)
  {
  }

  /** A text cut around one of its delimiters. */
  lemma CutAt(s: string, c: char) returns (x: string, y: string)
    requires c in s
    ensures s == x + [c] + y
  {
    var i :| 0 <= i < |s| && s[i] == c;
    x, y := s[..i], s[i + 1..];
  }

  /** Cutting at the first delimiter is unambiguous when the text before it is free of it. */
  lemma CutFirst(c: char, a: string, r: string, b: string, s: string)
    requires c !in a && c !in b
    requires a + [c] + r == b + [c] + s
    ensures a == b && r == s
  {
    var left, right := a + [c] + r, b + [c] + s;
    assert left[|a|] == c && right[|b|] == c;
    assert |a| == |b|;
    assert a == left[..|a|] && b == right[..|b|];
    assert r == left[|a| + 1..] && s == right[|b| + 1..];
  }

  /** Cutting at the last delimiter is unambiguous when the text after it is free of it. */
  lemma CutLast(c: char, a: string, r: string, b: string, s: string)
    requires c !in r && c !in s
    requires a + [c] + r == b + [c] + s
    ensures a == b && r == s
  {
    var left, right := a + [c] + r, b + [c] + s;
    assert left[|a|] == c && right[|b|] == c;
    assert |a| == |b|;
    assert a == left[..|a|] && b == right[..|b|];
    assert r == left[|a| + 1..] && s == right[|b| + 1..];
  }

  // ---- Joining fields with a delimiter -------------------------------------------------

  function Join(c: char, parts: seq<string>): string
    requires parts != []
  {
    if |parts| == 1 then parts[0] else parts[0] + [c] + Join(c, parts[1..])
  }

  ghost predicate AllFree(c: char, parts: seq<string>) {
    forall i :: 0 <= i < |parts| ==> c !in parts[i]
  }

  lemma {:induction false} JoinSnoc(c: char, parts: seq<string>, x: string)
    requires parts != []
    ensures Join(c, parts + [x]) == Join(c, parts) + [c] + x
  {
    var all := parts + [x];
    if |parts| == 1 {
      assert all[1..] == [x];
    } else {
      assert all[1..] == parts[1..] + [x];
      JoinSnoc(c, parts[1..], x);
    }
  }

  /** A joined text holds one delimiter per gap, and more exactly when some field holds one. */
  lemma {:induction false} JoinDelimiters(c: char, parts: seq<string>)
    requires parts != []
    ensures multiset(Join(c, parts))[c] >= |parts| - 1
    ensures multiset(Join(c, parts))[c] == |parts| - 1 <==> AllFree(c, parts)
  {
    if |parts| == 1 {
      assert multiset(parts[0])[c] == 0 <==> c !in parts[0];
    } else {
      var tail := parts[1..];
      JoinDelimiters(c, tail);
      assert multiset(Join(c, parts))[c] == multiset(parts[0])[c] + 1 + multiset(Join(c, tail))[c];
      assert AllFree(c, parts) <==> c !in parts[0] && AllFree(c, tail) by {
        assert forall i :: 0 <= i < |tail| ==> tail[i] == parts[i + 1];
        assert forall i :: 1 <= i < |parts| ==> parts[i] == tail[i - 1];
      }
    }
  }

  /** Delimiter-free fields are determined by the joined text, whatever the other fields hold. */
  lemma JoinInjective(c: char, a: seq<string>, b: seq<string>)
    requires |a| == |b| > 0
    requires AllFree(c, a)
    requires Join(c, a) == Join(c, b)
    ensures a == b
  {
    JoinDelimiters(c, a);
    JoinDelimiters(c, b);
    JoinInjectiveBothFree(c, a, b);
  }

  lemma {:induction false} JoinInjectiveBothFree(c: char, a: seq<string>, b: seq<string>)
    requires |a| == |b| > 0
    requires AllFree(c, a) && AllFree(c, b)
    requires Join(c, a) == Join(c, b)
    ensures a == b
  {
    if |a| == 1 {
      assert a == [a[0]] && b == [b[0]];
    } else {
      CutFirst(c, a[0], Join(c, a[1..]), b[0], Join(c, b[1..]));
      JoinInjectiveBothFree(c, a[1..], b[1..]);
      assert a == [a[0]] + a[1..] && b == [b[0]] + b[1..];
    }
  }

  /** Moving a delimiter from one field to the next does not change the joined text. */
  lemma {:induction false} JoinShift(c: char, parts: seq<string>, i: nat, x: string, y: string)
    requires i + 1 < |parts| && parts[i] == x + [c] + y
    ensures Join(c, parts[i := x][i + 1 := y + [c] + parts[i + 1]]) == Join(c, parts)
  {
    var z := parts[i + 1];
    var moved := parts[i := x][i + 1 := y + [c] + z];
    if i > 0 {
      assert moved[1..] == parts[1..][i - 1 := x][i := y + [c] + z];
      JoinShift(c, parts[1..], i - 1, x, y);
    } else if |parts| == 2 {
      assert moved[1..] == [y + [c] + z] && parts[1..] == [z];
      assert x + [c] + (y + [c] + z) == (x + [c] + y) + [c] + z;
    } else {
      var rest := Join(c, parts[2..]);
      assert moved[1..][1..] == parts[2..] && parts[1..][1..] == parts[2..];
      assert Join(c, moved[1..]) == y + [c] + z + [c] + rest;
      assert Join(c, parts[1..]) == z + [c] + rest;
      assert x + [c] + (y + [c] + z + [c] + rest) == (x + [c] + y) + [c] + (z + [c] + rest);
    }
  }

  // ---- Decimal numerals (fmt verb %d) --------------------------------------------------

  predicate IsDigit(c: char) {
    '0' <= c <= '9'
  }

  predicate Numeral(s: string) {
    s != "" && forall i :: 0 <= i < |s| ==> IsDigit(s[i])
  }

  function NatText(n: nat): (s: string)
    ensures Numeral(s)
  {
    if n < 10 then ["0123456789"[n]] else NatText(n / 10) + ["0123456789"[n % 10]]
  }

  function IntText(n: int): (s: string)
    ensures forall i :: 0 <= i < |s| ==> IsDigit(s[i]) || s[i] == '-'
  {
    if n < 0 then "-" + NatText(-n) else NatText(n)
  }

  function NatValue(s: string): nat
    requires forall i :: 0 <= i < |s| ==> IsDigit(s[i])
  {
    if s == "" then 0
    else
      var n := |s| - 1;
      assert IsDigit(s[n]);
      10 * NatValue(s[..n]) + (s[n] - '0') as nat
  }

  lemma {:induction false} NatRoundTrip(n: nat)
    ensures NatValue(NatText(n)) == n
  {
    var s := NatText(n);
    if n < 10 {
      assert s[..|s| - 1] == "";
    } else {
      NatRoundTrip(n / 10);
      assert s[..|s| - 1] == NatText(n / 10);
    }
  }

  /** Decimal texts are canonical: no leading zero, a minus sign exactly for negative numbers. */
  lemma {:induction false} NatTextCanonical(n: nat)
    ensures n > 0 ==> NatText(n)[0] != '0'
    ensures n < 10 ==> |NatText(n)| == 1
  {
    if n < 10 {
      assert "0123456789"[n] == '0' + n as char;
    } else {
      NatTextCanonical(n / 10);
      assert NatText(n)[0] == NatText(n / 10)[0];
    }
  }

  lemma IntTextSign(n: int)
    ensures n < 0 ==> IntText(n) == "-" + NatText(-n)
    ensures n >= 0 ==> IntText(n) == NatText(n) && IntText(n)[0] != '-'
  {
    assert n >= 0 ==> IsDigit(NatText(n)[0]);
  }

  lemma IntTextInjective(m: int, n: int)
    requires IntText(m) == IntText(n)
    ensures m == n
  {
    assert IntText(m)[0] == '-' <==> m < 0;
    assert IntText(n)[0] == '-' <==> n < 0;
    var p, q := if m < 0 then -m else m, if n < 0 then -n else n;
    assert NatText(p) == (if m < 0 then IntText(m)[1..] else IntText(m));
    assert NatText(q) == (if n < 0 then IntText(n)[1..] else IntText(n));
    NatRoundTrip(p);
    NatRoundTrip(q);
  }
}
