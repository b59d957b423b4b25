/** The baseline's path normaliser: replacing `\b\d+\b` with `<NUM>`. */
module Normalizer {
  import opened Text

  predicate IsWord(c: char) {
    IsDigit(c) || 'A' <= c <= 'Z' || 'a' <= c <= 'z' || c == '_'
  }

  const NUM := "<NUM>"

  // ---- The pattern, as boundary conditions ---------------------------------------------

  predicate WordAt(s: string, i: int) {
    0 <= i < |s| && IsWord(s[i])
  }

  /** `\b` between positions i - 1 and i. */
  predicate Boundary(s: string, i: int) {
    WordAt(s, i - 1) != WordAt(s, i)
  }

  /** `\b\d+\b` matches s[i..j]. */
  predicate Match(s: string, i: int, j: int) {
    && 0 <= i < j <= |s|
    && (forall n :: i <= n < j ==> IsDigit(s[n]))
    && Boundary(s, i) && Boundary(s, j)
  }

  /** Leftmost non-overlapping replacement from position `i`; boundaries are judged in the whole
      text. */
  ghost function Replace(s: string, i: nat): string
    requires i <= |s|
    decreases |s| - i
  {
    if i == |s| then ""
    else if exists j :: Match(s, i, j) then
      var j :| Match(s, i, j);
      NUM + Replace(s, j)
    else [s[i]] + Replace(s, i + 1)
  }

  // ---- The one-pass scanner ------------------------------------------------------------

  /** Length of the word at the head of `s`. */
  function WordLength(s: string): (k: nat)
    ensures k <= |s|
    ensures forall i :: 0 <= i < k ==> IsWord(s[i])
    ensures k < |s| ==> !IsWord(s[k])
  {
    if s == "" || !IsWord(s[0]) then 0 else 1 + WordLength(s[1..])
  }

  /** Length of the maximal word or single separator at the head of `s`. */
  function HeadLength(s: string): (k: nat)
    requires s != ""
    ensures 0 < k <= |s|
  {
    if IsWord(s[0]) then WordLength(s) else 1
  }

  /** The text cut into maximal words and single separators. */
  function Tokens(s: string): seq<string> {
    if s == "" then []
    else
      var k := HeadLength(s);
      [s[..k]] + Tokens(s[k..])
  }

  function Render(token: string): string {
    if Numeral(token) then NUM else token
  }

  function Concat(tokens: seq<string>): string {
    if tokens == [] then "" else tokens[0] + Concat(tokens[1..])
  }

  /** `normalize`, token by token. */
  function Normalize(s: string): string {
    if s == "" then ""
    else
      var k := HeadLength(s);
      Render(s[..k]) + Normalize(s[k..])
  }

  // ---- The scanner is the replacement --------------------------------------------------

  /** A maximal word s[i..j]. */
  ghost predicate WordSpan(s: string, i: nat, j: nat) {
    && i < j <= |s|
    && !WordAt(s, i - 1) && !WordAt(s, j)
    && forall n :: i <= n < j ==> IsWord(s[n])
  }

  ghost predicate NoMatchFrom(s: string, i: nat) {
    forall j :: !Match(s, i, j)
  }

  /** A match that starts inside a maximal word is that whole word. */
  lemma MatchIsWord(s: string, i: nat, j: nat, m: nat, n: int)
    requires WordSpan(s, i, j) && i <= m < j && Match(s, m, n)
    ensures m == i && n == j
  {
    assert m == i by {
      assert WordAt(s, m);
      assert i < m ==> WordAt(s, m - 1);
    }
    assert WordAt(s, n - 1) && !WordAt(s, n);
  }

  lemma MatchMeansNumeral(s: string, i: nat, j: nat, m: nat, n: int)
    requires WordSpan(s, i, j) && i <= m < j && Match(s, m, n)
    ensures Numeral(s[i..j])
  {
    MatchIsWord(s, i, j, m, n);
  }

  lemma {:induction false} ReplaceSkips(s: string, i: nat, j: nat)
    requires i <= j <= |s|
    requires forall m :: i <= m < j ==> NoMatchFrom(s, m)
    ensures Replace(s, i) == s[i..j] + Replace(s, j)
    decreases j - i
  {
    if i < j {
      ReplaceSkips(s, i + 1, j);
      assert NoMatchFrom(s, i);
      SkipOne(s, i, j, Replace(s, j));
    } else {
      assert s[i..j] + Replace(s, j) == Replace(s, j);
    }
  }

  lemma SkipOne(s: string, i: nat, j: nat, rest: string)
    requires i < j <= |s|
    ensures [s[i]] + (s[i + 1..j] + rest) == s[i..j] + rest
  {
    assert [s[i]] + s[i + 1..j] == s[i..j];
  }

  lemma ReplaceWord(s: string, i: nat, j: nat)
    requires WordSpan(s, i, j)
    ensures Replace(s, i) == Render(s[i..j]) + Replace(s, j)
  {
    var w := s[i..j];
    assert forall n :: 0 <= n < |w| ==> w[n] == s[i + n];
    if Numeral(w) {
      assert forall n :: i <= n < j ==> IsDigit(s[n]) by {
        assert forall n :: i <= n < j ==> s[n] == w[n - i];
      }
      assert WordAt(s, i) && WordAt(s, j - 1);
      assert Match(s, i, j);
      forall n | Match(s, i, n) ensures n == j {
        MatchIsWord(s, i, j, i, n);
      }
    } else {
      forall m | i <= m < j ensures NoMatchFrom(s, m) {
        forall n ensures !Match(s, m, n) {
          if Match(s, m, n) {
            MatchMeansNumeral(s, i, j, m, n);
          }
        }
      }
      ReplaceSkips(s, i, j);
    }
  }

  lemma ReplaceSeparator(s: string, i: nat)
    requires i < |s| && !IsWord(s[i])
    ensures Replace(s, i) == Render(s[i..i + 1]) + Replace(s, i + 1)
  {
    assert forall n :: Match(s, i, n) ==> IsDigit(s[i]);
    assert NoMatchFrom(s, i);
    ReplaceSkips(s, i, i + 1);
    assert s[i..i + 1] == [s[i]];
    assert !IsDigit(s[i..i + 1][0]);
  }

  lemma ReplaceStep(s: string, i: nat, j: nat)
    requires i < |s| && (WordAt(s, i) ==> !WordAt(s, i - 1)) && j == i + HeadLength(s[i..])
    ensures j <= |s| && (WordAt(s, j) ==> !WordAt(s, j - 1))
    ensures Replace(s, i) == Render(s[i..j]) + Replace(s, j)
  {
    HeadInside(s, i);
    if IsWord(s[i]) {
      ReplaceWord(s, i, j);
    } else {
      ReplaceSeparator(s, i);
    }
  }

  lemma NormalizeStep(s: string, i: nat, j: nat)
    requires i < |s| && j == i + HeadLength(s[i..])
    ensures j <= |s| && Normalize(s[i..]) == Render(s[i..j]) + Normalize(s[j..])
  {
    assert s[i..][..j - i] == s[i..j] && s[i..][j - i..] == s[j..];
  }

  /** The scanner computes the leftmost non-overlapping replacement. */
  lemma {:induction false} ScannerIsReplacement(s: string, i: nat)
    requires i <= |s| && (WordAt(s, i) ==> !WordAt(s, i - 1))
    ensures Replace(s, i) == Normalize(s[i..])
    decreases |s| - i
  {
    if i == |s| {
    } else {
      var j := i + HeadLength(s[i..]);
      ReplaceStep(s, i, j);
      NormalizeStep(s, i, j);
      ScannerIsReplacement(s, j);
    }
  }

  lemma HeadInside(s: string, i: nat)
    requires i < |s| && (WordAt(s, i) ==> !WordAt(s, i - 1))
    ensures var j := i + HeadLength(s[i..]);
            && i < j <= |s|
            && (IsWord(s[i]) ==> WordSpan(s, i, j))
            && (WordAt(s, j) ==> !WordAt(s, j - 1))
            && (!IsWord(s[i]) ==> j == i + 1)
  {
    var rest := s[i..];
    var k := HeadLength(rest);
    assert rest[0] == s[i];
    assert forall n :: 0 <= n < |rest| ==> rest[n] == s[i + n];
    assert IsWord(s[i]) ==> forall n :: i <= n < i + k ==> s[n] == rest[n - i];
  }

  /** `normalize` is the replacement of `\b\d+\b` by `<NUM>` over the whole text. */
  lemma NormalizeIsReplacement(s: string)
    ensures Normalize(s) == Replace(s, 0)
  {
    ScannerIsReplacement(s, 0);
    assert s[0..] == s;
  }

  /** What `\d` and `\w` stand for, in character codes. */
  lemma CharacterClasses(c: char)
    ensures IsDigit(c) <==> 48 <= c as int <= 57
    ensures IsWord(c) <==> 48 <= c as int <= 57 || 65 <= c as int <= 90 || c as int == 95 || 97 <= c as int <= 122
  {
  }

  // ---- Tokens --------------------------------------------------------------------------

  predicate Word(t: string) {
    t != "" && forall i :: 0 <= i < |t| ==> IsWord(t[i])
  }

  predicate Separator(t: string) {
    |t| == 1 && !IsWord(t[0])
  }

  /** Words and separators, no two words side by side. */
  ghost predicate Tokenized(ts: seq<string>) {
    && (forall i :: 0 <= i < |ts| ==> Word(ts[i]) || Separator(ts[i]))
    && (forall i :: 0 < i < |ts| ==> Separator(ts[i - 1]) || Separator(ts[i]))
  }

  lemma {:induction false} TokensSplitText(s: string)
    ensures Tokenized(Tokens(s)) && Concat(Tokens(s)) == s
    decreases |s|
  {
    if s == "" {
    } else {
      var k := HeadLength(s);
      var ts, rest := Tokens(s), Tokens(s[k..]);
      TokensSplitText(s[k..]);
      assert ts == [s[..k]] + rest && ts[1..] == rest;
      assert s == s[..k] + s[k..];
      if IsWord(s[0]) && k < |s| {
        assert rest[0] == s[k..][..1];
      }
    }
  }

  lemma {:induction false} ConcatFirst(ts: seq<string>)
    requires Tokenized(ts) && ts != []
    ensures Concat(ts) != "" && Concat(ts)[0] == ts[0][0]
  {
  }

  lemma TokensCons(t: string, rest: string)
    requires Word(t) || Separator(t)
    requires Word(t) ==> rest == "" || !IsWord(rest[0])
    ensures Tokens(t + rest) == [t] + Tokens(rest)
  {
    var s := t + rest;
    var k := |t|;
    assert s[..k] == t && s[k..] == rest && s[0] == t[0];
    if Word(t) {
      assert forall i :: 0 <= i < k ==> IsWord(s[i]);
      assert k < |s| ==> s[k] == rest[0];
      assert WordLength(s) == k;
    }
  }

  /** A tokenized list is the only cut of its own text. */
  lemma {:induction false} TokensOfConcat(ts: seq<string>)
    requires Tokenized(ts)
    ensures Tokens(Concat(ts)) == ts
  {
    if ts == [] {
    } else {
      var tail := ts[1..];
      assert forall i :: 0 < i < |tail| ==> tail[i - 1] == ts[i] && tail[i] == ts[i + 1];
      TokensOfConcat(tail);
      if tail != [] {
        ConcatFirst(tail);
        assert Separator(ts[0]) || Separator(ts[1]);
      }
      TokensCons(ts[0], Concat(tail));
      assert ts == [ts[0]] + tail;
    }
  }

  // ---- Normalising acts on tokens ------------------------------------------------------

  const HOLE: seq<string> := ["<", "NUM", ">"]

  /** The tokens of the normalised text: a numeral becomes three tokens. */
  function Expand(ts: seq<string>): seq<string> {
    if ts == [] then []
    else (if Numeral(ts[0]) then HOLE else [ts[0]]) + Expand(ts[1..])
  }

  lemma {:induction false} ConcatAppend(a: seq<string>, b: seq<string>)
    ensures Concat(a + b) == Concat(a) + Concat(b)
  {
    if a == [] {
      assert a + b == b;
    } else {
      assert (a + b)[1..] == a[1..] + b;
      ConcatAppend(a[1..], b);
    }
  }

  lemma ConcatHole()
    ensures Concat(HOLE) == NUM
  {
    assert HOLE[1..] == ["NUM", ">"] && HOLE[1..][1..] == [">"] && HOLE[1..][1..][1..] == [];
    assert Concat([">"]) == ">" + "";
    assert Concat(["NUM", ">"]) == "NUM" + ">";
  }

  lemma {:induction false} NormalizeByTokens(s: string)
    ensures Normalize(s) == Concat(Expand(Tokens(s)))
    decreases |s|
  {
    if s == "" {
    } else {
      var k := HeadLength(s);
      var rest := Tokens(s[k..]);
      NormalizeByTokens(s[k..]);
      assert Tokens(s) == [s[..k]] + rest && Tokens(s)[1..] == rest;
      var head := if Numeral(s[..k]) then HOLE else [s[..k]];
      ConcatAppend(head, Expand(rest));
      ConcatHole();
      assert Concat([s[..k]]) == s[..k] + Concat([]);
    }
  }

  lemma HoleTokens()
    ensures Separator("<") && Word("NUM") && Separator(">")
    ensures !Numeral("<") && !Numeral("NUM") && !Numeral(">")
  {
    assert !IsDigit("<"[0]) && !IsDigit("NUM"[0]) && !IsDigit(">"[0]);
  }

  lemma {:induction false} ExpandTokenized(ts: seq<string>)
    requires Tokenized(ts)
    ensures Tokenized(Expand(ts))
    ensures forall i :: 0 <= i < |Expand(ts)| ==> !Numeral(Expand(ts)[i])
    ensures ts != [] ==> Expand(ts) != [] && (Separator(ts[0]) ==> Separator(Expand(ts)[0]))
  {
    if ts == [] {
    } else {
      var tail := ts[1..];
      assert forall i :: 0 < i < |tail| ==> tail[i - 1] == ts[i] && tail[i] == ts[i + 1];
      ExpandTokenized(tail);
      HoleTokens();
      var head, e := if Numeral(ts[0]) then HOLE else [ts[0]], Expand(tail);
      assert Expand(ts) == head + e;
      assert tail != [] ==> Separator(ts[0]) || Separator(ts[1]);
    }
  }

  lemma {:induction false} ExpandFixed(ts: seq<string>)
    requires forall i :: 0 <= i < |ts| ==> !Numeral(ts[i])
    ensures Expand(ts) == ts
  {
    if ts == [] {
    } else {
      ExpandFixed(ts[1..]);
    }
  }

  /** Normalising twice is normalising once. */
  lemma NormalizeIdempotent(s: string)
    ensures Normalize(Normalize(s)) == Normalize(s)
  {
    var e := Expand(Tokens(s));
    TokensSplitText(s);
    ExpandTokenized(Tokens(s));
    NormalizeByTokens(s);
    TokensOfConcat(e);
    NormalizeByTokens(Normalize(s));
    ExpandFixed(e);
  }

  lemma NormalizeHead(t: string, rest: string)
    requires t != "" && HeadLength(t + rest) == |t|
    ensures Normalize(t + rest) == Render(t) + Normalize(rest)
  {
    var s := t + rest;
    assert s[..|t|] == t && s[|t|..] == rest;
  }

  /** Normalising works separately on the two sides of a separator. */
  lemma {:induction false} NormalizeSeparates(x: string, c: char, rest: string)
    requires !IsWord(c)
    ensures Normalize(x + [c] + rest) == Normalize(x) + [c] + Normalize(rest)
    decreases |x|
  {
    if x == "" {
      assert x + [c] + rest == [c] + rest;
      NormalizeHead([c], rest);
      assert !IsDigit([c][0]);
    } else {
      var k := HeadLength(x);
      var t, y := x[..k], x[k..];
      assert x == t + y;
      HeadBeforeSeparator(x, c, rest);
      assert x + [c] + rest == t + (y + [c] + rest);
      NormalizeHead(t, y + [c] + rest);
      NormalizeHead(t, y);
      NormalizeSeparates(y, c, rest);
      Assoc(Render(t), Normalize(y) + [c], Normalize(rest));
      Assoc(Render(t), Normalize(y), [c]);
    }
  }

  lemma HeadBeforeSeparator(x: string, c: char, rest: string)
    requires !IsWord(c) && x != ""
    ensures HeadLength(x + [c] + rest) == HeadLength(x)
  {
    var s := x + [c] + rest;
    assert forall i :: 0 <= i < |x| ==> s[i] == x[i];
    assert s[|x|] == c;
  }

  lemma NumeralNormalizes(s: string)
    requires Numeral(s)
    ensures Normalize(s) == NUM
  {
    assert HeadLength(s) == |s|;
    assert s[..|s|] == s && s[|s|..] == "";
    assert NUM + Normalize("") == NUM;
  }

  /** A number between two separators is replaced by `<NUM>`, whatever it is. */
  lemma NumberIsReplaced(x: string, c: char, n: nat, d: char, y: string)
    requires !IsWord(c) && !IsWord(d)
    ensures Normalize(x + [c] + (NatText(n) + [d] + y)) == Normalize(x) + [c] + ("<NUM>" + [d] + Normalize(y))
  {
    NormalizeSeparates(x, c, NatText(n) + [d] + y);
    NormalizeSeparates(NatText(n), d, y);
    NumeralNormalizes(NatText(n));
  }

  /** A word that is no number stays as it is. */
  lemma WordStays(w: string)
    requires Word(w) && !Numeral(w)
    ensures Normalize(w) == w
  {
    assert w + "" == w;
    assert HeadLength(w + "") == |w|;
    NormalizeHead(w, "");
  }

  /** The normaliser's purpose: the paths of a file of all processes are one path.  For `dir` "proc"
      and `file` "stat" this is /proc/<NUM>/stat. */
  lemma ProcessesLookAlike(dir: string, pid: nat, file: string)
    requires Word(dir) && !Numeral(dir) && Word(file) && !Numeral(file)
    ensures Normalize("/" + dir + "/" + (NatText(pid) + "/" + file)) == "/" + dir + "/" + ("<NUM>" + "/" + file)
  {
    WordStays(dir);
    WordStays(file);
    NormalizeSeparates("", '/', dir);
    assert "" + "/" + dir == "/" + dir;
    NumberIsReplaced("/" + dir, '/', pid, '/', file);
  }

  // ---- The kernel ----------------------------------------------------------------------

  /** The same words and separators, except that numerals may differ. */
  ghost predicate SameShape(a: seq<string>, b: seq<string>) {
    |a| == |b| && forall i :: 0 <= i < |a| ==> a[i] == b[i] || (Numeral(a[i]) && Numeral(b[i]))
  }

  ghost predicate Similar(s: string, t: string) {
    SameShape(Tokens(s), Tokens(t))
  }

  predicate HoleAt(ts: seq<string>, i: nat) {
    i + 2 < |ts| && ts[i] == "<" && ts[i + 1] == "NUM" && ts[i + 2] == ">"
  }

  ghost predicate HasHole(ts: seq<string>) {
    exists i: nat :: HoleAt(ts, i)
  }

  predicate LiteralAt(s: string, i: nat) {
    i + 5 <= |s| && s[i..i + 5] == NUM
  }

  /** The text holds the literal `<NUM>`. */
  ghost predicate HasLiteral(s: string) {
    exists i: nat :: LiteralAt(s, i)
  }

  lemma {:induction false} SameShapeExpandsAlike(a: seq<string>, b: seq<string>)
    requires SameShape(a, b)
    ensures Expand(a) == Expand(b)
  {
    if a == [] {
    } else {
      SameShapeExpandsAlike(a[1..], b[1..]);
    }
  }

  lemma HoleInTail(ts: seq<string>)
    requires ts != [] && HasHole(ts[1..])
    ensures HasHole(ts)
  {
    var i: nat :| HoleAt(ts[1..], i);
    assert HoleAt(ts, i + 1);
  }

  lemma ExpandHead(ts: seq<string>, c: string)
    requires Expand(ts) != [] && Expand(ts)[0] == c && c != "<"
    ensures ts != [] && ts[0] == c && Expand(ts) == [c] + Expand(ts[1..])
  {
  }

  /** Only a literal hole expands to the beginning of a hole. */
  lemma HoleAtHead(ts: seq<string>)
    requires ts != [] && !Numeral(ts[0])
    requires |Expand(ts)| >= 3 && Expand(ts)[..3] == HOLE
    ensures HasHole(ts)
  {
    var e := Expand(ts);
    assert e[0] == HOLE[0] && e[1] == HOLE[1] && e[2] == HOLE[2] by {
      assert e[..3][0] == e[0] && e[..3][1] == e[1] && e[..3][2] == e[2];
    }
    assert e == [ts[0]] + Expand(ts[1..]);
    ExpandHead(ts[1..], "NUM");
    ExpandHead(ts[1..][1..], ">");
    assert HoleAt(ts, 0);
  }

  lemma {:induction false} ExpandKernel(a: seq<string>, b: seq<string>)
    requires !HasHole(a) && !HasHole(b) && Expand(a) == Expand(b)
    ensures SameShape(a, b)
    decreases |a|
  {
    if a == [] || b == [] {
      assert Expand(a) == [] && Expand(b) == [];
      assert a == [] && b == [];
    } else if Numeral(a[0]) && !Numeral(b[0]) {
      assert Expand(a)[..3] == HOLE;
      HoleAtHead(b);
    } else if !Numeral(a[0]) && Numeral(b[0]) {
      assert Expand(b)[..3] == HOLE;
      HoleAtHead(a);
    } else {
      if HasHole(a[1..]) { HoleInTail(a); }
      if HasHole(b[1..]) { HoleInTail(b); }
      var k := if Numeral(a[0]) then 3 else 1;
      assert Expand(a)[k..] == Expand(a[1..]) && Expand(b)[k..] == Expand(b[1..]);
      assert Expand(a)[0] == Expand(b)[0];
      ExpandKernel(a[1..], b[1..]);
    }
  }

  lemma HoleIsLiteral(s: string)
    requires HasHole(Tokens(s))
    ensures HasLiteral(s)
  {
    TokensSplitText(s);
    HoleInList(Tokens(s));
  }

  lemma HoleInList(ts: seq<string>)
    requires HasHole(ts)
    ensures HasLiteral(Concat(ts))
  {
    var i: nat :| HoleAt(ts, i);
    assert ts == ts[..i] + (HOLE + ts[i + 3..]);
    LiteralInConcat(ts[..i], ts[i + 3..]);
  }

  lemma LiteralInConcat(a: seq<string>, b: seq<string>)
    ensures HasLiteral(Concat(a + (HOLE + b)))
  {
    ConcatAppend(a, HOLE + b);
    ConcatAppend(HOLE, b);
    ConcatHole();
    var x, y := Concat(a), Concat(b);
    var s := x + (NUM + y);
    assert LiteralAt(s, |x|);
  }

  /** The tokens with every literal `<NUM>` read as a numeral. */
  function Fold(ts: seq<string>): seq<string>
    decreases |ts|
  {
    if ts == [] then []
    else if HoleAt(ts, 0) then ["0"] + Fold(ts[3..])
    else [ts[0]] + Fold(ts[1..])
  }

  lemma {:induction false} FoldExpandsAlike(ts: seq<string>)
    ensures Expand(Fold(ts)) == Expand(ts)
    decreases |ts|
  {
    if ts == [] {
    } else if HoleAt(ts, 0) {
      FoldExpandsAlike(ts[3..]);
      ExpandHole(ts);
      assert Numeral("0") && (["0"] + Fold(ts[3..]))[1..] == Fold(ts[3..]);
    } else {
      FoldExpandsAlike(ts[1..]);
      assert ([ts[0]] + Fold(ts[1..]))[1..] == Fold(ts[1..]);
    }
  }

  lemma ExpandHole(ts: seq<string>)
    requires HoleAt(ts, 0)
    ensures Expand(ts) == HOLE + Expand(ts[3..])
  {
    HoleTokens();
    assert ts[1..][1..] == ts[2..] && ts[2..][1..] == ts[3..];
    assert Expand(ts[2..]) == [">"] + Expand(ts[3..]);
    assert Expand(ts[1..]) == ["NUM"] + Expand(ts[2..]);
    assert Expand(ts) == ["<"] + Expand(ts[1..]);
  }

  lemma FoldHead(ts: seq<string>, c: string)
    requires Fold(ts) != [] && Fold(ts)[0] == c && c != "0"
    ensures ts != [] && ts[0] == c && Fold(ts)[1..] == Fold(ts[1..])
  {
  }

  lemma {:induction false} FoldHasNoHole(ts: seq<string>)
    ensures !HasHole(Fold(ts))
    decreases |ts|
  {
    if ts == [] {
    } else {
      var rest := if HoleAt(ts, 0) then ts[3..] else ts[1..];
      FoldHasNoHole(rest);
      assert Fold(ts)[1..] == Fold(rest);
      forall i: nat ensures !HoleAt(Fold(ts), i) {
        if i == 0 {
          FoldHoleAtHead(ts);
        } else {
          assert !HoleAt(Fold(rest), i - 1);
        }
      }
    }
  }

  lemma FoldHoleAtHead(ts: seq<string>)
    ensures !HoleAt(Fold(ts), 0)
  {
    if HoleAt(Fold(ts), 0) {
      FoldHead(ts, "<");
      FoldHead(ts[1..], "NUM");
      FoldHead(ts[2..], ">");
    }
  }

  lemma {:induction false} FoldFixed(ts: seq<string>)
    requires !HasHole(ts)
    ensures Fold(ts) == ts
  {
    if ts == [] {
    } else {
      if HasHole(ts[1..]) { HoleInTail(ts); }
      FoldFixed(ts[1..]);
      assert !HoleAt(ts, 0);
    }
  }

  /** The same words and separators up to digit-only words, a literal `<NUM>` counting as one. */
  ghost predicate Resembles(s: string, t: string) {
    SameShape(Fold(Tokens(s)), Fold(Tokens(t)))
  }

  /** The tokens of a normalised text. */
  lemma NormalTokens(s: string)
    ensures Tokens(Normalize(s)) == Expand(Fold(Tokens(s)))
    ensures Normalize(s) == Concat(Expand(Fold(Tokens(s))))
  {
    NormalizeByTokens(s);
    TokensSplitText(s);
    ExpandTokenized(Tokens(s));
    TokensOfConcat(Expand(Tokens(s)));
    FoldExpandsAlike(Tokens(s));
  }

  /** The kernel of the normaliser, for all texts: they normalise alike exactly when they are cut
      into the same words and separators up to digit-only words and literal placeholders. */
  lemma NormalizeKernelExactly(s: string, t: string)
    ensures Normalize(s) == Normalize(t) <==> Resembles(s, t)
  {
    var a, b := Fold(Tokens(s)), Fold(Tokens(t));
    NormalTokens(s);
    NormalTokens(t);
    FoldHasNoHole(Tokens(s));
    FoldHasNoHole(Tokens(t));
    if Resembles(s, t) {
      SameShapeExpandsAlike(a, b);
    }
    if Normalize(s) == Normalize(t) {
      ExpandKernel(a, b);
    }
  }

  /** Two texts without the literal `<NUM>` normalise alike exactly when they are cut into the same
      words and separators up to digit-only words. */
  lemma NormalizeKernel(s: string, t: string)
    requires !HasLiteral(s) && !HasLiteral(t)
    ensures Normalize(s) == Normalize(t) <==> Similar(s, t)
  {
    NormalizeKernelExactly(s, t);
    if HasHole(Tokens(s)) { HoleIsLiteral(s); }
    if HasHole(Tokens(t)) { HoleIsLiteral(t); }
    FoldFixed(Tokens(s));
    FoldFixed(Tokens(t));
  }

  /** Similar texts normalise alike, with or without the literal. */
  lemma SimilarNormalizeAlike(s: string, t: string)
    requires Similar(s, t)
    ensures Normalize(s) == Normalize(t) && Resembles(s, t)
  {
    NormalizeByTokens(s);
    NormalizeByTokens(t);
    SameShapeExpandsAlike(Tokens(s), Tokens(t));
    NormalizeKernelExactly(s, t);
  }

  /** The literal does make a difference: it normalises like any numeral without being one. */
  lemma LiteralLooksLikeNumeral(n: nat)
    ensures Normalize(NUM) == Normalize(NatText(n)) && !Similar(NUM, NatText(n))
  {
    NumeralNormalizes(NatText(n));
    HoleTokens();
    ConcatHole();
    assert Tokenized(HOLE);
    TokensOfConcat(HOLE);
    ExpandFixed(HOLE);
    NormalizeByTokens(NUM);
    TokensCons(NatText(n), "");
    assert NatText(n) + "" == NatText(n);
    assert |Tokens(NatText(n))| == 1;
  }
}
