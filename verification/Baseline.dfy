/** The baseline allowlist: keys, the store object, and its file. */
module Baseline {
  import opened Text
  import opened Disk
  import opened Normalizer
  import Utf8

  /** `makeKey`. */
  function MakeKey(eventType: string, comm: string, path: string): string {
    eventType + "|" + comm + "|" + Normalize(path)
  }

  /** A key is the type and, behind the first delimiter it adds, the rest. */
  lemma KeyFront(eventType: string, comm: string, path: string)
    ensures MakeKey(eventType, comm, path) == eventType + "|" + (comm + "|" + Normalize(path))
  {
  }

  /** With delimiter-free types and process names, keys are equal exactly when type, name and
      normalised path are. */
  lemma KeysEqualExactly(type1: string, comm1: string, path1: string, type2: string, comm2: string, path2: string)
    requires '|' !in type1 && '|' !in comm1 && '|' !in type2 && '|' !in comm2
    ensures MakeKey(type1, comm1, path1) == MakeKey(type2, comm2, path2) <==>
            type1 == type2 && comm1 == comm2 && Normalize(path1) == Normalize(path2)
  {
    var rest1, rest2 := comm1 + "|" + Normalize(path1), comm2 + "|" + Normalize(path2);
    KeyFront(type1, comm1, path1);
    KeyFront(type2, comm2, path2);
    if MakeKey(type1, comm1, path1) == MakeKey(type2, comm2, path2) {
      CutFirst('|', type1, rest1, type2, rest2);
      CutFirst('|', comm1, Normalize(path1), comm2, Normalize(path2));
    }
  }

  // ---- What a key pins down ------------------------------------------------------------

  /** The two events have one key. */
  predicate SameKey(type1: string, comm1: string, path1: string, type2: string, comm2: string, path2: string) {
    MakeKey(type1, comm1, path1) == MakeKey(type2, comm2, path2)
  }

  /** Every event with this key has this type, this name and this normalised path. */
  ghost predicate KeyPins(eventType: string, comm: string, path: string) {
    forall t, c, p :: SameKey(eventType, comm, path, t, c, p) ==>
      t == eventType && c == comm && Normalize(p) == Normalize(path)
  }

  lemma {:induction false} NormalizeAddsNoDelimiter(s: string)
    requires '|' !in s
    ensures '|' !in Normalize(s)
    decreases |s|
  {
    if s == "" {
    } else {
      var k := HeadLength(s);
      assert s == s[..k] + s[k..];
      NormalizeAddsNoDelimiter(s[k..]);
      assert '|' !in NUM;
    }
  }

  /** Without a delimiter in any part, no other event shares the key. */
  lemma FreePartsArePinned(eventType: string, comm: string, path: string, t: string, c: string, p: string)
    requires '|' !in eventType && '|' !in comm && '|' !in path
    requires SameKey(eventType, comm, path, t, c, p)
    ensures t == eventType && c == comm && Normalize(p) == Normalize(path)
  {
    var a, b := [eventType, comm, Normalize(path)], [t, c, Normalize(p)];
    NormalizeAddsNoDelimiter(path);
    KeyIsJoin(eventType, comm, path);
    KeyIsJoin(t, c, p);
    JoinInjective('|', a, b);
    assert a[0] == b[0] && a[1] == b[1] && a[2] == b[2];
  }

  lemma KeyIsJoin(eventType: string, comm: string, path: string)
    ensures Join('|', [eventType, comm, Normalize(path)]) == MakeKey(eventType, comm, path)
  {
    var parts := [eventType, comm, Normalize(path)];
    assert parts[1..] == [comm, Normalize(path)] && parts[1..][1..] == [Normalize(path)];
    assert Join('|', parts[1..]) == comm + "|" + Normalize(path);
    assert Join('|', parts) == eventType + "|" + (comm + "|" + Normalize(path));
    KeyFront(eventType, comm, path);
  }

  /** A delimiter in any part gives the event's key to another event as well. */
  lemma DelimiterMakesKeyAmbiguous(eventType: string, comm: string, path: string)
    requires '|' in eventType || '|' in comm || '|' in path
    ensures !KeyPins(eventType, comm, path)
  {
    if '|' in eventType {
      var x, y := CutAt(eventType, '|');
      Regroup(x, y, comm, Normalize(path));
      assert SameKey(eventType, comm, path, x, y + "|" + comm, path);
    } else if '|' in comm {
      var x, y := CutAt(comm, '|');
      Regroup(eventType, x, y, Normalize(path));
      assert SameKey(eventType, comm, path, eventType + "|" + x, y, path);
    } else {
      PathGivesTwin(eventType, comm, path);
    }
  }

  /** A delimiter in the path can pass for the end of a longer name. */
  lemma PathGivesTwin(eventType: string, comm: string, path: string)
    requires '|' in path
    ensures exists c, p :: c != comm && SameKey(eventType, comm, path, eventType, c, p)
  {
    var x, y := CutAt(path, '|');
    NormalizeSeparates(x, '|', y);
    Regroup(eventType, comm, Normalize(x), Normalize(y));
    assert |comm + "|" + Normalize(x)| > |comm|;
    assert SameKey(eventType, comm, path, eventType, comm + "|" + Normalize(x), y);
  }

  /** Four texts joined with delimiters, however they are grouped. */
  lemma Regroup(a: string, b: string, c: string, d: string)
    ensures (a + "|" + b) + "|" + c + "|" + d == a + "|" + (b + "|" + c) + "|" + d
    ensures a + "|" + (b + "|" + c) + "|" + d == a + "|" + b + "|" + (c + "|" + d)
  {
  }

  /** A key pins down its event, up to numerals in the path, if and only if type, name and path
      hold no delimiter. */
  lemma KeyPinsExactly(eventType: string, comm: string, path: string)
    ensures KeyPins(eventType, comm, path) <==> '|' !in eventType && '|' !in comm && '|' !in path
  {
    if '|' !in eventType && '|' !in comm && '|' !in path {
      forall t, c, p | SameKey(eventType, comm, path, t, c, p)
        ensures t == eventType && c == comm && Normalize(p) == Normalize(path)
      {
        FreePartsArePinned(eventType, comm, path, t, c, p);
      }
    } else {
      DelimiterMakesKeyAmbiguous(eventType, comm, path);
    }
  }

  /** Every event of a delimiter-free type with this key has this type, name and path. */
  ghost predicate KeyPinsTyped(eventType: string, comm: string, path: string) {
    forall t, c, p :: '|' !in t && SameKey(eventType, comm, path, t, c, p) ==>
      t == eventType && c == comm && Normalize(p) == Normalize(path)
  }

  /** The name can be cut at a delimiter so that what follows could begin a normalised path. */
  predicate NameCut(comm: string, k: nat) {
    k < |comm| && comm[k] == '|' && Normalize(comm[k + 1..]) == comm[k + 1..]
  }

  /** A shorter name with the same rest of the key ends where this name can be cut. */
  lemma ShorterName(comm: string, path: string, c: string, p: string)
    requires comm + "|" + Normalize(path) == c + "|" + Normalize(p) && |c| < |comm|
    ensures NameCut(comm, |c|)
  {
    var n, m, k := Normalize(path), Normalize(p), |c|;
    var left, right := comm + "|" + n, c + "|" + m;
    var y := comm[k + 1..];
    assert comm[k] == left[k] == right[k] == '|';
    assert m == right[k + 1..] && left[k + 1..] == y + "|" + n;
    NormalizeIdempotent(p);
    NormalizeIdempotent(path);
    NormalizeSeparates(y, '|', n);
    SameFront(Normalize(y), '|', y, n);
  }

  /** A longer name with the same rest of the key takes in a delimiter of the path. */
  lemma LongerName(comm: string, path: string, c: string, p: string)
    requires comm + "|" + Normalize(path) == c + "|" + Normalize(p) && |c| > |comm|
    ensures '|' in path
  {
    var n := Normalize(path);
    var left, right := comm + "|" + n, c + "|" + Normalize(p);
    assert n[|c| - |comm| - 1] == left[|c|] == right[|c|] == '|';
    if '|' !in path {
      NormalizeAddsNoDelimiter(path);
    }
  }

  /** Two names of one type with the same key are followed by the same rest, and differ in length. */
  lemma SameRest(eventType: string, comm: string, path: string, c: string, p: string)
    requires SameKey(eventType, comm, path, eventType, c, p) && c != comm
    ensures comm + "|" + Normalize(path) == c + "|" + Normalize(p) && |c| != |comm|
  {
    var left, right := comm + "|" + Normalize(path), c + "|" + Normalize(p);
    var key := MakeKey(eventType, comm, path);
    KeyFront(eventType, comm, path);
    KeyFront(eventType, c, p);
    assert left == key[|eventType| + 1..] && right == key[|eventType| + 1..];
    assert c == right[..|c|] && comm == left[..|comm|];
  }

  /** Another event of the same type with this key: its path is a normalised text behind some
      other delimiter. */
  lemma OtherCut(eventType: string, comm: string, path: string, c: string, p: string)
    requires SameKey(eventType, comm, path, eventType, c, p) && c != comm
    ensures '|' in path || exists k: nat :: NameCut(comm, k)
  {
    SameRest(eventType, comm, path, c, p);
    if |c| > |comm| {
      LongerName(comm, path, c, p);
    } else {
      ShorterName(comm, path, c, p);
    }
  }

  lemma SameFront(a: string, c: char, b: string, rest: string)
    requires a + [c] + rest == b + [c] + rest
    ensures a == b
  {
    var left, right := a + [c] + rest, b + [c] + rest;
    assert |a| == |b|;
    assert a == left[..|a|] && b == right[..|b|];
  }

  /** The event types of the agent hold no delimiter.  Among events of such types the key is
      ambiguous exactly when the path holds a delimiter, or the name holds one with no digit-only
      word behind it. */
  lemma KeyPinsTypedExactly(eventType: string, comm: string, path: string)
    requires '|' !in eventType
    ensures KeyPinsTyped(eventType, comm, path) <==> '|' !in path && forall k: nat :: !NameCut(comm, k)
  {
    if '|' in path {
      PathGivesTwin(eventType, comm, path);
    } else if k: nat :| NameCut(comm, k) {
      var c, p := NameGivesTwin(eventType, comm, path, k);
    } else {
      forall t, c, p | '|' !in t && SameKey(eventType, comm, path, t, c, p)
        ensures t == eventType && c == comm && Normalize(p) == Normalize(path)
      {
        TypedKeyCut(eventType, comm, path, t, c, p);
        if c != comm {
          OtherCut(eventType, comm, path, c, p);
        }
      }
    }
  }

  /** A delimiter in the name can pass for the one in front of a longer path. */
  lemma NameGivesTwin(eventType: string, comm: string, path: string, k: nat) returns (c: string, p: string)
    requires NameCut(comm, k)
    ensures |c| < |comm| && SameKey(eventType, comm, path, eventType, c, p)
  {
    var y := comm[k + 1..];
    c, p := comm[..k], y + "|" + path;
    assert comm == c + "|" + y;
    NameTwin(eventType, c, y, path);
  }

  lemma NameTwin(eventType: string, x: string, y: string, path: string)
    requires Normalize(y) == y
    ensures SameKey(eventType, x + "|" + y, path, eventType, x, y + "|" + path)
  {
    NormalizeSeparates(y, '|', path);
    Regroup(eventType, x, y, Normalize(path));
  }

  /** Events of delimiter-free types with one key have one type, and one path if they have one
      name. */
  lemma TypedKeyCut(eventType: string, comm: string, path: string, t: string, c: string, p: string)
    requires '|' !in eventType && '|' !in t && SameKey(eventType, comm, path, t, c, p)
    ensures t == eventType && (c == comm ==> Normalize(p) == Normalize(path))
  {
    var left, right := comm + "|" + Normalize(path), c + "|" + Normalize(p);
    KeyFront(eventType, comm, path);
    KeyFront(t, c, p);
    CutFirst('|', eventType, left, t, right);
    if c == comm {
      assert Normalize(path) == left[|comm| + 1..] && Normalize(p) == right[|c| + 1..];
    }
  }

  // ---- Names of a task -----------------------------------------------------------------

  /** A task's name is a 16-byte array that ends in a zero byte. */
  const MAX_COMM: nat := 15

  /** Every event of a delimiter-free type, with a name a task can have, that has this key. */
  ghost predicate KeyPinsNamed(eventType: string, comm: string, path: string) {
    forall t, c, p :: '|' !in t && |c| <= MAX_COMM && SameKey(eventType, comm, path, t, c, p) ==>
      t == eventType && c == comm && Normalize(p) == Normalize(path)
  }

  /** The path can be cut at a delimiter so that the name and what precedes it, normalised, still
      make a name. */
  predicate PathCut(comm: string, path: string, k: nat) {
    k < |path| && path[k] == '|' && |comm| + 1 + |Normalize(path[..k])| <= MAX_COMM
  }

  /** Where a delimiter of a joined text may stand. */
  lemma DelimiterSide(a: string, b: string, j: nat)
    requires '|' !in a && j < |a + "|" + b| && (a + "|" + b)[j] == '|'
    ensures |a| <= j
  {
    assert forall i :: 0 <= i < |a| ==> (a + "|" + b)[i] == a[i];
  }

  /** A text cut at its first delimiter. */
  lemma FirstCut(s: string) returns (x: string, y: string)
    requires '|' in s
    ensures s == x + "|" + y && '|' !in x && |y| < |s|
  {
    var k := 0;
    while s[k] != '|'
      invariant k < |s| && '|' !in s[..k]
      invariant exists i :: k <= i < |s| && s[i] == '|'
      decreases |s| - k
    {
      assert s[..k + 1] == s[..k] + [s[k]];
      k := k + 1;
    }
    x, y := s[..k], s[k + 1..];
  }

  lemma PathCutGivesTwin(eventType: string, comm: string, path: string, k: nat)
    requires PathCut(comm, path, k)
    ensures exists c, p :: c != comm && |c| <= MAX_COMM && SameKey(eventType, comm, path, eventType, c, p)
  {
    var x, y := path[..k], path[k + 1..];
    assert path == x + "|" + y;
    NormalizeSeparates(x, '|', y);
    Regroup(eventType, comm, Normalize(x), Normalize(y));
    var c := comm + "|" + Normalize(x);
    assert |c| > |comm|;
    assert SameKey(eventType, comm, path, eventType, c, y);
  }

  /** The first delimiter of a normalised path is no further on than any other. */
  lemma FirstDelimiter(path: string, j: nat) returns (k: nat)
    requires '|' in path && j < |Normalize(path)| && Normalize(path)[j] == '|'
    ensures k < |path| && path[k] == '|' && |Normalize(path[..k])| <= j
  {
    var x, y := FirstCut(path);
    NormalizeSeparates(x, '|', y);
    NormalizeAddsNoDelimiter(x);
    DelimiterSide(Normalize(x), Normalize(y), j);
    k := |x|;
    assert path[..k] == x;
  }

  /** A longer name that fits cuts the path. */
  lemma LongerNameCuts(comm: string, path: string, c: string, p: string)
    requires comm + "|" + Normalize(path) == c + "|" + Normalize(p) && |comm| < |c| <= MAX_COMM
    ensures exists k: nat :: PathCut(comm, path, k)
  {
    var left, right, j := comm + "|" + Normalize(path), c + "|" + Normalize(p), |c| - |comm| - 1;
    LongerName(comm, path, c, p);
    assert Normalize(path)[j] == left[|c|] == right[|c|] == '|';
    var k := FirstDelimiter(path, j);
    assert PathCut(comm, path, k);
  }

  /** Among events of delimiter-free types with names that a task can have, the key pins down its
      event exactly when neither the name nor the path can be cut: no delimiter of the name stands
      before a normalised text, and no delimiter of the path is so near its beginning that what
      precedes it fits into the name. */
  lemma KeyPinsNamedExactly(eventType: string, comm: string, path: string)
    requires '|' !in eventType && |comm| <= MAX_COMM
    ensures KeyPinsNamed(eventType, comm, path) <==>
            (forall k: nat :: !NameCut(comm, k)) && (forall k: nat :: !PathCut(comm, path, k))
  {
    if k: nat :| PathCut(comm, path, k) {
      PathCutGivesTwin(eventType, comm, path, k);
    } else if k: nat :| NameCut(comm, k) {
      ShortNameGivesTwin(eventType, comm, path, k);
    } else {
      forall t, c, p | '|' !in t && |c| <= MAX_COMM && SameKey(eventType, comm, path, t, c, p)
        ensures t == eventType && c == comm && Normalize(p) == Normalize(path)
      {
        TypedKeyCut(eventType, comm, path, t, c, p);
        if c != comm {
          OtherNameCuts(eventType, comm, path, c, p);
        }
      }
    }
  }

  lemma ShortNameGivesTwin(eventType: string, comm: string, path: string, k: nat)
    requires NameCut(comm, k) && |comm| <= MAX_COMM
    ensures exists c, p :: c != comm && |c| <= MAX_COMM && SameKey(eventType, comm, path, eventType, c, p)
  {
    var c, p := NameGivesTwin(eventType, comm, path, k);
  }

  lemma OtherNameCuts(eventType: string, comm: string, path: string, c: string, p: string)
    requires SameKey(eventType, comm, path, eventType, c, p) && c != comm && |c| <= MAX_COMM
    ensures (exists k: nat :: NameCut(comm, k)) || exists k: nat :: PathCut(comm, path, k)
  {
    SameRest(eventType, comm, path, c, p);
    if |c| > |comm| {
      LongerNameCuts(comm, path, c, p);
    } else {
      ShorterName(comm, path, c, p);
    }
  }

  // ---- Valid text stays valid ----------------------------------------------------------

  lemma {:induction false} ValidAfterAscii(s: string, k: nat)
    requires Utf8.Valid(s) && k <= |s| && forall i :: 0 <= i < k ==> s[i] as int <= 0x7F
    ensures Utf8.Valid(s[k..])
    decreases k
  {
    if k == 0 {
      assert s[0..] == s;
    } else {
      assert Utf8.HeadLength(s) == 1;
      ValidAfterAscii(s[1..], k - 1);
      assert s[1..][k - 1..] == s[k..];
    }
  }

  /** Bytes of a multi-byte character are separators, so normalising copies them. */
  lemma {:induction false} NormalizeCopies(a: string, rest: string)
    requires forall i :: 0 <= i < |a| ==> !IsWord(a[i])
    ensures Normalize(a + rest) == a + Normalize(rest)
    decreases |a|
  {
    if a == "" {
      assert a + rest == rest;
    } else {
      var t, b := a[..1], a[1..];
      assert a == t + b && !IsDigit(t[0]);
      Assoc(t, b, rest);
      NormalizeHead(t, b + rest);
      NormalizeCopies(b, rest);
      Assoc(t, b, Normalize(rest));
    }
  }

  lemma {:induction false} NormalizeKeepsUtf8(s: string)
    requires Utf8.Valid(s)
    ensures Utf8.Valid(Normalize(s))
    decreases |s|
  {
    if s == "" {
    } else {
      if IsWord(s[0]) {
        var k := WordLength(s);
        var head := Render(s[..k]);
        ValidAfterAscii(s, k);
        NormalizeKeepsUtf8(s[k..]);
        Utf8.AsciiIsValid(head);
        Utf8.ValidConcat(head, Normalize(s[k..]));
      } else {
        var n := Utf8.HeadLength(s);
        HeadIsSeparators(s);
        assert s == s[..n] + s[n..];
        NormalizeCopies(s[..n], s[n..]);
        NormalizeKeepsUtf8(s[n..]);
        HeadIsValid(s);
        Utf8.ValidConcat(s[..n], Normalize(s[n..]));
      }
    }
  }

  lemma HeadIsSeparators(s: string)
    requires s != "" && !IsWord(s[0])
    ensures forall i :: 0 <= i < Utf8.HeadLength(s) ==> !IsWord(s[i])
  {
  }

  lemma HeadIsValid(s: string)
    requires s != "" && Utf8.HeadLength(s) > 0
    ensures Utf8.Valid(s[..Utf8.HeadLength(s)])
  {
    var n := Utf8.HeadLength(s);
    assert Utf8.HeadLength(s[..n]) == n;
    assert s[..n][n..] == "";
  }

  lemma KeyIsValidUtf8(eventType: string, comm: string, path: string)
    requires Utf8.Valid(eventType) && Utf8.Valid(comm) && Utf8.Valid(path)
    ensures Utf8.Valid(MakeKey(eventType, comm, path))
  {
    NormalizeKeepsUtf8(path);
    Utf8.AsciiIsValid("|");
    Utf8.ValidConcat(eventType, "|");
    Utf8.ValidConcat(eventType + "|", comm);
    Utf8.ValidConcat(eventType + "|" + comm, "|");
    Utf8.ValidConcat(eventType + "|" + comm + "|", Normalize(path));
  }

  // ---- The store -----------------------------------------------------------------------

  /** JSON arrays of strings, left open. */
  datatype ListCodec = ListCodec(encode: seq<string> -> string, decode: string -> Option<seq<string>>)

  ghost predicate AllValid(keys: seq<string>) {
    forall i :: 0 <= i < |keys| ==> Utf8.Valid(keys[i])
  }

  ghost predicate LawfulList(codec: ListCodec) {
    forall keys :: AllValid(keys) ==> codec.decode(codec.encode(keys)) == Some(keys)
  }

  function KeySet(keys: seq<string>): set<string> {
    set k | k in keys
  }

  /** What `load` finds in a file. */
  function LoadKeys(codec: ListCodec, content: Option<string>): set<string> {
    if content.None? then {}
    else match codec.decode(content.value)
      case Some(keys) => KeySet(keys)
      case None => {}
  }

  /** The file lists `keys`, which are the known ones, once each. */
  ghost predicate SavedAs(codec: ListCodec, content: Option<string>, keys: seq<string>, known: set<string>) {
    content == Some(codec.encode(keys)) && KeySet(keys) == known && |keys| == |known|
  }

  /** The file holds exactly these keys, listed once each in some order. */
  ghost predicate Saved(codec: ListCodec, content: Option<string>, known: set<string>) {
    exists keys: seq<string> :: SavedAs(codec, content, keys, known)
  }

  /** Saving and loading returns the same set, whatever order the keys were listed in. */
  lemma SavedLoadsBack(codec: ListCodec, content: Option<string>, known: set<string>)
    requires LawfulList(codec) && Saved(codec, content, known)
    requires forall k :: k in known ==> Utf8.Valid(k)
    ensures LoadKeys(codec, content) == known
  {
    var keys: seq<string> :| SavedAs(codec, content, keys, known);
    forall i | 0 <= i < |keys| ensures Utf8.Valid(keys[i]) {
      assert keys[i] in KeySet(keys);
    }
  }

  /** The walk over the map in `Save`: every key once, in an arbitrary order. */
  method ListKeys(known: set<string>) returns (keys: seq<string>)
    ensures KeySet(keys) == known && |keys| == |known|
  {
    keys := [];
    var left := known;
    while left != {}
      invariant left <= known && KeySet(keys) == known - left
      invariant |keys| + |left| == |known|
      decreases left
    {
      var k :| k in left;
      assert KeySet(keys + [k]) == KeySet(keys) + {k};
      keys := keys + [k];
      left := left - {k};
    }
  }

  class Store {
    const codec: ListCodec
    const file: File
    var known: map<string, bool>

    ghost predicate Valid()
      reads this
    {
      forall k :: k in known ==> known[k]
    }

    /** `NewStore`. */
    constructor (codec: ListCodec, file: File)
      ensures this.codec == codec && this.file == file
      ensures Valid() && known.Keys == LoadKeys(codec, file.content)
    {
      this.codec, this.file, this.known := codec, file, map[];
      new;
      Load();
    }

    /** `load`: an absent or unreadable file adds nothing. */
    method Load()
      requires Valid()
      modifies this
      ensures Valid() && known.Keys == old(known.Keys) + LoadKeys(codec, file.content)
    {
      if file.content.None? {
        return;
      }
      var decoded := codec.decode(file.content.value);
      if decoded.None? {
        return;
      }
      var keys := decoded.value;
      for i := 0 to |keys|
        invariant Valid()
        invariant known.Keys == old(known.Keys) + KeySet(keys[..i])
      {
        assert keys[..i + 1] == keys[..i] + [keys[i]];
        known := known[keys[i] := true];
      }
      assert keys[..|keys|] == keys;
    }

    /** `IsKnown`. */
    method IsKnown(eventType: string, comm: string, path: string) returns (b: bool)
      requires Valid()
      ensures b <==> MakeKey(eventType, comm, path) in known.Keys
    {
      var key := MakeKey(eventType, comm, path);
      b := key in known && known[key];
    }

    /** `Learn`. */
    method Learn(eventType: string, comm: string, path: string)
      requires Valid()
      modifies this
      ensures Valid() && known.Keys == old(known.Keys) + {MakeKey(eventType, comm, path)}
    {
      known := known[MakeKey(eventType, comm, path) := true];
    }

    /** `Save`. */
    method Save(outcome: Outcome) returns (ok: bool)
      requires Valid()
      modifies file
      ensures ok <==> outcome.Full?
      ensures ok ==> Saved(codec, file.content, known.Keys)
      ensures outcome.NotOpened? ==> file.content == old(file.content)
    {
      var keys := ListKeys(known.Keys);
      if outcome.NotOpened? {
        return false;
      }
      var data := codec.encode(keys);
      if outcome.Torn? {
        file.content := Some(if outcome.n < |data| then data[..outcome.n] else data);
        return false;
      }
      file.content := Some(data);
      assert SavedAs(codec, file.content, keys, known.Keys);
      return true;
    }
  }
}
