/** The laws assumed of the digest and of the two JSON codecs can be met: here are functions that
    meet them. */
module Consistency {
  import opened Text
  import opened AuditEntry
  import opened AuditLog
  import opened Baseline
  import HashChain
  import Lines

  /** A character as two characters that are neither delimiters nor newlines. */
  function Pair(c: char): string {
    [(c as int / 1000 + 200) as char, (c as int % 1000 + 200) as char]
  }

  function Escape(s: string): (t: string)
    ensures |t| == 2 * |s| && forall i :: 0 <= i < |t| ==> t[i] as int >= 200
  {
    if s == "" then "" else Pair(s[0]) + Escape(s[1..])
  }

  lemma {:induction false} EscapeInjective(a: string, b: string)
    requires Escape(a) == Escape(b)
    ensures a == b
  {
    assert |a| == |b|;
    if a == "" {
    } else {
      var x, y := Escape(a), Escape(b);
      assert x[0] == Pair(a[0])[0] && x[1] == Pair(a[0])[1] && x[2..] == Escape(a[1..]);
      assert y[0] == Pair(b[0])[0] && y[1] == Pair(b[0])[1] && y[2..] == Escape(b[1..]);
      assert a[0] as int == 1000 * (x[0] as int - 200) + (x[1] as int - 200);
      assert b[0] as int == 1000 * (y[0] as int - 200) + (y[1] as int - 200);
      EscapeInjective(a[1..], b[1..]);
      assert a == [a[0]] + a[1..] && b == [b[0]] + b[1..];
    }
  }

  function EscapeAll(parts: seq<string>): (r: seq<string>)
    ensures |r| == |parts|
  {
    seq(|parts|, i requires 0 <= i < |parts| => Escape(parts[i]))
  }

  /** A list of texts as one text; the leading letter keeps it non-empty. */
  function Pack(parts: seq<string>): string {
    if parts == [] then "n" else "l" + Join('|', EscapeAll(parts))
  }

  lemma PackInjective(a: seq<string>, b: seq<string>)
    requires Pack(a) == Pack(b)
    ensures a == b
  {
    assert Pack(a)[0] == 'n' <==> a == [];
    assert Pack(b)[0] == 'n' <==> b == [];
    if a != [] {
      var x, y := EscapeAll(a), EscapeAll(b);
      assert Join('|', x) == Pack(a)[1..] && Join('|', y) == Pack(b)[1..];
      assert AllFree('|', x) && AllFree('|', y);
      JoinDelimiters('|', x);
      JoinDelimiters('|', y);
      JoinInjective('|', x, y);
      forall i | 0 <= i < |a| ensures a[i] == b[i] {
        assert x[i] == y[i];
        EscapeInjective(a[i], b[i]);
      }
    }
  }

  ghost predicate NoNewline(s: string) {
    Lines.FreeOf(s, '\n')
  }

  lemma {:induction false} JoinHasNoNewline(parts: seq<string>)
    requires parts != [] && forall i :: 0 <= i < |parts| ==> NoNewline(parts[i])
    ensures NoNewline(Join('|', parts))
  {
    if |parts| == 1 {
    } else {
      JoinHasNoNewline(parts[1..]);
    }
  }

  /** The fields under the hash, then the hash. */
  function AllFields(e: Entry): seq<string> {
    Fields(e) + [e.hash]
  }

  function EncodeEntry(e: Entry): string {
    Pack(AllFields(e))
  }

  lemma EncodeEntryInjective(e: Entry, f: Entry)
    requires EncodeEntry(e) == EncodeEntry(f)
    ensures e == f
  {
    PackInjective(AllFields(e), AllFields(f));
    assert Fields(e) == AllFields(e)[..10] && Fields(f) == AllFields(f)[..10];
    assert AllFields(e)[10] == AllFields(f)[10];
    FieldsDetermineEntry(e, f);
  }

  ghost function DecodeEntry(s: string): Option<Entry> {
    if exists e :: EncodeEntry(e) == s then
      var e :| EncodeEntry(e) == s;
      Some(e)
    else None
  }

  ghost function UnpackList(s: string): Option<seq<string>> {
    if exists parts :: Pack(parts) == s then
      var parts :| Pack(parts) == s;
      Some(parts)
    else None
  }

  function ZeroDigest(s: string): string {
    seq(64, _ => '0')
  }

  lemma EncodedIsOneLine(e: Entry)
    ensures EncodeEntry(e) != "" && Lines.FreeOf(EncodeEntry(e), '\n')
  {
    var parts := EscapeAll(AllFields(e));
    forall i | 0 <= i < |parts| ensures NoNewline(parts[i]) {
      assert forall k :: 0 <= k < |parts[i]| ==> parts[i][k] as int >= 200;
    }
    JoinHasNoNewline(parts);
  }

  /** The assumptions of the audit theorems are consistent. */
  lemma SomeEnvIsLawful() returns (env: Env)
    ensures Lawful(env)
  {
    env := Env(ZeroDigest, EncodeEntry, DecodeEntry);
    forall e ensures env.encode(e) != "" && Lines.FreeOf(env.encode(e), '\n') {
      EncodedIsOneLine(e);
    }
    forall e ensures env.decode(env.encode(e)) == Some(e) {
      assert EncodeEntry(e) == env.encode(e);
      var f := DecodeEntry(EncodeEntry(e)).value;
      EncodeEntryInjective(e, f);
    }
    assert forall s :: HashChain.IsDigest(ZeroDigest(s));
  }

  /** So are those of the baseline theorems. */
  lemma SomeListCodecIsLawful() returns (codec: ListCodec)
    ensures LawfulList(codec)
  {
    codec := ListCodec(Pack, UnpackList);
    forall keys ensures codec.decode(codec.encode(keys)) == Some(keys) {
      assert Pack(keys) == codec.encode(keys);
      PackInjective(keys, UnpackList(Pack(keys)).value);
    }
  }
}
