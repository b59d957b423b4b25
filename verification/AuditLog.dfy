/** The audit log as a file of records: what makes a file verify, how a process extends it,
    and what a whole history of restarts, writes and lost writes leaves behind. */
module AuditLog {
  import opened Text
  import opened AuditEntry
  import opened HashChain
  import opened Lines

  /** The digest (SHA-256 in hexadecimal) and the JSON codec, both left open. */
  datatype Env = Env(digest: string -> string, encode: Entry -> string, decode: string -> Option<Entry>)

  /** What is used of the foreign parts: digests are 64 hexadecimal digits, an encoded entry is
      one non-empty line (section 7 of RFC 8259 escapes control characters), and entries whose
      texts are valid UTF-8 decode to themselves. */
  ghost predicate Lawful(env: Env) {
    && DigestShaped(env.digest)
    && (forall e :: env.encode(e) != "" && FreeOf(env.encode(e), '\n'))
    && (forall e :: ValidText(e) ==> env.decode(env.encode(e)) == Some(e))
  }

  // ---- What makes a file verify --------------------------------------------------------

  /** The chain value the verifier holds before record `k`. */
  function ChainBefore(env: Env, records: seq<string>, k: nat): string
    requires k <= |records|
  {
    if k == 0 then GENESIS
    else match env.decode(records[k - 1])
      case Some(e) => e.hash
      case None => ""
  }

  /** Record `k` decodes, names the chain value before it, and carries its own hash. */
  predicate Links(env: Env, records: seq<string>, k: nat)
    requires k < |records|
  {
    match env.decode(records[k])
    case None => false
    case Some(e) => e.prevHash == ChainBefore(env, records, k) && env.digest(HashInput(e)) == e.hash
  }

  ghost predicate Verified(env: Env, records: seq<string>, k: nat) {
    k <= |records| && forall i :: 0 <= i < k ==> Links(env, records, i)
  }

  /** `k` is the length of the longest verified prefix. */
  ghost predicate StopsAt(env: Env, records: seq<string>, k: nat) {
    Verified(env, records, k) && (k < |records| ==> !Links(env, records, k))
  }

  ghost predicate Accepted(env: Env, data: string) {
    Verified(env, Records(data), |Records(data)|)
  }

  datatype Verdict =
    | Unreadable
    | Valid(count: nat)
    | Malformed(count: nat)
    | BrokenLink(count: nat)
    | HashMismatch(count: nat)

  /** The verdict on a list of records: the count is the length of the longest verified prefix,
      Valid means that is every record, and each failure names what is wrong with the first
      record beyond it. */
  ghost predicate Judges(env: Env, records: seq<string>, v: Verdict) {
    && !v.Unreadable?
    && StopsAt(env, records, v.count)
    && (v.Valid? <==> v.count == |records|)
    && (v.Malformed? <==> v.count < |records| && env.decode(records[v.count]).None?)
    && (v.BrokenLink? <==>
          && v.count < |records| && env.decode(records[v.count]).Some?
          && env.decode(records[v.count]).value.prevHash != ChainBefore(env, records, v.count))
  }

  /** What the verifier returns on a file: an error when there is none, else its judgement. */
  ghost predicate Reports(env: Env, file: Option<string>, v: Verdict) {
    if file.None? then v.Unreadable? else Judges(env, Records(file.value), v)
  }

  /** `VerifyChain`. */
  method VerifyChain(env: Env, file: Option<string>) returns (v: Verdict)
    ensures Reports(env, file, v)
    ensures v.Unreadable? <==> file.None?
    ensures file.Some? ==> (v.Valid? <==> Accepted(env, file.value))
  {
    if file.None? {
      return Unreadable;
    }
    var lines := SplitLines(file.value);
    v := VerifyLines(env, lines);
  }

  method VerifyLines(env: Env, lines: seq<string>) returns (v: Verdict)
    ensures Judges(env, NonEmpty(lines), v)
  {
    ghost var records := NonEmpty(lines);
    var prevHash, count: nat := GENESIS, 0;
    for i := 0 to |lines|
      invariant count == |NonEmpty(lines[..i])|
      invariant Verified(env, records, count)
      invariant prevHash == ChainBefore(env, records, count)
    {
      NextRecord(lines, i);
      if lines[i] != "" {
        var decoded := env.decode(lines[i]);
        if decoded.None? {
          return Malformed(count);
        }
        var e := decoded.value;
        if e.prevHash != prevHash {
          return BrokenLink(count);
        }
        if env.digest(HashInput(e)) != e.hash {
          return HashMismatch(count);
        }
        prevHash, count := e.hash, count + 1;
      }
    }
    assert lines[..|lines|] == lines;
    return Valid(count);
  }

  lemma NextRecord(lines: seq<string>, i: nat)
    requires i < |lines|
    ensures var c := |NonEmpty(lines[..i])|;
            if lines[i] == "" then |NonEmpty(lines[..i + 1])| == c
            else |NonEmpty(lines[..i + 1])| == c + 1 <= |NonEmpty(lines)| && NonEmpty(lines)[c] == lines[i]
  {
    var a, b := lines[..i], lines[i + 1..];
    assert lines[..i + 1] == a + [lines[i]];
    assert lines == a + [lines[i]] + b;
    NonEmptyAppend(a, [lines[i]]);
    NonEmptyAppend(a + [lines[i]], b);
    NonEmptyOne(lines[i]);
  }

  lemma StopsAtUnique(env: Env, records: seq<string>, j: nat, k: nat)
    requires StopsAt(env, records, j) && StopsAt(env, records, k)
    ensures j == k
  {
  }

  /** Success means that the file is there and every record in it links. */
  lemma ReportedValidExactly(env: Env, file: Option<string>, v: Verdict)
    requires Reports(env, file, v)
    ensures v.Valid? <==> file.Some? && Accepted(env, file.value)
    ensures v.Valid? ==> v.count == |Records(file.value)|
  {
    if file.Some? && Accepted(env, file.value) {
      StopsAtUnique(env, Records(file.value), v.count, |Records(file.value)|);
    }
  }

  /** The chain begins with the word genesis: that is what the first record must name. */
  lemma FirstRecordNamesGenesis(env: Env, records: seq<string>)
    requires records != []
    ensures Links(env, records, 0) <==>
            env.decode(records[0]).Some?
            && var e := env.decode(records[0]).value;
               e.prevHash == "genesis" && e.hash == env.digest(HashInput(e))
  {
  }

  /** Whether a record links depends only on the records up to it. */
  lemma LinksExtend(env: Env, a: seq<string>, b: seq<string>, k: nat)
    requires k < |a|
    ensures Links(env, a + b, k) <==> Links(env, a, k)
  {
    assert (a + b)[k] == a[k];
    assert k > 0 ==> (a + b)[k - 1] == a[k - 1];
  }

  lemma VerifiedExtend(env: Env, a: seq<string>, b: seq<string>, k: nat)
    requires k <= |a|
    ensures Verified(env, a + b, k) <==> Verified(env, a, k)
  {
    forall i | 0 <= i < k ensures Links(env, a + b, i) <==> Links(env, a, i) {
      LinksExtend(env, a, b, i);
    }
  }

  /** Every line-boundary prefix of an accepted file is accepted. */
  lemma AcceptedPrefix(env: Env, data: string, rest: string)
    requires Closed(data) && Accepted(env, data + rest)
    ensures Accepted(env, data)
  {
    RecordsAppend(data, rest);
    VerifiedExtend(env, Records(data), Records(rest), |Records(data)|);
  }

  // ---- Accepted files are hash chains --------------------------------------------------

  function BodyOf(env: Env, record: string): string {
    match env.decode(record) case Some(e) => Body(e) case None => ""
  }

  /** The hashed texts of the records, without their previous hash. */
  function Bodies(env: Env, records: seq<string>): (bodies: seq<string>) {
    seq(|records|, i requires 0 <= i < |records| => BodyOf(env, records[i]))
  }

  /** The hashed texts of the records that decode. */
  function FileInputs(env: Env, records: seq<string>): set<string> {
    set i | 0 <= i < |records| && env.decode(records[i]).Some? :: HashInput(env.decode(records[i]).value)
  }

  /** The chain value at the end of a verified file is the value of the chain of its bodies,
      and the chain hashed exactly the file's hash inputs. */
  lemma {:induction false} VerifiedIsChain(env: Env, records: seq<string>)
    requires Verified(env, records, |records|)
    ensures ChainBefore(env, records, |records|) == ChainVal(env.digest, Bodies(env, records))
    ensures InputSet(env.digest, Bodies(env, records)) == FileInputs(env, records)
    decreases |records|
  {
    if records == [] {
    } else {
      var n := |records| - 1;
      var front, last := records[..n], records[n];
      assert records == front + [last];
      VerifiedExtend(env, front, [last], n);
      VerifiedIsChain(env, front);
      assert Links(env, records, n);
      assert ChainBefore(env, front, n) == ChainBefore(env, records, n);
      HashInputSplits(env.decode(last).value);
      assert Bodies(env, records) == Bodies(env, front) + [BodyOf(env, last)];
      ChainSnoc(env.digest, Bodies(env, front), BodyOf(env, last));
      FileInputsSnoc(env, front, last);
    }
  }

  lemma FileInputsSnoc(env: Env, front: seq<string>, record: string)
    requires env.decode(record).Some?
    ensures FileInputs(env, front + [record]) == FileInputs(env, front) + {HashInput(env.decode(record).value)}
  {
    var all := front + [record];
    assert all[|front|] == record;
    forall x | x in FileInputs(env, front) ensures x in FileInputs(env, all) {
      var i :| 0 <= i < |front| && env.decode(front[i]).Some? && x == HashInput(env.decode(front[i]).value);
      assert all[i] == front[i];
    }
  }

  /** Chain binding: two accepted files whose last records carry the same hash have the same
      number of records and the same hash input at every position, or the two files contain
      different inputs with equal digests. */
  lemma FilesBoundByLastHash(env: Env, data1: string, data2: string)
    requires DigestShaped(env.digest)
    requires Accepted(env, data1) && Accepted(env, data2)
    requires var r1, r2 := Records(data1), Records(data2);
             ChainBefore(env, r1, |r1|) == ChainBefore(env, r2, |r2|)
    ensures var r1, r2 := Records(data1), Records(data2);
            || Collides(env.digest, FileInputs(env, r1) + FileInputs(env, r2))
            || (&& |r1| == |r2|
                && forall i {:trigger r1[i]} {:trigger r2[i]} :: 0 <= i < |r1| ==>
                     && env.decode(r1[i]).Some? && env.decode(r2[i]).Some?
                     && HashInput(env.decode(r1[i]).value) == HashInput(env.decode(r2[i]).value))
  {
    var r1, r2 := Records(data1), Records(data2);
    VerifiedIsChain(env, r1);
    VerifiedIsChain(env, r2);
    ChainBinding(env.digest, Bodies(env, r1), Bodies(env, r2));
    if Bodies(env, r1) == Bodies(env, r2) {
      assert |r1| == |r2| by {
        assert |Bodies(env, r1)| == |r1| && |Bodies(env, r2)| == |r2|;
      }
      forall i | 0 <= i < |r1|
        ensures env.decode(r1[i]).Some? && env.decode(r2[i]).Some?
        ensures HashInput(env.decode(r1[i]).value) == HashInput(env.decode(r2[i]).value)
      {
        InputFromBodies(env, r1, i);
        InputFromBodies(env, r2, i);
      }
    }
  }

  /** The hash input of a verified record, rebuilt from the bodies alone. */
  lemma InputFromBodies(env: Env, records: seq<string>, i: nat)
    requires i < |records| && Verified(env, records, |records|)
    ensures env.decode(records[i]).Some?
    ensures HashInput(env.decode(records[i]).value)
         == Bodies(env, records)[i] + "|" + ChainVal(env.digest, Bodies(env, records)[..i])
  {
    var front, rest := records[..i], records[i..];
    assert records == front + rest;
    VerifiedExtend(env, front, rest, i);
    VerifiedIsChain(env, front);
    assert Bodies(env, front) == Bodies(env, records)[..i];
    assert Links(env, records, i);
    assert ChainBefore(env, records, i) == ChainBefore(env, front, i);
    HashInputSplits(env.decode(records[i]).value);
  }

  /** The two lists of records decode to the same entries. */
  ghost predicate SameEntries(env: Env, r1: seq<string>, r2: seq<string>) {
    |r1| == |r2| && forall i :: 0 <= i < |r1| ==> env.decode(r1[i]) == env.decode(r2[i])
  }

  /** No entry holds the delimiter in one of the caller's texts. */
  ghost predicate AllTextFree(env: Env, records: seq<string>) {
    forall i :: 0 <= i < |records| && env.decode(records[i]).Some? ==> TextFree(env.decode(records[i]).value)
  }

  ghost predicate AllValidText(env: Env, records: seq<string>) {
    forall i :: 0 <= i < |records| && env.decode(records[i]).Some? ==> ValidText(env.decode(records[i]).value)
  }

  /** The previous hash of a verified record is a chain value, so it holds no delimiter. */
  lemma LinkIsDelimiterFree(env: Env, records: seq<string>, i: nat)
    requires DigestShaped(env.digest) && i < |records| && Verified(env, records, |records|)
    ensures env.decode(records[i]).Some? && '|' !in env.decode(records[i]).value.prevHash
  {
    var front, rest := records[..i], records[i..];
    assert records == front + rest;
    VerifiedExtend(env, front, rest, i);
    VerifiedIsChain(env, front);
    ChainValShape(env.digest, Bodies(env, front));
    assert Links(env, records, i) && ChainBefore(env, records, i) == ChainBefore(env, front, i);
  }

  /** Tamper evidence: when no entry of the first file holds the delimiter, an accepted file with
      the same last hash decodes to the very same entries. */
  lemma EntriesBoundByLastHash(env: Env, data1: string, data2: string)
    requires DigestShaped(env.digest)
    requires Accepted(env, data1) && Accepted(env, data2)
    requires var r1, r2 := Records(data1), Records(data2);
             ChainBefore(env, r1, |r1|) == ChainBefore(env, r2, |r2|)
    requires AllTextFree(env, Records(data1))
    ensures var r1, r2 := Records(data1), Records(data2);
            Collides(env.digest, FileInputs(env, r1) + FileInputs(env, r2)) || SameEntries(env, r1, r2)
  {
    var r1, r2 := Records(data1), Records(data2);
    FilesBoundByLastHash(env, data1, data2);
    if !Collides(env.digest, FileInputs(env, r1) + FileInputs(env, r2)) {
      forall i | 0 <= i < |r1| ensures env.decode(r1[i]) == env.decode(r2[i]) {
        LinkIsDelimiterFree(env, r1, i);
        var e, f := env.decode(r1[i]).value, env.decode(r2[i]).value;
        assert Links(env, r1, i) && Links(env, r2, i);
        HashInputInjective(e, f);
      }
    }
  }

  // ---- What the last hash does not bind ------------------------------------------------

  /** Putting a twin in the place of a record breaks no link and changes no hash input. */
  lemma SwapTwin(env: Env, records: seq<string>, i: nat, line: string, e: Entry, f: Entry)
    requires i < |records| && Verified(env, records, |records|)
    requires env.decode(records[i]) == Some(e) && env.decode(line) == Some(f) && Twin(e, f)
    ensures var swapped := records[i := line];
            && Verified(env, swapped, |swapped|)
            && ChainBefore(env, swapped, |swapped|) == ChainBefore(env, records, |records|)
            && FileInputs(env, swapped) == FileInputs(env, records)
  {
    var swapped := records[i := line];
    forall k | 0 <= k < |records| ensures Links(env, swapped, k) {
      assert Links(env, records, k);
    }
    SameInputs(env, records, swapped);
    SameInputs(env, swapped, records);
  }

  lemma SameInputs(env: Env, a: seq<string>, b: seq<string>)
    requires |a| == |b|
    requires forall k :: 0 <= k < |a| && env.decode(a[k]).Some? ==>
               env.decode(b[k]).Some? && HashInput(env.decode(b[k]).value) == HashInput(env.decode(a[k]).value)
    ensures FileInputs(env, a) <= FileInputs(env, b)
  {
    forall x | x in FileInputs(env, a) ensures x in FileInputs(env, b) {
      var k :| 0 <= k < |a| && env.decode(a[k]).Some? && x == HashInput(env.decode(a[k]).value);
      assert HashInput(env.decode(b[k]).value) == x;
    }
  }

  /** A delimiter hides a change: an accepted file with the delimiter in a text of record `i` can
      be rewritten so that this record decodes to another entry, every other record stays as it
      was, and the file is accepted with the same last hash. */
  lemma DelimiterHidesChange(env: Env, data: string, i: nat) returns (other: string)
    requires Lawful(env) && Accepted(env, data) && i < |Records(data)|
    requires var e := env.decode(Records(data)[i]);
             e.Some? && ValidText(e.value) && !TextFree(e.value)
    ensures var r1, r2 := Records(data), Records(other);
            && Accepted(env, other) && |r2| == |r1|
            && ChainBefore(env, r2, |r2|) == ChainBefore(env, r1, |r1|)
            && FileInputs(env, r2) == FileInputs(env, r1)
            && env.decode(r2[i]) != env.decode(r1[i])
            && forall k :: 0 <= k < |r1| && k != i ==> r2[k] == r1[k]
  {
    var records := Records(data);
    var e := env.decode(records[i]).value;
    var f := DelimiterMakesTwin(e);
    var line := env.encode(f);
    SwapTwin(env, records, i, line, e, f);
    other := Unlines(records[i := line]);
    RecordsAreLines(data);
    RecordsOfUnlines(records[i := line]);
  }

  /** An accepted file that shares its last hash with `data`, where no collision explains it. */
  ghost predicate Rival(env: Env, data: string, other: string) {
    var r1, r2 := Records(data), Records(other);
    && Accepted(env, other)
    && ChainBefore(env, r2, |r2|) == ChainBefore(env, r1, |r1|)
    && !Collides(env.digest, FileInputs(env, r1) + FileInputs(env, r2))
  }

  /** Tamper evidence, exactly: the last hash pins down every entry of an accepted file if and only
      if none of its entries holds the delimiter. */
  lemma LastHashPinsExactly(env: Env, data: string)
    requires Lawful(env) && Accepted(env, data) && AllValidText(env, Records(data))
    requires !Collides(env.digest, FileInputs(env, Records(data)))
    ensures AllTextFree(env, Records(data)) <==>
            forall other :: Rival(env, data, other) ==> SameEntries(env, Records(data), Records(other))
  {
    var records := Records(data);
    if AllTextFree(env, records) {
      forall other | Rival(env, data, other) ensures SameEntries(env, records, Records(other)) {
        EntriesBoundByLastHash(env, data, other);
      }
    } else {
      var i :| 0 <= i < |records| && env.decode(records[i]).Some? && !TextFree(env.decode(records[i]).value);
      var other := DelimiterHidesChange(env, data, i);
      assert FileInputs(env, records) + FileInputs(env, Records(other)) == FileInputs(env, records);
      assert Rival(env, data, other);
    }
  }
}
