/** One audit record and the text its hash is computed from. */
module AuditEntry {
  import opened Text
  import Utf8

  datatype Entry = Entry(
    timestamp: string, eventType: string, comm: string, detail: string,
    pid: Uint32, threatScore: Int64,
    tier: string, reason: string, actionTaken: string,
    prevHash: string, hash: string)

  /** The ten fields under the hash, in the order of the format string. */
  function Fields(e: Entry): (f: seq<string>)
    ensures |f| == 10
  {
    [e.timestamp, e.eventType, e.comm, e.detail, IntText(e.pid), IntText(e.threatScore),
     e.tier, e.reason, e.actionTaken, e.prevHash]
  }

  /** The text that is hashed: everything except the hash itself. */
  function HashInput(e: Entry): string {
    Join('|', Fields(e))
  }

  /** The text written out: the ten values of the format string, in its order, with `|` between. */
  lemma HashInputText(e: Entry)
    ensures HashInput(e) ==
              e.timestamp + "|" + e.eventType + "|" + e.comm + "|" + e.detail + "|" + IntText(e.pid) + "|"
              + IntText(e.threatScore) + "|" + e.tier + "|" + e.reason + "|" + e.actionTaken + "|" + e.prevHash
  {
    JoinFirstFive('|', Fields(e));
    JoinLastFive('|', Fields(e));
  }

  lemma JoinTake(c: char, parts: seq<string>, n: nat)
    requires 0 < n < |parts|
    ensures Join(c, parts[..n + 1]) == Join(c, parts[..n]) + [c] + parts[n]
  {
    assert parts[..n + 1] == parts[..n] + [parts[n]];
    JoinSnoc(c, parts[..n], parts[n]);
  }

  lemma JoinFirstFive(c: char, f: seq<string>)
    requires |f| == 10
    ensures Join(c, f[..5]) == f[0] + [c] + f[1] + [c] + f[2] + [c] + f[3] + [c] + f[4]
  {
    assert f[..1] == [f[0]];
    JoinTake(c, f, 1);
    JoinTake(c, f, 2);
    JoinTake(c, f, 3);
    JoinTake(c, f, 4);
  }

  lemma JoinLastFive(c: char, f: seq<string>)
    requires |f| == 10
    ensures Join(c, f) == Join(c, f[..5]) + [c] + f[5] + [c] + f[6] + [c] + f[7] + [c] + f[8] + [c] + f[9]
  {
    JoinTake(c, f, 5);
    JoinTake(c, f, 6);
    JoinTake(c, f, 7);
    JoinTake(c, f, 8);
    JoinTake(c, f, 9);
    assert f[..10] == f;
  }

  /** The part of the hashed text in front of the previous hash. */
  function Body(e: Entry): string {
    Join('|', Fields(e)[..9])
  }

  lemma HashInputSplits(e: Entry)
    ensures HashInput(e) == Body(e) + "|" + e.prevHash
  {
    assert Fields(e) == Fields(e)[..9] + [e.prevHash];
    JoinSnoc('|', Fields(e)[..9], e.prevHash);
  }

  /** The fields a caller of `Log` gives in words hold no delimiter. */
  predicate TextFree(e: Entry) {
    && '|' !in e.timestamp && '|' !in e.eventType && '|' !in e.comm && '|' !in e.detail
    && '|' !in e.tier && '|' !in e.reason && '|' !in e.actionTaken
  }

  predicate DelimiterFree(e: Entry) {
    TextFree(e) && '|' !in e.prevHash
  }

  predicate ValidText(e: Entry) {
    && Utf8.Valid(e.timestamp) && Utf8.Valid(e.eventType) && Utf8.Valid(e.comm)
    && Utf8.Valid(e.detail) && Utf8.Valid(e.tier) && Utf8.Valid(e.reason)
    && Utf8.Valid(e.actionTaken) && Utf8.Valid(e.prevHash) && Utf8.Valid(e.hash)
  }

  lemma FieldsDetermineEntry(e: Entry, f: Entry)
    requires Fields(e) == Fields(f)
    ensures f.(hash := e.hash) == e
  {
    var a, b := Fields(e), Fields(f);
    assert a[0] == b[0] && a[1] == b[1] && a[2] == b[2] && a[3] == b[3] && a[4] == b[4];
    assert a[5] == b[5] && a[6] == b[6] && a[7] == b[7] && a[8] == b[8] && a[9] == b[9];
    IntTextInjective(e.pid, f.pid);
    IntTextInjective(e.threatScore, f.threatScore);
  }

  /** A delimiter-free entry is the only one with its hash input. */
  lemma HashInputInjective(e: Entry, f: Entry)
    requires DelimiterFree(e)
    requires HashInput(e) == HashInput(f)
    ensures f.(hash := e.hash) == e
  {
    assert AllFree('|', Fields(e));
    JoinInjective('|', Fields(e), Fields(f));
    FieldsDetermineEntry(e, f);
  }

  /** A different entry with the same hash input, the same previous hash and the same hash. */
  ghost predicate Twin(e: Entry, f: Entry) {
    f != e && HashInput(f) == HashInput(e) && f.prevHash == e.prevHash && f.hash == e.hash
  }

  /** An entry with a delimiter in one of the caller's texts has a twin: the delimiter can move
      to a neighbouring text, and valid UTF-8 stays valid. */
  lemma DelimiterMakesTwin(e: Entry) returns (f: Entry)
    requires !TextFree(e)
    ensures Twin(e, f) && (ValidText(e) ==> ValidText(f))
  {
    if '|' in e.timestamp || '|' in e.eventType || '|' in e.comm || '|' in e.detail {
      f := TwinInEvent(e);
    } else {
      f := TwinInDecision(e);
    }
  }

  lemma TwinInEvent(e: Entry) returns (f: Entry)
    requires '|' in e.timestamp || '|' in e.eventType || '|' in e.comm || '|' in e.detail
    ensures Twin(e, f) && (ValidText(e) ==> ValidText(f))
  {
    if '|' in e.timestamp {
      var x, y := CutAt(e.timestamp, '|');
      f := e.(timestamp := x, eventType := y + "|" + e.eventType);
      TwinByShift(e, f, 0, x, y);
      ValidRight(x, y, e.eventType);
    } else if '|' in e.eventType {
      var x, y := CutAt(e.eventType, '|');
      f := e.(eventType := x, comm := y + "|" + e.comm);
      TwinByShift(e, f, 1, x, y);
      ValidRight(x, y, e.comm);
    } else if '|' in e.comm {
      var x, y := CutAt(e.comm, '|');
      f := e.(comm := x, detail := y + "|" + e.detail);
      TwinByShift(e, f, 2, x, y);
      ValidRight(x, y, e.detail);
    } else {
      var x, y := CutAt(e.detail, '|');
      f := e.(comm := e.comm + "|" + x, detail := y);
      TwinByShift(f, e, 2, e.comm, x);
      ValidLeft(e.comm, x, y);
    }
  }

  lemma TwinInDecision(e: Entry) returns (f: Entry)
    requires '|' in e.tier || '|' in e.reason || '|' in e.actionTaken
    ensures Twin(e, f) && (ValidText(e) ==> ValidText(f))
  {
    if '|' in e.tier {
      var x, y := CutAt(e.tier, '|');
      f := e.(tier := x, reason := y + "|" + e.reason);
      TwinByShift(e, f, 6, x, y);
      ValidRight(x, y, e.reason);
    } else if '|' in e.reason {
      var x, y := CutAt(e.reason, '|');
      f := e.(reason := x, actionTaken := y + "|" + e.actionTaken);
      TwinByShift(e, f, 7, x, y);
      ValidRight(x, y, e.actionTaken);
    } else {
      var x, y := CutAt(e.actionTaken, '|');
      f := e.(reason := e.reason + "|" + x, actionTaken := y);
      TwinByShift(f, e, 7, e.reason, x);
      ValidLeft(e.reason, x, y);
    }
  }

  /** Moving a delimiter and what follows it into the next text keeps both valid. */
  lemma ValidRight(x: string, y: string, z: string)
    ensures Utf8.Valid(x + "|" + y) && Utf8.Valid(z) ==> Utf8.Valid(x) && Utf8.Valid(y + "|" + z)
  {
    if Utf8.Valid(x + "|" + y) && Utf8.Valid(z) {
      Utf8.ValidAroundAscii(x, '|', y);
      Utf8.ValidJoin(y, '|', z);
    }
  }

  /** So does moving a delimiter and what precedes it into the previous text. */
  lemma ValidLeft(z: string, x: string, y: string)
    ensures Utf8.Valid(z) && Utf8.Valid(x + "|" + y) ==> Utf8.Valid(z + "|" + x) && Utf8.Valid(y)
  {
    if Utf8.Valid(z) && Utf8.Valid(x + "|" + y) {
      Utf8.ValidAroundAscii(x, '|', y);
      Utf8.ValidJoin(z, '|', x);
    }
  }

  lemma TwinByShift(e: Entry, f: Entry, i: nat, x: string, y: string)
    requires i + 1 < 10 && Fields(e)[i] == x + "|" + y
    requires Fields(f) == Fields(e)[i := x][i + 1 := y + "|" + Fields(e)[i + 1]]
    ensures HashInput(f) == HashInput(e)
  {
    JoinShift('|', Fields(e), i, x, y);
  }

  /** The hashed text pins down an entry exactly when none of its text fields holds the
      delimiter. */
  lemma HashInputBindsExactly(e: Entry)
    ensures DelimiterFree(e) <==>
            forall f: Entry :: HashInput(f) == HashInput(e) ==> f.(hash := e.hash) == e
  {
    if DelimiterFree(e) {
      forall f: Entry | HashInput(f) == HashInput(e) ensures f.(hash := e.hash) == e {
        HashInputInjective(e, f);
      }
    } else if TextFree(e) {
      var x, y := CutAt(e.prevHash, '|');
      var f := e.(actionTaken := e.actionTaken + "|" + x, prevHash := y);
      TwinByShift(f, e, 8, e.actionTaken, x);
    } else {
      var f := DelimiterMakesTwin(e);
      assert f.(hash := e.hash) == f;
    }
  }
}
