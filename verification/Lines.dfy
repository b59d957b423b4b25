/** Splitting a log file into lines, in the two ways the log reads it. */
module Lines {

  ghost predicate FreeOf(s: string, c: char) {
    forall i :: 0 <= i < |s| ==> s[i] != c
  }

  function IndexOf(s: string, c: char): (k: nat)
    ensures k <= |s|
    ensures forall i :: 0 <= i < k ==> s[i] != c
    ensures k < |s| ==> s[k] == c
  {
    if s == "" || s[0] == c then 0 else 1 + IndexOf(s[1..], c)
  }

  /** `strings.Split(s, ":")[0]`: the text before the first colon. */
  function FirstPiece(s: string): string {
    s[..IndexOf(s, ':')]
  }

  /** Newline-separated pieces; an empty last piece is not a line. */
  function LinesOf(data: string): seq<string> {
    if data == "" then []
    else
      var k := IndexOf(data, '\n');
      if k == |data| then [data] else [data[..k]] + LinesOf(data[k + 1..])
  }

  function NonEmpty(lines: seq<string>): (r: seq<string>)
    ensures forall i :: 0 <= i < |r| ==> r[i] != ""
  {
    if lines == [] then []
    else (if lines[0] == "" then [] else [lines[0]]) + NonEmpty(lines[1..])
  }

  /** The lines that carry a record. */
  function Records(data: string): seq<string> {
    NonEmpty(LinesOf(data))
  }

  function Unlines(lines: seq<string>): string {
    if lines == [] then "" else lines[0] + "\n" + Unlines(lines[1..])
  }

  /** No unfinished last line. */
  predicate Closed(data: string) {
    data == "" || data[|data| - 1] == '\n'
  }

  ghost predicate AllLines(lines: seq<string>) {
    forall i :: 0 <= i < |lines| ==> FreeOf(lines[i], '\n')
  }

  lemma LinesOfCut(data: string, k: nat)
    requires k < |data| && data[k] == '\n' && FreeOf(data[..k], '\n')
    ensures LinesOf(data) == [data[..k]] + LinesOf(data[k + 1..])
  {
    var j := IndexOf(data, '\n');
    assert forall i :: 0 <= i < k ==> data[i] == data[..k][i];
    assert j == k;
  }

  lemma LinesOfLast(data: string)
    requires data != "" && FreeOf(data, '\n')
    ensures LinesOf(data) == [data]
  {
    assert IndexOf(data, '\n') == |data|;
  }

  lemma {:induction false} LinesAppend(a: string, b: string)
    requires Closed(a)
    ensures LinesOf(a + b) == LinesOf(a) + LinesOf(b)
    decreases |a|
  {
    if a == "" {
      assert a + b == b;
    } else {
      var k := IndexOf(a, '\n');
      assert k < |a|;
      assert (a + b)[..k] == a[..k] && (a + b)[k + 1..] == a[k + 1..] + b;
      LinesOfCut(a + b, k);
      LinesAppend(a[k + 1..], b);
    }
  }

  lemma {:induction false} NonEmptyAppend(a: seq<string>, b: seq<string>)
    ensures NonEmpty(a + b) == NonEmpty(a) + NonEmpty(b)
    decreases |a|
  {
    if a == [] {
      assert a + b == b;
    } else {
      assert (a + b)[1..] == a[1..] + b;
      NonEmptyAppend(a[1..], b);
    }
  }

  lemma NonEmptyOne(line: string)
    ensures NonEmpty([line]) == if line == "" then [] else [line]
  {
    assert NonEmpty([line]) == (if line == "" then [] else [line]) + NonEmpty([]);
  }

  lemma RecordsAppend(a: string, b: string)
    requires Closed(a)
    ensures Records(a + b) == Records(a) + Records(b)
  {
    LinesAppend(a, b);
    NonEmptyAppend(LinesOf(a), LinesOf(b));
  }

  lemma OneLine(line: string)
    requires FreeOf(line, '\n')
    ensures LinesOf(line + "\n") == [line]
  {
    var data := line + "\n";
    assert data[..|line|] == line && data[|line| + 1..] == "";
    LinesOfCut(data, |line|);
    assert [line] + LinesOf("") == [line];
  }

  lemma OneRecord(line: string)
    requires line != "" && FreeOf(line, '\n')
    ensures Records(line + "\n") == [line]
  {
    OneLine(line);
    NonEmptyOne(line);
  }

  lemma {:induction false} UnlinesSnoc(lines: seq<string>, line: string)
    ensures Unlines(lines + [line]) == Unlines(lines) + (line + "\n")
  {
    if lines == [] {
      assert Unlines([line]) == line + "\n" + Unlines([]);
    } else {
      assert (lines + [line])[1..] == lines[1..] + [line];
      UnlinesSnoc(lines[1..], line);
    }
  }

  /** Splitting undoes joining. */
  lemma {:induction false} LinesOfUnlines(lines: seq<string>)
    requires AllLines(lines)
    ensures LinesOf(Unlines(lines)) == lines
  {
    if lines == [] {
    } else {
      var line, tail := lines[0], lines[1..];
      LinesOfUnlines(tail);
      OneLine(line);
      LinesAppend(line + "\n", Unlines(tail));
      assert lines == [line] + tail;
    }
  }

  lemma {:induction false} LinesOfAreLines(data: string)
    ensures AllLines(LinesOf(data))
    decreases |data|
  {
    if data == "" {
    } else {
      var k := IndexOf(data, '\n');
      if k < |data| {
        LinesOfAreLines(data[k + 1..]);
      }
    }
  }

  lemma {:induction false} NonEmptyAreLines(lines: seq<string>)
    requires AllLines(lines)
    ensures AllLines(NonEmpty(lines))
  {
    if lines == [] {
    } else {
      NonEmptyAreLines(lines[1..]);
    }
  }

  lemma RecordsAreLines(data: string)
    ensures AllLines(Records(data))
  {
    LinesOfAreLines(data);
    NonEmptyAreLines(LinesOf(data));
  }

  lemma {:induction false} NonEmptyKeeps(lines: seq<string>)
    requires forall i :: 0 <= i < |lines| ==> lines[i] != ""
    ensures NonEmpty(lines) == lines
  {
    if lines == [] {
    } else {
      NonEmptyKeeps(lines[1..]);
    }
  }

  /** A file written record by record reads back as those records. */
  lemma RecordsOfUnlines(records: seq<string>)
    requires AllLines(records) && forall i :: 0 <= i < |records| ==> records[i] != ""
    ensures Records(Unlines(records)) == records
  {
    LinesOfUnlines(records);
    NonEmptyKeeps(records);
  }

  /** What a left-to-right scan knows at position `i` of the line that began at `start`. */
  ghost predicate Scanned(data: string, start: nat, i: nat, lines: seq<string>) {
    && start <= i <= |data|
    && AllLines(lines) && Unlines(lines) == data[..start]
    && (forall k :: start <= k < i ==> data[k] != '\n')
  }

  lemma ScanNewline(data: string, start: nat, i: nat, lines: seq<string>)
    requires Scanned(data, start, i, lines)
    requires i < |data| && data[i] == '\n'
    ensures Scanned(data, i + 1, i + 1, lines + [data[start..i]])
  {
    UnlinesSnoc(lines, data[start..i]);
    assert data[..start] + (data[start..i] + "\n") == data[..i + 1];
  }

  function WithTail(lines: seq<string>, tail: string): seq<string> {
    if tail == "" then lines else lines + [tail]
  }

  lemma ScanEnd(data: string, start: nat, lines: seq<string>)
    requires Scanned(data, start, |data|, lines)
    ensures LinesOf(data) == WithTail(lines, data[start..])
  {
    var tail := data[start..];
    assert data == data[..start] + tail;
    LinesOfUnlines(lines);
    ClosedUnlines(lines);
    LinesAppend(data[..start], tail);
    TailLines(tail);
    assert lines + [] == lines;
  }

  lemma TailLines(tail: string)
    requires FreeOf(tail, '\n')
    ensures LinesOf(tail) == if tail == "" then [] else [tail]
  {
    if tail != "" {
      LinesOfLast(tail);
    }
  }

  lemma ScanRebuilds(data: string, start: nat, lines: seq<string>)
    requires Scanned(data, start, |data|, lines)
    ensures AllLines(WithTail(lines, data[start..]))
    ensures Unlines(WithTail(lines, data[start..])) == data + (if Closed(data) then "" else "\n")
  {
    var tail := data[start..];
    assert data == data[..start] + tail;
    if tail == "" {
      ClosedUnlines(lines);
    } else {
      UnlinesSnoc(lines, tail);
      assert data[..start] + (tail + "\n") == data + "\n";
    }
  }

  lemma {:induction false} ClosedUnlines(lines: seq<string>)
    ensures Closed(Unlines(lines))
  {
    if lines == [] {
    } else {
      ClosedUnlines(lines[1..]);
    }
  }

  /** `splitLines`: joining the lines with newlines rebuilds the data up to one final newline. */
  method SplitLines(data: string) returns (lines: seq<string>)
    ensures AllLines(lines)
    ensures Unlines(lines) == data + (if Closed(data) then "" else "\n")
    ensures lines == LinesOf(data)
  {
    lines := [];
    var start := 0;
    for i := 0 to |data|
      invariant start <= i
      invariant Scanned(data, start, i, lines)
    {
      if data[i] == '\n' {
        ScanNewline(data, start, i, lines);
        lines := lines + [data[start..i]];
        start := i + 1;
      }
    }
    ScanEnd(data, start, lines);
    ScanRebuilds(data, start, lines);
    if start < |data| {
      lines := lines + [data[start..]];
    }
  }

  function LastOf(lines: seq<string>): string {
    if lines == [] then "" else lines[|lines| - 1]
  }

  lemma LastRecordSnoc(lines: seq<string>, line: string)
    ensures LastOf(NonEmpty(lines + [line])) == if line == "" then LastOf(NonEmpty(lines)) else line
  {
    NonEmptyAppend(lines, [line]);
    NonEmptyOne(line);
  }

  /** The scan's view of the last record so far. */
  ghost predicate LastSeen(lines: seq<string>, last: string) {
    last == LastOf(NonEmpty(lines))
  }

  lemma SeeLine(lines: seq<string>, last: string, line: string)
    requires LastSeen(lines, last)
    ensures LastSeen(lines + [line], if line == "" then last else line)
  {
    LastRecordSnoc(lines, line);
  }

  lemma SeeEnd(data: string, start: nat, lines: seq<string>, last: string)
    requires Scanned(data, start, |data|, lines) && LastSeen(lines, last)
    ensures LastOf(Records(data)) == if start < |data| then data[start..] else last
  {
    ScanEnd(data, start, lines);
    SeeLine(lines, last, data[start..]);
  }

  /** The scan inside `loadLastHash`: it never builds the list of lines, yet it ends with the
      last record of the file ("" when there is none). */
  method ScanLastRecord(data: string) returns (last: string)
    ensures last == LastOf(Records(data))
  {
    last := "";
    var start := 0;
    ghost var lines: seq<string> := [];
    for i := 0 to |data|
      invariant start <= i
      invariant Scanned(data, start, i, lines)
      invariant LastSeen(lines, last)
    {
      if data[i] == '\n' {
        ScanNewline(data, start, i, lines);
        SeeLine(lines, last, data[start..i]);
        lines := lines + [data[start..i]];
        if i > start {
          last := data[start..i];
        }
        start := i + 1;
      }
    }
    SeeEnd(data, start, lines, last);
    if start < |data| {
      last := data[start..];
    }
  }
}
