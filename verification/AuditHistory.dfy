/** Whole histories of the audit log: process starts, `Log` calls that reach the file, and
    `Log` calls that do not. */
module AuditHistory {
  import opened Text
  import opened AuditEntry
  import opened HashChain
  import opened Lines
  import opened AuditLog
  import opened Disk
  import Utf8

  /** The arguments of one `Log` call, with the clock's reading. */
  datatype Call = Call(
    timestamp: string, eventType: string, comm: string, detail: string,
    pid: Uint32, threatScore: Int64, tier: string, reason: string, actionTaken: string)

  /** The file (absent or with content) and the logger's `lastHash`. */
  datatype LogState = LogState(file: Option<string>, lastHash: string)

  datatype Op = Start | Record(call: Call, outcome: Outcome)

  function Content(file: Option<string>): string {
    if file.Some? then file.value else ""
  }

  /** The entry a call makes, before and after it is given its hash. */
  function Draft(call: Call, prevHash: string): Entry {
    Entry(call.timestamp, call.eventType, call.comm, call.detail, call.pid, call.threatScore,
          call.tier, call.reason, call.actionTaken, prevHash, "")
  }

  function Sealed(env: Env, call: Call, prevHash: string): Entry {
    Draft(call, prevHash).(hash := env.digest(HashInput(Draft(call, prevHash))))
  }

  /** `loadLastHash`: the hash of the last record, if there is one and it decodes. */
  function Resume(env: Env, file: Option<string>): string {
    ResumeFrom(env, Records(Content(file)))
  }

  function ResumeFrom(env: Env, records: seq<string>): string {
    var last := LastOf(records);
    if last == "" then GENESIS
    else match env.decode(last)
      case Some(e) => if e.hash != "" then e.hash else GENESIS
      case None => GENESIS
  }

  function AfterWrite(file: Option<string>, line: string, outcome: Outcome): Option<string> {
    match outcome
    case NotOpened => file
    case Torn(n) => Some(Content(file) + (if n < |line| then line[..n] else line))
    case Full => Some(Content(file) + (line + "\n"))
  }

  /** `Log`: the chain value advances first, whatever becomes of the write. */
  function AfterLog(env: Env, s: LogState, call: Call, outcome: Outcome): LogState {
    var e := Sealed(env, call, s.lastHash);
    LogState(AfterWrite(s.file, env.encode(e), outcome), e.hash)
  }

  function Apply(env: Env, s: LogState, op: Op): LogState {
    match op
    case Start => s.(lastHash := Resume(env, s.file))
    case Record(call, outcome) => AfterLog(env, s, call, outcome)
  }

  function Drive(env: Env, s: LogState, ops: seq<Op>): LogState {
    if ops == [] then s
    else
      var n := |ops| - 1;
      Apply(env, Drive(env, s, ops[..n]), ops[n])
  }

  /** A process that has just started on a file. */
  function Started(env: Env, file: Option<string>): LogState {
    LogState(file, Resume(env, file))
  }

  predicate ValidCall(call: Call) {
    && Utf8.Valid(call.timestamp) && Utf8.Valid(call.eventType) && Utf8.Valid(call.comm)
    && Utf8.Valid(call.detail) && Utf8.Valid(call.tier) && Utf8.Valid(call.reason)
    && Utf8.Valid(call.actionTaken)
  }

  predicate Lands(op: Op) {
    op.Record? && op.outcome.Full?
  }

  predicate Lost(op: Op) {
    op.Record? && (op.outcome.NotOpened? || op.outcome == Torn(0))
  }

  /** A write that lands whole or not at all; what lands is valid UTF-8. */
  predicate CleanOp(op: Op) {
    op.Start? || Lost(op) || (Lands(op) && ValidCall(op.call))
  }

  ghost predicate CleanRun(ops: seq<Op>) {
    forall i :: 0 <= i < |ops| ==> CleanOp(ops[i])
  }

  /** A file the log may be started on: absent, or accepted and without a torn last line. */
  ghost predicate Tidy(env: Env, file: Option<string>) {
    Closed(Content(file)) && Accepted(env, Content(file))
  }

  /** What can be told of a history from its operations alone.
      `landed`: the calls that reached the file.
      `pending`: the bodies of the calls lost since the process last started.
      `gap`: how many calls had landed before the first call that landed after a loss in the
      same process, if there was one. */
  datatype Monitor = Monitor(landed: nat, pending: seq<string>, gap: Option<nat>)

  function Observe(m: Monitor, op: Op): Monitor {
    if Lost(op) then m.(pending := m.pending + [Body(Draft(op.call, ""))])
    else if Lands(op) then
      Monitor(m.landed + 1, [], if m.gap.None? && m.pending != [] then Some(m.landed) else m.gap)
    else m.(pending := [])
  }

  function Watch(ops: seq<Op>): Monitor {
    if ops == [] then Monitor(0, [], None)
    else
      var n := |ops| - 1;
      Observe(Watch(ops[..n]), ops[n])
  }

  /** The text a step hashes. */
  function Hashed(lastHash: string, op: Op): set<string> {
    match op
    case Start => {}
    case Record(call, _) => {HashInput(Draft(call, lastHash))}
  }

  /** Every text hashed in the history: the initial file's and the calls'. */
  function RunInputs(env: Env, s: LogState, ops: seq<Op>): set<string> {
    if ops == [] then FileInputs(env, Records(Content(s.file)))
    else
      var n := |ops| - 1;
      RunInputs(env, s, ops[..n]) + Hashed(Drive(env, s, ops[..n]).lastHash, ops[n])
  }

  // ---- The log at the level of records -------------------------------------------------

  /** The records in the file and the logger's chain value. */
  datatype View = View(records: seq<string>, lastHash: string)

  function ViewOf(s: LogState): View {
    View(Records(Content(s.file)), s.lastHash)
  }

  function ViewStep(env: Env, v: View, op: Op): View {
    match op
    case Start => v.(lastHash := ResumeFrom(env, v.records))
    case Record(call, _) =>
      var e := Sealed(env, call, v.lastHash);
      View(if Lands(op) then v.records + [env.encode(e)] else v.records, e.hash)
  }

  /** On a file without a torn line, a clean operation acts on the records alone: it keeps them
      or adds exactly one. */
  lemma StepOnRecords(env: Env, s: LogState, op: Op)
    requires Lawful(env) && Closed(Content(s.file)) && CleanOp(op)
    ensures Closed(Content(Apply(env, s, op).file))
    ensures ViewOf(Apply(env, s, op)) == ViewStep(env, ViewOf(s), op)
  {
    var data := Content(s.file);
    if Lands(op) {
      var line := env.encode(Sealed(env, op.call, s.lastHash));
      RecordsAppend(data, line + "\n");
      OneRecord(line);
    } else if Lost(op) {
      assert data + "" == data;
      assert Content(Apply(env, s, op).file) == data;
    }
  }

  ghost predicate NoneEmpty(records: seq<string>) {
    forall i :: 0 <= i < |records| ==> records[i] != ""
  }

  /** Where a new logger starts, on any file: from the hash of the last non-empty line if that line
      decodes and has one, and from the word genesis otherwise. */
  lemma ResumeExactly(env: Env, file: Option<string>)
    ensures var records := Records(Content(file));
            Resume(env, file) ==
              if records != [] && env.decode(records[|records| - 1]).Some?
                 && env.decode(records[|records| - 1]).value.hash != ""
              then env.decode(records[|records| - 1]).value.hash else "genesis"
  {
    assert NoneEmpty(Records(Content(file)));
  }

  /** What a write adds to a file: a beginning of the line and its newline, and all of it exactly when
      the write landed whole. */
  lemma WriteAddsBeginning(file: Option<string>, line: string, outcome: Outcome)
    ensures var after := Content(AfterWrite(file, line, outcome));
            && Content(file) <= after && after[|Content(file)|..] <= line + "\n"
            && |after| - |Content(file)| ==
                 match outcome
                 case NotOpened => 0
                 case Torn(n) => if n < |line| then n else |line|
                 case Full => |line| + 1
  {
    var after := Content(AfterWrite(file, line, outcome));
    var added := after[|Content(file)|..];
    assert outcome.Torn? ==> added == if outcome.n < |line| then line[..outcome.n] else line;
    assert outcome.Full? ==> added == line + "\n";
    assert outcome.NotOpened? ==> added == "";
  }

  /** On any accepted file a new logger starts from the verifier's final chain value. */
  lemma ResumeIsChainEnd(env: Env, records: seq<string>)
    requires DigestShaped(env.digest) && Verified(env, records, |records|) && NoneEmpty(records)
    ensures ResumeFrom(env, records) == ChainBefore(env, records, |records|)
  {
    if records != [] {
      var n := |records| - 1;
      assert Links(env, records, n);
      assert IsDigest(env.digest(HashInput(env.decode(records[n]).value)));
    }
  }

  // ---- One step at a time --------------------------------------------------------------

  /** The records verify, and the logger is ahead of them by exactly the lost bodies. */
  ghost predicate Healthy(env: Env, v: View, lost: seq<string>, inputs: set<string>) {
    var chain := Bodies(env, v.records) + lost;
    && NoneEmpty(v.records)
    && Verified(env, v.records, |v.records|)
    && v.lastHash == ChainVal(env.digest, chain)
    && InputSet(env.digest, chain) <= inputs
  }

  /** Everything before record `count` verifies, and that record names another chain value. */
  ghost predicate Broken(env: Env, records: seq<string>, count: nat) {
    && count < |records| && Verified(env, records, count)
    && env.decode(records[count]).Some?
    && env.decode(records[count]).value.prevHash != ChainBefore(env, records, count)
  }

  /** The verifier's one possible verdict on such records. */
  lemma BrokenIsReported(env: Env, records: seq<string>, count: nat, v: Verdict)
    requires Broken(env, records, count) && Judges(env, records, v)
    ensures v == BrokenLink(count)
  {
    StopsAtUnique(env, records, count, v.count);
  }

  lemma StartIsHealthy(env: Env, v: View, lost: seq<string>, inputs: set<string>)
    requires Lawful(env) && Healthy(env, v, lost, inputs)
    ensures Healthy(env, ViewStep(env, v, Start), [], inputs)
  {
    var bodies := Bodies(env, v.records);
    ResumeIsChainEnd(env, v.records);
    VerifiedIsChain(env, v.records);
    InputSetPrefix(env.digest, bodies + lost, |bodies|);
    assert (bodies + lost)[..|bodies|] == bodies && bodies + [] == bodies;
  }

  lemma DraftBody(call: Call, p: string, q: string)
    ensures Body(Draft(call, p)) == Body(Draft(call, q))
    ensures HashInput(Draft(call, p)) == Body(Draft(call, q)) + "|" + p
  {
    assert Fields(Draft(call, p))[..9] == Fields(Draft(call, q))[..9];
    HashInputSplits(Draft(call, p));
  }

  lemma LossStaysHealthy(env: Env, v: View, op: Op, lost: seq<string>, inputs: set<string>)
    requires Lawful(env) && Healthy(env, v, lost, inputs) && Lost(op)
    ensures Healthy(env, ViewStep(env, v, op), lost + [Body(Draft(op.call, ""))],
                    inputs + {HashInput(Draft(op.call, v.lastHash))})
  {
    var bodies := Bodies(env, v.records);
    var body := Body(Draft(op.call, ""));
    assert bodies + (lost + [body]) == bodies + lost + [body];
    ChainSnoc(env.digest, bodies + lost, body);
    DraftBody(op.call, v.lastHash, "");
  }

  lemma ChainTextIsValid(env: Env, bodies: seq<string>)
    requires DigestShaped(env.digest)
    ensures Utf8.Valid(ChainVal(env.digest, bodies))
  {
    var v := ChainVal(env.digest, bodies);
    ChainValShape(env.digest, bodies);
    assert forall i :: 0 <= i < |v| ==> v[i] in HEX_DIGITS || v[i] in GENESIS;
    assert forall c :: c in HEX_DIGITS || c in GENESIS ==> c as int <= 0x7F;
    Utf8.AsciiIsValid(v);
  }

  lemma SealedDecodes(env: Env, call: Call, prevHash: string, chain: seq<string>)
    requires Lawful(env) && ValidCall(call) && prevHash == ChainVal(env.digest, chain)
    ensures var e := Sealed(env, call, prevHash);
            env.decode(env.encode(e)) == Some(e) && HashInput(e) == HashInput(Draft(call, prevHash))
  {
    var e, d := Sealed(env, call, prevHash), Draft(call, prevHash);
    assert Fields(e) == Fields(d);
    ChainTextIsValid(env, chain);
    HashInputSplits(d);
    ChainSnoc(env.digest, chain, Body(d));
    ChainTextIsValid(env, chain + [Body(d)]);
    assert ValidText(e);
  }

  /** A record that names the current chain value and carries its own hash extends a verified
      file. */
  lemma VerifiedSnoc(env: Env, records: seq<string>, line: string, e: Entry)
    requires Verified(env, records, |records|)
    requires env.decode(line) == Some(e) && e.hash == env.digest(HashInput(e))
    requires e.prevHash == ChainBefore(env, records, |records|)
    ensures Verified(env, records + [line], |records| + 1)
    ensures ChainBefore(env, records + [line], |records| + 1) == e.hash
  {
    var longer := records + [line];
    VerifiedExtend(env, records, [line], |records|);
    assert ChainBefore(env, longer, |records|) == ChainBefore(env, records, |records|);
    assert Links(env, longer, |records|);
  }

  lemma LandingStaysHealthy(env: Env, v: View, op: Op, inputs: set<string>)
    requires Lawful(env) && Healthy(env, v, [], inputs) && Lands(op) && ValidCall(op.call)
    ensures Healthy(env, ViewStep(env, v, op), [], inputs + {HashInput(Draft(op.call, v.lastHash))})
  {
    var e := Sealed(env, op.call, v.lastHash);
    var line := env.encode(e);
    var bodies := Bodies(env, v.records);
    assert bodies + [] == bodies;
    SealedDecodes(env, op.call, v.lastHash, bodies);
    VerifiedIsChain(env, v.records);
    VerifiedSnoc(env, v.records, line, e);
    VerifiedIsChain(env, v.records + [line]);
    FileInputsSnoc(env, v.records, line);
    assert Bodies(env, v.records + [line]) + [] == Bodies(env, v.records + [line]);
  }

  /** The first call that lands after a loss in the same process breaks the file right after
      the records that were there, unless the digest collides on what the history hashed. */
  lemma LandingAfterLossBreaks(env: Env, v: View, op: Op, lost: seq<string>, inputs: set<string>)
    requires Lawful(env) && Healthy(env, v, lost, inputs) && lost != []
    requires Lands(op) && ValidCall(op.call)
    ensures Broken(env, ViewStep(env, v, op).records, |v.records|) || Collides(env.digest, inputs)
  {
    var line := env.encode(Sealed(env, op.call, v.lastHash));
    var longer := v.records + [line];
    var bodies := Bodies(env, v.records);
    var chain := bodies + lost;
    SealedDecodes(env, op.call, v.lastHash, chain);
    VerifiedIsChain(env, v.records);
    VerifiedExtend(env, v.records, [line], |v.records|);
    assert ChainBefore(env, longer, |v.records|) == ChainBefore(env, v.records, |v.records|);
    ChainNeverRepeats(env.digest, chain, |bodies|, |chain|);
    assert chain[..|bodies|] == bodies && chain[..|chain|] == chain;
  }

  lemma BrokenStaysBroken(env: Env, v: View, op: Op, count: nat)
    requires Broken(env, v.records, count)
    ensures Broken(env, ViewStep(env, v, op).records, count)
  {
    if Lands(op) {
      var line := env.encode(Sealed(env, op.call, v.lastHash));
      VerifiedExtend(env, v.records, [line], count);
      assert ChainBefore(env, v.records + [line], count) == ChainBefore(env, v.records, count);
    }
  }

  // ---- Whole histories -----------------------------------------------------------------

  /** What is known of a log that began with `base` verified records. */
  ghost predicate Tracks(env: Env, v: View, m: Monitor, base: nat, inputs: set<string>) {
    && |v.records| == base + m.landed
    && (m.gap.None? ==> Healthy(env, v, m.pending, inputs))
    && (m.gap.Some? ==> Broken(env, v.records, base + m.gap.value) || Collides(env.digest, inputs))
  }

  lemma TracksStep(env: Env, v: View, m: Monitor, base: nat, inputs: set<string>, op: Op)
    requires Lawful(env) && Tracks(env, v, m, base, inputs) && CleanOp(op)
    ensures Tracks(env, ViewStep(env, v, op), Observe(m, op), base, inputs + Hashed(v.lastHash, op))
  {
    if m.gap.Some? {
      if Broken(env, v.records, base + m.gap.value) {
        BrokenStaysBroken(env, v, op, base + m.gap.value);
      }
    } else if op.Start? {
      StartIsHealthy(env, v, m.pending, inputs);
    } else if Lost(op) {
      LossStaysHealthy(env, v, op, m.pending, inputs);
    } else if m.pending == [] {
      LandingStaysHealthy(env, v, op, inputs);
    } else {
      LandingAfterLossBreaks(env, v, op, m.pending, inputs);
    }
  }

  lemma {:induction false} HistoryTracks(env: Env, file: Option<string>, ops: seq<Op>)
    requires Lawful(env) && Tidy(env, file) && CleanRun(ops)
    ensures Closed(Content(Drive(env, Started(env, file), ops).file))
    ensures Tracks(env, ViewOf(Drive(env, Started(env, file), ops)), Watch(ops),
                   |Records(Content(file))|, RunInputs(env, Started(env, file), ops))
    decreases |ops|
  {
    var records := Records(Content(file));
    if ops == [] {
      ResumeIsChainEnd(env, records);
      VerifiedIsChain(env, records);
      assert Bodies(env, records) + [] == Bodies(env, records);
    } else {
      var s0 := Started(env, file);
      var n := |ops| - 1;
      var s := Drive(env, s0, ops[..n]);
      HistoryTracks(env, file, ops[..n]);
      StepOnRecords(env, s, ops[n]);
      TracksStep(env, ViewOf(s), Watch(ops[..n]), |records|, RunInputs(env, s0, ops[..n]), ops[n]);
    }
  }

  /** A history: `ops` applied to a process freshly started on `file` end in `s`; `m` is what
      the operations alone tell of it, and `inputs` are the texts it hashed. */
  ghost predicate History(env: Env, file: Option<string>, ops: seq<Op>, s: LogState, m: Monitor, inputs: set<string>) {
    && s == Drive(env, Started(env, file), ops)
    && m == Watch(ops)
    && inputs == RunInputs(env, Started(env, file), ops)
  }

  /** The call got as far as opening the file, which creates it. */
  predicate Opens(op: Op) {
    op.Record? && !op.outcome.NotOpened?
  }

  ghost predicate AnyOpens(ops: seq<Op>) {
    exists i :: 0 <= i < |ops| && Opens(ops[i])
  }

  /** The file is there exactly when it was there at the start or some call opened it. */
  lemma {:induction false} FileExistsExactly(env: Env, s: LogState, ops: seq<Op>)
    ensures Drive(env, s, ops).file.Some? <==> s.file.Some? || AnyOpens(ops)
    decreases |ops|
  {
    if ops == [] {
    } else {
      var n := |ops| - 1;
      FileExistsExactly(env, s, ops[..n]);
      AnyOpensSnoc(ops, n);
    }
  }

  lemma AnyOpensSnoc(ops: seq<Op>, n: nat)
    requires n == |ops| - 1
    ensures AnyOpens(ops) <==> AnyOpens(ops[..n]) || Opens(ops[n])
  {
    if AnyOpens(ops[..n]) {
      var i :| 0 <= i < n && Opens(ops[..n][i]);
      assert ops[i] == ops[..n][i];
    }
    if AnyOpens(ops) && !Opens(ops[n]) {
      var i :| 0 <= i < |ops| && Opens(ops[i]);
      assert ops[..n][i] == ops[i];
    }
  }

  /** The verifier's only verdict on a tidy file: an error when there is none, else success with
      every record counted. */
  lemma TidyIsReported(env: Env, file: Option<string>, v: Verdict)
    requires Tidy(env, file) && Reports(env, file, v)
    ensures v == if file.Some? then Valid(|Records(Content(file))|) else Unreadable
  {
    ReportedValidExactly(env, file, v);
  }

  /** Completeness across restarts: after a history without a gap the verifier can only accept the
      file, with the initial records plus the calls that landed as its count, once the file exists:
      it was there at the start or some call opened it. */
  lemma GapFreeHistoryVerifies(env: Env, file: Option<string>, ops: seq<Op>, s: LogState, m: Monitor, inputs: set<string>)
    requires Lawful(env) && Tidy(env, file) && CleanRun(ops)
    requires History(env, file, ops, s, m, inputs) && m.gap.None?
    ensures Tidy(env, s.file)
    ensures |Records(Content(s.file))| == |Records(Content(file))| + m.landed
    ensures forall v :: Reports(env, s.file, v) ==>
              v == if file.Some? || AnyOpens(ops) then Valid(|Records(Content(file))| + m.landed) else Unreadable
  {
    HistoryTracks(env, file, ops);
    FileExistsExactly(env, Started(env, file), ops);
    forall v | Reports(env, s.file, v)
      ensures v == if file.Some? || AnyOpens(ops) then Valid(|Records(Content(file))| + m.landed) else Unreadable
    {
      TidyIsReported(env, s.file, v);
    }
  }

  /** The calls that reach the file, in order. */
  function LandedCalls(ops: seq<Op>): seq<Call> {
    if ops == [] then []
    else
      var n := |ops| - 1;
      LandedCalls(ops[..n]) + (if Lands(ops[n]) then [ops[n].call] else [])
  }

  /** The record holds what the call was given. */
  ghost predicate Holds(env: Env, record: string, call: Call) {
    match env.decode(record)
    case None => false
    case Some(e) =>
      && e.timestamp == call.timestamp && e.eventType == call.eventType && e.comm == call.comm
      && e.detail == call.detail && e.pid == call.pid && e.threatScore == call.threatScore
      && e.tier == call.tier && e.reason == call.reason && e.actionTaken == call.actionTaken
  }

  /** The records are the initial ones and then one for each call, in order. */
  ghost predicate HoldsAll(env: Env, initial: seq<string>, calls: seq<Call>, records: seq<string>) {
    && initial <= records && |records| == |initial| + |calls|
    && forall k :: 0 <= k < |calls| ==> Holds(env, records[|initial| + k], calls[k])
  }

  lemma HoldsAllSnoc(env: Env, initial: seq<string>, calls: seq<Call>, records: seq<string>, call: Call, record: string)
    requires HoldsAll(env, initial, calls, records) && Holds(env, record, call)
    ensures HoldsAll(env, initial, calls + [call], records + [record])
  {
  }

  /** Nothing is lost, changed or reordered: after a history without a gap the file reads back as
      the initial records followed by every call that landed, field by field. */
  lemma {:induction false} HistoryReadsBack(env: Env, file: Option<string>, ops: seq<Op>)
    requires Lawful(env) && Tidy(env, file) && CleanRun(ops) && Watch(ops).gap.None?
    ensures HoldsAll(env, Records(Content(file)), LandedCalls(ops),
                     Records(Content(Drive(env, Started(env, file), ops).file)))
    decreases |ops|
  {
    if ops == [] {
    } else {
      var n := |ops| - 1;
      var front, op := ops[..n], ops[n];
      var s := Drive(env, Started(env, file), front);
      HistoryReadsBack(env, file, front);
      HistoryTracks(env, file, front);
      StepOnRecords(env, s, op);
      if Lands(op) {
        LandedLineHolds(env, ViewOf(s), op.call, Watch(front).pending, RunInputs(env, Started(env, file), front));
        HoldsAllSnoc(env, Records(Content(file)), LandedCalls(front), ViewOf(s).records, op.call,
                     env.encode(Sealed(env, op.call, s.lastHash)));
      }
    }
  }

  lemma LandedLineHolds(env: Env, v: View, call: Call, lost: seq<string>, inputs: set<string>)
    requires Lawful(env) && Healthy(env, v, lost, inputs) && ValidCall(call)
    ensures Holds(env, env.encode(Sealed(env, call, v.lastHash)), call)
  {
    SealedDecodes(env, call, v.lastHash, Bodies(env, v.records) + lost);
  }

  /** Lost writes are detected: on the file of a history with a gap the verifier can only report a
      broken link, with the records present before the gap as its count, however the history goes
      on, unless the digest collides on the texts the history hashed. */
  lemma GapIsDetected(env: Env, file: Option<string>, ops: seq<Op>, s: LogState, m: Monitor, inputs: set<string>)
    requires Lawful(env) && Tidy(env, file) && CleanRun(ops)
    requires History(env, file, ops, s, m, inputs) && m.gap.Some?
    ensures !Collides(env.digest, inputs) ==>
              forall v :: Reports(env, s.file, v) ==> v == BrokenLink(|Records(Content(file))| + m.gap.value)
  {
    var base := |Records(Content(file))|;
    assert Tracks(env, ViewOf(s), m, base, inputs) by {
      HistoryTracks(env, file, ops);
    }
    TracksGap(env, s, m, base, inputs);
  }

  lemma TracksGap(env: Env, s: LogState, m: Monitor, base: nat, inputs: set<string>)
    requires Tracks(env, ViewOf(s), m, base, inputs) && m.gap.Some?
    ensures !Collides(env.digest, inputs) ==>
              forall v :: Reports(env, s.file, v) ==> v == BrokenLink(base + m.gap.value)
  {
    if !Collides(env.digest, inputs) {
      forall v | Reports(env, s.file, v) ensures v == BrokenLink(base + m.gap.value) {
        GapIsReported(env, s.file, base + m.gap.value, v);
      }
    }
  }

  lemma GapIsReported(env: Env, file: Option<string>, count: nat, v: Verdict)
    requires Broken(env, Records(Content(file)), count) && Reports(env, file, v)
    ensures v == BrokenLink(count)
  {
    BrokenIsReported(env, Records(Content(file)), count, v);
  }

  lemma WatchSnoc(ops: seq<Op>, op: Op)
    ensures Watch(ops + [op]) == Observe(Watch(ops), op)
  {
    assert (ops + [op])[..|ops|] == ops;
  }

  /** A restart forgets a loss: the next process goes on from what is in the file, and the file
      verifies without the lost record. */
  lemma RestartForgetsLoss(env: Env, file: Option<string>, lost: Call, next: Call)
    requires Lawful(env) && Tidy(env, file) && ValidCall(next)
    ensures var ops := [Record(lost, NotOpened), Start, Record(next, Full)];
            var after := Drive(env, Started(env, file), ops).file;
            after.Some? && Tidy(env, after) && |Records(Content(after))| == |Records(Content(file))| + 1
  {
    var ops := [Record(lost, NotOpened), Start, Record(next, Full)];
    WatchSnoc([], ops[0]);
    WatchSnoc([ops[0]], ops[1]);
    WatchSnoc([ops[0], ops[1]], ops[2]);
    assert [] + [ops[0]] == [ops[0]] && [ops[0]] + [ops[1]] == [ops[0], ops[1]] && [ops[0], ops[1]] + [ops[2]] == ops;
    assert Watch(ops) == Monitor(1, [], None);
    assert Opens(ops[2]);
    FileExistsExactly(env, Started(env, file), ops);
    GapFreeHistoryVerifies(env, file, ops, Drive(env, Started(env, file), ops), Watch(ops),
                           RunInputs(env, Started(env, file), ops));
  }

  /** A loss at `i` and a landing at `j` with no process start in between. */
  ghost predicate GapBetween(ops: seq<Op>, i: nat, j: nat) {
    && i < j < |ops| && Lost(ops[i]) && Lands(ops[j])
    && forall k :: i < k < j ==> !ops[k].Start?
  }

  ghost predicate LossSinceStart(ops: seq<Op>, i: nat) {
    i < |ops| && Lost(ops[i]) && forall k :: i < k < |ops| ==> !ops[k].Start?
  }

  /** The call at `j` landed behind a loss in the same process. */
  ghost predicate GapAt(ops: seq<Op>, j: nat) {
    exists i: nat :: GapBetween(ops, i, j)
  }

  /** The first such call. */
  ghost predicate FirstGapAt(ops: seq<Op>, j: nat) {
    j < |ops| && GapAt(ops, j) && forall k: nat :: k < j ==> !GapAt(ops, k)
  }

  ghost predicate AnyGap(ops: seq<Op>) {
    exists j: nat :: GapAt(ops, j)
  }

  ghost predicate AnyLoss(ops: seq<Op>) {
    exists i: nat :: LossSinceStart(ops, i)
  }

  lemma GapAtFront(ops: seq<Op>, n: nat, j: nat)
    requires n == |ops| - 1 && j < n
    ensures GapAt(ops, j) <==> GapAt(ops[..n], j)
  {
    forall i: nat ensures GapBetween(ops, i, j) <==> GapBetween(ops[..n], i, j) {
      assert forall k :: 0 <= k < n ==> ops[..n][k] == ops[k];
    }
  }

  lemma GapAtLast(ops: seq<Op>, n: nat)
    requires n == |ops| - 1
    ensures GapAt(ops, n) <==> Lands(ops[n]) && AnyLoss(ops[..n])
  {
    forall i: nat ensures GapBetween(ops, i, n) <==> Lands(ops[n]) && LossSinceStart(ops[..n], i) {
      assert forall k :: 0 <= k < n ==> ops[..n][k] == ops[k];
    }
  }

  lemma AnyGapSnoc(ops: seq<Op>, n: nat)
    requires n == |ops| - 1
    ensures AnyGap(ops) <==> AnyGap(ops[..n]) || (Lands(ops[n]) && AnyLoss(ops[..n]))
  {
    GapAtLast(ops, n);
    if j: nat :| GapAt(ops, j) && j != n {
      GapAtFront(ops, n, j);
    }
    if j: nat :| GapAt(ops[..n], j) {
      GapAtFront(ops, n, j);
    }
  }

  lemma AnyLossSnoc(ops: seq<Op>, n: nat)
    requires n == |ops| - 1
    ensures AnyLoss(ops) <==> Lost(ops[n]) || (AnyLoss(ops[..n]) && !ops[n].Start?)
  {
    forall i: nat
      ensures LossSinceStart(ops, i) <==>
              if i == n then Lost(ops[n]) else LossSinceStart(ops[..n], i) && !ops[n].Start?
    {
      assert forall k :: 0 <= k < n ==> ops[..n][k] == ops[k];
    }
    assert LossSinceStart(ops, n) <==> Lost(ops[n]);
  }

  /** While nothing has landed behind a loss, a loss is pending exactly when a call was lost since
      the last start. */
  lemma {:induction false} PendingMeaning(ops: seq<Op>)
    requires CleanRun(ops)
    ensures Watch(ops).gap.None? ==> (Watch(ops).pending != [] <==> AnyLoss(ops))
    ensures Watch(ops).gap.Some? <==> AnyGap(ops)
    decreases |ops|
  {
    if ops == [] {
    } else {
      var n := |ops| - 1;
      PendingMeaning(ops[..n]);
      AnyGapSnoc(ops, n);
      AnyLossSnoc(ops, n);
    }
  }

  lemma FirstGapFront(ops: seq<Op>, n: nat, j: nat)
    requires n == |ops| - 1 && j < n
    ensures FirstGapAt(ops, j) <==> FirstGapAt(ops[..n], j)
    ensures ops[..n][..j] == ops[..j]
  {
    forall k: nat | k <= j ensures GapAt(ops, k) <==> GapAt(ops[..n], k) {
      GapAtFront(ops, n, k);
    }
  }

  lemma FirstGapLast(ops: seq<Op>, n: nat)
    requires n == |ops| - 1
    ensures FirstGapAt(ops, n) <==> !AnyGap(ops[..n]) && Lands(ops[n]) && AnyLoss(ops[..n])
  {
    GapAtLast(ops, n);
    forall k: nat | k < n ensures GapAt(ops, k) <==> GapAt(ops[..n], k) {
      GapAtFront(ops, n, k);
    }
  }

  lemma {:induction false} LandedIsCount(ops: seq<Op>)
    ensures Watch(ops).landed == |LandedCalls(ops)|
    decreases |ops|
  {
    if ops == [] {
    } else {
      LandedIsCount(ops[..|ops| - 1]);
    }
  }

  /** What a gap report must say: nothing unless some call landed behind a loss, and else how many
      calls had landed before the first that did. */
  ghost predicate ReportsGap(ops: seq<Op>, gap: Option<nat>) {
    && (gap.Some? <==> exists j: nat :: FirstGapAt(ops, j))
    && (forall j: nat :: FirstGapAt(ops, j) ==> gap == Some(|LandedCalls(ops[..j])|))
  }

  lemma ReportCarries(ops: seq<Op>, n: nat, gap: Option<nat>)
    requires n == |ops| - 1 && ReportsGap(ops[..n], gap) && !FirstGapAt(ops, n)
    ensures ReportsGap(ops, gap)
  {
    if gap.Some? {
      var j: nat :| FirstGapAt(ops[..n], j);
      FirstGapFront(ops, n, j);
    }
    forall j: nat | FirstGapAt(ops, j) ensures FirstGapAt(ops[..n], j) && gap == Some(|LandedCalls(ops[..j])|) {
      FirstGapFront(ops, n, j);
    }
  }

  lemma ReportBegins(ops: seq<Op>, n: nat)
    requires n == |ops| - 1 && FirstGapAt(ops, n)
    ensures ReportsGap(ops, Some(|LandedCalls(ops[..n])|))
  {
  }

  /** The monitor reports what it says: `landed` counts the calls that reached the file; there is a
      gap exactly when some call landed behind a loss with no start in between, and its value is
      the number of calls that had landed before the first such call. */
  lemma {:induction false} GapMeaning(ops: seq<Op>)
    requires CleanRun(ops)
    ensures Watch(ops).landed == |LandedCalls(ops)|
    ensures ReportsGap(ops, Watch(ops).gap)
    decreases |ops|
  {
    LandedIsCount(ops);
    if ops == [] {
    } else {
      var n := |ops| - 1;
      GapMeaning(ops[..n]);
      PendingMeaning(ops[..n]);
      FirstGapLast(ops, n);
      if FirstGapAt(ops, n) {
        LandedIsCount(ops[..n]);
        ReportBegins(ops, n);
      } else {
        ReportCarries(ops, n, Watch(ops[..n]).gap);
      }
    }
  }

  /** The first call that landed behind a loss. */
  lemma FindFirstGap(ops: seq<Op>) returns (j: nat)
    requires CleanRun(ops) && Watch(ops).gap.Some?
    ensures FirstGapAt(ops, j) && Watch(ops).gap == Some(|LandedCalls(ops[..j])|)
  {
    GapMeaning(ops);
    j :| FirstGapAt(ops, j);
  }

  // ---- Forged histories ----------------------------------------------------------------

  /** The calls, each landing whole. */
  function AllFull(calls: seq<Call>): seq<Op> {
    if calls == [] then []
    else
      var n := |calls| - 1;
      AllFull(calls[..n]) + [Record(calls[n], Full)]
  }

  lemma {:induction false} AllFullLands(calls: seq<Call>)
    requires forall i :: 0 <= i < |calls| ==> ValidCall(calls[i])
    ensures CleanRun(AllFull(calls)) && Watch(AllFull(calls)) == Monitor(|calls|, [], None)
    ensures LandedCalls(AllFull(calls)) == calls
    decreases |calls|
  {
    if calls == [] {
    } else {
      var n := |calls| - 1;
      var front, op := AllFull(calls[..n]), Record(calls[n], Full);
      AllFullLands(calls[..n]);
      WatchSnoc(front, op);
      assert (front + [op])[..|front|] == front;
      assert calls == calls[..n] + [calls[n]];
    }
  }

  /** Verification alone does not see a rewritten end: cut an accepted file at any line boundary,
      even at the very beginning, and there is an accepted file that goes on with any calls
      whatsoever. */
  lemma ForgedTailVerifies(env: Env, kept: string, cut: string, calls: seq<Call>) returns (forged: string)
    requires Lawful(env) && Closed(kept) && Accepted(env, kept + cut)
    requires forall i :: 0 <= i < |calls| ==> ValidCall(calls[i])
    ensures Closed(forged) && Accepted(env, forged)
    ensures HoldsAll(env, Records(kept), calls, Records(forged))
  {
    AcceptedPrefix(env, kept, cut);
    AllFullLands(calls);
    var ops, start := AllFull(calls), Started(env, Some(kept));
    var s := Drive(env, start, ops);
    GapFreeHistoryVerifies(env, Some(kept), ops, s, Watch(ops), RunInputs(env, start, ops));
    HistoryReadsBack(env, Some(kept), ops);
    forged := Content(s.file);
  }

  /** The entries a logger makes of the calls, going on from a chain value. */
  function SealAll(env: Env, prevHash: string, calls: seq<Call>): (entries: seq<Entry>)
    ensures |entries| == |calls|
    decreases |calls|
  {
    if calls == [] then []
    else
      var e := Sealed(env, calls[0], prevHash);
      [e] + SealAll(env, e.hash, calls[1..])
  }

  ghost predicate DecodesTo(env: Env, records: seq<string>, entries: seq<Entry>) {
    |records| == |entries| && forall i :: 0 <= i < |records| ==> env.decode(records[i]) == Some(entries[i])
  }

  /** What a call must have been given for the entry. */
  function CallIn(e: Entry): Call {
    Call(e.timestamp, e.eventType, e.comm, e.detail, e.pid, e.threatScore, e.tier, e.reason, e.actionTaken)
  }

  lemma SealedFields(env: Env, call: Call, prevHash: string)
    ensures var e := Sealed(env, call, prevHash);
            e.prevHash == prevHash && e.hash == env.digest(HashInput(e)) && CallIn(e) == call
  {
    assert Fields(Sealed(env, call, prevHash)) == Fields(Draft(call, prevHash));
  }

  /** An entry that carries its own hash is the one a logger would have made. */
  lemma ResealedIsSame(env: Env, e: Entry)
    requires e.hash == env.digest(HashInput(e))
    ensures Sealed(env, CallIn(e), e.prevHash) == e
  {
    assert Fields(Draft(CallIn(e), e.prevHash)) == Fields(e);
  }

  lemma SealedRecordVerifies(env: Env, kept: seq<string>, record: string, call: Call)
    requires Verified(env, kept, |kept|)
    requires env.decode(record) == Some(Sealed(env, call, ChainBefore(env, kept, |kept|)))
    ensures Verified(env, kept + [record], |kept + [record]|)
    ensures ChainBefore(env, kept + [record], |kept + [record]|) == Sealed(env, call, ChainBefore(env, kept, |kept|)).hash
  {
    var e := Sealed(env, call, ChainBefore(env, kept, |kept|));
    SealedFields(env, call, ChainBefore(env, kept, |kept|));
    VerifiedSnoc(env, kept, record, e);
  }

  lemma SealAllTail(env: Env, prevHash: string, tail: seq<string>, calls: seq<Call>)
    requires DecodesTo(env, tail, SealAll(env, prevHash, calls)) && tail != []
    ensures calls != [] && env.decode(tail[0]) == Some(Sealed(env, calls[0], prevHash))
    ensures DecodesTo(env, tail[1..], SealAll(env, Sealed(env, calls[0], prevHash).hash, calls[1..]))
  {
    var e := Sealed(env, calls[0], prevHash);
    var entries := SealAll(env, prevHash, calls);
    assert entries[0] == e && entries[1..] == SealAll(env, e.hash, calls[1..]);
  }

  lemma {:induction false} SealedTailVerifies(env: Env, kept: seq<string>, tail: seq<string>, calls: seq<Call>)
    requires Verified(env, kept, |kept|)
    requires DecodesTo(env, tail, SealAll(env, ChainBefore(env, kept, |kept|), calls))
    ensures Verified(env, kept + tail, |kept| + |tail|)
    decreases |tail|
  {
    if tail == [] {
      assert kept + tail == kept;
    } else {
      SealAllTail(env, ChainBefore(env, kept, |kept|), tail, calls);
      SealedRecordVerifies(env, kept, tail[0], calls[0]);
      SealedTailVerifies(env, kept + [tail[0]], tail[1..], calls[1..]);
      assert kept + [tail[0]] + tail[1..] == kept + tail;
    }
  }

  lemma {:induction false} VerifiedTailIsSealed(env: Env, kept: seq<string>, tail: seq<string>) returns (calls: seq<Call>)
    requires Verified(env, kept + tail, |kept| + |tail|)
    ensures DecodesTo(env, tail, SealAll(env, ChainBefore(env, kept, |kept|), calls))
    decreases |tail|
  {
    if tail == [] {
      calls := [];
    } else {
      var more, n := kept + [tail[0]], |kept|;
      assert more + tail[1..] == kept + tail;
      assert Links(env, kept + tail, n) && (kept + tail)[n] == tail[0];
      var e := env.decode(tail[0]).value;
      assert ChainBefore(env, kept + tail, n) == ChainBefore(env, kept, n);
      assert ChainBefore(env, more, n + 1) == e.hash;
      ResealedIsSame(env, e);
      var rest := VerifiedTailIsSealed(env, more, tail[1..]);
      calls := [CallIn(e)] + rest;
      assert calls[1..] == rest;
    }
  }

  /** The new records are what a logger going on from the last record kept would have written. */
  ghost predicate GoesOn(env: Env, kept: seq<string>, tail: seq<string>, calls: seq<Call>) {
    DecodesTo(env, tail, SealAll(env, ChainBefore(env, kept, |kept|), calls))
  }

  /** Which alterations of a log pass unseen, exactly: keep any verified records and replace what
      followed them; the result verifies if and only if the new records go on from the kept ones
      with some calls. */
  lemma AlterationPassesExactly(env: Env, kept: seq<string>, tail: seq<string>)
    requires Verified(env, kept, |kept|)
    ensures Verified(env, kept + tail, |kept| + |tail|) <==> exists calls :: GoesOn(env, kept, tail, calls)
  {
    if Verified(env, kept + tail, |kept| + |tail|) {
      var calls := VerifiedTailIsSealed(env, kept, tail);
      assert GoesOn(env, kept, tail, calls);
    }
    if calls :| GoesOn(env, kept, tail, calls) {
      SealedTailVerifies(env, kept, tail, calls);
    }
  }
}
