/** The logger object, appending to its file. */
module AuditLogger {
  import opened Text
  import opened AuditEntry
  import opened HashChain
  import opened Lines
  import opened AuditLog
  import opened AuditHistory
  import opened Disk

  class Logger {
    const env: Env
    const file: File
    var lastHash: string

    ghost function State(): LogState
      reads this, file
    {
      LogState(file.content, lastHash)
    }

    /** `NewLogger`: the chain goes on from the file's last record.  On an accepted file that is
        the verifier's final chain value. */
    constructor (env: Env, file: File)
      ensures this.env == env && this.file == file
      ensures State() == Started(env, file.content)
      ensures DigestShaped(env.digest) && Accepted(env, Content(file.content)) ==>
                var records := Records(Content(file.content));
                lastHash == ChainBefore(env, records, |records|)
    {
      this.env, this.file := env, file;
      this.lastHash := GENESIS;
      new;
      LoadLastHash();
      if DigestShaped(env.digest) && Accepted(env, Content(file.content)) {
        ResumeIsChainEnd(env, Records(Content(file.content)));
      }
    }

    method LoadLastHash()
      requires lastHash == "genesis"
      modifies this
      ensures lastHash == Resume(env, file.content)
    {
      if file.content.None? || file.content.value == "" {
        return;
      }
      var last := ScanLastRecord(file.content.value);
      if last == "" {
        return;
      }
      var decoded := env.decode(last);
      if decoded.Some? && decoded.value.hash != "" {
        lastHash := decoded.value.hash;
      }
    }

    /** `Log`: true when the whole line reached the file.  The chain value advances either way. */
    method Log(call: Call, outcome: Outcome) returns (ok: bool)
      modifies this, file
      ensures State() == AfterLog(env, old(State()), call, outcome)
      ensures ok <==> outcome.Full?
    {
      var e := Draft(call, lastHash);
      e := e.(hash := env.digest(HashInput(e)));
      lastHash := e.hash;
      var line := env.encode(e);
      if outcome.NotOpened? {
        return false;
      }
      var bytes := line + "\n";
      var landed := if outcome.Full? then |bytes| else if outcome.n < |line| then outcome.n else |line|;
      var before := if file.content.Some? then file.content.value else "";
      file.content := Some(before + bytes[..landed]);
      assert bytes[..|bytes|] == bytes && bytes[..|line|] == line;
      assert outcome.Torn? ==> bytes[..landed] == line[..landed];
      return outcome.Full?;
    }
  }

  /** A logger restarted on a tidy file and given calls that all land whole keeps the file
      tidy: the verifier can only accept it, with one more record per call, unless there was no
      file and no call. */
  method LogAll(env: Env, file: File, calls: seq<Call>)
    requires Lawful(env) && Tidy(env, file.content)
    requires forall i :: 0 <= i < |calls| ==> ValidCall(calls[i])
    modifies file
    ensures Tidy(env, file.content)
    ensures |Records(Content(file.content))| == |Records(Content(old(file.content)))| + |calls|
    ensures forall v :: Reports(env, file.content, v) ==>
              v == if old(file.content).Some? || calls != [] then Valid(|Records(Content(file.content))|) else Unreadable
  {
    ghost var start := file.content;
    ghost var ops: seq<Op> := [];
    var logger := new Logger(env, file);
    for i := 0 to |calls|
      invariant logger.env == env && logger.file == file && fresh(logger)
      invariant |ops| == i && CleanRun(ops) && (i > 0 ==> Opens(ops[0]))
      invariant Watch(ops) == Monitor(i, [], None)
      invariant logger.State() == Drive(env, Started(env, start), ops)
    {
      var ok := logger.Log(calls[i], Full);
      ghost var op := Record(calls[i], Full);
      assert (ops + [op])[..i] == ops;
      ops := ops + [op];
    }
    GapFreeHistoryVerifies(env, start, ops, logger.State(), Watch(ops), RunInputs(env, Started(env, start), ops));
  }
}
