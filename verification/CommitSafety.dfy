// What every run of the commit protocol guarantees.
module CommitSafety {

  import opened Wrappers
  import opened CommitProtocol

  /** A state that some run of some number of sessions leads to. */
  ghost predicate Reachable(st: State) {
    exists start, run :: Leads(start, run, st)
  }

  ghost predicate Leads(start: State, run: seq<Step>, st: State) {
    Init(start) && IsRun(start, run) && After(start, run) == st
  }

  /** A run in two parts. */
  lemma {:induction false} RunConcat(st: State, run: seq<Step>, more: seq<Step>)
    ensures IsRun(st, run + more) <==> IsRun(st, run) && IsRun(After(st, run), more)
    ensures After(st, run + more) == After(After(st, run), more)
    decreases |run|
  {
    hide Enabled, Apply;
    if run == [] {
      assert run + more == more;
    } else {
      assert (run + more)[0] == run[0] && (run + more)[1..] == run[1..] + more;
      RunConcat(Apply(st, run[0]), run[1..], more);
    }
  }

  lemma OneStep(st: State, step: Step)
    ensures IsRun(st, [step]) <==> Enabled(st, step)
    ensures After(st, [step]) == Apply(st, step)
  {
    hide Enabled, Apply;
    assert [step][1..] == [];
    assert After(Apply(st, step), []) == Apply(st, step);
  }

  /** A run up to one of its steps, which is then enabled, and up to the next. */
  lemma RunUpTo(st: State, run: seq<Step>, i: nat)
    requires IsRun(st, run) && i < |run|
    ensures IsRun(st, run[..i]) && Enabled(After(st, run[..i]), run[i])
    ensures IsRun(st, run[..i + 1]) && After(st, run[..i + 1]) == Apply(After(st, run[..i]), run[i])
  {
    hide IsRun, After, Enabled, Apply;
    assert run == run[..i + 1] + run[i + 1..];
    assert run[..i + 1] == run[..i] + [run[i]];
    RunConcat(st, run[..i + 1], run[i + 1..]);
    RunConcat(st, run[..i], [run[i]]);
    OneStep(After(st, run[..i]), run[i]);
  }

  // ---------- Backfill coverage ----------

  lemma InitInv(st: State)
    requires Init(st)
    ensures Inv(st)
  {
  }

  lemma {:induction false} RunKeepsInv(st: State, run: seq<Step>)
    requires Inv(st) && IsRun(st, run)
    ensures Inv(After(st, run))
    decreases |run|
  {
    hide Inv, Enabled, Apply;
    if run != [] {
      StepKeepsInv(st, run[0]);
      RunKeepsInv(Apply(st, run[0]), run[1..]);
    }
  }

  lemma ReachableInv(st: State)
    requires Reachable(st)
    ensures Inv(st)
  {
    hide Init, Inv, IsRun, After;
    var start, run :| Leads(start, run, st);
    InitInv(start);
    RunKeepsInv(start, run);
  }

  /**
   * In every reachable state every version at or below any session's watermark, any watermark a
   * commit call is about to send, and the server's own mark exists in the log; and every entry of
   * the log is the file ratified as that version.
   */
  lemma WatermarksAreBackfilled(st: State)
    requires Reachable(st)
    ensures forall v :: v in st.log ==> v < |st.server.commits| && st.log[v].file == st.server.commits[v]
    ensures forall v: nat :: v <= st.server.mark ==> v in st.log
    ensures forall s :: s in st.sessions ==> Backfilled(st.sessions[s].watermark, st.log)
    ensures forall s, t :: s in st.sessions && t in st.sessions[s].calls && st.sessions[s].calls[t].Requesting? ==>
              Backfilled(st.sessions[s].calls[t].watermark, st.log)
  {
    ReachableInv(st);
    forall s | s in st.sessions
      ensures Backfilled(st.sessions[s].watermark, st.log)
      ensures forall t :: t in st.sessions[s].calls && st.sessions[s].calls[t].Requesting? ==>
                Backfilled(st.sessions[s].calls[t].watermark, st.log)
    {
      SessionWatermarks(st.sessions[s], st.server.commits, st.log);
    }
  }

  lemma SessionWatermarks(session: Session, commits: seq<string>, log: Log)
    requires SessionInv(session, commits, log)
    ensures Backfilled(session.watermark, log)
    ensures forall t :: t in session.calls && session.calls[t].Requesting? ==> Backfilled(session.calls[t].watermark, log)
  {
    hide AttachInv, Backfilled;
    forall t | t in session.calls && session.calls[t].Requesting? ensures Backfilled(session.calls[t].watermark, log) {
      assert CallInv(session.calls[t], commits, log);
    }
  }

  // ---------- Watermarks only rise ----------

  ghost predicate Risen(st: State, st': State) {
    && st.sessions.Keys <= st'.sessions.Keys
    && forall s :: s in st.sessions ==> NotBelow(st'.sessions[s].watermark, st.sessions[s].watermark)
  }

  lemma SessionRises(session: Session, commits: seq<string>, log: Log, step: Step)
    requires SessionInv(session, commits, log) && OfSession(step)
    requires step.Publish? ==> session.attach.Copying?
    ensures NotBelow(ApplySession(session, step).watermark, session.watermark)
  {
    hide Readable, Backfilled, CallsInv;
  }

  lemma StepRises(st: State, step: Step)
    requires Inv(st) && Enabled(st, step)
    ensures Risen(st, Apply(st, step))
  {
    hide SessionInv, ApplySession, ApplyLog, ApplyServer, Returns, ServerInv, RecordsInv;
    if OfSession(step) {
      assert step.Publish? ==> st.sessions[step.s].attach.Copying?;
      hide SessionEnabled;
      SessionRises(st.sessions[step.s], st.server.commits, st.log, step);
    }
  }

  /** However a run goes on from a reachable state, no session's watermark ever falls below what it was. */
  lemma WatermarksNeverFall(st: State, run: seq<Step>)
    requires Reachable(st) && IsRun(st, run)
    ensures Risen(st, After(st, run))
  {
    hide Reachable, IsRun, After, Risen;
    ReachableInv(st);
    RunRises(st, run);
  }

  lemma {:induction false} RunRises(st: State, run: seq<Step>)
    requires Inv(st) && IsRun(st, run)
    ensures Risen(st, After(st, run))
    decreases |run|
  {
    hide Inv, Enabled, Apply;
    if run != [] {
      StepKeepsInv(st, run[0]);
      StepRises(st, run[0]);
      RunRises(Apply(st, run[0]), run[1..]);
    }
  }

  // ---------- Acknowledged commits stay ----------

  lemma {:induction false} RunGrows(st: State, run: seq<Step>)
    requires Inv(st) && IsRun(st, run)
    ensures st.log.Keys <= After(st, run).log.Keys && st.server.commits <= After(st, run).server.commits
    decreases |run|
  {
    hide Inv, Enabled, Apply;
    if run != [] {
      StepKeepsInv(st, run[0]);
      RunGrows(Apply(st, run[0]), run[1..]);
    }
  }

  /** A commit once acknowledged is the ratified file of its version from then on, whatever happens. */
  lemma AcknowledgedCommitsStay(st: State, run: seq<Step>, s: nat, version: nat)
    requires Reachable(st) && IsRun(st, run)
    requires s in st.sessions && version in st.sessions[s].acknowledged
    ensures var commits := After(st, run).server.commits;
            version < |commits| && commits[version] == st.sessions[s].acknowledged[version]
  {
    hide Reachable, IsRun, After;
    ReachableInv(st);
    RunGrows(st, run);
    SessionInvOf(st, s);
    hide Inv, AttachInv;
  }

  // ---------- Whole entries ----------

  predicate WrittenBy(log: Log, version: nat, s: nat) {
    version in log && log[version].state == BeingWritten(s)
  }

  /** The entries session `s` is writing are the one its copy loop is at, or none. */
  predicate WritesOne(session: Session, s: nat, log: Log) {
    && (InWrite(session.attach) ==> WrittenBy(log, session.attach.todo[0].version, s))
    && (forall v :: v in log && WrittenBy(log, v, s) ==> InWrite(session.attach) && session.attach.todo[0].version == v)
  }

  ghost predicate WritersInv(st: State) {
    && (forall s :: s in st.sessions ==> WritesOne(st.sessions[s], s, st.log))
    && (forall v, s :: v in st.log && WrittenBy(st.log, v, s) ==> s in st.sessions)
  }

  /** A session's step leaves the entries that others are writing alone. */
  ghost predicate LeavesOthers(log: Log, log': Log, s: nat) {
    forall v, s' :: s' != s ==> (WrittenBy(log', v, s') <==> WrittenBy(log, v, s'))
  }

  lemma SessionStepWritesOne(server: Server, log: Log, session: Session, step: Step)
    requires SessionInv(session, server.commits, log)
    requires OfSession(step) && SessionEnabled(server, log, session, step)
    requires WritesOne(session, step.s, log)
    ensures WritesOne(ApplySession(session, step), step.s, ApplyLog(log, session, step))
    ensures LeavesOthers(log, ApplyLog(log, session, step), step.s)
  {
    hide Readable, Answers, Ratified, Backfilled, CallsInv, SortByVersion, Accepts;
    StepEffects(server, log, session, step);
    if IsCopyStep(step) {
      CopyStepWritesOne(server, log, session, step);
    } else {
      WritesAsBefore(server, log, session, step);
    }
    hide ApplyLog, ApplyAttach, ApplyCommit, SessionEnabled, SessionInv;
  }

  lemma CopyStepWritesOne(server: Server, log: Log, session: Session, step: Step)
    requires IsCopyStep(step) && SessionEnabled(server, log, session, step)
    requires WritesOne(session, step.s, log)
    ensures WritesOne(ApplyAttach(session, step), step.s, ApplyLog(log, session, step))
    ensures LeavesOthers(log, ApplyLog(log, session, step), step.s)
  {
    hide Covered;
  }

  lemma WritesAsBefore(server: Server, log: Log, session: Session, step: Step)
    requires SessionInv(session, server.commits, log)
    requires OfSession(step) && !IsCopyStep(step) && SessionEnabled(server, log, session, step)
    ensures InWrite(ApplySession(session, step).attach) == InWrite(session.attach)
    ensures InWrite(session.attach) ==> ApplySession(session, step).attach == session.attach
  {
    hide Readable, Answers, Ratified, Backfilled, CallsInv, SortByVersion, Accepts;
  }

  lemma SessionStepKeepsWriters(st: State, step: Step)
    requires Inv(st) && WritersInv(st) && OfSession(step) && Enabled(st, step)
    ensures WritersInv(Apply(st, step))
  {
    hide ApplySession, ApplyLog, ApplyServer, Returns, SessionInv, SessionEnabled, Inv;
    SessionInvOf(st, step.s);
    SessionStepWritesOne(st.server, st.log, st.sessions[step.s], step);
  }

  lemma StepKeepsWriters(st: State, step: Step)
    requires Inv(st) && WritersInv(st) && Enabled(st, step)
    ensures WritersInv(Apply(st, step))
  {
    hide ApplySession, ApplyLog, ApplyServer, Returns, SessionEnabled, Inv;
    if OfSession(step) {
      hide WritersInv, Apply, Enabled;
      SessionStepKeepsWriters(st, step);
    }
  }

  lemma {:induction false} RunKeepsWriters(st: State, run: seq<Step>)
    requires Inv(st) && WritersInv(st) && IsRun(st, run)
    ensures WritersInv(After(st, run))
    decreases |run|
  {
    hide Inv, WritersInv, Enabled, Apply;
    if run != [] {
      StepKeepsInv(st, run[0]);
      StepKeepsWriters(st, run[0]);
      RunKeepsWriters(Apply(st, run[0]), run[1..]);
    }
  }

  /**
   * An entry being written has one writer, which is at that entry; and a session that writes, writes
   * one entry.
   */
  lemma OneWriterPerEntry(st: State)
    requires Reachable(st)
    ensures forall v, s :: v in st.log && WrittenBy(st.log, v, s) ==>
              s in st.sessions && InWrite(st.sessions[s].attach) && st.sessions[s].attach.todo[0].version == v
    ensures forall s :: s in st.sessions && InWrite(st.sessions[s].attach) ==>
              WrittenBy(st.log, st.sessions[s].attach.todo[0].version, s)
  {
    hide IsRun, After, Inv;
    var start, run :| Leads(start, run, st);
    InitInv(start);
    RunKeepsWriters(start, run);
  }

  /** A copy of this version was cut short, and left its entry unfinished. */
  predicate AbandonedAt(log: Log, version: nat) {
    version in log && log[version].state.Abandoned?
  }

  predicate CutsShort(st: State, step: Step, version: nat) {
    && step.CopyAbandon? && step.s in st.sessions
    && InWrite(st.sessions[step.s].attach) && st.sessions[step.s].attach.todo[0].version == version
  }

  /** Some step of the run cut a copy of this version short. */
  ghost predicate CutShort(st: State, run: seq<Step>, version: nat)
    decreases |run|
  {
    run != [] && (CutsShort(st, run[0], version) || CutShort(Apply(st, run[0]), run[1..], version))
  }

  lemma SessionCutsShort(server: Server, log: Log, session: Session, step: Step, version: nat)
    requires OfSession(step) && SessionEnabled(server, log, session, step) && WritesOne(session, step.s, log)
    ensures AbandonedAt(ApplyLog(log, session, step), version) <==>
            || AbandonedAt(log, version)
            || (step.CopyAbandon? && InWrite(session.attach) && session.attach.todo[0].version == version)
  {
    hide Covered, Answers, Accepts;
  }

  /** An unfinished entry stays as it is, and only a copy of that very version cut short makes one. */
  lemma StepCutsShort(st: State, step: Step, version: nat)
    requires Inv(st) && WritersInv(st) && Enabled(st, step)
    ensures AbandonedAt(Apply(st, step).log, version) <==> AbandonedAt(st.log, version) || CutsShort(st, step, version)
  {
    hide ApplySession, ApplyServer, ApplyLog, Returns, Inv, SessionEnabled, WritesOne;
    if OfSession(step) {
      SessionCutsShort(st.server, st.log, st.sessions[step.s], step, version);
    }
  }

  lemma {:induction false} RunCutsShort(st: State, run: seq<Step>, version: nat)
    requires Inv(st) && WritersInv(st) && IsRun(st, run)
    ensures AbandonedAt(After(st, run).log, version) <==> AbandonedAt(st.log, version) || CutShort(st, run, version)
    decreases |run|
  {
    hide Inv, WritersInv, Enabled, Apply, AbandonedAt, CutsShort;
    if run != [] {
      StepKeepsInv(st, run[0]);
      StepKeepsWriters(st, run[0]);
      StepCutsShort(st, run[0], version);
      RunCutsShort(Apply(st, run[0]), run[1..], version);
    }
  }

  /** A session is writing the entry of this version now. */
  predicate InTheWriting(st: State, version: nat) {
    exists s :: s in st.sessions && InWrite(st.sessions[s].attach) && st.sessions[s].attach.todo[0].version == version
  }

  /** The entry of a version, once there, is a complete copy of the ratified file. */
  predicate IsWhole(st: State, version: nat) {
    version in st.log && version < |st.server.commits| && st.log[version] == LogFile(st.server.commits[version], Complete)
  }

  /**
   * An entry of the log is whole, and not merely present, exactly if no session is writing it and no
   * copy of that very version was cut short; what became of other versions does not matter.
   */
  lemma EntriesAreWhole(start: State, run: seq<Step>, st: State, version: nat)
    requires Leads(start, run, st) && version in st.log
    ensures IsWhole(st, version) <==> !InTheWriting(st, version) && !CutShort(start, run, version)
  {
    assert Reachable(st);
    OneWriterPerEntry(st);
    WatermarksAreBackfilled(st);
    InitInv(start);
    RunCutsShort(start, run, version);
    hide IsRun, After, Reachable, CutShort, Inv;
    if st.log[version].state.BeingWritten? {
      assert WrittenBy(st.log, version, st.log[version].state.session);
    }
  }

  /** Everything up to a bound is whole. */
  ghost predicate WholeUpTo(st: State, bound: int) {
    forall v: nat :: v <= bound ==> IsWhole(st, v)
  }

  ghost predicate Undisturbed(start: State, run: seq<Step>, st: State, bound: int) {
    forall v: nat :: v <= bound ==> !InTheWriting(st, v) && !CutShort(start, run, v)
  }

  /**
   * So the entries under a session's watermark, and those under the server's mark, are all whole
   * exactly if none of them is being written and no copy of any of them was cut short.
   */
  lemma WatermarksAreWhole(start: State, run: seq<Step>, st: State)
    requires Leads(start, run, st)
    ensures WholeUpTo(st, st.server.mark) <==> Undisturbed(start, run, st, st.server.mark)
    ensures forall s :: s in st.sessions && st.sessions[s].watermark.Some? ==>
              (WholeUpTo(st, st.sessions[s].watermark.value) <==>
               Undisturbed(start, run, st, st.sessions[s].watermark.value))
  {
    assert Reachable(st);
    WatermarksAreBackfilled(st);
    hide Reachable, Leads, CutShort, InTheWriting, IsWhole;
    CoveredIsWhole(start, run, st, st.server.mark);
    forall s | s in st.sessions && st.sessions[s].watermark.Some?
      ensures WholeUpTo(st, st.sessions[s].watermark.value) <==>
              Undisturbed(start, run, st, st.sessions[s].watermark.value)
    {
      CoveredIsWhole(start, run, st, st.sessions[s].watermark.value);
    }
  }

  lemma CoveredIsWhole(start: State, run: seq<Step>, st: State, bound: int)
    requires Leads(start, run, st) && forall v: nat :: v <= bound ==> v in st.log
    ensures WholeUpTo(st, bound) <==> Undisturbed(start, run, st, bound)
  {
    hide Leads, CutShort, InTheWriting, IsWhole;
    forall v: nat | v <= bound ensures IsWhole(st, v) <==> !InTheWriting(st, v) && !CutShort(start, run, v) {
      EntriesAreWhole(start, run, st, v);
    }
  }

  // ---------- Snapshots ----------

  function TailFile(tail: seq<Commit>, version: nat): (file: Option<string>)
    ensures file.Some? ==> exists c :: c in tail && c.version == version && c.file == file.value
    ensures file.None? ==> !Lists(tail, version)
    decreases |tail|
  {
    if tail == [] then None
    else if tail[0].version == version then Some(tail[0].file)
    else
      assert forall c :: c in tail ==> c == tail[0] || c in tail[1..];
      TailFile(tail[1..], version)
  }

  /** What a reader gets of a version: nothing, a file it reads to its end, or an entry that stops short. */
  datatype Reading = Unseen | Partial | Whole(file: string)

  /** A version is read from its staged file if the tail lists it, and else from its entry in the log. */
  function ReadVersion(snapshot: Snapshot, log: Log, version: nat): (r: Reading) {
    if version > snapshot.ratified then Unseen
    else
      var staged := TailFile(snapshot.tail, version);
      if staged.Some? then Whole(staged.value)
      else if version !in log then Unseen
      else if log[version].state.Complete? then Whole(log[version].file)
      else Partial
  }

  lemma ReadableReads(snapshot: Snapshot, commits: seq<string>, log: Log, version: nat)
    requires Readable(snapshot, commits, log) && LogAgrees(log, commits)
    ensures ReadVersion(snapshot, log, version) ==
            if version > snapshot.ratified then Unseen
            else if Lists(snapshot.tail, version) || (version in log && log[version].state.Complete?) then Whole(commits[version])
            else Partial
  {
  }

  /**
   * Whoever attached, and however long ago: the snapshot's reader sees every version up to the
   * snapshot's ratified one and none above it, and takes each from the tail or from an entry. What
   * it reads is the ratified file exactly if the tail lists the version or the entry is complete.
   */
  lemma AttachesReadTheRatifiedHistory(st: State, r: AttachRecord, version: nat)
    requires Reachable(st) && r in st.attaches
    ensures r.snapshot.ratified < |st.server.commits|
    ensures version > r.snapshot.ratified ==> ReadVersion(r.snapshot, st.log, version) == Unseen
    ensures version <= r.snapshot.ratified ==>
              ReadVersion(r.snapshot, st.log, version) ==
              if Lists(r.snapshot.tail, version) || IsWhole(st, version) then Whole(st.server.commits[version]) else Partial
  {
    ReachableInv(st);
    WatermarksAreBackfilled(st);
    hide Reachable, ReadVersion;
    ReadableReads(r.snapshot, st.server.commits, st.log, version);
  }

  /** And in terms of the run: exactly if the tail lists it, or nobody is writing it and no copy of it was cut short. */
  lemma AttachesReadWhole(start: State, run: seq<Step>, st: State, r: AttachRecord, version: nat)
    requires Leads(start, run, st) && r in st.attaches && version <= r.snapshot.ratified
    ensures version < |st.server.commits|
    ensures ReadVersion(r.snapshot, st.log, version) == Whole(st.server.commits[version]) <==>
            Lists(r.snapshot.tail, version) || (!InTheWriting(st, version) && !CutShort(start, run, version))
  {
    assert Reachable(st);
    AttachesReadTheRatifiedHistory(st, r, version);
    if !Lists(r.snapshot.tail, version) {
      SeenIsPresent(st, r, version);
      EntriesAreWhole(start, run, st, version);
    }
    hide Reachable, Leads, ReadVersion, CutShort, InTheWriting, IsWhole, Lists;
  }

  lemma SeenIsPresent(st: State, r: AttachRecord, version: nat)
    requires Reachable(st) && r in st.attaches && version <= r.snapshot.ratified && !Lists(r.snapshot.tail, version)
    ensures version in st.log
  {
    ReachableInv(st);
    hide Reachable, Lists;
  }

  // ---------- Read your writes ----------

  /**
   * The reply lets a reader see this version, if it was ratified when the reply was given: the latest
   * version is reported, or this version or a later one is listed, or it is version 0.
   */
  predicate Tells(reply: Reply, version: nat) {
    version == 0 || reply.latest.Some? || exists c :: c in reply.listed && version <= c.version
  }

  lemma RatifiedIfTold(server: Server, reply: Reply, version: nat)
    requires Answers(server, reply) && version < |server.commits|
    ensures version <= Ratified(reply) <==> Tells(reply, version)
  {
    var highest := HighestListed(reply.listed);
    if version <= highest && version > 0 {
      assert Lists(reply.listed, highest);
    }
  }

  predicate Within(acknowledged: map<nat, string>, count: nat) {
    forall v :: v in acknowledged ==> v < count
  }

  /**
   * The session lives on this reply, given when `count` versions were ratified: what it has attached or
   * is attaching is the reply's snapshot, and any own commit acknowledged since has marked it dirty.
   */
  predicate LivesOn(session: Session, reply: Reply, count: nat) {
    var phase := session.attach;
    && (phase.Copying? || phase.Published? ==> phase.reply == reply && Within(phase.mustSee, count))
    && (session.attached.Some? ==>
          && session.attached.value == SnapshotOf(reply)
          && (!session.dirty ==> Within(session.acknowledged, count)))
  }

  predicate RecordLivesOn(r: AttachRecord, reply: Reply, count: nat) {
    r.snapshot == SnapshotOf(reply) && (!r.reading ==> Within(r.mustSee, count))
  }

  predicate RepliesTo(step: Step, s: nat) {
    step.LoadReplies? && step.s == s
  }

  lemma ReplyStartsIt(server: Server, log: Log, session: Session, s: nat, reply: Reply)
    requires SessionInv(session, server.commits, log) && SessionEnabled(server, log, session, LoadReplies(s, reply))
    ensures LivesOn(ApplySession(session, LoadReplies(s, reply)), reply, |server.commits|)
  {
    hide Readable, CopyInv, Answers, Ratified, Backfilled, CallInv, SortByVersion;
  }

  lemma SessionStepLivesOn(server: Server, log: Log, session: Session, step: Step, reply: Reply, count: nat)
    requires SessionInv(session, server.commits, log) && LivesOn(session, reply, count)
    requires OfSession(step) && SessionEnabled(server, log, session, step) && !step.LoadReplies?
    ensures LivesOn(ApplySession(session, step), reply, count)
    ensures forall r :: r in Returns(session, step) ==> RecordLivesOn(r, reply, count)
  {
    hide Readable, CopyInv, Answers, Ratified, Backfilled, CallInv, SortByVersion;
  }

  ghost predicate SessionLivesOn(st: State, s: nat, reply: Reply, count: nat) {
    s in st.sessions && LivesOn(st.sessions[s], reply, count)
  }

  lemma StepLivesOn(st: State, step: Step, s: nat, reply: Reply, count: nat)
    requires Inv(st) && Enabled(st, step) && SessionLivesOn(st, s, reply, count) && !RepliesTo(step, s)
    ensures SessionLivesOn(Apply(st, step), s, reply, count)
  {
    hide LivesOn, ApplySession, ApplyLog, ApplyServer, Returns, SessionInv, SessionEnabled, RecordsInv, ServerInv;
    if OfSession(step) && step.s == s {
      SessionInvOf(st, s);
      SessionStepLivesOn(st.server, st.log, st.sessions[s], step, reply, count);
    }
  }

  lemma {:induction false} RunLivesOn(st: State, run: seq<Step>, s: nat, reply: Reply, count: nat)
    requires Inv(st) && IsRun(st, run) && SessionLivesOn(st, s, reply, count)
    requires forall step :: step in run ==> !RepliesTo(step, s)
    ensures Inv(After(st, run)) && SessionLivesOn(After(st, run), s, reply, count)
    decreases |run|
  {
    hide Inv, SessionLivesOn, Enabled, Apply, RepliesTo;
    if run != [] {
      StepKeepsInv(st, run[0]);
      StepLivesOn(st, run[0], s, reply, count);
      RunLivesOn(Apply(st, run[0]), run[1..], s, reply, count);
    }
  }

  lemma SessionInvOf(st: State, s: nat)
    requires Inv(st) && s in st.sessions
    ensures SessionInv(st.sessions[s], st.server.commits, st.log) && |st.server.commits| > 0
  {
    hide SessionInv, RecordsInv;
  }

  /** From the reply on the session lives on it. */
  lemma LoadedLivesOn(st: State, s: nat, reply: Reply)
    requires Inv(st) && Enabled(st, LoadReplies(s, reply))
    ensures Answers(st.server, reply)
    ensures SessionLivesOn(Apply(st, LoadReplies(s, reply)), s, reply, |st.server.commits|)
    ensures Apply(st, LoadReplies(s, reply)).server == st.server
  {
    hide LivesOn, ApplySession, SessionInv, RecordsInv, Answers, ServerInv;
    SessionInvOf(st, s);
    ReplyStartsIt(st.server, st.log, st.sessions[s], s, reply);
  }

  /** What a step returns is a record of the session it is a step of. */
  ghost predicate StepReturns(st: State, step: Step, r: AttachRecord) {
    OfSession(step) && step.s in st.sessions && r in Returns(st.sessions[step.s], step)
  }

  lemma ReturnsAreOwn(session: Session, step: Step)
    requires OfSession(step)
    ensures forall r :: r in Returns(session, step) ==> r.session == step.s
  {
  }

  lemma ReturnLivesOn(st: State, step: Step, r: AttachRecord, reply: Reply, count: nat)
    requires Inv(st) && Enabled(st, step) && StepReturns(st, step, r)
    requires SessionLivesOn(st, r.session, reply, count)
    ensures RecordLivesOn(r, reply, count)
  {
    hide LivesOn, RecordLivesOn, SessionInv, SessionEnabled, ApplySession, RecordsInv, ServerInv;
    ReturnsAreOwn(st.sessions[step.s], step);
    assert !step.LoadReplies?;
    SessionInvOf(st, step.s);
    hide Returns;
    SessionStepLivesOn(st.server, st.log, st.sessions[step.s], step, reply, count);
  }

  /**
   * Step k of the run returned this record, and step i is the last reply its session had until then:
   * the reply the attach used.
   */
  ghost predicate Uses(start: State, run: seq<Step>, i: nat, k: nat, r: AttachRecord) {
    && i < k < |run| && RepliesTo(run[i], r.session)
    && (forall j :: i < j < k ==> !RepliesTo(run[j], r.session))
    && StepReturns(After(start, run[..k]), run[k], r)
  }

  lemma UsedReplyDecides(start: State, run: seq<Step>, i: nat, k: nat, r: AttachRecord)
    requires Inv(start) && IsRun(start, run) && Uses(start, run, i, k, r)
    ensures var before := After(start, run[..i]);
            Answers(before.server, run[i].reply) && RecordLivesOn(r, run[i].reply, |before.server.commits|)
  {
    hide IsRun, After, Inv, Enabled, Apply, StepReturns, SessionLivesOn, RecordLivesOn, Answers;
    var before, reply := After(start, run[..i]), run[i].reply;
    var loaded, rest := After(start, run[..i + 1]), run[i + 1..k];
    RunUpTo(start, run, i);
    RunUpTo(start, run, k);
    RunKeepsInv(start, run[..i]);
    RunKeepsInv(start, run[..i + 1]);
    LoadedLivesOn(before, r.session, reply);
    assert run[..k] == run[..i + 1] + rest;
    RunConcat(start, run[..i + 1], rest);
    RunLivesOn(loaded, rest, r.session, reply, |before.server.commits|);
    ReturnLivesOn(After(start, run[..k]), run[k], r, reply, |before.server.commits|);
  }

  // ---------- Every attach used a reply ----------

  /** Only a reply gives a session anything to attach. */
  predicate HasNothing(session: Session) {
    !session.attach.Copying? && !session.attach.Published? && session.attached.None?
  }

  ghost predicate SessionHasNothing(st: State, s: nat) {
    s in st.sessions ==> HasNothing(st.sessions[s])
  }

  lemma StepGivesNothing(st: State, step: Step, s: nat)
    requires Enabled(st, step) && SessionHasNothing(st, s) && !RepliesTo(step, s)
    ensures SessionHasNothing(Apply(st, step), s)
    ensures forall r :: StepReturns(st, step, r) ==> r.session != s
  {
    hide Answers, Accepts, ApplyLog, ApplyServer, Ratified, SortByVersion;
    if OfSession(step) && step.s in st.sessions {
      ReturnsAreOwn(st.sessions[step.s], step);
    }
  }

  lemma {:induction false} RunGivesNothing(st: State, run: seq<Step>, s: nat)
    requires IsRun(st, run) && SessionHasNothing(st, s)
    requires forall j :: 0 <= j < |run| ==> !RepliesTo(run[j], s)
    ensures SessionHasNothing(After(st, run), s)
    decreases |run|
  {
    hide SessionHasNothing, Enabled, Apply, StepReturns, RepliesTo;
    if run != [] {
      StepGivesNothing(st, run[0], s);
      RunGivesNothing(Apply(st, run[0]), run[1..], s);
    }
  }

  lemma {:induction false} LastReply(run: seq<Step>, s: nat, k: nat) returns (i: nat)
    requires k <= |run| && exists j :: 0 <= j < k && RepliesTo(run[j], s)
    ensures i < k && RepliesTo(run[i], s) && forall j :: i < j < k ==> !RepliesTo(run[j], s)
    decreases k
  {
    i := k - 1;
    if !RepliesTo(run[i], s) {
      i := LastReply(run, s, k - 1);
    }
  }

  /** The step that returned a record. */
  lemma {:induction false} RecordReturned(start: State, run: seq<Step>, r: AttachRecord, n: nat) returns (k: nat)
    requires IsRun(start, run) && n <= |run| && r !in start.attaches && r in After(start, run[..n]).attaches
    ensures k < n && StepReturns(After(start, run[..k]), run[k], r)
    decreases n
  {
    hide IsRun, Enabled, ApplySession, ApplyServer, ApplyLog, Returns;
    assert run[..0] == [];
    k := n - 1;
    RunUpTo(start, run, k);
    if !StepReturns(After(start, run[..k]), run[k], r) {
      StepAddsReturns(After(start, run[..k]), run[k], r);
      k := RecordReturned(start, run, r, k);
    }
  }

  lemma StepAddsReturns(st: State, step: Step, r: AttachRecord)
    requires r in Apply(st, step).attaches
    ensures r in st.attaches || StepReturns(st, step, r)
  {
    hide ApplySession, ApplyServer, ApplyLog, Returns;
  }

  /** Every attach used some reply. */
  lemma AttachUsesAReply(start: State, run: seq<Step>, st: State, r: AttachRecord) returns (i: nat, k: nat)
    requires Leads(start, run, st) && r in st.attaches
    ensures Uses(start, run, i, k, r)
  {
    hide IsRun, After, Enabled, Apply, StepReturns, RepliesTo;
    assert run[..|run|] == run;
    k := RecordReturned(start, run, r, |run|);
    RunUpTo(start, run, k);
    assert exists j :: 0 <= j < k && RepliesTo(run[j], r.session) by {
      if forall j :: 0 <= j < k ==> !RepliesTo(run[j], r.session) {
        RunGivesNothing(start, run[..k], r.session);
        NothingToReturn(After(start, run[..k]), run[k], r);
      }
    }
    i := LastReply(run, r.session, k);
  }

  lemma NothingToReturn(st: State, step: Step, r: AttachRecord)
    requires SessionHasNothing(st, r.session)
    ensures !StepReturns(st, step, r)
  {
    if OfSession(step) && step.s in st.sessions {
      ReturnsAreOwn(st.sessions[step.s], step);
    }
  }

  // ---------- Own commits must be seen ----------

  ghost predicate Owns(st: State, s: nat, version: nat, file: string) {
    && s in st.sessions && version in st.sessions[s].acknowledged
    && version < |st.server.commits| && st.server.commits[version] == file
  }

  lemma SessionKeepsAcknowledged(session: Session, step: Step, version: nat)
    requires version in session.acknowledged
    ensures version in ApplySession(session, step).acknowledged
  {
    hide Ratified, SortByVersion, SnapshotOf;
  }

  lemma StepOwns(st: State, step: Step, s: nat, version: nat, file: string)
    requires Inv(st) && Enabled(st, step) && Owns(st, s, version, file)
    ensures Owns(Apply(st, step), s, version, file)
  {
    hide ApplySession, Inv, Returns, ApplyLog;
    StepKeepsInv(st, step);
    if OfSession(step) && step.s == s {
      SessionKeepsAcknowledged(st.sessions[s], step, version);
    }
  }

  lemma {:induction false} RunOwns(st: State, run: seq<Step>, s: nat, version: nat, file: string)
    requires Inv(st) && IsRun(st, run) && Owns(st, s, version, file)
    ensures Owns(After(st, run), s, version, file)
    decreases |run|
  {
    hide Inv, Enabled, Apply, Owns;
    if run != [] {
      StepKeepsInv(st, run[0]);
      StepOwns(st, run[0], s, version, file);
      RunOwns(Apply(st, run[0]), run[1..], s, version, file);
    }
  }

  lemma MarkedIsOwn(st: State, s: nat, call: nat)
    requires Inv(st) && Enabled(st, MarkDirty(s, call))
    ensures s in st.sessions && call in st.sessions[s].calls
    ensures var done := st.sessions[s].calls[call];
            done.Accepted? && Owns(Apply(st, MarkDirty(s, call)), s, done.version, done.file)
  {
    hide Readable, CopyInv, RecordsInv, Answers, Accepts, ApplyAttach;
    SessionInvOf(st, s);
  }

  lemma OwnMustBeSeen(st: State, step: Step, r: AttachRecord, version: nat, file: string)
    requires Inv(st) && Enabled(st, step) && StepReturns(st, step, r) && Owns(st, r.session, version, file)
    ensures version in r.mustSee && r.mustSee[version] == file
  {
    hide Readable, CopyInv, RecordsInv, Answers, Accepts, ApplySession, ServerInv;
    SessionInvOf(st, step.s);
  }

  /** Whatever a session's commit calls were acknowledged with before an attach returned, the attach must see. */
  lemma OwnCommitsMustBeSeen(start: State, run: seq<Step>, j: nat, k: nat, call: nat, r: AttachRecord)
    requires Inv(start) && IsRun(start, run) && j < k < |run|
    requires run[j] == MarkDirty(r.session, call) && StepReturns(After(start, run[..k]), run[k], r)
    ensures var before := After(start, run[..j]);
            && r.session in before.sessions && call in before.sessions[r.session].calls
            && var done := before.sessions[r.session].calls[call];
               done.version in r.mustSee && r.mustSee[done.version] == done.file
  {
    hide IsRun, After, Inv, Enabled, Apply, StepReturns, Owns;
    var before, rest := After(start, run[..j]), run[j + 1..k];
    RunUpTo(start, run, j);
    RunUpTo(start, run, k);
    RunKeepsInv(start, run[..j]);
    RunKeepsInv(start, run[..j + 1]);
    RunKeepsInv(start, run[..k]);
    MarkedIsOwn(before, r.session, call);
    assert run[..k] == run[..j + 1] + rest;
    RunConcat(start, run[..j + 1], rest);
    var done := before.sessions[r.session].calls[call];
    RunOwns(After(start, run[..j + 1]), rest, r.session, done.version, done.file);
    OwnMustBeSeen(After(start, run[..k]), run[k], r, done.version, done.file);
  }

  /**
   * Read your writes. Every attach used a reply. If its transaction was not already reading the table,
   * it sees a version whose commit call had marked the table dirty before it began exactly if that reply
   * tells it, whatever other replies told and whatever the other calls and sessions did. What it sees it
   * reads as the very file that was committed, exactly if the tail lists it, or nobody is writing its
   * entry and no copy of it was cut short; and else it reads an entry that stops short.
   */
  lemma ReadYourWrites(start: State, run: seq<Step>, st: State, r: AttachRecord, version: nat)
    requires Leads(start, run, st) && r in st.attaches && !r.reading && version in r.mustSee
    ensures exists i: nat, k: nat :: Uses(start, run, i, k, r)
    ensures forall i: nat, k: nat :: Uses(start, run, i, k, r) ==>
              (version <= r.snapshot.ratified <==> Tells(run[i].reply, version))
    ensures ReadVersion(r.snapshot, st.log, version) ==
            if version > r.snapshot.ratified then Unseen
            else if Lists(r.snapshot.tail, version) || (!InTheWriting(st, version) && !CutShort(start, run, version))
            then Whole(r.mustSee[version]) else Partial
  {
    hide ReadVersion, IsRun, After, Inv, CutShort, InTheWriting, IsWhole, Lists, Tells, Answers, Init, Apply, Enabled,
         StepReturns;
    InitInv(start);
    var i', k' := AttachUsesAReply(start, run, st, r);
    forall i: nat, k: nat | Uses(start, run, i, k, r) ensures version <= r.snapshot.ratified <==> Tells(run[i].reply, version) {
      UsedReplyDecides(start, run, i, k, r);
      RatifiedIfTold(After(start, run[..i]).server, run[i].reply, version);
    }
    RunKeepsInv(start, run);
    OwnIsRatified(st, r, version);
    assert Reachable(st);
    AttachesReadTheRatifiedHistory(st, r, version);
    if version <= r.snapshot.ratified {
      AttachesReadWhole(start, run, st, r, version);
    }
  }

  lemma OwnIsRatified(st: State, r: AttachRecord, version: nat)
    requires Inv(st) && r in st.attaches && version in r.mustSee
    ensures version < |st.server.commits| && st.server.commits[version] == r.mustSee[version]
  {
    hide Readable, SessionsInv, ServerInv;
    assert Ratifies(st.server.commits, r.mustSee);
  }
}
