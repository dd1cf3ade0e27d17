// One session's object for a catalog-managed table, which attaches, backfills and commits by
// updating its own fields and the shared log directory. Attaching, detaching and committing, with
// every fault they may meet, are each proved against a value function or outright, and each is
// proved to be a run of the commit protocol; marking dirty on its own is one step of a commit.
module CatalogTable {

  import opened Wrappers
  import opened CommitProtocol
  import CommitSafety

  // ---------- Copying staged commits ----------

  class DeltaLog {
    var files: Log

    constructor (files: Log)
      ensures this.files == files
    {
      this.files := files;
    }
  }

  /** What may go wrong with one copy. */
  datatype Fault = NoFault | CannotOpen | WriteFails

  datatype CopyResult = Copied | AlreadyThere | Failed

  /** The target is created exclusively before it is written, so a failed write leaves it there, unfinished. */
  method CopyStagedCommit(disk: DeltaLog, commit: Commit, fault: Fault) returns (result: CopyResult)
    modifies disk
    ensures result.Failed? <==> fault.CannotOpen? || (fault.WriteFails? && commit.version !in old(disk.files))
    ensures result.AlreadyThere? <==> !fault.CannotOpen? && commit.version in old(disk.files)
    ensures disk.files ==
            if fault.CannotOpen? || commit.version in old(disk.files) then old(disk.files)
            else old(disk.files)[commit.version := LogFile(commit.file, if fault.NoFault? then Complete else Abandoned)]
  {
    if fault.CannotOpen? {
      return Failed;
    }
    if commit.version in disk.files {
      return AlreadyThere;
    }
    disk.files := disk.files[commit.version := LogFile(commit.file, Abandoned)];
    if fault.WriteFails? {
      return Failed;
    }
    disk.files := disk.files[commit.version := LogFile(commit.file, Complete)];
    return Copied;
  }

  function FaultOf(faults: seq<Fault>): (r: Fault) {
    if faults == [] then NoFault else faults[0]
  }

  function Rest(faults: seq<Fault>): (r: seq<Fault>) {
    if faults == [] then [] else faults[1..]
  }

  /** The log and the watermark after the copy loop over `todo`, the i-th commit meeting the i-th fault. */
  function Backfill(log: Log, todo: seq<Commit>, watermark: Option<nat>, faults: seq<Fault>): (r: (Log, Option<nat>))
    decreases |todo|
  {
    if todo == [] then (log, watermark)
    else
      var version := todo[0].version;
      if watermark.Some? && version <= watermark.value then
        Backfill(log, todo[1..], watermark, Rest(faults))
      else if FaultOf(faults).CannotOpen? then (log, watermark)
      else if version in log then
        Backfill(log, todo[1..], Some(version), Rest(faults))
      else if FaultOf(faults).WriteFails? then (log[version := LogFile(todo[0].file, Abandoned)], watermark)
      else
        Backfill(log[version := LogFile(todo[0].file, Complete)], todo[1..], Some(version), Rest(faults))
  }

  method BackfillCommits(disk: DeltaLog, commits: seq<Commit>, start: Option<nat>, faults: seq<Fault>)
    returns (watermark: Option<nat>)
    modifies disk
    ensures (disk.files, watermark) == Backfill(old(disk.files), SortByVersion(commits), start, faults)
  {
    var ordered := SortByVersion(commits);
    watermark := start;
    var i := 0;
    ghost var left := faults;
    while i < |ordered|
      invariant 0 <= i <= |ordered|
      invariant left == if i <= |faults| then faults[i..] else []
      invariant Backfill(old(disk.files), ordered, start, faults) == Backfill(disk.files, ordered[i..], watermark, left)
    {
      hide SortByVersion;
      var commit := ordered[i];
      var fault := if i < |faults| then faults[i] else NoFault;
      assert ordered[i..][0] == commit && ordered[i..][1..] == ordered[i + 1..];
      assert fault == FaultOf(left);
      left := Rest(left);
      i := i + 1;
      if watermark.Some? && commit.version <= watermark.value {
        continue;
      }
      var copied := CopyStagedCommit(disk, commit, fault);
      if copied.Failed? {
        return;
      }
      watermark := Some(commit.version);
    }
  }

  // ---------- The copy loop is a run of the protocol ----------

  function CopySteps(s: nat, log: Log, todo: seq<Commit>, watermark: Option<nat>, faults: seq<Fault>): (r: seq<Step>)
    decreases |todo|
  {
    if todo == [] then []
    else
      var version := todo[0].version;
      if watermark.Some? && version <= watermark.value then
        [CopySkip(s)] + CopySteps(s, log, todo[1..], watermark, Rest(faults))
      else if FaultOf(faults).CannotOpen? then [CopyCannotOpen(s)]
      else if version in log then
        [CopyExists(s)] + CopySteps(s, log, todo[1..], Some(version), Rest(faults))
      else if FaultOf(faults).WriteFails? then [CopyCreate(s), CopyAbandon(s)]
      else
        [CopyCreate(s)] + ([CopyFinish(s)] +
          CopySteps(s, log[version := LogFile(todo[0].file, Complete)], todo[1..], Some(version), Rest(faults)))
  }

  /** `st` with the log and the copy loop of session `s` where they are now. */
  function Amid(st: State, s: nat, log: Log, todo: seq<Commit>, watermark: Option<nat>): (r: State)
    requires s in st.sessions && st.sessions[s].attach.Copying?
  {
    var session := st.sessions[s];
    st.(log := log,
        sessions := st.sessions[s := session.(attach := session.attach.(todo := todo, watermark := watermark, writing := false))])
  }

  lemma RunCons(st: State, step: Step, run: seq<Step>)
    requires Enabled(st, step) && IsRun(Apply(st, step), run)
    ensures IsRun(st, [step] + run) && After(st, [step] + run) == After(Apply(st, step), run)
  {
    hide Enabled, Apply;
    assert ([step] + run)[1..] == run;
  }

  /** The copy step with no file operation between taking the log as `log` and leaving it as `log'`. */
  lemma OneStepAmid(st: State, s: nat, log: Log, todo: seq<Commit>, watermark: Option<nat>, step: Step)
    requires s in st.sessions && st.sessions[s].attach.Copying? && todo != []
    requires step == CopySkip(s) || step == CopyExists(s) || step == CopyCannotOpen(s)
    requires step.CopySkip? <==> watermark.Some? && todo[0].version <= watermark.value
    requires step.CopyExists? ==> todo[0].version in log
    ensures Enabled(Amid(st, s, log, todo, watermark), step)
    ensures step.CopySkip? ==> Apply(Amid(st, s, log, todo, watermark), step) == Amid(st, s, log, todo[1..], watermark)
    ensures step.CopyExists? ==>
              Apply(Amid(st, s, log, todo, watermark), step) == Amid(st, s, log, todo[1..], Some(todo[0].version))
    ensures step.CopyCannotOpen? ==> Apply(Amid(st, s, log, todo, watermark), step) == Amid(st, s, log, [], watermark)
  {
    hide Apply, Answers, Accepts, SortByVersion, Reuses, SnapshotOf, ApplyCommit;
    CopyEffects(Amid(st, s, log, todo, watermark), step);
  }

  lemma CopyEffects(st: State, step: Step)
    requires IsCopyStep(step) && step.s in st.sessions
    ensures Apply(st, step) ==
            st.(log := ApplyLog(st.log, st.sessions[step.s], step),
                sessions := st.sessions[step.s := ApplyAttach(st.sessions[step.s], step)])
  {
    hide ApplyLog, ApplyAttach, ApplyCommit, Ratify, SnapshotOf, Reuses, Requests;
    assert Returns(st.sessions[step.s], step) == [];
  }

  lemma StartCreate(st: State, s: nat, log: Log, todo: seq<Commit>, watermark: Option<nat>)
    requires s in st.sessions && st.sessions[s].attach.Copying? && todo != []
    requires !(watermark.Some? && todo[0].version <= watermark.value) && todo[0].version !in log
    ensures var start := Amid(st, s, log, todo, watermark);
            var created := Apply(start, CopyCreate(s));
            && Enabled(start, CopyCreate(s))
            && s in created.sessions
            && created.sessions[s] == start.sessions[s].(attach := start.sessions[s].attach.(writing := true))
            && created.log == log[todo[0].version := LogFile(todo[0].file, BeingWritten(s))]
            && created == start.(log := created.log, sessions := start.sessions[s := created.sessions[s]])
  {
    hide Apply, Answers, Accepts, SortByVersion, Reuses, SnapshotOf, ApplyCommit;
    var start := Amid(st, s, log, todo, watermark);
    CopyEffects(start, CopyCreate(s));
    var created := Apply(start, CopyCreate(s));
  }

  lemma EndCreate(st: State, step: Step)
    requires step.CopyFinish? || step.CopyAbandon?
    requires step.s in st.sessions && InWrite(st.sessions[step.s].attach)
    ensures var phase := st.sessions[step.s].attach;
            var end := if step.CopyFinish? then Advance(phase) else phase.(todo := [], writing := false);
            var file := LogFile(phase.todo[0].file, if step.CopyFinish? then Complete else Abandoned);
            && Enabled(st, step)
            && Apply(st, step) == st.(log := st.log[phase.todo[0].version := file],
                                      sessions := st.sessions[step.s := st.sessions[step.s].(attach := end)])
  {
    hide Apply, Answers, Accepts, SortByVersion, Reuses, SnapshotOf, ApplyCommit;
    CopyEffects(st, step);
  }

  /** Two states that differ from one amid the copies in its log and its session only. */
  lemma AmidAgain(st: State, s: nat, log: Log, todo: seq<Commit>, watermark: Option<nat>, created: State, done: State,
                  left: seq<Commit>, end: Option<nat>)
    requires s in st.sessions && st.sessions[s].attach.Copying?
    requires var start := Amid(st, s, log, todo, watermark);
             && s in created.sessions && created.sessions[s].attach.Copying?
             && created == start.(log := created.log, sessions := start.sessions[s := created.sessions[s]])
             && created.sessions[s] == start.sessions[s].(attach := start.sessions[s].attach.(writing := true))
    requires s in done.sessions
    requires done == created.(log := done.log, sessions := created.sessions[s := done.sessions[s]])
    requires done.sessions[s] == created.sessions[s].(attach := created.sessions[s].attach.(todo := left, watermark := end,
                                                                                           writing := false))
    ensures done == Amid(st, s, done.log, left, end)
  {
    var again := Amid(st, s, done.log, left, end);
    assert done.sessions[s] == again.sessions[s];
    assert done.sessions == again.sessions;
  }

  lemma CreateAmid(st: State, s: nat, log: Log, todo: seq<Commit>, watermark: Option<nat>, step: Step)
    requires s in st.sessions && st.sessions[s].attach.Copying? && todo != []
    requires !(watermark.Some? && todo[0].version <= watermark.value) && todo[0].version !in log
    requires step == CopyFinish(s) || step == CopyAbandon(s)
    ensures var start := Amid(st, s, log, todo, watermark);
            && Enabled(start, CopyCreate(s)) && Enabled(Apply(start, CopyCreate(s)), step)
            && Apply(Apply(start, CopyCreate(s)), step) ==
               if step.CopyFinish? then
                 Amid(st, s, log[todo[0].version := LogFile(todo[0].file, Complete)], todo[1..], Some(todo[0].version))
               else
                 Amid(st, s, log[todo[0].version := LogFile(todo[0].file, Abandoned)], [], watermark)
  {
    hide Apply, Enabled;
    var start := Amid(st, s, log, todo, watermark);
    StartCreate(st, s, log, todo, watermark);
    var created := Apply(start, CopyCreate(s));
    EndCreate(created, step);
    var end := if step.CopyFinish? then Some(todo[0].version) else watermark;
    var left := if step.CopyFinish? then todo[1..] else [];
    AmidAgain(st, s, log, todo, watermark, created, Apply(created, step), left, end);
  }

  /** The copy loop, whatever its faults, takes the protocol from its first copy to its last. */
  lemma {:induction false} BackfillIsARun(st: State, s: nat, log: Log, todo: seq<Commit>, watermark: Option<nat>,
                                          faults: seq<Fault>)
    requires s in st.sessions && st.sessions[s].attach.Copying?
    ensures IsRun(Amid(st, s, log, todo, watermark), CopySteps(s, log, todo, watermark, faults))
    ensures var (log', watermark') := Backfill(log, todo, watermark, faults);
            After(Amid(st, s, log, todo, watermark), CopySteps(s, log, todo, watermark, faults))
            == Amid(st, s, log', [], watermark')
    decreases |todo|
  {
    hide Amid, Enabled, Apply, IsRun, After;
    var start := Amid(st, s, log, todo, watermark);
    if todo == [] {
      EmptyRun(start);
    } else {
      var version := todo[0].version;
      if watermark.Some? && version <= watermark.value {
        OneStepAmid(st, s, log, todo, watermark, CopySkip(s));
        BackfillIsARun(st, s, log, todo[1..], watermark, Rest(faults));
        RunCons(start, CopySkip(s), CopySteps(s, log, todo[1..], watermark, Rest(faults)));
      } else if FaultOf(faults).CannotOpen? {
        OneStepAmid(st, s, log, todo, watermark, CopyCannotOpen(s));
        EmptyRun(Amid(st, s, log, [], watermark));
        RunCons(start, CopyCannotOpen(s), []);
        assert [CopyCannotOpen(s)] + [] == [CopyCannotOpen(s)];
      } else if version in log {
        OneStepAmid(st, s, log, todo, watermark, CopyExists(s));
        BackfillIsARun(st, s, log, todo[1..], Some(version), Rest(faults));
        RunCons(start, CopyExists(s), CopySteps(s, log, todo[1..], Some(version), Rest(faults)));
      } else if FaultOf(faults).WriteFails? {
        CreateAmid(st, s, log, todo, watermark, CopyAbandon(s));
        var end := Apply(Apply(start, CopyCreate(s)), CopyAbandon(s));
        EmptyRun(end);
        RunCons(Apply(start, CopyCreate(s)), CopyAbandon(s), []);
        RunCons(start, CopyCreate(s), [CopyAbandon(s)] + []);
        assert [CopyCreate(s)] + ([CopyAbandon(s)] + []) == [CopyCreate(s), CopyAbandon(s)];
      } else {
        var log' := log[version := LogFile(todo[0].file, Complete)];
        var steps := CopySteps(s, log', todo[1..], Some(version), Rest(faults));
        CreateAmid(st, s, log, todo, watermark, CopyFinish(s));
        BackfillIsARun(st, s, log', todo[1..], Some(version), Rest(faults));
        RunCons(Apply(start, CopyCreate(s)), CopyFinish(s), steps);
        RunCons(start, CopyCreate(s), [CopyFinish(s)] + steps);
      }
    }
  }

  lemma EmptyRun(st: State)
    ensures IsRun(st, []) && After(st, []) == st
  {
  }

  // ---------- What LoadTable makes of a reply ----------

  /** The ratified version: the reported latest version (0 if absent), or the highest commit if that is more. */
  method RatifiedVersion(reply: Reply) returns (ratified: nat)
    ensures ratified == Ratified(reply)
    ensures forall c :: c in reply.listed ==> c.version <= ratified
    ensures reply.latest.Some? ==> reply.latest.value <= ratified
    ensures ratified == 0 || reply.latest == Some(ratified) || Lists(reply.listed, ratified)
  {
    var reported := if reply.latest.Some? then reply.latest.value else 0;
    var highest := 0;
    for i := 0 to |reply.listed|
      invariant highest == HighestListed(reply.listed[..i])
    {
      assert reply.listed[..i + 1][..i] == reply.listed[..i];
      if reply.listed[i].version > highest {
        highest := reply.listed[i].version;
      }
    }
    assert reply.listed[..|reply.listed|] == reply.listed;
    ratified := if reported > highest then reported else highest;
  }

  // ---------- Attaching and committing, as values ----------

  datatype Load = LoadThrows | Loads(reply: Reply)

  datatype Answer = CommitThrows | CommitReturns(etag: Option<nat>)

  /** The session and the log after an InternalAttach that meets these outcomes. */
  function Attach(session: Session, log: Log, reading: bool, load: Load, faults: seq<Fault>, attachThrows: bool)
    : (r: (Session, Log))
  {
    if Reuses(session, reading) then (session, log)
    else
      var detached := session.(dirty := false, attached := None);
      if load.LoadThrows? then (detached, log)
      else
        var (log', watermark) := CopyAll(session, log, load.reply, faults);
        var published := detached.(etag := load.reply.etag, watermark := watermark);
        (if attachThrows then published else published.(attached := Some(SnapshotOf(load.reply))), log')
  }

  /** Copying is a writer's duty: a read-only session leaves the log and its watermark alone. */
  function CopyAll(session: Session, log: Log, reply: Reply, faults: seq<Fault>): (r: (Log, Option<nat>)) {
    if session.readOnly then (log, session.watermark)
    else Backfill(log, SortByVersion(reply.listed), session.watermark, faults)
  }

  /** The session after a commit call: a call that throws leaves no trace in it. */
  function Commits(session: Session, version: nat, file: string, answer: Answer): (r: Session) {
    if answer.CommitThrows? then session
    else session.(dirty := true, etag := answer.etag, acknowledged := session.acknowledged[version := file])
  }

  /** The tail is what the reply lists, and the version the highest it lists or reports, or 0. */
  predicate ShowsReply(snapshot: Snapshot, reply: Reply) {
    && snapshot.tail == reply.listed
    && (forall c :: c in reply.listed ==> c.version <= snapshot.ratified)
    && (reply.latest.Some? ==> reply.latest.value <= snapshot.ratified)
    && (snapshot.ratified == 0 || reply.latest == Some(snapshot.ratified) || Lists(reply.listed, snapshot.ratified))
  }

  class TableInformation {
    const readOnly: bool
    const disk: DeltaLog
    var isDirty: bool
    var attached: Option<Snapshot>
    var etag: Option<nat>
    var backfilledVersion: Option<nat>
    ghost var acknowledged: map<nat, string>

    /** The session as the protocol sees it between this object's calls. */
    ghost function Model(): (r: Session)
      reads this
    {
      Session(readOnly, isDirty, attached, etag, backfilledVersion, Idle, map[], acknowledged)
    }

    constructor (readOnly: bool, disk: DeltaLog)
      ensures this.disk == disk
      ensures Model() == NEW_SESSION.(readOnly := readOnly)
    {
      this.readOnly, this.disk := readOnly, disk;
      isDirty, attached, etag, backfilledVersion := false, None, None, None;
      acknowledged := map[];
    }

    method InternalDetach()
      modifies this
      ensures Model() == old(Model()).(attached := None)
    {
      if attached.None? {
        return;
      }
      attached := None;
    }

    method MarkDirty()
      modifies this
      ensures Model() == old(Model()).(dirty := true)
    {
      isDirty := true;
    }

    /**
     * `reading` says that the calling transaction already reads what is attached: it keeps it, dirty or
     * not. So does any transaction as long as nothing is dirty. Otherwise nothing old stays attached, and
     * something new comes from the reply alone.
     */
    method InternalAttach(reading: bool, load: Load, faults: seq<Fault>, attachThrows: bool) returns (ok: bool)
      modifies this, disk
      ensures old(attached).Some? && (reading || !old(isDirty)) ==>
                ok && Model() == old(Model()) && disk.files == old(disk.files)
      ensures old(attached).None? || (!reading && old(isDirty)) ==>
                && !isDirty && acknowledged == old(acknowledged)
                && (load.LoadThrows? ==>
                      && attached.None? && etag == old(etag)
                      && backfilledVersion == old(backfilledVersion) && disk.files == old(disk.files))
                && (load.Loads? ==>
                      && etag == load.reply.etag
                      && if attachThrows then attached.None? else attached.Some? && ShowsReply(attached.value, load.reply))
                && (readOnly ==> backfilledVersion == old(backfilledVersion) && disk.files == old(disk.files))
      ensures (Model(), disk.files) == Attach(old(Model()), old(disk.files), reading, load, faults, attachThrows)
      ensures ok <==> attached.Some?
    {
      hide Ratified, SortByVersion, Backfill;
      var readByThisTransaction := attached.Some? && reading;
      if isDirty && !readByThisTransaction {
        InternalDetach();
        isDirty := false;
      }
      if attached.Some? {
        return true;
      }
      if load.LoadThrows? {
        return false;
      }
      var ratified := RatifiedVersion(load.reply);
      var start := backfilledVersion;
      var watermark := start;
      if !readOnly {
        watermark := BackfillCommits(disk, load.reply.listed, start, faults);
      }
      etag, backfilledVersion := load.reply.etag, watermark;
      if attachThrows {
        return false;
      }
      attached := Some(Snapshot(ratified, load.reply.listed));
      return true;
    }

    /** Sends the etag and the watermark of one locked read, and caches the new etag only after the dirty mark. */
    method CommitExecute(version: nat, file: string, answer: Answer) returns (ok: bool, sent: CommitPhase)
      modifies this
      ensures Model() == Commits(old(Model()), version, file, answer)
      ensures answer.CommitThrows? ==> Model() == old(Model())
      ensures answer.CommitReturns? ==>
                && isDirty && etag == answer.etag && acknowledged == old(acknowledged)[version := file]
                && attached == old(attached) && backfilledVersion == old(backfilledVersion)
      ensures ok <==> answer.CommitReturns?
      ensures sent == Requesting(version, file, old(etag), old(backfilledVersion))
    {
      sent := Requesting(version, file, etag, backfilledVersion);
      if answer.CommitThrows? {
        return false, sent;
      }
      MarkDirty();
      acknowledged := acknowledged[version := file];
      etag := answer.etag;
      ok := true;
    }
  }

  // ---------- Attaching and committing are runs of the protocol ----------

  function AttachSteps(s: nat, session: Session, log: Log, reading: bool, load: Load, faults: seq<Fault>, attachThrows: bool)
    : (r: seq<Step>)
  {
    if Reuses(session, reading) then [BeginAttach(s, reading)]
    else if load.LoadThrows? then [BeginAttach(s, reading)] + [LoadFails(s)]
    else
      [BeginAttach(s, reading)] + ([LoadReplies(s, load.reply)] + (CopyAllSteps(s, session, log, load.reply, faults) +
        ([Publish(s)] + [if attachThrows then AttachFails(s) else AttachDone(s)])))
  }

  function CopyAllSteps(s: nat, session: Session, log: Log, reply: Reply, faults: seq<Fault>): (r: seq<Step>) {
    if session.readOnly then [] else CopySteps(s, log, SortByVersion(reply.listed), session.watermark, faults)
  }

  /** What a finished attach adds to the history of attaches. */
  function Finished(s: nat, session: Session, reading: bool, load: Load, attachThrows: bool): (r: seq<AttachRecord>) {
    if Reuses(session, reading) then [AttachRecord(s, reading, session.acknowledged, session.attached.value)]
    else if load.LoadThrows? || attachThrows then []
    else [AttachRecord(s, false, session.acknowledged, SnapshotOf(load.reply))]
  }

  /** The state right after LoadTable has replied to session `s`. */
  function Loaded(st: State, s: nat, reply: Reply): (r: State)
    requires s in st.sessions
  {
    var session := st.sessions[s];
    var todo := if session.readOnly then [] else SortByVersion(reply.listed);
    st.(sessions := st.sessions[s := session.(dirty := false, attached := None,
                                              attach := Copying(session.acknowledged, reply, todo, session.watermark, false))])
  }

  lemma LoadIsARun(st: State, s: nat, reading: bool, reply: Reply)
    requires s in st.sessions && st.sessions[s].attach.Idle? && !Reuses(st.sessions[s], reading)
    requires Answers(st.server, reply)
    ensures var began := Apply(st, BeginAttach(s, reading));
            && Enabled(st, BeginAttach(s, reading)) && Enabled(began, LoadReplies(s, reply))
            && Apply(began, LoadReplies(s, reply)) == Loaded(st, s, reply)
  {
    hide Answers, SortByVersion, Ratified;
    var began := Apply(st, BeginAttach(s, reading));
    var session := st.sessions[s];
    assert began == st.(sessions := st.sessions[s := session.(dirty := false, attached := None,
                                                              attach := Loading(session.acknowledged))]);
    assert Apply(began, LoadReplies(s, reply)).sessions == Loaded(st, s, reply).sessions;
  }

  lemma CopyAllIsARun(st: State, s: nat, reply: Reply, faults: seq<Fault>)
    requires s in st.sessions
    ensures var (log, watermark) := CopyAll(st.sessions[s], st.log, reply, faults);
            var steps := CopyAllSteps(s, st.sessions[s], st.log, reply, faults);
            && IsRun(Loaded(st, s, reply), steps)
            && After(Loaded(st, s, reply), steps) == Amid(Loaded(st, s, reply), s, log, [], watermark)
  {
    hide SortByVersion, IsRun, After, Backfill, CopySteps;
    var session := st.sessions[s];
    var loaded := Loaded(st, s, reply);
    if session.readOnly {
      EmptyRun(loaded);
      assert loaded.sessions == Amid(loaded, s, st.log, [], session.watermark).sessions;
    } else {
      var todo := SortByVersion(reply.listed);
      assert loaded.sessions == Amid(loaded, s, st.log, todo, session.watermark).sessions;
      BackfillIsARun(loaded, s, st.log, todo, session.watermark, faults);
    }
  }

  lemma PublishIsAStep(st: State, s: nat)
    requires s in st.sessions && st.sessions[s].attach.Copying? && st.sessions[s].attach.todo == []
    ensures var session := st.sessions[s];
            var phase := session.attach;
            && Enabled(st, Publish(s))
            && Apply(st, Publish(s)) ==
               st.(sessions := st.sessions[s := session.(etag := phase.reply.etag, watermark := phase.watermark,
                                                         attach := Published(phase.mustSee, phase.reply))])
  {
    hide Ratified, SortByVersion;
  }

  lemma FinishIsAStep(st: State, s: nat, attachThrows: bool)
    requires s in st.sessions && st.sessions[s].attach.Published?
    ensures var last := if attachThrows then AttachFails(s) else AttachDone(s);
            var session := st.sessions[s];
            var phase := session.attach;
            && Enabled(st, last)
            && Apply(st, last) ==
               st.(sessions := st.sessions[s := if attachThrows then session.(attach := Idle)
                                               else session.(attached := Some(SnapshotOf(phase.reply)), attach := Idle)],
                   attaches := st.attaches +
                     if attachThrows then [] else [AttachRecord(s, false, phase.mustSee, SnapshotOf(phase.reply))])
  {
    hide Ratified, SortByVersion;
  }

  lemma PublishIsARun(st: State, s: nat, attachThrows: bool)
    requires s in st.sessions && st.sessions[s].attach.Copying? && st.sessions[s].attach.todo == []
    ensures var phase := st.sessions[s].attach;
            var last := if attachThrows then AttachFails(s) else AttachDone(s);
            var published := st.sessions[s].(etag := phase.reply.etag, watermark := phase.watermark, attach := Idle);
            && IsRun(st, [Publish(s)] + [last])
            && After(st, [Publish(s)] + [last]) ==
               st.(sessions := st.sessions[s := if attachThrows then published
                                               else published.(attached := Some(SnapshotOf(phase.reply)))],
                   attaches := st.attaches +
                     if attachThrows then [] else [AttachRecord(s, false, phase.mustSee, SnapshotOf(phase.reply))])
  {
    hide Ratified, IsRun, After, Apply, Enabled;
    var last := if attachThrows then AttachFails(s) else AttachDone(s);
    var published := Apply(st, Publish(s));
    PublishIsAStep(st, s);
    FinishIsAStep(published, s, attachThrows);
    EmptyRun(Apply(published, last));
    RunCons(published, last, []);
    assert [last] + [] == [last];
    RunCons(st, Publish(s), [last]);
  }

  /**
   * An InternalAttach on its own, whatever its outcomes, is a run of the protocol: it leaves the
   * session, the log and the record of attaches as that run does, and the server alone.
   */
  lemma AttachIsARun(st: State, s: nat, reading: bool, load: Load, faults: seq<Fault>, attachThrows: bool)
    requires s in st.sessions && st.sessions[s].attach.Idle?
    requires load.Loads? ==> Answers(st.server, load.reply)
    ensures var steps := AttachSteps(s, st.sessions[s], st.log, reading, load, faults, attachThrows);
            var (session, log) := Attach(st.sessions[s], st.log, reading, load, faults, attachThrows);
            && IsRun(st, steps)
            && After(st, steps) ==
               State(st.server, log, st.sessions[s := session],
                     st.attaches + Finished(s, st.sessions[s], reading, load, attachThrows))
  {
    var was := st.sessions[s];
    if Reuses(was, reading) {
      ReuseIsARun(st, s, reading);
      hide Reuses;
      assert st.sessions[s := was] == st.sessions;
    } else if load.LoadThrows? {
      FailedLoadIsARun(st, s, reading);
      hide Reuses;
    } else {
      hide Answers, Ratified, SortByVersion, Backfill, CopySteps, IsRun, After, Apply, Enabled;
      var loaded := Loaded(st, s, load.reply);
      var copies := CopyAllSteps(s, was, st.log, load.reply, faults);
      var (log, watermark) := CopyAll(was, st.log, load.reply, faults);
      var copied := Amid(loaded, s, log, [], watermark);
      var ending := [Publish(s)] + [if attachThrows then AttachFails(s) else AttachDone(s)];
      CopyAllIsARun(st, s, load.reply, faults);
      PublishIsARun(copied, s, attachThrows);
      CommitSafety.RunConcat(loaded, copies, ending);
      LoadIsARun(st, s, reading, load.reply);
      RunCons(Apply(st, BeginAttach(s, reading)), LoadReplies(s, load.reply), copies + ending);
      RunCons(st, BeginAttach(s, reading), [LoadReplies(s, load.reply)] + (copies + ending));
      hide CopyAll, CopyAllSteps;
      AttachEnds(st, s, reading, load, faults, attachThrows);
    }
  }

  lemma AttachEnds(st: State, s: nat, reading: bool, load: Load, faults: seq<Fault>, attachThrows: bool)
    requires s in st.sessions && st.sessions[s].attach.Idle?
    requires load.Loads? && !Reuses(st.sessions[s], reading)
    ensures var (log, watermark) := CopyAll(st.sessions[s], st.log, load.reply, faults);
            var copied := Amid(Loaded(st, s, load.reply), s, log, [], watermark);
            var phase := copied.sessions[s].attach;
            var published := copied.sessions[s].(etag := phase.reply.etag, watermark := phase.watermark, attach := Idle);
            copied.sessions[s := if attachThrows then published else published.(attached := Some(SnapshotOf(phase.reply)))]
            == st.sessions[s := Attach(st.sessions[s], st.log, reading, load, faults, attachThrows).0]
  {
    hide CopyAll, Ratified, SortByVersion;
  }

  lemma ReuseIsARun(st: State, s: nat, reading: bool)
    requires s in st.sessions && st.sessions[s].attach.Idle? && Reuses(st.sessions[s], reading)
    ensures var record := AttachRecord(s, reading, st.sessions[s].acknowledged, st.sessions[s].attached.value);
            && IsRun(st, [BeginAttach(s, reading)])
            && After(st, [BeginAttach(s, reading)]) == st.(attaches := st.attaches + [record])
  {
    hide IsRun, After, Ratified, SortByVersion;
    var began := Apply(st, BeginAttach(s, reading));
    assert began.sessions == st.sessions;
    EmptyRun(began);
    RunCons(st, BeginAttach(s, reading), []);
    assert [BeginAttach(s, reading)] + [] == [BeginAttach(s, reading)];
  }

  lemma FailedLoadIsARun(st: State, s: nat, reading: bool)
    requires s in st.sessions && st.sessions[s].attach.Idle? && !Reuses(st.sessions[s], reading)
    ensures var steps := [BeginAttach(s, reading)] + [LoadFails(s)];
            && IsRun(st, steps)
            && After(st, steps) ==
               st.(sessions := st.sessions[s := st.sessions[s].(dirty := false, attached := None)])
  {
    hide IsRun, After, Ratified, SortByVersion, Reuses;
    var began := Apply(st, BeginAttach(s, reading));
    assert began.sessions[s].attach.Loading?;
    EmptyRun(Apply(began, LoadFails(s)));
    RunCons(began, LoadFails(s), []);
    assert [LoadFails(s)] + [] == [LoadFails(s)];
    RunCons(st, BeginAttach(s, reading), [LoadFails(s)]);
  }

  // ---------- Committing is a run of the protocol ----------

  /** A commit call that the server takes and that returns: the four steps a caller waits for. */
  function CommitSteps(s: nat, call: nat, version: nat, file: string, etag: Option<nat>, told: bool, moveMark: bool)
    : (r: seq<Step>)
  {
    [CommitStart(s, call, version, file)] + ([CommitAccepted(s, call, etag, told, moveMark)] +
      ([MarkDirty(s, call)] + [StoreEtag(s, call)]))
  }

  lemma RequestIsAStep(st: State, s: nat, call: nat, version: nat, file: string)
    requires s in st.sessions && call !in st.sessions[s].calls
    ensures var session := st.sessions[s];
            && Enabled(st, CommitStart(s, call, version, file))
            && Apply(st, CommitStart(s, call, version, file)) ==
               st.(sessions := st.sessions[s := session.(calls :=
                 session.calls[call := Requesting(version, file, session.etag, session.watermark)])])
  {
    hide Ratified, SortByVersion;
  }

  lemma ReturnIsARun(st: State, s: nat, call: nat)
    requires s in st.sessions && st.sessions[s].attach.Idle?
    requires call in st.sessions[s].calls && st.sessions[s].calls[call].Accepted?
    ensures var session := st.sessions[s];
            var done := session.calls[call];
            var steps := [MarkDirty(s, call)] + [StoreEtag(s, call)];
            && IsRun(st, steps)
            && After(st, steps) ==
               st.(sessions := st.sessions[s := session.(dirty := true, etag := done.etag, calls := session.calls - {call},
                                                         acknowledged := session.acknowledged[done.version := done.file])])
  {
    hide Ratified, SortByVersion, IsRun, After;
    var done := st.sessions[s].calls[call];
    var marked := Apply(st, MarkDirty(s, call));
    assert marked.sessions[s].calls[call] == MarkedDirty(done.version, done.file, done.etag);
    assert marked.sessions[s].calls - {call} == st.sessions[s].calls - {call};
    EmptyRun(Apply(marked, StoreEtag(s, call)));
    RunCons(marked, StoreEtag(s, call), []);
    assert [StoreEtag(s, call)] + [] == [StoreEtag(s, call)];
    RunCons(st, MarkDirty(s, call), [StoreEtag(s, call)]);
  }

  lemma AcceptIsAStep(st: State, s: nat, call: nat, etag: Option<nat>, told: bool, moveMark: bool)
    requires s in st.sessions && Requests(st.sessions[s], call)
    requires Accepts(st.server, st.sessions[s].calls[call].version, st.sessions[s].calls[call].etag)
    ensures var step := CommitAccepted(s, call, etag, told, moveMark);
            var session := st.sessions[s];
            var request := session.calls[call];
            && Enabled(st, step)
            && Apply(st, step) ==
               st.(server := Ratify(st.server, request, etag, moveMark),
                   sessions := st.sessions[s := session.(calls :=
                     session.calls[call := Accepted(request.version, request.file, if told then etag else None)])])
  {
    hide Ratified, SortByVersion, Ratify;
  }

  /**
   * A commit call on its own that the server takes is a run of the protocol: it ratifies exactly one
   * more version, the file it was given, and leaves the session dirty and the log as it was.
   */
  lemma CommitIsARun(st: State, s: nat, call: nat, version: nat, file: string, etag: Option<nat>, told: bool, moveMark: bool)
    requires s in st.sessions && st.sessions[s].attach.Idle? && call !in st.sessions[s].calls
    requires Accepts(st.server, version, st.sessions[s].etag)
    ensures var steps := CommitSteps(s, call, version, file, etag, told, moveMark);
            var end := After(st, steps);
            && IsRun(st, steps)
            && end.server.commits == st.server.commits + [file] && end.server.etag == etag
            && end.log == st.log && end.attaches == st.attaches
            && end.sessions == st.sessions[s :=
                 Commits(st.sessions[s], version, file, CommitReturns(if told then etag else None))]
  {
    hide IsRun, After, Apply, Enabled, Accepts;
    var session := st.sessions[s];
    var requested := Apply(st, CommitStart(s, call, version, file));
    RequestIsAStep(st, s, call, version, file);
    assert requested.sessions[s].calls[call] == Requesting(version, file, session.etag, session.watermark);
    AcceptIsAStep(requested, s, call, etag, told, moveMark);
    var accepted := Apply(requested, CommitAccepted(s, call, etag, told, moveMark));
    assert accepted.sessions[s].calls[call] == Accepted(version, file, if told then etag else None);
    assert accepted.sessions[s].calls - {call} == session.calls;
    ReturnIsARun(accepted, s, call);
    RunCons(requested, CommitAccepted(s, call, etag, told, moveMark), [MarkDirty(s, call)] + [StoreEtag(s, call)]);
    RunCons(st, CommitStart(s, call, version, file),
            [CommitAccepted(s, call, etag, told, moveMark)] + ([MarkDirty(s, call)] + [StoreEtag(s, call)]));
    var end := After(st, CommitSteps(s, call, version, file, etag, told, moveMark));
    assert end.sessions[s] == Commits(session, version, file, CommitReturns(if told then etag else None));
    assert end.sessions == st.sessions[s := end.sessions[s]];
  }

  /** A commit call that throws: the server refused it, or took it and its answer was lost. */
  function RefusedSteps(s: nat, call: nat, version: nat, file: string): (r: seq<Step>) {
    [CommitStart(s, call, version, file)] + [CommitRejected(s, call)]
  }

  function LostSteps(s: nat, call: nat, version: nat, file: string, etag: Option<nat>, moveMark: bool): (r: seq<Step>) {
    [CommitStart(s, call, version, file)] + [CommitLost(s, call, etag, moveMark)]
  }

  lemma RefuseIsAStep(st: State, s: nat, call: nat)
    requires s in st.sessions && Requests(st.sessions[s], call)
    ensures var session := st.sessions[s];
            && Enabled(st, CommitRejected(s, call))
            && Apply(st, CommitRejected(s, call)) ==
               st.(sessions := st.sessions[s := session.(calls := session.calls - {call})])
  {
    hide Ratified, SortByVersion;
  }

  lemma LoseIsAStep(st: State, s: nat, call: nat, etag: Option<nat>, moveMark: bool)
    requires s in st.sessions && Requests(st.sessions[s], call)
    requires Accepts(st.server, st.sessions[s].calls[call].version, st.sessions[s].calls[call].etag)
    ensures var session := st.sessions[s];
            && Enabled(st, CommitLost(s, call, etag, moveMark))
            && Apply(st, CommitLost(s, call, etag, moveMark)) ==
               st.(server := Ratify(st.server, session.calls[call], etag, moveMark),
                   sessions := st.sessions[s := session.(calls := session.calls - {call})])
  {
    hide Ratified, SortByVersion, Ratify;
  }

  /** A commit call that the server refuses is a run of the protocol that changes nothing at all. */
  lemma RefusedCommitIsARun(st: State, s: nat, call: nat, version: nat, file: string)
    requires s in st.sessions && call !in st.sessions[s].calls
    ensures var steps := RefusedSteps(s, call, version, file);
            && IsRun(st, steps) && After(st, steps) == st
            && st.sessions[s] == Commits(st.sessions[s], version, file, CommitThrows)
  {
    hide IsRun, After, Apply, Enabled;
    var requested := Apply(st, CommitStart(s, call, version, file));
    RequestIsAStep(st, s, call, version, file);
    RefuseIsAStep(requested, s, call);
    var end := Apply(requested, CommitRejected(s, call));
    assert requested.sessions[s].calls - {call} == st.sessions[s].calls;
    assert end.sessions == st.sessions;
    EmptyRun(end);
    RunCons(requested, CommitRejected(s, call), []);
    assert [CommitRejected(s, call)] + [] == [CommitRejected(s, call)];
    RunCons(st, CommitStart(s, call, version, file), [CommitRejected(s, call)]);
  }

  /**
   * A commit call whose answer is lost is a run of the protocol: the server has ratified the file,
   * and the session knows nothing of it, is not dirty for it, and keeps the etag it had.
   */
  lemma LostCommitIsARun(st: State, s: nat, call: nat, version: nat, file: string, etag: Option<nat>, moveMark: bool)
    requires s in st.sessions && call !in st.sessions[s].calls
    requires Accepts(st.server, version, st.sessions[s].etag)
    ensures var steps := LostSteps(s, call, version, file, etag, moveMark);
            var end := After(st, steps);
            && IsRun(st, steps)
            && end.server.commits == st.server.commits + [file] && end.server.etag == etag
            && end == st.(server := end.server)
            && st.sessions[s] == Commits(st.sessions[s], version, file, CommitThrows)
  {
    hide IsRun, After, Apply, Enabled, Accepts;
    var session := st.sessions[s];
    var requested := Apply(st, CommitStart(s, call, version, file));
    RequestIsAStep(st, s, call, version, file);
    assert requested.sessions[s].calls[call] == Requesting(version, file, session.etag, session.watermark);
    LoseIsAStep(requested, s, call, etag, moveMark);
    var end := Apply(requested, CommitLost(s, call, etag, moveMark));
    assert requested.sessions[s].calls - {call} == session.calls;
    assert end.sessions == st.sessions;
    EmptyRun(end);
    RunCons(requested, CommitLost(s, call, etag, moveMark), []);
    assert [CommitLost(s, call, etag, moveMark)] + [] == [CommitLost(s, call, etag, moveMark)];
    RunCons(st, CommitStart(s, call, version, file), [CommitLost(s, call, etag, moveMark)]);
  }

  /** Detaching is a step of the protocol. */
  lemma DetachIsARun(st: State, s: nat)
    requires s in st.sessions && st.sessions[s].attach.Idle?
    ensures IsRun(st, [Detach(s)])
    ensures After(st, [Detach(s)]) == st.(sessions := st.sessions[s := st.sessions[s].(attached := None)])
  {
    hide IsRun, After, Ratified, SortByVersion;
    var end := Apply(st, Detach(s));
    EmptyRun(end);
    RunCons(st, Detach(s), []);
    assert [Detach(s)] + [] == [Detach(s)];
  }

  // ---------- What follows for the calls ----------

  /**
   * So an attach on its own takes reachable states to reachable states, and every theorem about those
   * holds after it.
   */
  lemma AttachStaysReachable(st: State, s: nat, reading: bool, load: Load, faults: seq<Fault>, attachThrows: bool)
    requires CommitSafety.Reachable(st) && s in st.sessions && st.sessions[s].attach.Idle?
    requires load.Loads? ==> Answers(st.server, load.reply)
    ensures var (session, log) := Attach(st.sessions[s], st.log, reading, load, faults, attachThrows);
            CommitSafety.Reachable(State(st.server, log, st.sessions[s := session],
                                         st.attaches + Finished(s, st.sessions[s], reading, load, attachThrows)))
  {
    AttachIsARun(st, s, reading, load, faults, attachThrows);
    hide IsRun, After, Init, Attach, Finished, AttachSteps, Answers;
    RunStaysReachable(st, AttachSteps(s, st.sessions[s], st.log, reading, load, faults, attachThrows));
  }

  lemma RunStaysReachable(st: State, steps: seq<Step>)
    requires CommitSafety.Reachable(st) && IsRun(st, steps)
    ensures CommitSafety.Reachable(After(st, steps))
  {
    hide IsRun, After, Init;
    var start, run :| CommitSafety.Leads(start, run, st);
    CommitSafety.RunConcat(start, run, steps);
    assert CommitSafety.Leads(start, run + steps, After(st, steps));
  }

  /** What the server and the network make of a commit call. */
  datatype Fate = Refused | Lost(etag: Option<nat>, moveMark: bool) | Returned(etag: Option<nat>, told: bool, moveMark: bool)

  /** What the caller of a commit call sees of its fate. */
  function AnswerOf(fate: Fate): (r: Answer) {
    if fate.Returned? then CommitReturns(if fate.told then fate.etag else None) else CommitThrows
  }

  /**
   * And so does a commit call, whether it returns, is refused, or is ratified without its caller's
   * knowing: there is a reachable state with the session as the call leaves it, everything else but
   * the server as it was, and one more version ratified unless the call was refused.
   */
  lemma CommitStaysReachable(st: State, s: nat, call: nat, version: nat, file: string, fate: Fate) returns (end: State)
    requires CommitSafety.Reachable(st) && s in st.sessions && st.sessions[s].attach.Idle?
    requires call !in st.sessions[s].calls
    requires !fate.Refused? ==> Accepts(st.server, version, st.sessions[s].etag)
    ensures CommitSafety.Reachable(end)
    ensures end.sessions == st.sessions[s := Commits(st.sessions[s], version, file, AnswerOf(fate))]
    ensures end.log == st.log && end.attaches == st.attaches
    ensures fate.Refused? ==> end.server == st.server
    ensures !fate.Refused? ==> end.server.commits == st.server.commits + [file] && end.server.etag == fate.etag
  {
    hide IsRun, After, Accepts;
    match fate
    case Refused =>
      RefusedCommitIsARun(st, s, call, version, file);
      end := st;
      assert st.sessions[s := st.sessions[s]] == st.sessions;
    case Lost(etag, moveMark) =>
      LostCommitIsARun(st, s, call, version, file, etag, moveMark);
      RunStaysReachable(st, LostSteps(s, call, version, file, etag, moveMark));
      end := After(st, LostSteps(s, call, version, file, etag, moveMark));
      assert st.sessions[s := st.sessions[s]] == st.sessions;
    case Returned(etag, told, moveMark) =>
      CommitIsARun(st, s, call, version, file, etag, told, moveMark);
      RunStaysReachable(st, CommitSteps(s, call, version, file, etag, told, moveMark));
      end := After(st, CommitSteps(s, call, version, file, etag, told, moveMark));
  }

  lemma DetachStaysReachable(st: State, s: nat)
    requires CommitSafety.Reachable(st) && s in st.sessions && st.sessions[s].attach.Idle?
    ensures CommitSafety.Reachable(st.(sessions := st.sessions[s := st.sessions[s].(attached := None)]))
  {
    DetachIsARun(st, s);
    hide IsRun, After;
    RunStaysReachable(st, [Detach(s)]);
  }

  /** A session amid its copies whose reply leaves no gap above the log. */
  function CopyingState(log: Log, listed: seq<Commit>, start: Option<nat>, commits: seq<string>): (r: State) {
    var phase := Copying(map[], Reply(listed, None, None), SortByVersion(listed), start, false);
    State(Server(commits, -1, None), log, map[0 := NEW_SESSION.(watermark := start, attach := phase)], [])
  }

  lemma CopyingStateInv(log: Log, listed: seq<Commit>, start: Option<nat>, commits: seq<string>)
    requires |commits| > 0 && LogAgrees(log, commits) && Agree(listed, commits) && Backfilled(start, log)
    requires forall v: nat :: v <= HighestListed(listed) ==> v in log || Lists(listed, v)
    ensures Inv(CopyingState(log, listed, start, commits))
  {
    SortByVersionKeeps(listed);
    hide SortByVersion;
  }

  /**
   * Whatever order the commits come in, whatever repeats, fails, or exists already: as long as the
   * list has no gap above the log, copying keeps every entry that was there, adds only ratified
   * files, never lowers the watermark, and never raises it past a version missing from the log.
   */
  lemma BackfillIsSafe(log: Log, listed: seq<Commit>, start: Option<nat>, faults: seq<Fault>, commits: seq<string>)
    requires |commits| > 0 && LogAgrees(log, commits) && Agree(listed, commits) && Backfilled(start, log)
    requires forall v: nat :: v <= HighestListed(listed) ==> v in log || Lists(listed, v)
    ensures var (log', watermark) := Backfill(log, SortByVersion(listed), start, faults);
            && log.Keys <= log'.Keys && LogAgrees(log', commits)
            && Backfilled(watermark, log') && NotBelow(watermark, start)
  {
    hide SortByVersion, Backfill, CopySteps, IsRun, After, Inv, LogAgrees, Agree, Backfilled, NotBelow, HighestListed, Lists;
    var st := CopyingState(log, listed, start, commits);
    CopyingStateInv(log, listed, start, commits);
    var todo := SortByVersion(listed);
    var steps := CopySteps(0, log, todo, start, faults);
    assert Amid(st, 0, log, todo, start) == st;
    BackfillIsARun(st, 0, log, todo, start, faults);
    CommitSafety.RunKeepsInv(st, steps);
    CommitSafety.RunGrows(st, steps);
    var (log', watermark) := Backfill(log, todo, start, faults);
    CopiesAreSafe(Amid(st, 0, log', [], watermark), 0);
  }

  lemma CopiesAreSafe(st: State, s: nat)
    requires Inv(st) && s in st.sessions && st.sessions[s].attach.Copying?
    ensures var phase := st.sessions[s].attach;
            Backfilled(phase.watermark, st.log) && NotBelow(phase.watermark, st.sessions[s].watermark)
    ensures LogAgrees(st.log, st.server.commits)
  {
    hide Backfilled, NotBelow, LogAgrees, Readable, CallsInv, RecordsInv;
    assert SessionInv(st.sessions[s], st.server.commits, st.log);
  }

  predicate Dealt(todo: seq<Commit>, log: Log, watermark: Option<nat>) {
    forall c :: c in todo ==> c.version in log && watermark.Some? && c.version <= watermark.value
  }

  lemma DealtCons(todo: seq<Commit>, log: Log, watermark: Option<nat>)
    requires todo != [] && Dealt(todo[1..], log, watermark)
    requires todo[0].version in log && NotBelow(watermark, Some(todo[0].version))
    ensures Dealt(todo, log, watermark)
  {
    assert todo == [todo[0]] + todo[1..];
  }

  /** The commits at or below the watermark are in the log. */
  predicate SkipsOnlyPresent(todo: seq<Commit>, log: Log, watermark: Option<nat>) {
    watermark.Some? ==> forall c :: c in todo && c.version <= watermark.value ==> c.version in log
  }

  lemma AdvanceSkipsOnlyPresent(todo: seq<Commit>, log: Log)
    requires todo != [] && Ascending(todo) && todo[0].version in log
    ensures SkipsOnlyPresent(todo[1..], log, Some(todo[0].version)) && Ascending(todo[1..])
  {
  }

  /** With no fault, copying brings every listed version into the log and under the watermark. */
  lemma {:induction false} BackfillFinishes(log: Log, todo: seq<Commit>, watermark: Option<nat>, faults: seq<Fault>)
    requires Ascending(todo) && SkipsOnlyPresent(todo, log, watermark)
    requires forall fault :: fault in faults ==> fault.NoFault?
    ensures var (log', watermark') := Backfill(log, todo, watermark, faults);
            log.Keys <= log'.Keys && NotBelow(watermark', watermark) && Dealt(todo, log', watermark')
    decreases |todo|
  {
    if todo != [] {
      var version := todo[0].version;
      assert FaultOf(faults).NoFault?;
      if watermark.Some? && version <= watermark.value {
        SkipStaysPresent(todo, log, watermark);
        hide Ascending, SkipsOnlyPresent, Dealt;
        BackfillFinishes(log, todo[1..], watermark, Rest(faults));
        var (log', watermark') := Backfill(log, todo[1..], watermark, Rest(faults));
        DealtCons(todo, log', watermark');
      } else {
        var next := if version in log then log else log[version := LogFile(todo[0].file, Complete)];
        AdvanceSkipsOnlyPresent(todo, next);
        hide Ascending, SkipsOnlyPresent, Dealt;
        BackfillFinishes(next, todo[1..], Some(version), Rest(faults));
        var (log', watermark') := Backfill(next, todo[1..], Some(version), Rest(faults));
        DealtCons(todo, log', watermark');
      }
    }
  }

  // ---------- How far copying gets ----------

  predicate CoveredBy(watermark: Option<nat>, version: nat) {
    watermark.Some? && version <= watermark.value
  }

  function FaultAt(faults: seq<Fault>, i: nat): (r: Fault) {
    if i < |faults| then faults[i] else NoFault
  }

  /** The i-th commit is the first of its version, and the watermark at the start does not cover it. */
  predicate IsTurn(todo: seq<Commit>, start: Option<nat>, i: nat)
    requires i < |todo|
  {
    !CoveredBy(start, todo[i].version) && (i == 0 || todo[i - 1].version < todo[i].version)
  }

  /** Copying the i-th commit fails: its staged file cannot be opened, or its target cannot be written. */
  predicate Stops(log: Log, todo: seq<Commit>, start: Option<nat>, faults: seq<Fault>, i: nat)
    requires i < |todo|
  {
    && IsTurn(todo, start, i)
    && (FaultAt(faults, i).CannotOpen? || (FaultAt(faults, i).WriteFails? && todo[i].version !in log))
  }

  /** The first commit whose copy fails is the k-th, or there is none and k is past the end. */
  predicate FirstStop(log: Log, todo: seq<Commit>, start: Option<nat>, faults: seq<Fault>, k: nat) {
    && k <= |todo|
    && (forall i :: 0 <= i < k ==> !Stops(log, todo, start, faults, i))
    && (k < |todo| ==> Stops(log, todo, start, faults, k))
  }

  /** Where the watermark ends up: at the last commit before the k-th, unless it was there already. */
  function Reached(todo: seq<Commit>, start: Option<nat>, k: nat): (r: Option<nat>)
    requires k <= |todo|
  {
    if k == 0 || CoveredBy(start, todo[k - 1].version) then start else Some(todo[k - 1].version)
  }

  predicate KeepsEntries(log: Log, log': Log) {
    forall v :: v in log ==> v in log' && log'[v] == log[v]
  }

  /** Each of the first k commits whose turn it was, and that was not in the log yet, is there as a whole. */
  predicate TurnsDone(log: Log, log': Log, todo: seq<Commit>, start: Option<nat>, k: nat)
    requires k <= |todo|
  {
    forall i :: 0 <= i < k && IsTurn(todo, start, i) && todo[i].version !in log ==>
      todo[i].version in log' && log'[todo[i].version] == LogFile(todo[i].file, Complete)
  }

  predicate CutOffAt(todo: seq<Commit>, faults: seq<Fault>, k: nat) {
    k < |todo| && FaultAt(faults, k).WriteFails?
  }

  predicate IsDone(todo: seq<Commit>, start: Option<nat>, k: nat, version: nat)
    requires k <= |todo|
  {
    exists i :: 0 <= i < k && IsTurn(todo, start, i) && todo[i].version == version
  }

  /** The log after the first k commits, and after what a write that failed leaves of the k-th. */
  predicate CopiedUpTo(log: Log, log': Log, todo: seq<Commit>, start: Option<nat>, faults: seq<Fault>, k: nat)
    requires k <= |todo|
  {
    && KeepsEntries(log, log') && TurnsDone(log, log', todo, start, k)
    && (CutOffAt(todo, faults, k) ==>
          todo[k].version in log' && log'[todo[k].version] == LogFile(todo[k].file, Abandoned))
    && (forall v :: v in log' ==>
          v in log || IsDone(todo, start, k, v) || (CutOffAt(todo, faults, k) && todo[k].version == v))
  }

  lemma StopsAtOnce(log: Log, todo: seq<Commit>, start: Option<nat>, faults: seq<Fault>, k: nat)
    requires FirstStop(log, todo, start, faults, k) && (todo == [] || k == 0)
    ensures var (log', watermark) := Backfill(log, todo, start, faults);
            watermark == Reached(todo, start, k) && CopiedUpTo(log, log', todo, start, faults, k)
  {
  }

  /** The first commit is copied, found in the log, or not looked at. */
  lemma FirstCopy(log: Log, todo: seq<Commit>, start: Option<nat>, faults: seq<Fault>, k: nat)
    returns (next: Log, start': Option<nat>)
    requires todo != [] && 0 < k && FirstStop(log, todo, start, faults, k)
    ensures start' == if CoveredBy(start, todo[0].version) then start else Some(todo[0].version)
    ensures next == if CoveredBy(start, todo[0].version) || todo[0].version in log then log
                    else log[todo[0].version := LogFile(todo[0].file, Complete)]
    ensures Backfill(log, todo, start, faults) == Backfill(next, todo[1..], start', Rest(faults))
  {
    assert !Stops(log, todo, start, faults, 0);
    var covered := CoveredBy(start, todo[0].version);
    start' := if covered then start else Some(todo[0].version);
    next := if covered || todo[0].version in log then log else log[todo[0].version := LogFile(todo[0].file, Complete)];
  }

  lemma RestStops(log: Log, next: Log, todo: seq<Commit>, start: Option<nat>, start': Option<nat>, faults: seq<Fault>, i: nat)
    requires Ascending(todo) && 0 < i < |todo|
    requires start' == if CoveredBy(start, todo[0].version) then start else Some(todo[0].version)
    requires forall v :: v != todo[0].version ==> (v in next <==> v in log)
    ensures IsTurn(todo[1..], start', i - 1) <==> IsTurn(todo, start, i)
    ensures Stops(next, todo[1..], start', Rest(faults), i - 1) <==> Stops(log, todo, start, faults, i)
  {
    assert todo[1..][i - 1] == todo[i] && (i > 1 ==> todo[1..][i - 2] == todo[i - 1]);
    assert FaultAt(Rest(faults), i - 1) == FaultAt(faults, i);
  }

  lemma FirstStopRest(log: Log, next: Log, todo: seq<Commit>, start: Option<nat>, start': Option<nat>, faults: seq<Fault>, k: nat)
    requires Ascending(todo) && todo != [] && 0 < k && FirstStop(log, todo, start, faults, k)
    requires start' == if CoveredBy(start, todo[0].version) then start else Some(todo[0].version)
    requires forall v :: v != todo[0].version ==> (v in next <==> v in log)
    ensures FirstStop(next, todo[1..], start', Rest(faults), k - 1) && Ascending(todo[1..]) && k <= |todo|
  {
    hide Stops, IsTurn, CoveredBy;
    forall i | 0 < i < |todo| && i <= k
      ensures Stops(next, todo[1..], start', Rest(faults), i - 1) <==> Stops(log, todo, start, faults, i)
    {
      RestStops(log, next, todo, start, start', faults, i);
    }
    forall i | 0 <= i < k - 1 ensures !Stops(next, todo[1..], start', Rest(faults), i) {
      assert !Stops(log, todo, start, faults, i + 1);
    }
  }

  lemma ReachedRest(todo: seq<Commit>, start: Option<nat>, start': Option<nat>, k: nat)
    requires Ascending(todo) && 0 < k <= |todo|
    requires start' == if CoveredBy(start, todo[0].version) then start else Some(todo[0].version)
    ensures Reached(todo[1..], start', k - 1) == Reached(todo, start, k)
  {
    if k > 1 {
      assert todo[1..][k - 2] == todo[k - 1];
    }
  }

  lemma TurnOfRest(todo: seq<Commit>, start: Option<nat>, start': Option<nat>, i: nat)
    requires Ascending(todo) && 0 < i < |todo|
    requires start' == if CoveredBy(start, todo[0].version) then start else Some(todo[0].version)
    ensures todo[1..][i - 1] == todo[i]
    ensures IsTurn(todo[1..], start', i - 1) <==> IsTurn(todo, start, i)
    ensures IsTurn(todo, start, i) ==> todo[0].version < todo[i].version
  {
    assert todo[1..][i - 1] == todo[i] && (i > 1 ==> todo[1..][i - 2] == todo[i - 1]);
  }

  lemma TurnsOneMore(log: Log, next: Log, log': Log, todo: seq<Commit>, start: Option<nat>, start': Option<nat>, k: nat)
    requires Ascending(todo) && 0 < k <= |todo|
    requires start' == if CoveredBy(start, todo[0].version) then start else Some(todo[0].version)
    requires next == if CoveredBy(start, todo[0].version) || todo[0].version in log then log
                     else log[todo[0].version := LogFile(todo[0].file, Complete)]
    requires KeepsEntries(next, log') && TurnsDone(next, log', todo[1..], start', k - 1)
    ensures KeepsEntries(log, log') && TurnsDone(log, log', todo, start, k)
  {
    hide Ascending;
    forall i | 0 <= i < k && IsTurn(todo, start, i) && todo[i].version !in log
      ensures todo[i].version in log' && log'[todo[i].version] == LogFile(todo[i].file, Complete)
    {
      if i > 0 {
        TurnOfRest(todo, start, start', i);
      }
    }
  }

  lemma DoneOneMore(todo: seq<Commit>, start: Option<nat>, start': Option<nat>, k: nat, version: nat)
    requires Ascending(todo) && 0 < k <= |todo|
    requires start' == if CoveredBy(start, todo[0].version) then start else Some(todo[0].version)
    ensures IsDone(todo[1..], start', k - 1, version) ==> IsDone(todo, start, k, version)
    ensures !CoveredBy(start, todo[0].version) ==> IsDone(todo, start, k, todo[0].version)
  {
    hide Ascending, CoveredBy;
    assert !CoveredBy(start, todo[0].version) ==> IsTurn(todo, start, 0);
    hide IsTurn;
    if i :| 0 <= i < k - 1 && IsTurn(todo[1..], start', i) && todo[1..][i].version == version {
      TurnOfRest(todo, start, start', i + 1);
    }
  }

  lemma CopiedOneMore(log: Log, next: Log, log': Log, todo: seq<Commit>, start: Option<nat>, start': Option<nat>,
                      faults: seq<Fault>, k: nat)
    requires Ascending(todo) && 0 < k <= |todo|
    requires start' == if CoveredBy(start, todo[0].version) then start else Some(todo[0].version)
    requires next == if CoveredBy(start, todo[0].version) || todo[0].version in log then log
                     else log[todo[0].version := LogFile(todo[0].file, Complete)]
    requires CopiedUpTo(next, log', todo[1..], start', Rest(faults), k - 1)
    ensures CopiedUpTo(log, log', todo, start, faults, k)
  {
    hide Ascending, CoveredBy, FaultAt, KeepsEntries, TurnsDone, IsDone;
    TurnsOneMore(log, next, log', todo, start, start', k);
    FaultOfRest(faults, k);
    forall v | v in log' ensures v in log || IsDone(todo, start, k, v) || (CutOffAt(todo, faults, k) && todo[k].version == v) {
      DoneOneMore(todo, start, start', k, v);
    }
  }

  lemma FaultOfRest(faults: seq<Fault>, k: nat)
    requires 0 < k
    ensures FaultAt(Rest(faults), k - 1) == FaultAt(faults, k)
  {
  }

  /** There is always such a k. */
  lemma {:induction false} FirstStopFrom(log: Log, todo: seq<Commit>, start: Option<nat>, faults: seq<Fault>, from: nat)
    returns (k: nat)
    requires from <= |todo| && forall i :: 0 <= i < from ==> !Stops(log, todo, start, faults, i)
    ensures FirstStop(log, todo, start, faults, k)
    decreases |todo| - from
  {
    hide Stops;
    if from == |todo| || Stops(log, todo, start, faults, from) {
      return from;
    }
    k := FirstStopFrom(log, todo, start, faults, from + 1);
  }

  /**
   * Whatever is in the log and whatever goes wrong: copying goes exactly as far as the first commit that
   * cannot be copied. The commits before it are in the log, whole unless they were there already, and
   * the watermark is at the last of them; what failed is at most a cut-off entry, and nothing after it
   * is touched. Commits that the watermark covered are not looked at.
   */
  lemma {:induction false} BackfillExactly(log: Log, todo: seq<Commit>, start: Option<nat>, faults: seq<Fault>, k: nat)
    requires Ascending(todo) && FirstStop(log, todo, start, faults, k)
    ensures var (log', watermark) := Backfill(log, todo, start, faults);
            && watermark == Reached(todo, start, k)
            && CopiedUpTo(log, log', todo, start, faults, k)
    decreases |todo|
  {
    hide Ascending, FirstStop, CopiedUpTo, Stops, IsTurn, Reached, CoveredBy;
    if todo == [] || (k == 0 && todo != []) {
      StopsAtOnce(log, todo, start, faults, k);
    } else {
      var next, start' := FirstCopy(log, todo, start, faults, k);
      FirstStopRest(log, next, todo, start, start', faults, k);
      BackfillExactly(next, todo[1..], start', Rest(faults), k - 1);
      var log' := Backfill(log, todo, start, faults).0;
      CopiedOneMore(log, next, log', todo, start, start', faults, k);
      ReachedRest(todo, start, start', k);
    }
  }

  lemma SkipStaysPresent(todo: seq<Commit>, log: Log, watermark: Option<nat>)
    requires Ascending(todo) && SkipsOnlyPresent(todo, log, watermark)
    requires todo != [] && watermark.Some? && todo[0].version <= watermark.value
    ensures Ascending(todo[1..]) && SkipsOnlyPresent(todo[1..], log, watermark)
    ensures todo[0].version in log
  {
  }

  /**
   * An attach that loads without a fault ends with what the reply told: its etag, its ratified
   * version, its tail, and, for a writer, every listed version in the log and under the watermark.
   * A read-only session's attach leaves the log and the watermark alone.
   */
  lemma AttachTakesTheReplyIn(session: Session, log: Log, reading: bool, reply: Reply, faults: seq<Fault>)
    requires !Reuses(session, reading) && forall fault :: fault in faults ==> fault.NoFault?
    requires SkipsOnlyPresent(reply.listed, log, session.watermark)
    ensures var (session', log') := Attach(session, log, reading, Loads(reply), faults, false);
            && session'.etag == reply.etag && !session'.dirty
            && session'.attached == Some(Snapshot(Ratified(reply), reply.listed))
            && if session.readOnly then log' == log && session'.watermark == session.watermark
               else log.Keys <= log'.Keys && Dealt(reply.listed, log', session'.watermark)
  {
    if !session.readOnly {
      var todo := SortByVersion(reply.listed);
      SortByVersionKeeps(reply.listed);
      hide SortByVersion, Ascending, Backfill, Ratified;
      BackfillFinishes(log, todo, session.watermark, faults);
    }
  }
}
