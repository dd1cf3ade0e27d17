// The catalog-managed commit, attach and backfill protocol as a transition system: any number of
// sessions, each with any number of commit calls in flight, share one catalog server and one
// _delta_log directory. A step is one remote call, one file operation, or one critical section;
// the steps of different sessions and of different calls of one session interleave freely.
module CommitProtocol {

  import opened Wrappers

  // ---------- The server ----------

  /** A ratified commit: its version and the staged file that holds it. */
  datatype Commit = Commit(version: nat, file: string)

  /** `commits[v]` is the staged file ratified as version v; -1 is a server with no backfilled version. */
  datatype Server = Server(commits: seq<string>, mark: int, etag: Option<nat>)

  /** A LoadTable reply; the latest-table-version and the etag are both optional. */
  datatype Reply = Reply(listed: seq<Commit>, latest: Option<nat>, etag: Option<nat>)

  predicate Lists(listed: seq<Commit>, version: nat) {
    exists c :: c in listed && c.version == version
  }

  predicate Agree(listed: seq<Commit>, commits: seq<string>) {
    forall c :: c in listed ==> c.version < |commits| && commits[c.version] == c.file
  }

  /**
   * What the server promises of LoadTable: it lists every ratified version above its backfilled
   * mark, in any order and perhaps more than once, nothing it has not ratified, and if it reports
   * a latest version then it is the right one.
   */
  ghost predicate Answers(server: Server, reply: Reply) {
    && Agree(reply.listed, server.commits)
    && (forall v: nat :: server.mark < v < |server.commits| ==> Lists(reply.listed, v))
    && (reply.latest.Some? ==> reply.latest.value == |server.commits| - 1)
    && reply.etag == server.etag
  }

  /** What the server promises of UpdateTable: only latest + 1, and only on a matching etag if one was sent. */
  predicate Accepts(server: Server, version: nat, etag: Option<nat>) {
    version == |server.commits| && (etag.None? || etag == server.etag)
  }

  function HighestListed(listed: seq<Commit>): (highest: nat)
    ensures forall c :: c in listed ==> c.version <= highest
    ensures highest == 0 || Lists(listed, highest)
  {
    if listed == [] then 0
    else
      var rest := HighestListed(listed[..|listed| - 1]);
      var last := listed[|listed| - 1];
      assert listed == listed[..|listed| - 1] + [last];
      if last.version > rest then last.version else rest
  }

  /**
   * The highest version a reader may see: the reported latest version or the highest commit, whichever
   * is more.
   */
  function Ratified(reply: Reply): (r: nat) {
    var reported := if reply.latest.Some? then reply.latest.value else 0;
    var highest := HighestListed(reply.listed);
    if reported > highest then reported else highest
  }

  /** The commits in ascending order of version. */
  function SortByVersion(listed: seq<Commit>): (r: seq<Commit>) {
    if listed == [] then [] else Insert(listed[0], SortByVersion(listed[1..]))
  }

  function Insert(commit: Commit, sorted: seq<Commit>): (r: seq<Commit>) {
    if sorted == [] || commit.version <= sorted[0].version then [commit] + sorted
    else [sorted[0]] + Insert(commit, sorted[1..])
  }

  lemma AscendingCons(head: Commit, rest: seq<Commit>)
    requires Ascending(rest)
    requires forall c :: c in rest ==> head.version <= c.version
    ensures Ascending([head] + rest)
  {
  }

  lemma {:induction false} InsertKeeps(commit: Commit, sorted: seq<Commit>)
    ensures multiset(Insert(commit, sorted)) == multiset(sorted) + multiset{commit}
  {
    if sorted != [] && commit.version > sorted[0].version {
      InsertKeeps(commit, sorted[1..]);
      assert sorted == [sorted[0]] + sorted[1..];
    }
  }

  lemma {:induction false} InsertSorts(commit: Commit, sorted: seq<Commit>)
    requires Ascending(sorted)
    ensures Ascending(Insert(commit, sorted))
  {
    if sorted == [] {
    } else if commit.version <= sorted[0].version {
      assert forall c :: c in sorted ==> commit.version <= c.version;
      AscendingCons(commit, sorted);
    } else {
      var rest := Insert(commit, sorted[1..]);
      InsertSorts(commit, sorted[1..]);
      InsertKeeps(commit, sorted[1..]);
      hide Insert;
      forall c | c in rest ensures sorted[0].version <= c.version {
        assert c in multiset(rest);
        assert c == commit || c in sorted[1..];
      }
      AscendingCons(sorted[0], rest);
      assert Insert(commit, sorted) == [sorted[0]] + rest by { InsertInside(commit, sorted); }
    }
  }

  lemma InsertInside(commit: Commit, sorted: seq<Commit>)
    requires sorted != [] && commit.version > sorted[0].version
    ensures Insert(commit, sorted) == [sorted[0]] + Insert(commit, sorted[1..])
  {
  }

  /** Sorting orders the commits and neither drops, repeats nor invents one. */
  lemma {:induction false} SortByVersionSorts(listed: seq<Commit>)
    ensures Ascending(SortByVersion(listed))
    ensures multiset(SortByVersion(listed)) == multiset(listed)
  {
    if listed != [] {
      SortByVersionSorts(listed[1..]);
      InsertSorts(listed[0], SortByVersion(listed[1..]));
      InsertKeeps(listed[0], SortByVersion(listed[1..]));
      assert listed == [listed[0]] + listed[1..];
    }
  }

  lemma SortByVersionKeeps(listed: seq<Commit>)
    ensures Ascending(SortByVersion(listed))
    ensures forall c :: c in SortByVersion(listed) <==> c in listed
  {
    SortByVersionSorts(listed);
    hide SortByVersion;
    forall c ensures c in SortByVersion(listed) <==> c in listed {
      assert c in multiset(SortByVersion(listed)) <==> c in multiset(listed);
    }
  }

  predicate Ascending(commits: seq<Commit>) {
    forall i, j :: 0 <= i < j < |commits| ==> commits[i].version <= commits[j].version
  }

  // ---------- The log directory and the sessions ----------

  datatype FileState = Complete | BeingWritten(session: nat) | Abandoned

  /** An entry of _delta_log: the staged file it is a copy of, and how far the copy got. */
  datatype LogFile = LogFile(file: string, state: FileState)

  type Log = map<nat, LogFile>

  /** What an attached Delta catalog is given: max_catalog_version and the log tail. */
  datatype Snapshot = Snapshot(ratified: nat, tail: seq<Commit>)

  /**
   * How far an InternalAttach has got; it holds attach_lock in every phase but `Idle`.
   * `mustSee` records which of the session's commits had marked the table dirty when the attach began.
   */
  datatype AttachPhase =
    | Idle
    | Loading(mustSee: map<nat, string>)
    | Copying(mustSee: map<nat, string>, reply: Reply, todo: seq<Commit>, watermark: Option<nat>, writing: bool)
    | Published(mustSee: map<nat, string>, reply: Reply)

  /** How far a commit call has got, with what it read or was told. */
  datatype CommitPhase =
    | Requesting(version: nat, file: string, etag: Option<nat>, watermark: Option<nat>)
    | Accepted(version: nat, file: string, etag: Option<nat>)
    | MarkedDirty(version: nat, file: string, etag: Option<nat>)

  /** `acknowledged` is history: the version and file of each commit call that has marked the table dirty. */
  datatype Session = Session(
    readOnly: bool,
    dirty: bool,
    attached: Option<Snapshot>,
    etag: Option<nat>,
    watermark: Option<nat>,
    attach: AttachPhase,
    calls: map<nat, CommitPhase>,
    acknowledged: map<nat, string>)

  /** A finished InternalAttach and the snapshot its caller goes on to read. */
  datatype AttachRecord = AttachRecord(session: nat, reading: bool, mustSee: map<nat, string>, snapshot: Snapshot)

  datatype State = State(server: Server, log: Log, sessions: map<nat, Session>, attaches: seq<AttachRecord>)

  const NEW_SESSION := Session(false, false, None, None, None, Idle, map[], map[])

  // ---------- Steps ----------

  datatype Step =
    | Open(s: nat, readOnly: bool)
    | BeginAttach(s: nat, reading: bool)
    | LoadFails(s: nat)
    | LoadReplies(s: nat, reply: Reply)
    | CopySkip(s: nat)
    | CopyExists(s: nat)
    | CopyCreate(s: nat)
    | CopyFinish(s: nat)
    | CopyAbandon(s: nat)
    | CopyCannotOpen(s: nat)
    | Publish(s: nat)
    | AttachDone(s: nat)
    | AttachFails(s: nat)
    | Detach(s: nat)
    | CommitStart(s: nat, call: nat, version: nat, file: string)
    | CommitAccepted(s: nat, call: nat, etag: Option<nat>, told: bool, moveMark: bool)
    | CommitLost(s: nat, call: nat, etag: Option<nat>, moveMark: bool)
    | CommitRejected(s: nat, call: nat)
    | MarkDirty(s: nat, call: nat)
    | StoreEtag(s: nat, call: nat)
    | OtherCommit(file: string, etag: Option<nat>)
    | OtherPublish(version: nat)
    | OtherMark(mark: nat)

  predicate OfSession(step: Step) {
    !step.Open? && !step.OtherCommit? && !step.OtherPublish? && !step.OtherMark?
  }

  /** Whether the next commit to copy is already covered by the watermark. */
  predicate Covered(phase: AttachPhase)
    requires phase.Copying? && phase.todo != []
  {
    phase.watermark.Some? && phase.todo[0].version <= phase.watermark.value
  }

  /** At the top of the copy loop, with a commit to copy. */
  predicate AtCopy(phase: AttachPhase) {
    phase.Copying? && phase.todo != [] && !phase.writing
  }

  predicate InWrite(phase: AttachPhase) {
    phase.Copying? && phase.todo != [] && phase.writing
  }

  predicate Requests(session: Session, call: nat) {
    call in session.calls && session.calls[call].Requesting?
  }

  ghost predicate SessionEnabled(server: Server, log: Log, session: Session, step: Step)
    requires OfSession(step)
  {
    var phase := session.attach;
    match step
    case BeginAttach(_, _) => phase.Idle?
    case LoadFails(_) => phase.Loading?
    case LoadReplies(_, reply) => phase.Loading? && Answers(server, reply)
    case CopySkip(_) => AtCopy(phase) && Covered(phase)
    case CopyExists(_) => AtCopy(phase) && !Covered(phase) && phase.todo[0].version in log
    case CopyCreate(_) => AtCopy(phase) && !Covered(phase) && phase.todo[0].version !in log
    case CopyFinish(_) => InWrite(phase)
    case CopyAbandon(_) => InWrite(phase)
    case CopyCannotOpen(_) => AtCopy(phase) && !Covered(phase)
    case Publish(_) => phase.Copying? && phase.todo == []
    case AttachDone(_) => phase.Published?
    case AttachFails(_) => phase.Published?
    case Detach(_) => phase.Idle?
    case CommitStart(_, call, _, _) => call !in session.calls
    case CommitAccepted(_, call, _, _, _) =>
      Requests(session, call) && Accepts(server, session.calls[call].version, session.calls[call].etag)
    case CommitLost(_, call, _, _) =>
      Requests(session, call) && Accepts(server, session.calls[call].version, session.calls[call].etag)
    case CommitRejected(_, call) => Requests(session, call)
    case MarkDirty(_, call) => phase.Idle? && call in session.calls && session.calls[call].Accepted?
    case StoreEtag(_, call) => call in session.calls && session.calls[call].MarkedDirty?
  }

  ghost predicate OtherEnabled(st: State, step: Step)
    requires !OfSession(step)
  {
    match step
    case Open(s, _) => s !in st.sessions
    case OtherCommit(_, _) => true
    case OtherPublish(version) => version < |st.server.commits| && version !in st.log
    case OtherMark(mark) => forall v: nat :: v <= mark ==> v in st.log
  }

  ghost predicate Enabled(st: State, step: Step) {
    if OfSession(step) then step.s in st.sessions && SessionEnabled(st.server, st.log, st.sessions[step.s], step)
    else OtherEnabled(st, step)
  }

  /** The server after it has ratified `call`, and moved its backfilled mark if it chose to and one was sent. */
  function Ratify(server: Server, call: CommitPhase, etag: Option<nat>, moveMark: bool): (r: Server)
    requires call.Requesting?
  {
    Server(server.commits + [call.file],
           if moveMark && call.watermark.Some? then call.watermark.value else server.mark,
           etag)
  }

  function ApplyServer(server: Server, session: Session, step: Step): (r: Server) {
    match step
    case CommitAccepted(_, call, etag, _, moveMark) =>
      if Requests(session, call) then Ratify(server, session.calls[call], etag, moveMark) else server
    case CommitLost(_, call, etag, moveMark) =>
      if Requests(session, call) then Ratify(server, session.calls[call], etag, moveMark) else server
    case _ => server
  }

  function ApplyLog(log: Log, session: Session, step: Step): (r: Log) {
    var phase := session.attach;
    if step.CopyCreate? && AtCopy(phase) then
      log[phase.todo[0].version := LogFile(phase.todo[0].file, BeingWritten(step.s))]
    else if step.CopyFinish? && InWrite(phase) then
      log[phase.todo[0].version := LogFile(phase.todo[0].file, Complete)]
    else if step.CopyAbandon? && InWrite(phase) then
      log[phase.todo[0].version := LogFile(phase.todo[0].file, Abandoned)]
    else log
  }

  /** One turn of the copy loop is over: the watermark is the version just found or copied. */
  function Advance(phase: AttachPhase): (r: AttachPhase)
    requires phase.Copying? && phase.todo != []
  {
    phase.(todo := phase.todo[1..], watermark := Some(phase.todo[0].version), writing := false)
  }

  /**
   * Whether an attach reuses what is attached: nothing newer is known of, or this transaction already
   * reads it.
   */
  predicate Reuses(session: Session, reading: bool) {
    session.attached.Some? && (!session.dirty || reading)
  }

  function ApplyAttach(session: Session, step: Step): (r: Session) {
    var phase := session.attach;
    match step
    case BeginAttach(_, reading) =>
      if Reuses(session, reading) then session
      else session.(dirty := false, attached := None, attach := Loading(session.acknowledged))
    case LoadFails(_) => session.(attach := Idle)
    case LoadReplies(_, reply) =>
      if !phase.Loading? then session
      else
        var todo := if session.readOnly then [] else SortByVersion(reply.listed);
        session.(attach := Copying(phase.mustSee, reply, todo, session.watermark, false))
    case CopySkip(_) =>
      if AtCopy(phase) then session.(attach := phase.(todo := phase.todo[1..])) else session
    case CopyExists(_) => if AtCopy(phase) then session.(attach := Advance(phase)) else session
    case CopyCreate(_) => if AtCopy(phase) then session.(attach := phase.(writing := true)) else session
    case CopyFinish(_) => if InWrite(phase) then session.(attach := Advance(phase)) else session
    case CopyAbandon(_) =>
      if InWrite(phase) then session.(attach := phase.(todo := [], writing := false)) else session
    case CopyCannotOpen(_) => if AtCopy(phase) then session.(attach := phase.(todo := [])) else session
    case Publish(_) =>
      if phase.Copying? then
        session.(etag := phase.reply.etag, watermark := phase.watermark, attach := Published(phase.mustSee, phase.reply))
      else session
    case AttachDone(_) =>
      if phase.Published? then
        session.(attached := Some(SnapshotOf(phase.reply)), attach := Idle)
      else session
    case AttachFails(_) => session.(attach := Idle)
    case Detach(_) => session.(attached := None)
    case _ => session
  }

  function SnapshotOf(reply: Reply): (r: Snapshot) {
    Snapshot(Ratified(reply), reply.listed)
  }

  function ApplyCommit(session: Session, step: Step): (r: Session) {
    match step
    case CommitStart(_, call, version, file) =>
      session.(calls := session.calls[call := Requesting(version, file, session.etag, session.watermark)])
    case CommitAccepted(_, call, etag, told, _) =>
      if Requests(session, call) then
        var request := session.calls[call];
        session.(calls := session.calls[call := Accepted(request.version, request.file, if told then etag else None)])
      else session
    case CommitLost(_, call, _, _) => session.(calls := session.calls - {call})
    case CommitRejected(_, call) => session.(calls := session.calls - {call})
    case MarkDirty(_, call) =>
      if call in session.calls then
        var done := session.calls[call];
        session.(dirty := true,
                 calls := session.calls[call := MarkedDirty(done.version, done.file, done.etag)],
                 acknowledged := session.acknowledged[done.version := done.file])
      else session
    case StoreEtag(_, call) =>
      if call in session.calls then
        session.(etag := session.calls[call].etag, calls := session.calls - {call})
      else session
    case _ => session
  }

  predicate IsCommitStep(step: Step) {
    step.CommitStart? || step.CommitAccepted? || step.CommitLost? || step.CommitRejected? || step.MarkDirty? || step.StoreEtag?
  }

  function ApplySession(session: Session, step: Step): (r: Session) {
    if IsCommitStep(step) then ApplyCommit(session, step) else ApplyAttach(session, step)
  }

  /** The record an attach leaves when it returns: at once if it reuses, or when the attach is done. */
  function Returns(session: Session, step: Step): (r: seq<AttachRecord>) {
    match step
    case BeginAttach(s, reading) =>
      if Reuses(session, reading) then [AttachRecord(s, reading, session.acknowledged, session.attached.value)] else []
    case AttachDone(s) =>
      if session.attach.Published? then
        [AttachRecord(s, false, session.attach.mustSee, SnapshotOf(session.attach.reply))]
      else []
    case _ => []
  }

  function ApplyOther(st: State, step: Step): (r: State)
    requires !OfSession(step)
  {
    match step
    case Open(s, readOnly) => st.(sessions := st.sessions[s := NEW_SESSION.(readOnly := readOnly)])
    case OtherCommit(file, etag) => st.(server := st.server.(commits := st.server.commits + [file], etag := etag))
    case OtherPublish(version) =>
      if version < |st.server.commits| then
        st.(log := st.log[version := LogFile(st.server.commits[version], Complete)])
      else st
    case OtherMark(mark) => st.(server := st.server.(mark := mark))
  }

  function Apply(st: State, step: Step): (r: State) {
    if !OfSession(step) then ApplyOther(st, step)
    else if step.s !in st.sessions then st
    else
      var session := st.sessions[step.s];
      State(ApplyServer(st.server, session, step),
            ApplyLog(st.log, session, step),
            st.sessions[step.s := ApplySession(session, step)],
            st.attaches + Returns(session, step))
  }

  // ---------- Runs ----------

  ghost predicate Init(st: State) {
    && |st.server.commits| > 0
    && st.server.mark < |st.server.commits|
    && LogAgrees(st.log, st.server.commits)
    && (forall v: nat :: v <= st.server.mark ==> v in st.log)
    && (forall v :: v in st.log ==> st.log[v].state == Complete)
    && st.sessions == map[]
    && st.attaches == []
  }

  ghost predicate IsRun(st: State, run: seq<Step>)
    decreases |run|
  {
    run != [] ==> Enabled(st, run[0]) && IsRun(Apply(st, run[0]), run[1..])
  }

  ghost function After(st: State, run: seq<Step>): (r: State)
    decreases |run|
  {
    if run == [] then st else After(Apply(st, run[0]), run[1..])
  }

  // ---------- The invariant ----------

  predicate LogAgrees(log: Log, commits: seq<string>) {
    forall v :: v in log ==> v < |commits| && log[v].file == commits[v]
  }

  /** Every version at or below the watermark exists in the log. */
  ghost predicate Backfilled(watermark: Option<nat>, log: Log) {
    watermark.Some? ==> forall v: nat :: v <= watermark.value ==> v in log
  }

  predicate NotBelow(later: Option<nat>, earlier: Option<nat>) {
    earlier.Some? ==> later.Some? && earlier.value <= later.value
  }

  /** A reader given this snapshot finds each ratified version, in the log or in the tail. */
  ghost predicate Readable(snapshot: Snapshot, commits: seq<string>, log: Log) {
    && snapshot.ratified < |commits|
    && Agree(snapshot.tail, commits)
    && forall v: nat :: v <= snapshot.ratified ==> v in log || Lists(snapshot.tail, v)
  }

  ghost predicate CopyInv(phase: AttachPhase, published: Option<nat>, log: Log)
    requires phase.Copying?
  {
    && Backfilled(phase.watermark, log)
    && NotBelow(phase.watermark, published)
    && Ascending(phase.todo)
    && (forall c :: c in phase.todo ==> c in phase.reply.listed)
    && (phase.todo != [] ==> forall c :: c in phase.reply.listed ==> c in phase.todo || c.version in log)
    && (phase.writing ==> phase.todo != [] && phase.todo[0].version in log && !Covered(phase))
  }

  ghost predicate AttachInv(session: Session, commits: seq<string>, log: Log) {
    var phase := session.attach;
    && (!phase.Idle? ==> !session.dirty && session.attached.None? && phase.mustSee == session.acknowledged)
    && (phase.Copying? ==> Readable(SnapshotOf(phase.reply), commits, log) && CopyInv(phase, session.watermark, log))
    && (phase.Published? ==> Readable(SnapshotOf(phase.reply), commits, log))
    && (session.attached.Some? ==> Readable(session.attached.value, commits, log))
  }

  /** Each of these commits is in the ratified history, at its version. */
  predicate Ratifies(commits: seq<string>, acknowledged: map<nat, string>) {
    forall v :: v in acknowledged ==> v < |commits| && commits[v] == acknowledged[v]
  }

  ghost predicate CallInv(call: CommitPhase, commits: seq<string>, log: Log) {
    if call.Requesting? then Backfilled(call.watermark, log)
    else call.version < |commits| && commits[call.version] == call.file
  }

  ghost predicate CallsInv(session: Session, commits: seq<string>, log: Log) {
    && Backfilled(session.watermark, log)
    && (forall t :: t in session.calls ==> CallInv(session.calls[t], commits, log))
    && Ratifies(commits, session.acknowledged)
  }

  ghost predicate SessionInv(session: Session, commits: seq<string>, log: Log) {
    AttachInv(session, commits, log) && CallsInv(session, commits, log)
  }

  ghost predicate ServerInv(server: Server, log: Log) {
    && |server.commits| > 0
    && LogAgrees(log, server.commits)
    && (forall v: nat :: v <= server.mark ==> v in log)
  }

  ghost predicate SessionsInv(sessions: map<nat, Session>, commits: seq<string>, log: Log) {
    forall s :: s in sessions ==> SessionInv(sessions[s], commits, log)
  }

  ghost predicate RecordsInv(attaches: seq<AttachRecord>, commits: seq<string>, log: Log) {
    forall r :: r in attaches ==> Readable(r.snapshot, commits, log) && Ratifies(commits, r.mustSee)
  }

  ghost predicate Inv(st: State) {
    && ServerInv(st.server, st.log)
    && SessionsInv(st.sessions, st.server.commits, st.log)
    && RecordsInv(st.attaches, st.server.commits, st.log)
  }

  predicate Grown(commits: seq<string>, log: Log, commits': seq<string>, log': Log) {
    commits <= commits' && log.Keys <= log'.Keys
  }

  // ---------- Growth keeps what was known ----------

  lemma ReadableGrows(snapshot: Snapshot, commits: seq<string>, log: Log, commits': seq<string>, log': Log)
    requires Readable(snapshot, commits, log) && Grown(commits, log, commits', log')
    ensures Readable(snapshot, commits', log')
  {
    hide Lists;
  }

  lemma RatifiesGrows(commits: seq<string>, commits': seq<string>, acknowledged: map<nat, string>)
    requires Ratifies(commits, acknowledged) && commits <= commits'
    ensures Ratifies(commits', acknowledged)
  {
  }

  lemma SessionInvGrows(session: Session, commits: seq<string>, log: Log, commits': seq<string>, log': Log)
    requires SessionInv(session, commits, log) && Grown(commits, log, commits', log')
    ensures SessionInv(session, commits', log')
  {
    hide Readable, Agree, Lists, Ratified;
    if session.attach.Copying? || session.attach.Published? {
      ReadableGrows(SnapshotOf(session.attach.reply), commits, log, commits', log');
    }
    if session.attached.Some? {
      ReadableGrows(session.attached.value, commits, log, commits', log');
    }
  }

  // ---------- What a reply tells ----------

  /** The reply says enough to know the latest ratified version. */
  predicate TellsLatest(server: Server, reply: Reply) {
    reply.latest.Some? || |server.commits| <= 1 || Lists(reply.listed, |server.commits| - 1)
  }

  /**
   * The version computed from a reply is never above the latest ratified one, and it is the latest
   * one exactly when the reply reports it, lists it, or only version 0 was ever ratified.
   */
  lemma RatifiedOfReply(server: Server, reply: Reply)
    requires Answers(server, reply) && |server.commits| > 0
    ensures Ratified(reply) < |server.commits|
    ensures Ratified(reply) == |server.commits| - 1 <==> TellsLatest(server, reply)
    ensures server.mark < |server.commits| - 1 ==> TellsLatest(server, reply)
  {
    var highest := HighestListed(reply.listed);
    assert highest < |server.commits|;
  }

  lemma ReplyReadable(server: Server, log: Log, reply: Reply)
    requires ServerInv(server, log) && Answers(server, reply)
    ensures Readable(SnapshotOf(reply), server.commits, log)
  {
    RatifiedOfReply(server, reply);
    hide Lists, Ratified, HighestListed;
  }

  // ---------- Each step keeps the invariant ----------

  /**
   * The heart of backfilling: the version found or copied next leaves no gap below it, because
   * everything below it was in the log, or was listed and has been dealt with already.
   */
  lemma AdvanceLeavesNoGap(session: Session, commits: seq<string>, log: Log, log': Log)
    requires AttachInv(session, commits, log)
    requires session.attach.Copying? && session.attach.todo != []
    requires log.Keys <= log'.Keys && session.attach.todo[0].version in log'
    requires !Covered(session.attach)
    ensures CopyInv(Advance(session.attach), session.watermark, log')
  {
    hide Agree, Ratified, HighestListed;
    var phase := session.attach;
    var head := phase.todo[0];
    var snapshot := SnapshotOf(phase.reply);
    assert head in phase.reply.listed;
    HeadIsRatified(phase.reply, head);
    forall v: nat | v <= head.version ensures v in log' {
      if v !in log {
        assert Lists(snapshot.tail, v);
        var c :| c in snapshot.tail && c.version == v;
        assert c in phase.todo;
        assert c.version >= head.version;
      }
    }
  }

  lemma HeadIsRatified(reply: Reply, commit: Commit)
    requires commit in reply.listed
    ensures commit.version <= Ratified(reply)
  {
  }

  lemma LoadStep(server: Server, log: Log, session: Session, step: Step)
    requires ServerInv(server, log) && SessionInv(session, server.commits, log)
    requires step.LoadReplies? && SessionEnabled(server, log, session, step)
    ensures AttachInv(ApplyAttach(session, step), server.commits, log)
  {
    ReplyReadable(server, log, step.reply);
    SortByVersionKeeps(step.reply.listed);
    hide Readable, ServerInv, Answers, Agree, Ratified, SortByVersion;
  }

  predicate IsCopyStep(step: Step) {
    step.CopySkip? || step.CopyExists? || step.CopyCreate? || step.CopyFinish? || step.CopyAbandon? || step.CopyCannotOpen?
  }

  lemma CopyLogStep(server: Server, log: Log, session: Session, step: Step)
    requires LogAgrees(log, server.commits) && SessionInv(session, server.commits, log)
    requires IsCopyStep(step) && SessionEnabled(server, log, session, step)
    ensures LogAgrees(ApplyLog(log, session, step), server.commits)
    ensures log.Keys <= ApplyLog(log, session, step).Keys
  {
    hide Ratified, Backfilled, Covered;
    if session.attach.todo != [] {
      assert session.attach.todo[0] in session.attach.reply.listed;
    }
  }

  /** The commit skipped is at or below the watermark, so it is in the log already. */
  lemma SkipLosesNothing(session: Session, commits: seq<string>, log: Log)
    requires AttachInv(session, commits, log)
    requires AtCopy(session.attach) && Covered(session.attach)
    ensures CopyInv(session.attach.(todo := session.attach.todo[1..]), session.watermark, log)
  {
    hide Readable, Ratified;
    var phase := session.attach;
    assert phase.todo == [phase.todo[0]] + phase.todo[1..];
    assert phase.todo[0].version in log;
  }

  lemma CopyStep(server: Server, log: Log, session: Session, step: Step)
    requires ServerInv(server, log) && SessionInv(session, server.commits, log)
    requires IsCopyStep(step) && SessionEnabled(server, log, session, step)
    ensures AttachInv(ApplyAttach(session, step), server.commits, ApplyLog(log, session, step))
  {
    hide AttachInv, SessionInv, SessionEnabled, ServerInv, ApplyAttach, ApplyLog;
    CopyGrows(server, log, session, step);
    if step.CopyExists? || step.CopyFinish? {
      CopyAdvances(server, log, session, step);
    } else if step.CopySkip? {
      CopySkips(server, log, session, step);
    } else {
      CopyStaysPut(server, log, session, step);
    }
  }

  /** What is known of a session stays known of the log that a copy step leaves. */
  lemma CopyGrows(server: Server, log: Log, session: Session, step: Step)
    requires ServerInv(server, log) && SessionInv(session, server.commits, log)
    requires IsCopyStep(step) && SessionEnabled(server, log, session, step)
    ensures SessionInv(session, server.commits, ApplyLog(log, session, step))
    ensures log.Keys <= ApplyLog(log, session, step).Keys
  {
    hide SessionInv, SessionEnabled, LogAgrees, ApplyLog, IsCopyStep;
    CopyLogStep(server, log, session, step);
    SessionInvGrows(session, server.commits, log, server.commits, ApplyLog(log, session, step));
  }

  lemma CopyAdvances(server: Server, log: Log, session: Session, step: Step)
    requires SessionInv(session, server.commits, log) && SessionInv(session, server.commits, ApplyLog(log, session, step))
    requires log.Keys <= ApplyLog(log, session, step).Keys
    requires (step.CopyExists? || step.CopyFinish?) && SessionEnabled(server, log, session, step)
    ensures AttachInv(ApplyAttach(session, step), server.commits, ApplyLog(log, session, step))
  {
    hide Readable, Ratified, Lists, Backfilled, Answers, Agree;
    AdvanceLeavesNoGap(session, server.commits, log, ApplyLog(log, session, step));
  }

  lemma CopySkips(server: Server, log: Log, session: Session, step: Step)
    requires SessionInv(session, server.commits, log)
    requires step.CopySkip? && SessionEnabled(server, log, session, step)
    ensures AttachInv(ApplyAttach(session, step), server.commits, ApplyLog(log, session, step))
  {
    hide Readable, CopyInv, Ratified, Lists, Backfilled, Answers;
    SkipLosesNothing(session, server.commits, log);
  }

  lemma CopyStaysPut(server: Server, log: Log, session: Session, step: Step)
    requires SessionInv(session, server.commits, log) && SessionInv(session, server.commits, ApplyLog(log, session, step))
    requires step.CopyCreate? || step.CopyAbandon? || step.CopyCannotOpen?
    requires SessionEnabled(server, log, session, step)
    ensures AttachInv(ApplyAttach(session, step), server.commits, ApplyLog(log, session, step))
  {
    hide Readable, Ratified, Lists, Backfilled, Answers, Agree;
  }

  lemma OtherAttachStep(server: Server, log: Log, session: Session, step: Step)
    requires ServerInv(server, log) && SessionInv(session, server.commits, log)
    requires OfSession(step) && !IsCopyStep(step) && !IsCommitStep(step)
    requires SessionEnabled(server, log, session, step)
    ensures SessionInv(ApplyAttach(session, step), server.commits, log)
  {
    if step.LoadReplies? {
      LoadStep(server, log, session, step);
    }
    hide Readable, ServerInv, Answers, Agree, Ratified, SortByVersion, Backfilled;
  }

  lemma CommitStep(server: Server, log: Log, session: Session, step: Step)
    requires ServerInv(server, log) && SessionInv(session, server.commits, log)
    requires IsCommitStep(step) && SessionEnabled(server, log, session, step)
    ensures ServerInv(ApplyServer(server, session, step), log)
    ensures server.commits <= ApplyServer(server, session, step).commits
    ensures SessionInv(ApplyCommit(session, step), ApplyServer(server, session, step).commits, log)
  {
    var server' := ApplyServer(server, session, step);
    hide Readable, AttachInv, Agree;
    assert ServerInv(server', log) && server.commits <= server'.commits;
    SessionInvGrows(session, server.commits, log, server'.commits, log);
    assert AttachInv(ApplyCommit(session, step), server'.commits, log) by {
      AttachInvOfCommit(session, server'.commits, log, step);
    }
  }

  lemma AttachInvOfCommit(session: Session, commits: seq<string>, log: Log, step: Step)
    requires AttachInv(session, commits, log)
    requires step.MarkDirty? ==> session.attach.Idle?
    ensures AttachInv(ApplyCommit(session, step), commits, log)
  {
    hide Readable, CopyInv;
  }

  /** Whatever a session does next, it keeps the server's and the log's promises and its own. */
  lemma SessionStep(server: Server, log: Log, session: Session, step: Step)
    requires ServerInv(server, log) && SessionInv(session, server.commits, log)
    requires OfSession(step) && SessionEnabled(server, log, session, step)
    ensures ServerInv(ApplyServer(server, session, step), ApplyLog(log, session, step))
    ensures Grown(server.commits, log, ApplyServer(server, session, step).commits, ApplyLog(log, session, step))
    ensures SessionInv(ApplySession(session, step), ApplyServer(server, session, step).commits, ApplyLog(log, session, step))
  {
    StepEffects(server, log, session, step);
    if IsCommitStep(step) {
      CommitStep(server, log, session, step);
      hide SessionInv, SessionEnabled, ServerInv, ApplyCommit, ApplyAttach, ApplyServer, ApplyLog;
    } else if IsCopyStep(step) {
      CopyStep(server, log, session, step);
      CopyLogStep(server, log, session, step);
      hide SessionEnabled, ApplyCommit, ApplyAttach, ApplyServer, ApplyLog, AttachInv, CallInv, Backfilled, LogAgrees;
      SessionInvGrows(session, server.commits, log, server.commits, ApplyLog(log, session, step));
    } else {
      OtherAttachStep(server, log, session, step);
      hide SessionInv, SessionEnabled, ServerInv, ApplyCommit, ApplyAttach, ApplyServer, ApplyLog;
    }
  }

  /** Commits reach only the server, copies only the log, and the rest of an attach neither. */
  lemma StepEffects(server: Server, log: Log, session: Session, step: Step)
    ensures !IsCommitStep(step) ==> ApplyServer(server, session, step) == server
    ensures !IsCopyStep(step) ==> ApplyLog(log, session, step) == log
    ensures IsCopyStep(step) ==>
              var session' := ApplyAttach(session, step);
              && session'.watermark == session.watermark
              && session'.calls == session.calls
              && session'.acknowledged == session.acknowledged
  {
  }

  lemma RecordReadable(server: Server, log: Log, session: Session, step: Step)
    requires SessionInv(session, server.commits, log)
    requires step.AttachDone? || step.BeginAttach? ==> SessionEnabled(server, log, session, step)
    ensures RecordsInv(Returns(session, step), server.commits, log)
  {
    hide Readable, Ratifies;
  }

  lemma SessionsInvGrows(sessions: map<nat, Session>, commits: seq<string>, log: Log, commits': seq<string>, log': Log)
    requires SessionsInv(sessions, commits, log) && Grown(commits, log, commits', log')
    ensures SessionsInv(sessions, commits', log')
  {
    hide SessionInv, Grown;
    forall s | s in sessions ensures SessionInv(sessions[s], commits', log') {
      SessionInvGrows(sessions[s], commits, log, commits', log');
    }
  }

  lemma RecordsInvGrows(attaches: seq<AttachRecord>, commits: seq<string>, log: Log, commits': seq<string>, log': Log)
    requires RecordsInv(attaches, commits, log) && Grown(commits, log, commits', log')
    ensures RecordsInv(attaches, commits', log')
  {
    hide Readable, Ratifies;
    forall r | r in attaches ensures Readable(r.snapshot, commits', log') && Ratifies(commits', r.mustSee) {
      ReadableGrows(r.snapshot, commits, log, commits', log');
      RatifiesGrows(commits, commits', r.mustSee);
    }
  }

  /** Every step of every session and of everybody else keeps the invariant. */
  lemma StepKeepsInv(st: State, step: Step)
    requires Inv(st) && Enabled(st, step)
    ensures Inv(Apply(st, step))
    ensures Grown(st.server.commits, st.log, Apply(st, step).server.commits, Apply(st, step).log)
  {
    if OfSession(step) {
      hide SessionInv, Readable, SessionEnabled, ApplySession, ApplyServer, ApplyLog, ServerInv, Returns, Grown;
      SessionStepKeepsInv(st, step);
    } else {
      hide SessionInv, Readable, SessionEnabled, SessionsInv, RecordsInv;
      OtherStepKeepsInv(st, step);
    }
  }

  lemma SessionStepKeepsInv(st: State, step: Step)
    requires Inv(st) && OfSession(step) && step.s in st.sessions
    requires SessionEnabled(st.server, st.log, st.sessions[step.s], step)
    ensures Inv(Apply(st, step))
    ensures Grown(st.server.commits, st.log, Apply(st, step).server.commits, Apply(st, step).log)
  {
    hide SessionInv, Readable, SessionEnabled, ApplySession, ApplyServer, ApplyLog, ServerInv, Returns, Grown;
    var st' := Apply(st, step);
    SessionStep(st.server, st.log, st.sessions[step.s], step);
    RecordReadable(st.server, st.log, st.sessions[step.s], step);
    SessionsInvGrows(st.sessions, st.server.commits, st.log, st'.server.commits, st'.log);
    RecordsInvGrows(st'.attaches, st.server.commits, st.log, st'.server.commits, st'.log);
  }

  lemma OtherStepKeepsInv(st: State, step: Step)
    requires Inv(st) && !OfSession(step) && Enabled(st, step)
    ensures Inv(Apply(st, step))
    ensures Grown(st.server.commits, st.log, Apply(st, step).server.commits, Apply(st, step).log)
  {
    hide SessionInv, Readable, SessionEnabled, SessionsInv, RecordsInv;
    var st' := Apply(st, step);
    assert ServerInv(st'.server, st'.log) && Grown(st.server.commits, st.log, st'.server.commits, st'.log);
    SessionsInvGrows(st.sessions, st.server.commits, st.log, st'.server.commits, st'.log);
    RecordsInvGrows(st.attaches, st.server.commits, st.log, st'.server.commits, st'.log);
    if step.Open? {
      NewSessionInv(step.readOnly, st.server.commits, st.log);
      SessionsInvWith(st.sessions, step.s, st'.sessions[step.s], st.server.commits, st.log);
    }
  }

  lemma SessionsInvWith(sessions: map<nat, Session>, s: nat, session: Session, commits: seq<string>, log: Log)
    requires SessionsInv(sessions, commits, log) && SessionInv(session, commits, log)
    ensures SessionsInv(sessions[s := session], commits, log)
  {
  }

  lemma NewSessionInv(readOnly: bool, commits: seq<string>, log: Log)
    ensures SessionInv(NEW_SESSION.(readOnly := readOnly), commits, log)
  {
  }
}
