// A transaction that reads a table keeps the snapshot it reads: what repeated attaches of one
// transaction see, and what the next transaction finds.
module CommitTransactions {

  import opened Wrappers
  import opened CommitProtocol
  import opened CommitSafety

  // ---------- One more read of the same transaction ----------

  /**
   * An attach by a transaction that already reads the table changes nothing, not even a dirty mark, and
   * returns the snapshot that is attached.
   */
  lemma ReadingKeepsSnapshot(st: State, s: nat)
    requires s in st.sessions && st.sessions[s].attached.Some? && Enabled(st, BeginAttach(s, true))
    ensures var session := st.sessions[s];
            Apply(st, BeginAttach(s, true)) ==
            st.(attaches := st.attaches + [AttachRecord(s, true, session.acknowledged, session.attached.value)])
  {
    hide Answers, Accepts, SortByVersion, Ratified;
    var session := st.sessions[s];
    assert st.sessions[s := session] == st.sessions;
  }

  /** An attach by another transaction on a dirty table lets go of the snapshot, and returns nothing yet. */
  lemma DirtyIsReloaded(st: State, s: nat)
    requires s in st.sessions && st.sessions[s].dirty && Enabled(st, BeginAttach(s, false))
    ensures var next := Apply(st, BeginAttach(s, false));
            && s in next.sessions && next.sessions[s].attach.Loading? && next.sessions[s].attached.None?
            && !next.sessions[s].dirty && next.attaches == st.attaches
  {
    hide Answers, Accepts, SortByVersion, Ratified;
  }

  // ---------- What is attached is what was returned last ----------

  /** The last record of a session. */
  function LastRecord(attaches: seq<AttachRecord>, s: nat): (r: Option<AttachRecord>) {
    if attaches == [] then None
    else if attaches[|attaches| - 1].session == s then Some(attaches[|attaches| - 1])
    else LastRecord(attaches[..|attaches| - 1], s)
  }

  predicate ShowsLast(session: Session, last: Option<AttachRecord>) {
    session.attached.Some? ==> last.Some? && last.value.snapshot == session.attached.value
  }

  ghost predicate ShowsLastRecord(st: State, s: nat) {
    s in st.sessions ==> ShowsLast(st.sessions[s], LastRecord(st.attaches, s))
  }

  lemma OneRecordMore(attaches: seq<AttachRecord>, more: seq<AttachRecord>, s: nat)
    requires |more| <= 1
    ensures LastRecord(attaches + more, s) ==
            if more != [] && more[0].session == s then Some(more[0]) else LastRecord(attaches, s)
  {
    if more == [] {
      assert attaches + more == attaches;
    } else {
      assert (attaches + more)[..|attaches|] == attaches;
    }
  }

  lemma SessionShowsLast(session: Session, step: Step, last: Option<AttachRecord>)
    requires OfSession(step) && ShowsLast(session, last)
    ensures |Returns(session, step)| <= 1
    ensures forall r :: r in Returns(session, step) ==> r.session == step.s
    ensures ShowsLast(ApplySession(session, step), if Returns(session, step) == [] then last else Some(Returns(session, step)[0]))
  {
    hide Ratified, SortByVersion;
  }

  lemma StepShowsLast(st: State, step: Step, s: nat)
    requires Enabled(st, step) && ShowsLastRecord(st, s)
    ensures ShowsLastRecord(Apply(st, step), s)
  {
    hide ShowsLast, ApplySession, ApplyLog, ApplyServer, Returns, SessionEnabled, LastRecord;
    if OfSession(step) {
      var session := st.sessions[step.s];
      if step.s == s {
        SessionShowsLast(session, step, LastRecord(st.attaches, s));
      } else {
        ReturnsOwn(session, step);
      }
      OneRecordMore(st.attaches, Returns(session, step), s);
    } else if step.Open? {
      NothingShown(NEW_SESSION.(readOnly := step.readOnly), LastRecord(st.attaches, s));
    }
  }

  lemma ReturnsOwn(session: Session, step: Step)
    requires OfSession(step)
    ensures |Returns(session, step)| <= 1
    ensures forall r :: r in Returns(session, step) ==> r.session == step.s
  {
  }

  lemma NothingShown(session: Session, last: Option<AttachRecord>)
    requires session.attached.None?
    ensures ShowsLast(session, last)
  {
  }

  lemma {:induction false} RunShowsLast(st: State, run: seq<Step>, s: nat)
    requires IsRun(st, run) && ShowsLastRecord(st, s)
    ensures ShowsLastRecord(After(st, run), s)
    decreases |run|
  {
    hide ShowsLastRecord, Enabled, Apply;
    if run != [] {
      StepShowsLast(st, run[0], s);
      RunShowsLast(Apply(st, run[0]), run[1..], s);
    }
  }

  /** In every reachable state what a session has attached is the snapshot its last attach returned. */
  lemma AttachedIsLastReturned(st: State, s: nat)
    requires Reachable(st) && s in st.sessions && st.sessions[s].attached.Some?
    ensures LastRecord(st.attaches, s).Some?
    ensures LastRecord(st.attaches, s).value.snapshot == st.sessions[s].attached.value
  {
    hide IsRun, After, LastRecord;
    var start, run :| Leads(start, run, st);
    RunShowsLast(start, run, s);
  }

  // ---------- All reads of one transaction ----------

  /** What a session does while one transaction reads its table: nothing is detached, every attach is a reader's. */
  predicate WhileReading(step: Step, s: nat) {
    OfSession(step) && step.s == s ==> !step.Detach? && (step.BeginAttach? ==> step.reading)
  }

  /** The session keeps this snapshot attached, and is dirty if it ever was. */
  predicate Keeps(session: Session, snapshot: Snapshot, dirty: bool) {
    session.attach.Idle? && session.attached == Some(snapshot) && (dirty ==> session.dirty)
  }

  ghost predicate SessionKeeps(st: State, s: nat, snapshot: Snapshot, dirty: bool) {
    s in st.sessions && Keeps(st.sessions[s], snapshot, dirty)
  }

  predicate Marks(step: Step, s: nat) {
    step.MarkDirty? && step.s == s
  }

  lemma SessionStepKeeps(server: Server, log: Log, session: Session, step: Step, snapshot: Snapshot, dirty: bool)
    requires OfSession(step) && SessionEnabled(server, log, session, step)
    requires Keeps(session, snapshot, dirty) && WhileReading(step, step.s)
    ensures Keeps(ApplySession(session, step), snapshot, dirty || step.MarkDirty?)
    ensures forall r :: r in Returns(session, step) ==> r.snapshot == snapshot && r.session == step.s
  {
    hide Answers, Accepts, Ratified, SortByVersion;
  }

  lemma StepKeeps(st: State, step: Step, s: nat, snapshot: Snapshot, dirty: bool)
    requires Enabled(st, step) && SessionKeeps(st, s, snapshot, dirty) && WhileReading(step, s)
    ensures SessionKeeps(Apply(st, step), s, snapshot, dirty || Marks(step, s))
    ensures st.attaches <= Apply(st, step).attaches
    ensures forall r :: r in Apply(st, step).attaches[|st.attaches|..] && r.session == s ==> r.snapshot == snapshot
  {
    hide Keeps, ApplySession, ApplyLog, ApplyServer, Returns, SessionEnabled;
    if OfSession(step) {
      var session := st.sessions[step.s];
      if step.s == s {
        SessionStepKeeps(st.server, st.log, session, step, snapshot, dirty);
      } else {
        ReturnsOwn(session, step);
      }
      assert (st.attaches + Returns(session, step))[|st.attaches|..] == Returns(session, step);
    }
  }

  /**
   * While one transaction reads a table, whatever other calls, sessions and clients do: every attach it
   * makes returns the snapshot it reads, and a dirty mark that was there or is made stays until the next
   * transaction.
   */
  lemma {:induction false} TransactionReadsOneSnapshot(st: State, run: seq<Step>, s: nat, snapshot: Snapshot, dirty: bool)
    requires IsRun(st, run) && SessionKeeps(st, s, snapshot, dirty)
    requires forall step :: step in run ==> WhileReading(step, s)
    ensures var end := After(st, run);
            && SessionKeeps(end, s, snapshot, dirty || exists step :: step in run && Marks(step, s))
            && st.attaches <= end.attaches
            && forall r :: r in end.attaches[|st.attaches|..] && r.session == s ==> r.snapshot == snapshot
    decreases |run|
  {
    hide SessionKeeps, WhileReading, Marks, Enabled, Apply;
    if run != [] {
      var next := Apply(st, run[0]);
      var marked := dirty || Marks(run[0], s);
      StepKeeps(st, run[0], s, snapshot, dirty);
      TransactionReadsOneSnapshot(next, run[1..], s, snapshot, marked);
      var end := After(st, run);
      forall r | r in end.attaches[|st.attaches|..] && r.session == s ensures r.snapshot == snapshot {
        LaterRecord(st.attaches, next.attaches, end.attaches, r);
      }
      MarkedSomewhere(run, s);
    }
  }

  lemma LaterRecord(first: seq<AttachRecord>, next: seq<AttachRecord>, end: seq<AttachRecord>, r: AttachRecord)
    requires first <= next <= end && r in end[|first|..]
    ensures r in next[|first|..] || r in end[|next|..]
  {
    var i :| 0 <= i < |end[|first|..]| && end[|first|..][i] == r;
    if |first| + i < |next| {
      assert next[|first|..][i] == r;
    } else {
      assert end[|next|..][|first| + i - |next|] == r;
    }
  }

  lemma MarkedSomewhere(run: seq<Step>, s: nat)
    requires run != []
    ensures (exists step :: step in run && Marks(step, s)) <==>
            Marks(run[0], s) || exists step :: step in run[1..] && Marks(step, s)
  {
    hide Marks;
    assert run == [run[0]] + run[1..];
  }
}
