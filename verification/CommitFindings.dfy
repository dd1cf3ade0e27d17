// Runs of the commit protocol that show what it does not guarantee.
module CommitFindings {

  import opened Wrappers
  import opened CommitProtocol
  import opened CommitSafety

  /** One more step of a run. */
  lemma Take(st: State, step: Step) returns (next: State)
    requires Reachable(st) && Enabled(st, step)
    ensures Reachable(next) && next == Apply(st, step)
  {
    hide Enabled, Apply, IsRun, After, Init;
    var start, run :| Leads(start, run, st);
    RunConcat(start, run, [step]);
    OneStep(st, step);
    next := Apply(st, step);
    assert Leads(start, run + [step], next);
  }

  lemma Begin(st: State)
    requires Init(st)
    ensures Reachable(st)
  {
    assert Leads(st, [], st);
  }

  const ETAG_1: Option<nat> := Some(1)
  const ETAG_2: Option<nat> := Some(2)
  const ETAG_3: Option<nat> := Some(3)

  /** A server with two ratified versions, of which only version 0 is in the log. */
  const TWO_VERSIONS := State(Server(["a", "b"], 0, ETAG_1), map[0 := LogFile("a", Complete)], map[], [])

  const STAGED_B := Commit(1, "b")

  lemma TakeAttach(st: State, s: nat, reply: Reply) returns (next: State)
    requires Reachable(st) && s in st.sessions
    requires st.sessions[s].attach.Idle? && st.sessions[s].attached.None?
    requires Answers(st.server, reply)
    ensures Reachable(next) && next.server == st.server && next.log == st.log && next.attaches == st.attaches
    ensures var was := st.sessions[s];
            var todo := if was.readOnly then [] else SortByVersion(reply.listed);
            next.sessions == st.sessions[s := was.(dirty := false, attach :=
              Copying(was.acknowledged, reply, todo, was.watermark, false))]
  {
    hide Reachable, Answers, SortByVersion;
    next := Take(st, BeginAttach(s, false));
    next := Take(next, LoadReplies(s, reply));
  }

  lemma TakePublish(st: State, s: nat) returns (next: State)
    requires Reachable(st) && s in st.sessions
    requires st.sessions[s].attach.Copying? && st.sessions[s].attach.todo == []
    ensures Reachable(next) && next.server == st.server && next.log == st.log
    ensures var was := st.sessions[s]; var phase := was.attach;
            && next.sessions == st.sessions[s := was.(etag := phase.reply.etag, watermark := phase.watermark,
                                                      attached := Some(SnapshotOf(phase.reply)), attach := Idle)]
            && next.attaches == st.attaches + [AttachRecord(s, false, phase.mustSee, SnapshotOf(phase.reply))]
  {
    hide Reachable, Ratified, SortByVersion, Answers, Accepts, ApplyCommit;
    next := Take(st, Publish(s));
    next := Take(next, AttachDone(s));
  }

  const REPLY_B := Reply([STAGED_B], Some(1), ETAG_1)

  lemma ReplyBAnswers()
    ensures Answers(TWO_VERSIONS.server, REPLY_B)
    ensures SortByVersion(REPLY_B.listed) == [STAGED_B]
  {
    assert STAGED_B in REPLY_B.listed;
    assert Lists(REPLY_B.listed, 1);
    assert SortByVersion([STAGED_B][1..]) == [];
  }

  lemma TwoSessions() returns (st: State)
    ensures Reachable(st)
    ensures st == TWO_VERSIONS.(sessions := map[0 := NEW_SESSION, 1 := NEW_SESSION])
  {
    Begin(TWO_VERSIONS);
    hide Reachable;
    st := Take(TWO_VERSIONS, Open(0, false));
    st := Take(st, Open(1, false));
  }

  lemma PartialEntryIsLeftBehind() returns (st: State)
    ensures Reachable(st)
    ensures st.server == TWO_VERSIONS.server
    ensures st.log == map[0 := LogFile("a", Complete), 1 := LogFile("b", Abandoned)]
    ensures st.sessions.Keys == {0, 1} && st.sessions[1] == NEW_SESSION && st.attaches == []
  {
    hide Reachable, SortByVersion, Answers, Ratified, ApplyCommit;
    st := TwoSessions();
    ReplyBAnswers();
    st := TakeAttach(st, 0, REPLY_B);
    st := Take(st, CopyCreate(0));
    st := Take(st, CopyAbandon(0));
  }

  lemma PartialEntryIsMet() returns (st: State)
    ensures Reachable(st)
    ensures st.server == TWO_VERSIONS.server
    ensures st.log == map[0 := LogFile("a", Complete), 1 := LogFile("b", Abandoned)]
    ensures st.sessions.Keys == {0, 1} && st.attaches == []
    ensures var session := st.sessions[1];
            session.attach == Copying(map[], REPLY_B, [], Some(1), false) && session.calls == map[]
  {
    hide Reachable, SortByVersion, Answers, Ratified, ApplyCommit;
    st := PartialEntryIsLeftBehind();
    ReplyBAnswers();
    st := TakeAttach(st, 1, REPLY_B);
    assert [STAGED_B][1..] == [];
    st := Take(st, CopyExists(1));
  }

  lemma PartialEntryIsTakenForWhole() returns (st: State)
    ensures Reachable(st)
    ensures st.server == TWO_VERSIONS.server
    ensures st.log == map[0 := LogFile("a", Complete), 1 := LogFile("b", Abandoned)]
    ensures st.sessions.Keys == {0, 1} && st.attaches == []
    ensures var session := st.sessions[1]; session.watermark == Some(1) && session.etag == ETAG_1 && session.calls == map[]
  {
    hide Reachable, SortByVersion, Answers, Ratified, ApplyCommit;
    st := PartialEntryIsMet();
    st := Take(st, Publish(1));
  }

  /**
   * Existence is not completeness: a copy cut short leaves a partial entry behind, the next session
   * takes it for a finished one, and through its next commit the server's mark comes to cover it.
   */
  lemma WatermarksCanCoverAPartialEntry() returns (st: State)
    ensures Reachable(st)
    ensures 1 in st.log && st.log[1].state == Abandoned
    ensures st.server.mark == 1
    ensures 1 in st.sessions && st.sessions[1].watermark == Some(1)
    ensures st.server == Server(["a", "b", "c"], 1, ETAG_2)
    ensures 2 !in st.sessions && st.attaches == []
  {
    st := PartialEntryIsTakenForWhole();
    hide Reachable;
    st := Take(st, CommitStart(1, 0, 2, "c"));
    st := Take(st, CommitAccepted(1, 0, ETAG_2, true, true));
  }

  const REPLY_OF_C := Reply([Commit(2, "c")], Some(2), ETAG_2)

  lemma ReplyOfCAnswers()
    ensures Answers(Server(["a", "b", "c"], 1, ETAG_2), REPLY_OF_C)
    ensures Ratified(REPLY_OF_C) == 2 && !Lists(REPLY_OF_C.listed, 1)
  {
    assert REPLY_OF_C.listed[0] in REPLY_OF_C.listed;
    assert Lists(REPLY_OF_C.listed, 2);
    RatifiedOfReply(Server(["a", "b", "c"], 1, ETAG_2), REPLY_OF_C);
  }

  /**
   * The server then no longer lists that version, so the next attach, here a read-only one, is given
   * no tail for it, and reads an entry that stops short.
   */
  lemma AttachCanReadAPartialEntry() returns (st: State, r: AttachRecord)
    ensures Reachable(st)
    ensures r in st.attaches && !r.reading && 1 <= r.snapshot.ratified
    ensures ReadVersion(r.snapshot, st.log, 1) == Partial
  {
    st := WatermarksCanCoverAPartialEntry();
    ReplyOfCAnswers();
    hide Reachable, Answers, Ratified;
    st := Take(st, Open(2, true));
    st := TakeAttach(st, 2, REPLY_OF_C);
    st := TakePublish(st, 2);
    r := st.attaches[0];
  }

  lemma CommitRequested() returns (st: State)
    ensures Reachable(st)
    ensures st == State(Server(["a"], 0, ETAG_1), map[0 := LogFile("a", Complete)],
                        map[0 := NEW_SESSION.(calls := map[0 := Requesting(1, "b", None, None)])], [])
  {
    hide Reachable, SortByVersion, Answers, Accepts, Ratified, ApplyAttach;
    st := State(Server(["a"], 0, ETAG_1), map[0 := LogFile("a", Complete)], map[], []);
    Begin(st);
    st := Take(st, Open(0, false));
    st := Take(st, CommitStart(0, 0, 1, "b"));
  }

  /** A session with its own commit of version 1 acknowledged, at its `etag`, and a server that took the commit. */
  lemma CommitInFlight() returns (st: State)
    ensures Reachable(st)
    ensures st.server == Server(["a", "b"], 0, ETAG_2)
    ensures st.log == map[0 := LogFile("a", Complete)]
    ensures st.sessions == map[0 := NEW_SESSION.(dirty := true, calls := map[0 := MarkedDirty(1, "b", ETAG_2)],
                                                 acknowledged := map[1 := "b"])]
    ensures st.attaches == []
  {
    st := CommitRequested();
    hide Reachable;
    st := Take(st, CommitAccepted(0, 0, ETAG_2, true, false));
    st := Take(st, MarkDirty(0, 0));
    assert st.sessions[0].calls == map[0 := MarkedDirty(1, "b", ETAG_2)];
    assert st.sessions[0].acknowledged == map[1 := "b"];
  }

  const REPLY_C := Reply([Commit(1, "b"), Commit(2, "c")], Some(2), ETAG_3)

  lemma ThreeVersionsAnswer()
    ensures Answers(Server(["a", "b", "c"], 0, ETAG_3), REPLY_C)
    ensures SortByVersion(REPLY_C.listed) != [] && Ratified(REPLY_C) == 2
  {
    RatifiedOfReply(Server(["a", "b", "c"], 0, ETAG_3), REPLY_C);
    assert REPLY_C.listed[0] in REPLY_C.listed && REPLY_C.listed[1] in REPLY_C.listed;
    assert Lists(REPLY_C.listed, 1) && Lists(REPLY_C.listed, 2);
    SortByVersionKeeps(REPLY_C.listed);
  }

  lemma AttachGetsInBetween() returns (st: State)
    ensures Reachable(st)
    ensures st.server == Server(["a", "b", "c"], 0, ETAG_3)
    ensures 0 in st.sessions
    ensures var session := st.sessions[0];
            && session.attach.Copying? && session.attach.todo == []
            && session.attach.reply == REPLY_C && !session.dirty
            && session.calls == map[0 := MarkedDirty(1, "b", ETAG_2)]
  {
    st := CommitInFlight();
    ThreeVersionsAnswer();
    hide Reachable, SortByVersion, Answers, Ratified;
    st := Take(st, OtherCommit("c", ETAG_3));
    assert st.server == Server(["a", "b", "c"], 0, ETAG_3);
    st := TakeAttach(st, 0, REPLY_C);
    st := Take(st, CopyCannotOpen(0));
  }

  /**
   * The etag is cached after the dirty mark, in a critical section of its own. An attach may get in
   * between, load the newest version and cache its etag: then the late write replaces that etag by
   * the older one. The session has attached the server's latest version, nothing is in flight and
   * nothing dirty, and still the server accepts no commit that sends what is cached.
   */
  lemma CachedEtagCanBeStale() returns (st: State)
    ensures Reachable(st)
    ensures 0 in st.sessions
    ensures var session := st.sessions[0];
            && session.attach.Idle? && session.calls == map[] && !session.dirty
            && session.attached == Some(SnapshotOf(REPLY_C)) && Answers(st.server, REPLY_C)
            && Ratified(REPLY_C) == |st.server.commits| - 1
            && session.etag == ETAG_2 && st.server.etag == REPLY_C.etag == ETAG_3
    ensures forall version :: !Accepts(st.server, version, st.sessions[0].etag)
  {
    st := AttachGetsInBetween();
    ThreeVersionsAnswer();
    hide Reachable, Ratified, Answers;
    st := TakePublish(st, 0);
    st := Take(st, StoreEtag(0, 0));
  }

  lemma OwnCommitIsBackfilled() returns (st: State)
    ensures Reachable(st)
    ensures st.server == Server(["a", "b"], 1, ETAG_2)
    ensures st.log == map[0 := LogFile("a", Complete), 1 := LogFile("b", Complete)]
    ensures 0 in st.sessions
    ensures st.sessions[0] == NEW_SESSION.(dirty := true, etag := ETAG_2, acknowledged := map[1 := "b"])
    ensures st.attaches == []
  {
    st := CommitInFlight();
    hide Reachable;
    st := Take(st, StoreEtag(0, 0));
    st := Take(st, OtherPublish(1));
    st := Take(st, OtherMark(1));
  }

  /**
   * Reading your writes does depend on the reply: one that neither reports the latest version nor lists
   * a commit caps the attach that uses it at version 0, which then misses a version already acknowledged.
   */
  lemma UntoldReplyHidesOwnCommit() returns (st: State, r: AttachRecord)
    ensures Reachable(st)
    ensures r in st.attaches && !r.reading
    ensures 1 in r.mustSee && ReadVersion(r.snapshot, st.log, 1) == Unseen
  {
    st := OwnCommitIsBackfilled();
    var reply := Reply([], None, ETAG_2);
    assert Ratified(reply) == 0 && SortByVersion(reply.listed) == [];
    hide Reachable, SortByVersion, Ratified;
    st := TakeAttach(st, 0, reply);
    st := TakePublish(st, 0);
    r := st.attaches[0];
  }
}
