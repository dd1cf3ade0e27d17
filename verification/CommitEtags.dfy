// When the etag a session has cached is the server's own: for servers that give every ratified
// version an etag of its own, exactly as long as nothing was ratified since it was told.
module CommitEtags {

  import opened Wrappers
  import opened CommitProtocol
  import opened CommitSafety

  predicate IsRatifying(step: Step) {
    step.CommitAccepted? || step.CommitLost? || step.OtherCommit?
  }

  /** The etags of all versions, by version, once a step has been taken. */
  function Known(etags: seq<Option<nat>>, step: Step): (r: seq<Option<nat>>) {
    if IsRatifying(step) then etags + [step.etag] else etags
  }

  function KnownAfter(etags: seq<Option<nat>>, run: seq<Step>): (r: seq<Option<nat>>)
    decreases |run|
  {
    if run == [] then etags else KnownAfter(Known(etags, run[0]), run[1..])
  }

  /** A server that gives each version it ratifies an etag, and none twice. */
  predicate NeverRepeats(etags: seq<Option<nat>>, run: seq<Step>)
    decreases |run|
  {
    run != [] ==>
      && (IsRatifying(run[0]) ==> run[0].etag.Some? && run[0].etag !in etags)
      && NeverRepeats(Known(etags, run[0]), run[1..])
  }

  /** The etags known of a server to begin with: that of its latest version. */
  function FirstEtags(server: Server): (r: seq<Option<nat>>)
    requires |server.commits| > 0
  {
    seq(|server.commits| - 1, _ => None) + [server.etag]
  }

  // ---------- The invariant ----------

  predicate Distinct(etags: seq<Option<nat>>) {
    forall i, j :: 0 <= i < j < |etags| && etags[j].Some? ==> etags[i] != etags[j]
  }

  /** A commit call that was told an etag was told its own version's. */
  predicate ToldItsOwn(call: CommitPhase, etags: seq<Option<nat>>) {
    !call.Requesting? && call.etag.Some? ==> call.version < |etags| && etags[call.version] == call.etag
  }

  predicate SessionToldItsOwn(session: Session, etags: seq<Option<nat>>) {
    forall t :: t in session.calls ==> ToldItsOwn(session.calls[t], etags)
  }

  predicate ServerEtags(server: Server, etags: seq<Option<nat>>) {
    |etags| == |server.commits| > 0 && etags[|etags| - 1] == server.etag && Distinct(etags)
  }

  ghost predicate EtagInv(st: State, etags: seq<Option<nat>>) {
    && ServerEtags(st.server, etags)
    && forall s :: s in st.sessions ==> SessionToldItsOwn(st.sessions[s], etags)
  }

  lemma SessionStepEtags(server: Server, log: Log, session: Session, step: Step, etags: seq<Option<nat>>)
    requires ServerEtags(server, etags) && SessionToldItsOwn(session, etags)
    requires OfSession(step) && SessionEnabled(server, log, session, step)
    requires IsRatifying(step) ==> step.etag.Some? && step.etag !in etags
    ensures ServerEtags(ApplyServer(server, session, step), Known(etags, step))
    ensures SessionToldItsOwn(ApplySession(session, step), Known(etags, step))
  {
    hide Answers, Ratified, SortByVersion, SnapshotOf;
    if !IsCommitStep(step) {
      AttachKeepsCalls(session, step);
      hide ApplyAttach, SessionEnabled;
    }
  }

  lemma AttachKeepsCalls(session: Session, step: Step)
    ensures ApplyAttach(session, step).calls == session.calls
  {
    hide Ratified, SortByVersion;
  }

  lemma KnownKeepsTold(session: Session, etags: seq<Option<nat>>, step: Step)
    requires SessionToldItsOwn(session, etags)
    ensures SessionToldItsOwn(session, Known(etags, step))
  {
  }

  lemma StepKeepsEtags(st: State, step: Step, etags: seq<Option<nat>>)
    requires EtagInv(st, etags) && Enabled(st, step)
    requires IsRatifying(step) ==> step.etag.Some? && step.etag !in etags
    ensures EtagInv(Apply(st, step), Known(etags, step))
  {
    hide ApplySession, ApplyServer, ApplyLog, ApplyOther, Returns, SessionEnabled, SessionToldItsOwn, ServerEtags, Known;
    forall s | s in st.sessions ensures SessionToldItsOwn(st.sessions[s], Known(etags, step)) {
      KnownKeepsTold(st.sessions[s], etags, step);
    }
    if OfSession(step) {
      SessionStepEtags(st.server, st.log, st.sessions[step.s], step, etags);
    } else {
      OtherStepEtags(st, step, etags);
    }
  }

  lemma OtherStepEtags(st: State, step: Step, etags: seq<Option<nat>>)
    requires ServerEtags(st.server, etags) && !OfSession(step) && OtherEnabled(st, step)
    requires IsRatifying(step) ==> step.etag.Some? && step.etag !in etags
    ensures ServerEtags(ApplyOther(st, step).server, Known(etags, step))
    ensures forall s :: s in ApplyOther(st, step).sessions ==>
              var session := ApplyOther(st, step).sessions[s];
              if s in st.sessions then session == st.sessions[s] else SessionToldItsOwn(session, Known(etags, step))
  {
  }

  lemma {:induction false} RunKeepsEtags(st: State, run: seq<Step>, etags: seq<Option<nat>>)
    requires EtagInv(st, etags) && IsRun(st, run) && NeverRepeats(etags, run)
    ensures EtagInv(After(st, run), KnownAfter(etags, run))
    decreases |run|
  {
    hide EtagInv, Enabled, Apply, Known;
    if run != [] {
      StepKeepsEtags(st, run[0], etags);
      RunKeepsEtags(Apply(st, run[0]), run[1..], Known(etags, run[0]));
    }
  }

  lemma InitEtags(st: State)
    requires Init(st)
    ensures EtagInv(st, FirstEtags(st.server))
  {
  }

  // ---------- After a commit ----------

  /**
   * The etag a commit call was told, once cached, is the server's own exactly if the call's version
   * is still the latest one ratified.
   */
  lemma StoredEtagIsCurrent(start: State, run: seq<Step>, st: State, s: nat, call: nat)
    requires Leads(start, run, st) && NeverRepeats(FirstEtags(start.server), run)
    requires s in st.sessions && call in st.sessions[s].calls
    requires st.sessions[s].calls[call].MarkedDirty? && st.sessions[s].calls[call].etag.Some?
    ensures var next := Apply(st, StoreEtag(s, call));
            && Enabled(st, StoreEtag(s, call)) && s in next.sessions
            && (next.sessions[s].etag == next.server.etag <==>
                st.sessions[s].calls[call].version == |next.server.commits| - 1)
  {
    hide IsRun, After, KnownAfter, NeverRepeats, FirstEtags, Answers, Accepts, SortByVersion, ApplyAttach, Returns,
         ApplyServer, ApplyLog, EtagInv;
    InitEtags(start);
    RunKeepsEtags(start, run, FirstEtags(start.server));
    ToldIsOwn(st, KnownAfter(FirstEtags(start.server), run), s, call);
    StoringKeepsServer(st.server, st.sessions[s], s, call);
  }

  lemma StoringKeepsServer(server: Server, session: Session, s: nat, call: nat)
    ensures ApplyServer(server, session, StoreEtag(s, call)) == server
  {
  }

  lemma ToldIsOwn(st: State, etags: seq<Option<nat>>, s: nat, call: nat)
    requires EtagInv(st, etags) && s in st.sessions && call in st.sessions[s].calls
    ensures ToldItsOwn(st.sessions[s].calls[call], etags) && ServerEtags(st.server, etags)
  {
    assert SessionToldItsOwn(st.sessions[s], etags);
  }

  // ---------- After an attach ----------

  lemma {:induction false} KnownGrows(etags: seq<Option<nat>>, run: seq<Step>)
    requires NeverRepeats(etags, run)
    ensures etags <= KnownAfter(etags, run)
    ensures forall i :: |etags| <= i < |KnownAfter(etags, run)| ==> KnownAfter(etags, run)[i].Some?
    decreases |run|
  {
    if run != [] {
      KnownGrows(Known(etags, run[0]), run[1..]);
    }
  }

  lemma {:induction false} NeverRepeatsConcat(etags: seq<Option<nat>>, run: seq<Step>, more: seq<Step>)
    requires NeverRepeats(etags, run + more)
    ensures NeverRepeats(etags, run) && NeverRepeats(KnownAfter(etags, run), more)
    decreases |run|
  {
    if run == [] {
      assert run + more == more;
    } else {
      assert (run + more)[0] == run[0] && (run + more)[1..] == run[1..] + more;
      NeverRepeatsConcat(Known(etags, run[0]), run[1..], more);
    }
  }

  /**
   * The etag of a LoadTable reply, published after any number of steps by anybody, is the server's
   * own exactly if nothing was ratified since the reply.
   */
  lemma PublishedEtagIsCurrent(start: State, run: seq<Step>, st: State, s: nat, reply: Reply, more: seq<Step>, end: State)
    requires Leads(start, run, st) && Enabled(st, LoadReplies(s, reply))
    requires IsRun(Apply(st, LoadReplies(s, reply)), more) && After(Apply(st, LoadReplies(s, reply)), more) == end
    requires forall step :: step in more ==> !RepliesTo(step, s)
    requires NeverRepeats(FirstEtags(start.server), run + more)
    requires s in end.sessions && Enabled(end, Publish(s))
    ensures var next := Apply(end, Publish(s));
            && s in next.sessions
            && (next.sessions[s].etag == next.server.etag <==> |next.server.commits| == |st.server.commits|)
  {
    var etags := KnownAfter(FirstEtags(start.server), run);
    var loaded := Apply(st, LoadReplies(s, reply));
    InitEtags(start);
    NeverRepeatsConcat(FirstEtags(start.server), run, more);
    RunKeepsEtags(start, run, FirstEtags(start.server));
    StepKeepsEtags(st, LoadReplies(s, reply), etags);
    InitInv(start);
    RunKeepsInv(start, run);
    LoadedLivesOn(st, s, reply);
    StepKeepsInv(st, LoadReplies(s, reply));
    hide IsRun, After, Init, NeverRepeats, FirstEtags, KnownAfter, Apply, Enabled, Inv, SessionLivesOn;
    RunKeepsEtags(loaded, more, etags);
    KnownGrows(etags, more);
    RunLivesOn(loaded, more, s, reply, |st.server.commits|);
    PublishCaches(end, s, reply, |st.server.commits|);
    LaterEtagsDiffer(etags, KnownAfter(etags, more));
  }

  lemma PublishCaches(st: State, s: nat, reply: Reply, count: nat)
    requires SessionLivesOn(st, s, reply, count) && Enabled(st, Publish(s))
    ensures var next := Apply(st, Publish(s));
            s in next.sessions && next.sessions[s].etag == reply.etag && next.server == st.server
  {
    hide Ratified, SortByVersion;
  }

  // ---------- What the etag of a commit call guards ----------

  predicate Ends(step: Step, s: nat, call: nat) {
    (step.CommitAccepted? || step.CommitLost? || step.CommitRejected?) && step.s == s && step.call == call
  }

  ghost predicate Waits(st: State, s: nat, call: nat, request: CommitPhase) {
    s in st.sessions && call in st.sessions[s].calls && st.sessions[s].calls[call] == request
  }

  lemma SessionWaits(server: Server, log: Log, session: Session, step: Step, call: nat)
    requires OfSession(step) && SessionEnabled(server, log, session, step)
    requires Requests(session, call) && !Ends(step, step.s, call)
    ensures var next := ApplySession(session, step);
            call in next.calls && next.calls[call] == session.calls[call]
  {
    hide Answers, Accepts, Ratified, SortByVersion, ApplyAttach;
    if !IsCommitStep(step) {
      AttachKeepsCalls(session, step);
    }
  }

  lemma StepWaits(st: State, step: Step, s: nat, call: nat, request: CommitPhase)
    requires Enabled(st, step) && Waits(st, s, call, request) && request.Requesting? && !Ends(step, s, call)
    ensures Waits(Apply(st, step), s, call, request)
  {
    hide ApplySession, ApplyServer, ApplyLog, Returns, SessionEnabled;
    if OfSession(step) && step.s == s {
      SessionWaits(st.server, st.log, st.sessions[s], step, call);
    }
  }

  lemma {:induction false} RunWaits(st: State, run: seq<Step>, s: nat, call: nat, request: CommitPhase)
    requires IsRun(st, run) && Waits(st, s, call, request) && request.Requesting?
    requires forall step :: step in run ==> !Ends(step, s, call)
    ensures Waits(After(st, run), s, call, request)
    decreases |run|
  {
    hide Enabled, Apply, Waits, Ends;
    if run != [] {
      StepWaits(st, run[0], s, call, request);
      RunWaits(Apply(st, run[0]), run[1..], s, call, request);
    }
  }

  lemma StartWaits(st: State, s: nat, call: nat, version: nat, file: string)
    requires Enabled(st, CommitStart(s, call, version, file))
    ensures s in st.sessions
    ensures var next := Apply(st, CommitStart(s, call, version, file)); var session := st.sessions[s];
            next.server == st.server && Waits(next, s, call, Requesting(version, file, session.etag, session.watermark))
  {
    hide Answers, Accepts, SortByVersion, ApplyAttach;
  }

  lemma WaitingIsAccepted(st: State, s: nat, call: nat, request: CommitPhase, step: Step)
    requires Waits(st, s, call, request) && request.Requesting?
    requires step.CommitAccepted? && step.s == s && step.call == call
    ensures Enabled(st, step) <==>
            request.version == |st.server.commits| && (request.etag.None? || request.etag == st.server.etag)
  {
    hide Answers;
  }

  /**
   * A commit call starts while its session has the server's etag, and anybody does anything meanwhile:
   * the server may take it exactly if it asks for the next version and nothing was ratified since.
   */
  lemma GuardedCommitIsAlone(start: State, run: seq<Step>, st: State, s: nat, call: nat, version: nat, file: string,
                             more: seq<Step>, end: State, step: Step)
    requires Leads(start, run, st) && Enabled(st, CommitStart(s, call, version, file))
    requires st.sessions[s].etag.Some? && st.sessions[s].etag == st.server.etag
    requires IsRun(Apply(st, CommitStart(s, call, version, file)), more)
    requires After(Apply(st, CommitStart(s, call, version, file)), more) == end
    requires forall step :: step in more ==> !Ends(step, s, call)
    requires NeverRepeats(FirstEtags(start.server), run + more)
    requires step.CommitAccepted? && step.s == s && step.call == call
    ensures Enabled(end, step) <==>
            version == |end.server.commits| && |end.server.commits| == |st.server.commits|
  {
    var etags := KnownAfter(FirstEtags(start.server), run);
    var started := Apply(st, CommitStart(s, call, version, file));
    var request := Requesting(version, file, st.sessions[s].etag, st.sessions[s].watermark);
    InitEtags(start);
    NeverRepeatsConcat(FirstEtags(start.server), run, more);
    RunKeepsEtags(start, run, FirstEtags(start.server));
    StepKeepsEtags(st, CommitStart(s, call, version, file), etags);
    StartWaits(st, s, call, version, file);
    hide IsRun, After, Init, NeverRepeats, FirstEtags, KnownAfter, Apply, Enabled, Waits, Ends;
    RunKeepsEtags(started, more, etags);
    RunWaits(started, more, s, call, request);
    KnownGrows(etags, more);
    LaterEtagsDiffer(etags, KnownAfter(etags, more));
    WaitingIsAccepted(end, s, call, request, step);
  }

  lemma LaterEtagsDiffer(etags: seq<Option<nat>>, later: seq<Option<nat>>)
    requires 0 < |etags| && etags <= later && Distinct(later)
    requires forall i :: |etags| <= i < |later| ==> later[i].Some?
    ensures etags[|etags| - 1] == later[|later| - 1] <==> |etags| == |later|
  {
    if |etags| < |later| {
      assert later[|etags| - 1] != later[|later| - 1];
    }
  }
}
