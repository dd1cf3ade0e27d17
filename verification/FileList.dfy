/** The lazily expanded list of files a scan plan names: files that come with the plan, and opaque tokens
    exchanged for more files, and more tokens, as files are asked for. */
module FileList {
  import opened Wrappers

  datatype DeleteKind = PositionDeletes | EqualityDeletes
  datatype DeleteFile = DeleteFile(kind: DeleteKind, path: string, format: string, contentOffset: int, contentSize: int)

  /** A data file, and which delete files of the same response apply to it. */
  datatype Task = Task(path: string, references: seq<nat>)

  /** A token together with what the server answers when it is exchanged. */
  datatype Token = Token(text: string, response: Response)
  datatype Response = Response(tasks: seq<Task>, deletes: seq<DeleteFile>, tokens: seq<Token>)

  datatype Entry = Entry(path: string, deletes: seq<DeleteFile>)

  // ---- One response ----

  predicate InRange(task: Task, deletes: seq<DeleteFile>) {
    forall i :: 0 <= i < |task.references| ==> task.references[i] < |deletes|
  }

  predicate Accepted(r: Response) {
    forall i :: 0 <= i < |r.tasks| ==> InRange(r.tasks[i], r.deletes)
  }

  function Resolve(task: Task, deletes: seq<DeleteFile>): (r: seq<DeleteFile>)
    requires InRange(task, deletes)
  {
    seq(|task.references|, i requires 0 <= i < |task.references| => deletes[task.references[i]])
  }

  function EntryOf(task: Task, deletes: seq<DeleteFile>): (r: Entry)
    requires InRange(task, deletes)
  {
    Entry(task.path, Resolve(task, deletes))
  }

  /** The files of one response, each with the delete files that response says apply to it. */
  function EntriesOf(tasks: seq<Task>, deletes: seq<DeleteFile>): (r: seq<Entry>)
    requires forall i :: 0 <= i < |tasks| ==> InRange(tasks[i], deletes)
    ensures |r| == |tasks|
  {
    seq(|tasks|, i requires 0 <= i < |tasks| => EntryOf(tasks[i], deletes))
  }

  /** These are the delete files a task refers to, one for each reference and in their order. */
  predicate Carries(carried: seq<DeleteFile>, task: Task, deletes: seq<DeleteFile>) {
    && |carried| == |task.references|
    && forall k :: 0 <= k < |task.references| ==> task.references[k] < |deletes| && carried[k] == deletes[task.references[k]]
  }

  /** An entry is its task's file with the delete files that task refers to. */
  predicate IsEntry(e: Entry, task: Task, deletes: seq<DeleteFile>) {
    e.path == task.path && Carries(e.deletes, task, deletes)
  }

  /** The entries of a response are those of its tasks, in their order. */
  lemma EntriesCarry(r: Response)
    requires Accepted(r)
    ensures |EntriesOf(r.tasks, r.deletes)| == |r.tasks|
    ensures forall i :: 0 <= i < |r.tasks| ==> IsEntry(EntriesOf(r.tasks, r.deletes)[i], r.tasks[i], r.deletes)
  {
  }

  // ---- Eager expansion ----

  /** The number of responses still to be fetched. */
  function Weight(tokens: seq<Token>): (r: nat)
    decreases tokens
  {
    if tokens == [] then 0 else 1 + Weight(tokens[0].response.tokens) + Weight(tokens[1..])
  }

  predicate AllAccepted(tokens: seq<Token>)
    decreases tokens
  {
    tokens == [] ||
    (Accepted(tokens[0].response) && AllAccepted(tokens[0].response.tokens) && AllAccepted(tokens[1..]))
  }

  lemma {:induction false} QueueConcat(a: seq<Token>, b: seq<Token>)
    ensures Weight(a + b) == Weight(a) + Weight(b) && (AllAccepted(a + b) <==> AllAccepted(a) && AllAccepted(b))
    decreases |a|
  {
    if a == [] {
      assert a + b == b;
    } else {
      assert (a + b)[0] == a[0] && (a + b)[1..] == a[1..] + b;
      QueueConcat(a[1..], b);
    }
  }

  /** Exchanging every token at once, first in first out. */
  function Eager(queue: seq<Token>): (r: seq<Entry>)
    requires AllAccepted(queue)
    decreases Weight(queue)
  {
    if queue == [] then []
    else
      var r := queue[0].response;
      QueueConcat(queue[1..], r.tokens);
      EntriesOf(r.tasks, r.deletes) + Eager(queue[1..] + r.tokens)
  }

  /** One token exchanged. */
  lemma QueueStep(queue: seq<Token>)
    requires queue != []
    ensures var r := queue[0].response;
      && Weight(queue) == 1 + Weight(queue[1..] + r.tokens)
      && (AllAccepted(queue) ==>
            && Accepted(r) && AllAccepted(queue[1..] + r.tokens)
            && Eager(queue) == EntriesOf(r.tasks, r.deletes) + Eager(queue[1..] + r.tokens))
      && (r.tasks == [] ==> EntriesOf(r.tasks, r.deletes) == [])
  {
    QueueConcat(queue[1..], queue[0].response.tokens);
  }

  /** The files of the responses of these tokens themselves, in the order of the queue. */
  function Level(queue: seq<Token>): (r: seq<Entry>)
    requires AllAccepted(queue)
  {
    if queue == [] then []
    else EntriesOf(queue[0].response.tasks, queue[0].response.deletes) + Level(queue[1..])
  }

  /** The tokens that those responses bring, in that order. */
  function NextLevel(queue: seq<Token>): (r: seq<Token>) {
    if queue == [] then [] else queue[0].response.tokens + NextLevel(queue[1..])
  }

  lemma {:induction false} NextLevelAccepted(queue: seq<Token>)
    requires AllAccepted(queue)
    ensures AllAccepted(NextLevel(queue))
  {
    hide Accepted;
    if queue != [] {
      NextLevelAccepted(queue[1..]);
      QueueConcat(queue[0].response.tokens, NextLevel(queue[1..]));
    }
  }

  /**
   * First in, first out: the files of the tokens in the queue come in its order, before those of any
   * token that their responses bring.
   */
  lemma FirstInFirstOut(queue: seq<Token>)
    requires AllAccepted(queue)
    ensures AllAccepted(NextLevel(queue)) && Eager(queue) == Level(queue) + Eager(NextLevel(queue))
  {
    NextLevelAccepted(queue);
    LevelThenRest(queue, []);
    assert queue + [] == queue && [] + NextLevel(queue) == NextLevel(queue);
  }

  lemma LevelCons(queue: seq<Token>)
    requires queue != [] && AllAccepted(queue)
    ensures var r := queue[0].response;
      && Accepted(r) && AllAccepted(r.tokens) && AllAccepted(queue[1..])
      && Level(queue) == EntriesOf(r.tasks, r.deletes) + Level(queue[1..])
      && NextLevel(queue) == r.tokens + NextLevel(queue[1..])
  {
  }

  lemma {:induction false} LevelThenRest(queue: seq<Token>, later: seq<Token>)
    requires AllAccepted(queue) && AllAccepted(later)
    ensures AllAccepted(queue + later) && AllAccepted(later + NextLevel(queue))
    ensures Eager(queue + later) == Level(queue) + Eager(later + NextLevel(queue))
    decreases |queue|
  {
    hide EntriesOf, Accepted, Eager, Level, NextLevel, AllAccepted, Weight;
    NextLevelAccepted(queue);
    QueueConcat(queue, later);
    QueueConcat(later, NextLevel(queue));
    if queue == [] {
      NoLevel(queue);
      assert queue + later == later && later + NextLevel(queue) == later;
    } else {
      var tokens := queue[0].response.tokens;
      LevelCons(queue);
      QueueConcat(later, tokens);
      LevelThenRest(queue[1..], later + tokens);
      LevelStep(queue, later);
      assert (later + tokens) + NextLevel(queue[1..]) == later + NextLevel(queue);
    }
  }

  lemma NoLevel(queue: seq<Token>)
    requires queue == []
    ensures Level(queue) == [] && NextLevel(queue) == []
  {
  }

  lemma LevelStep(queue: seq<Token>, later: seq<Token>)
    requires queue != [] && AllAccepted(queue + later)
    ensures var r := queue[0].response; var next := queue[1..] + (later + r.tokens);
      Accepted(r) && AllAccepted(next) && Eager(queue + later) == EntriesOf(r.tasks, r.deletes) + Eager(next)
  {
    hide EntriesOf, Accepted, Eager, AllAccepted, Weight;
    var both := queue + later;
    assert both[0] == queue[0] && both[1..] + queue[0].response.tokens == queue[1..] + (later + queue[0].response.tokens);
    QueueStep(both);
  }

  /** The responses that stand below these tokens. */
  ghost function ResponsesBelow(tokens: seq<Token>): (r: set<Response>)
    decreases tokens
  {
    if tokens == [] then {}
    else {tokens[0].response} + ResponsesBelow(tokens[0].response.tokens) + ResponsesBelow(tokens[1..])
  }

  /** Entry `e` is that of some task of this response. */
  ghost predicate ComesFrom(e: Entry, r: Response) {
    exists i :: 0 <= i < |r.tasks| && IsEntry(e, r.tasks[i], r.deletes)
  }

  lemma {:induction false} FilesComeFrom(tokens: seq<Token>, e: Entry)
    requires AllAccepted(tokens) && e in FilesBelow(tokens)
    ensures exists r :: r in ResponsesBelow(tokens) && ComesFrom(e, r)
    decreases tokens
  {
    hide EntriesOf, Carries;
    var r := tokens[0].response;
    if e in EntriesOf(r.tasks, r.deletes) {
      EntryComesFrom(r, e);
      assert r in ResponsesBelow(tokens);
    } else if e in FilesBelow(r.tokens) {
      FilesComeFrom(r.tokens, e);
    } else {
      FilesComeFrom(tokens[1..], e);
    }
  }

  lemma EntryComesFrom(r: Response, e: Entry)
    requires Accepted(r) && e in EntriesOf(r.tasks, r.deletes)
    ensures ComesFrom(e, r)
  {
    hide EntriesOf;
    EntriesCarry(r);
    var i :| 0 <= i < |EntriesOf(r.tasks, r.deletes)| && EntriesOf(r.tasks, r.deletes)[i] == e;
    assert IsEntry(e, r.tasks[i], r.deletes);
  }

  /** Every entry of a plan is a task's file with the delete files of the response the task came with. */
  lemma PlanEntriesComeFrom(plan: Response, e: Entry)
    requires AcceptedPlan(plan) && e in PlanEntries(plan)
    ensures exists r :: r in {plan} + ResponsesBelow(plan.tokens) && ComesFrom(e, r)
  {
    hide EntriesOf, ResponsesBelow, ComesFrom;
    if e in EntriesOf(plan.tasks, plan.deletes) {
      EntryComesFrom(plan, e);
      assert plan in {plan} + ResponsesBelow(plan.tokens);
    } else {
      EagerIsEverything(plan.tokens);
      assert e in multiset(Eager(plan.tokens));
      FilesComeFrom(plan.tokens, e);
    }
  }

  function PlanEntries(plan: Response): (r: seq<Entry>)
    requires AcceptedPlan(plan)
  {
    EntriesOf(plan.tasks, plan.deletes) + Eager(plan.tokens)
  }

  predicate AcceptedPlan(plan: Response) {
    Accepted(plan) && AllAccepted(plan.tokens)
  }

  /** Every file of every response below these tokens, whatever the order. */
  ghost function FilesBelow(tokens: seq<Token>): (r: multiset<Entry>)
    requires AllAccepted(tokens)
    decreases tokens
  {
    if tokens == [] then multiset{}
    else
      var r := tokens[0].response;
      multiset(EntriesOf(r.tasks, r.deletes)) + FilesBelow(r.tokens) + FilesBelow(tokens[1..])
  }

  lemma {:induction false} FilesBelowConcat(a: seq<Token>, b: seq<Token>)
    requires AllAccepted(a) && AllAccepted(b)
    ensures AllAccepted(a + b) && FilesBelow(a + b) == FilesBelow(a) + FilesBelow(b)
    decreases |a|
  {
    hide EntriesOf, Accepted, Weight;
    QueueConcat(a, b);
    if a == [] {
      assert a + b == b;
    } else {
      assert (a + b)[0] == a[0] && (a + b)[1..] == a[1..] + b;
      FilesBelowConcat(a[1..], b);
    }
  }

  /** Expansion meets each file of each response below the tokens exactly once. */
  lemma {:induction false} EagerIsEverything(queue: seq<Token>)
    requires AllAccepted(queue)
    ensures multiset(Eager(queue)) == FilesBelow(queue)
    decreases Weight(queue)
  {
    if queue != [] {
      var r := queue[0].response;
      QueueConcat(queue[1..], r.tokens);
      EagerIsEverything(queue[1..] + r.tokens);
      FilesBelowConcat(queue[1..], r.tokens);
    }
  }

  // ---- Losing a token ----

  /** `before` is `after` and what stands below one token that was taken out and never exchanged. */
  ghost predicate Lost(before: seq<Entry>, after: seq<Entry>, token: Token) {
    AllAccepted([token]) && multiset(before) == multiset(after) + FilesBelow([token])
  }

  /** Taking a token out of the queue without exchanging it loses the files below it, and those alone. */
  lemma DroppingLoses(entries: seq<Entry>, queue: seq<Token>)
    requires queue != [] && AllAccepted(queue)
    ensures AllAccepted(queue[1..]) && Lost(entries + Eager(queue), entries + Eager(queue[1..]), queue[0])
  {
    hide FilesBelow, Eager, AllAccepted;
    assert queue == [queue[0]] + queue[1..];
    QueueConcat([queue[0]], queue[1..]);
    FilesBelowConcat([queue[0]], queue[1..]);
    EagerIsEverything(queue);
    EagerIsEverything(queue[1..]);
  }

  // ---- The list ----

  datatype Expansion = Added | Exhausted | Rejected | Threw(token: Token)

  datatype Lookup = There(entry: Entry) | NotThere | LookupThrew(token: Token)

  class LazyFileList {
    var remaining: seq<Token>
    var files: seq<string>
    var fileDeletes: seq<seq<DeleteFile>>
    var allExpanded: bool

    /** Files and delete lists run in lockstep. */
    ghost predicate Lockstep()
      reads this
    {
      |files| == |fileDeletes|
    }

    /** A rejected response leaves one file without its delete list. */
    ghost predicate OneAhead()
      reads this
    {
      |files| == |fileDeletes| + 1
    }

    ghost function Entries(): (r: seq<Entry>)
      requires Lockstep()
      reads this
    {
      seq(|files|, i requires 0 <= i < |files| reads this requires Lockstep() => Entry(files[i], fileDeletes[i]))
    }

    /** What the list holds, and what its tokens still stand for. */
    ghost function Total(): (r: seq<Entry>)
      requires Lockstep() && AllAccepted(remaining)
      reads this
    {
      Entries() + Eager(remaining)
    }

    ghost predicate Valid()
      reads this
    {
      Lockstep() && AllAccepted(remaining) && (allExpanded ==> remaining == [])
    }

    constructor ()
      ensures remaining == [] && files == [] && fileDeletes == [] && !allExpanded
    {
      remaining, files, fileDeletes, allExpanded := [], [], [], false;
    }

    /** Takes one task of a response in; false when it refers to a delete file the response lacks. */
    method AddTask(task: Task, deletes: seq<DeleteFile>) returns (ok: bool)
      requires Lockstep()
      modifies this
      ensures ok <==> forall k :: 0 <= k < |task.references| ==> task.references[k] < |deletes|
      ensures ok ==> |fileDeletes| == |old(fileDeletes)| + 1 && fileDeletes[..|old(fileDeletes)|] == old(fileDeletes)
      ensures ok ==> files == old(files) + [task.path] && Carries(fileDeletes[|old(fileDeletes)|], task, deletes)
      ensures remaining == old(remaining) && allExpanded == old(allExpanded)
      ensures ok ==> Lockstep() && Entries() == old(Entries()) + [EntryOf(task, deletes)]
      ensures !ok ==> OneAhead() && files == old(files) + [task.path] && fileDeletes == old(fileDeletes)
    {
      files := files + [task.path];
      var resolved: seq<DeleteFile> := [];
      var i := 0;
      while i < |task.references|
        invariant 0 <= i <= |task.references|
        invariant forall k :: 0 <= k < i ==> task.references[k] < |deletes|
        invariant |resolved| == i && forall k :: 0 <= k < i ==> resolved[k] == deletes[task.references[k]]
        invariant files == old(files) + [task.path] && fileDeletes == old(fileDeletes)
        invariant remaining == old(remaining) && allExpanded == old(allExpanded)
      {
        if task.references[i] >= |deletes| {
          return false;
        }
        resolved := resolved + [deletes[task.references[i]]];
        i := i + 1;
      }
      assert resolved == Resolve(task, deletes);
      fileDeletes := fileDeletes + [resolved];
      ok := true;
    }

    /** Takes the tasks of one response in, stopping at the first that is rejected. */
    method AddTasks(r: Response) returns (ok: bool)
      requires Lockstep()
      modifies this
      ensures ok <==> Accepted(r)
      ensures remaining == old(remaining) && allExpanded == old(allExpanded)
      ensures ok ==> Lockstep() && Entries() == old(Entries()) + EntriesOf(r.tasks, r.deletes)
      ensures ok ==> |Entries()| == |old(Entries())| + |r.tasks| && Entries()[..|old(Entries())|] == old(Entries())
      ensures ok ==> forall i :: 0 <= i < |r.tasks| ==> IsEntry(Entries()[|old(Entries())| + i], r.tasks[i], r.deletes)
      ensures !ok ==> OneAhead()
    {
      var i := 0;
      while i < |r.tasks|
        invariant 0 <= i <= |r.tasks| && Lockstep()
        invariant forall k :: 0 <= k < i ==> InRange(r.tasks[k], r.deletes)
        invariant Entries() == old(Entries()) + EntriesOf(r.tasks[..i], r.deletes)
        invariant remaining == old(remaining) && allExpanded == old(allExpanded)
      {
        var added := AddTask(r.tasks[i], r.deletes);
        if !added {
          return false;
        }
        assert EntriesOf(r.tasks[..i + 1], r.deletes) == EntriesOf(r.tasks[..i], r.deletes) + [EntryOf(r.tasks[i], r.deletes)];
        i := i + 1;
      }
      assert r.tasks[..|r.tasks|] == r.tasks;
      EntriesCarry(r);
      ok := true;
    }

    /** Starts the list from a plan. */
    method Load(plan: Response) returns (ok: bool)
      requires remaining == [] && files == [] && fileDeletes == [] && !allExpanded
      modifies this
      ensures ok <==> Accepted(plan)
      ensures ok ==> Lockstep() && Entries() == EntriesOf(plan.tasks, plan.deletes) && remaining == plan.tokens
      ensures ok ==> allExpanded == (plan.tokens == [])
      ensures AcceptedPlan(plan) ==> Valid() && Total() == PlanEntries(plan)
    {
      ok := AddTasks(plan);
      assert old(Entries()) == [];
      if ok {
        assert Entries() == [] + EntriesOf(plan.tasks, plan.deletes) == EntriesOf(plan.tasks, plan.deletes);
        remaining := plan.tokens;
        if remaining == [] {
          allExpanded := true;
        }
      }
    }

    /** Exchanges tokens until one brings a file: true exactly when a file was added, never when only
        tokens are left to try. A token is taken out before it is exchanged: when the exchange throws, the
        list stays usable without it. */
    method ExpandNextPath(throws: Token -> bool) returns (r: Expansion)
      requires Lockstep()
      modifies this
      ensures allExpanded == old(allExpanded)
      ensures r.Added? ==> Lockstep() && |files| > |old(files)| && old(Entries()) == Entries()[..|old(files)|]
      ensures r.Exhausted? ==> Lockstep() && remaining == [] && Entries() == old(Entries())
      ensures r.Rejected? ==> OneAhead()
      ensures r.Threw? ==> throws(r.token) && Lockstep() && Entries() == old(Entries())
      ensures old(AllAccepted(remaining)) ==> !r.Rejected? && AllAccepted(remaining)
      ensures old(AllAccepted(remaining)) ==>
                if r.Threw? then Lost(old(Total()), Total(), r.token) else Total() == old(Total())
    {
      hide EntriesOf, Accepted, Lost, Eager, AllAccepted, Weight;
      ghost var accepted := AllAccepted(remaining);
      while remaining != []
        invariant Lockstep() && Entries() == old(Entries()) && allExpanded == old(allExpanded)
        invariant accepted ==> AllAccepted(remaining) && Eager(remaining) == old(Eager(remaining))
        decreases Weight(remaining)
      {
        var token := remaining[0];
        if throws(token) {
          if accepted {
            DroppingLoses(Entries(), remaining);
          }
          remaining := remaining[1..];
          return Threw(token);
        }
        QueueStep(remaining);
        remaining := remaining[1..] + token.response.tokens;
        if token.response.tasks == [] {
          continue;
        }
        var ok := AddTasks(token.response);
        if !ok {
          return Rejected;
        }
        return Added;
      }
      r := Exhausted;
    }

    /** The file at an index, expanding as far as needed: the contract of the list's base class, for which
        a false from the expansion is final. */
    method FileAt(index: nat, throws: Token -> bool) returns (found: Lookup)
      requires Valid()
      modifies this
      ensures Valid()
      ensures found.LookupThrew? ==> throws(found.token) && Lost(old(Total()), Total(), found.token)
      ensures !found.LookupThrew? ==> Total() == old(Total())
      ensures !found.LookupThrew? ==> found == if index < |Total()| then There(Total()[index]) else NotThere
    {
      hide Lost;
      while index >= |files| && !allExpanded
        invariant Valid() && Total() == old(Total())
        decreases !allExpanded, if index >= |files| then index - |files| + 1 else 0
      {
        var r := ExpandNextPath(throws);
        if r.Threw? {
          return LookupThrew(r.token);
        }
        if !r.Added? {
          allExpanded := true;
        }
      }
      if index < |files| {
        found := There(Entry(files[index], fileDeletes[index]));
      } else {
        found := NotThere;
      }
    }
  }
}
