// CREATE TABLE against a catalog and a file system that may fail at any call, before or after the
// call took effect, while other clients change the catalog in between: version 0 is written, the
// table is registered, and an unclear outcome is settled by loading the name and comparing.
module TableCreation {

  import opened Wrappers
  import opened Locations
  import opened Texts

  // ---------- The world outside ----------

  /** A table as the catalog lists it; its location may be spelled differently from the one it was given. */
  datatype Registered = Registered(location: string, uuid: string)

  type Tables = map<string, Registered>

  /**
   * The catalog's tables by name, the places (as comparable paths) whose log holds a version 0, and
   * the catalogs that the calls so far have met.
   */
  datatype World = World(tables: Tables, logs: set<string>, met: seq<Tables>)

  datatype Error = Interrupted | NameTaken | OtherCatalogError | OtherError

  datatype Fault = Works | FailsBefore(error: Error) | FailsAfter(error: Error)

  /** What other clients do to the catalog before a call reaches it, and what becomes of the call. */
  datatype Call = Call(others: map<string, Option<Registered>>, fault: Fault)

  type Answer<+T> = Result<T, Error>

  function Disturbed(tables: Tables, others: map<string, Option<Registered>>): (r: Tables) {
    map name | name in tables.Keys + others.Keys && (name in others ==> others[name].Some?) ::
      if name in others then others[name].value else tables[name]
  }

  /** A call reaches the catalog: it meets what the other clients have made of it. */
  function Reach(w: World, call: Call): (r: World) {
    var tables := Disturbed(w.tables, call.others);
    w.(tables := tables, met := w.met + [tables])
  }

  function TableExists(w: World, name: string, call: Call): (r: (World, Answer<bool>)) {
    var w' := Reach(w, call);
    (w', if call.fault.Works? then Ok(name in w'.tables) else Err(call.fault.error))
  }

  function LoadTable(w: World, name: string, call: Call): (r: (World, Answer<Registered>)) {
    var w' := Reach(w, call);
    (w', if !call.fault.Works? then Err(call.fault.error)
         else if name in w'.tables then Ok(w'.tables[name])
         else Err(OtherError))
  }

  /** The catalog refuses a taken name; otherwise it registers the table unless the call fails before. */
  function Register(w: World, name: string, table: Registered, call: Call): (r: (World, Option<Error>)) {
    var w' := Reach(w, call);
    if name in w'.tables then (w', Some(if call.fault.Works? then NameTaken else call.fault.error))
    else
      match call.fault
      case Works => (w'.(tables := w'.tables[name := table]), None)
      case FailsBefore(error) => (w', Some(error))
      case FailsAfter(error) => (w'.(tables := w'.tables[name := table]), Some(error))
  }

  /** Version 0 is written only where no log is; a write may still fail after the file is there. */
  function WriteVersionZero(w: World, location: string, fault: Fault): (r: (World, Option<Error>)) {
    var path := Comparable(location);
    if path in w.logs then (w, Some(if fault.Works? then OtherError else fault.error))
    else
      match fault
      case Works => (w.(logs := w.logs + {path}), None)
      case FailsBefore(error) => (w, Some(error))
      case FailsAfter(error) => (w.(logs := w.logs + {path}), Some(error))
  }

  function RemoveVersionZero(w: World, location: string, call: Call): (r: World) {
    var w' := Reach(w, call);
    if call.fault.FailsBefore? then w' else w'.(logs := w'.logs - {Comparable(location)})
  }

  // ---------- Registering and cleaning up ----------

  /**
   * Registers the table. A failed call may hide a registration that went through, so an unclear
   * error is settled by loading the name. It passes for done exactly when the call took effect and
   * returned, or its outcome was unclear and the name, loaded, is our table; and either way the
   * catalog then lists our table.
   */
  function Registration(w: World, name: string, table: Registered, register: Call, load: Call, isOurs: Registered -> bool)
    : (r: (World, Option<Error>))
    ensures isOurs(table) && r.1.None? ==> name in r.0.tables && isOurs(r.0.tables[name])
    ensures var unclear := !register.fault.Works? && register.fault.error.OtherError?;
            isOurs(table) ==>
              (r.1.None? <==>
                (register.fault.Works? && name !in Disturbed(w.tables, register.others))
                || (unclear && load.fault.Works? && name in r.0.tables && isOurs(r.0.tables[name])))
    ensures r.0.logs == w.logs && |w.met| < |r.0.met|
  {
    var (w1, error) := Register(w, name, table, register);
    if error.None? || error.value.Interrupted? || error.value.NameTaken? || error.value.OtherCatalogError? then (w1, error)
    else
      var (w2, loaded) := LoadTable(w1, name, load);
      (w2, if loaded.Ok? && isOurs(loaded.value) then None else error)
  }

  predicate ListedAt(tables: Tables, name: string, location: string) {
    name in tables && Comparable(tables[name].location) == Comparable(location)
  }

  /**
   * Removes the version 0 that a failed create wrote: exactly when the catalog denies the name, or
   * lists it elsewhere when asked for it, and the removal takes effect. It touches no other log.
   */
  function CleanUp(w: World, name: string, location: string, ask: Call, load: Call, remove: Call): (w': World)
    ensures var asked := Disturbed(w.tables, ask.others);
            var loaded := Disturbed(asked, load.others);
            var elsewhere := name in asked && load.fault.Works? && name in loaded && !ListedAt(loaded, name, location);
            Comparable(location) in w.logs ==>
              (Comparable(location) !in w'.logs <==>
                ask.fault.Works? && (name !in asked || elsewhere) && !remove.fault.FailsBefore?)
    ensures w'.logs - {Comparable(location)} == w.logs - {Comparable(location)}
    ensures |w.met| < |w'.met|
  {
    var (w1, found) := TableExists(w, name, ask);
    if found.Err? then w1
    else if !found.value then RemoveVersionZero(w1, location, remove)
    else
      var (w2, loaded) := LoadTable(w1, name, load);
      if loaded.Err? || Comparable(loaded.value.location) == Comparable(location) then w2
      else RemoveVersionZero(w2, location, remove)
  }

  // ---------- Creating ----------

  datatype Outcome = Created | AlreadyThere | Failed(error: Error)

  /** What becomes of each remote call of an external create, in their order. */
  datatype ExternalCalls = ExternalCalls(
    taken: Call, write: Fault, register: Call, load: Call,
    cleanUpAsk: Call, cleanUpLoad: Call, cleanUpRemove: Call)

  /** An error of a registration as the statement reports it: IF NOT EXISTS makes a taken name a no-op. */
  function Report(error: Error, ifNotExists: bool): (r: Outcome) {
    if ifNotExists && error.NameTaken? then AlreadyThere else Failed(error)
  }

  /** The catalog lists an external table where it was told to, however it spells the place. */
  predicate Spells(listed: Registered, location: string) {
    Comparable(listed.location) == Comparable(location)
  }

  /**
   * `listed` is the table as the catalog goes on to list it once it is registered. A create that
   * reports success left the table listed at its location, with its version 0 in place; a log that
   * was there before stays, whatever fails, and keeps the create from succeeding; no other log is
   * touched; and a taken name changes nothing.
   */
  function ExternalCreate(w: World, name: string, location: string, listed: Registered, ifNotExists: bool, calls: ExternalCalls)
    : (r: (World, Outcome))
    ensures Spells(listed, location) && r.1.Created? ==> ListedAt(r.0.tables, name, location) && Comparable(location) in r.0.logs
    ensures Comparable(location) in w.logs ==> r.0.logs == w.logs && !r.1.Created?
    ensures r.0.logs - {Comparable(location)} == w.logs - {Comparable(location)}
    ensures calls.taken.fault.Works? && name in Reach(w, calls.taken).tables ==>
              r == (Reach(w, calls.taken), if ifNotExists then AlreadyThere else Failed(NameTaken))
  {
    var (w1, taken) := TableExists(w, name, calls.taken);
    if taken.Err? then (w1, Failed(taken.error))
    else if taken.value then (w1, Report(NameTaken, ifNotExists))
    else
      var (w2, unwritten) := WriteVersionZero(w1, location, calls.write);
      if unwritten.Some? then (w2, Failed(unwritten.value))
      else
        var (w3, error) := Registration(w2, name, listed, calls.register, calls.load, SameLocation(location));
        if error.None? then (w3, Created)
        else
          (CleanUp(w3, name, location, calls.cleanUpAsk, calls.cleanUpLoad, calls.cleanUpRemove),
           Report(error.value, ifNotExists))
  }

  function SameLocation(location: string): (r: Registered -> bool) {
    (loaded: Registered) => Comparable(loaded.location) == Comparable(location)
  }

  datatype Staging = Staging(tableId: string, location: string)

  /**
   * The staging call also finds the name taken; `credentials` fails the vending of credentials for the
   * staging location.
   */
  datatype ManagedCalls = ManagedCalls(stage: Call, credentials: Option<Error>, write: Fault, register: Call, load: Call)

  function Stage(w: World, name: string, call: Call): (r: (World, Option<Error>)) {
    var w' := Reach(w, call);
    (w', if !call.fault.Works? then Some(call.fault.error) else if name in w'.tables then Some(NameTaken) else None)
  }

  /**
   * A managed create that reports success left the table listed under the staged id, with its version
   * 0 in place.
   */
  function ManagedCreate(w: World, name: string, staging: Staging, ifNotExists: bool, calls: ManagedCalls): (r: (World, Outcome))
    ensures r.1.Created? ==>
              && name in r.0.tables && r.0.tables[name].uuid == staging.tableId
              && Comparable(staging.location) in r.0.logs
    ensures r.1.AlreadyThere? ==> ifNotExists && w.logs <= r.0.logs
    ensures r.0.logs - {Comparable(staging.location)} == w.logs - {Comparable(staging.location)}
  {
    var (w1, unstaged) := Stage(w, name, calls.stage);
    if unstaged.Some? then (w1, Report(unstaged.value, ifNotExists))
    else if calls.credentials.Some? then (w1, Failed(calls.credentials.value))
    else
      var (w2, unwritten) := WriteVersionZero(w1, staging.location, calls.write);
      if unwritten.Some? then (w2, Failed(unwritten.value))
      else
        var table := Registered(staging.location, staging.tableId);
        var (w3, error) := Registration(w2, name, table, calls.register, calls.load, SameId(staging.tableId));
        (w3, if error.None? then Created else Report(error.value, ifNotExists))
  }

  function SameId(tableId: string): (r: Registered -> bool) {
    (loaded: Registered) => loaded.uuid == tableId
  }

  // ---------- What a create reports ----------

  /** The registration was refused because the name is taken, by the catalog or in so many words. */
  predicate RefusedAsTaken(met: Tables, name: string, register: Call) {
    if register.fault.Works? then name in met else register.fault.error.NameTaken?
  }

  /** The registration went through and said so. */
  predicate Registers(met: Tables, name: string, register: Call) {
    register.fault.Works? && name !in met
  }

  /** The catalog after a registration that met `met`: it may list the table although the call failed. */
  function AfterRegistering(met: Tables, name: string, table: Registered, register: Call): (r: Tables) {
    if name in met || register.fault.FailsBefore? then met else met[name := table]
  }

  /**
   * What an external create reports, in full. It is a no-op exactly under IF NOT EXISTS if the check
   * found the name taken or the registration was refused as taken. It succeeds exactly if the name was
   * found free, version 0 was written, and the registration returned, or was unclear and the table the
   * catalog then loads is at the location. In every other case it fails with the error of the call
   * that failed.
   */
  lemma ExternalOutcome(w: World, name: string, location: string, listed: Registered, ifNotExists: bool, calls: ExternalCalls)
    ensures var outcome := ExternalCreate(w, name, location, listed, ifNotExists, calls).1;
            var asked := Disturbed(w.tables, calls.taken.others);
            var met := Disturbed(asked, calls.register.others);
            var loaded := Disturbed(AfterRegistering(met, name, listed, calls.register), calls.load.others);
            var unclear := !calls.register.fault.Works? && calls.register.fault.error == OtherError;
            if !calls.taken.fault.Works? then outcome == Failed(calls.taken.fault.error)
            else if name in asked then outcome == if ifNotExists then AlreadyThere else Failed(NameTaken)
            else if !calls.write.Works? then outcome == Failed(calls.write.error)
            else if Comparable(location) in w.logs then outcome == Failed(OtherError)
            else if Registers(met, name, calls.register) then outcome == Created
            else if RefusedAsTaken(met, name, calls.register) then
              outcome == if ifNotExists then AlreadyThere else Failed(NameTaken)
            else if unclear && calls.load.fault.Works? && ListedAt(loaded, name, location) then outcome == Created
            else outcome == Failed(calls.register.fault.error)
  {
    hide Comparable, Disturbed, CleanUp;
  }

  /**
   * The same for a managed create, whose staging call checks the name. Having succeeded, it has listed the
   * table at the staging location, under the staged id.
   */
  lemma ManagedOutcome(w: World, name: string, staging: Staging, ifNotExists: bool, calls: ManagedCalls)
    ensures var (w', outcome) := ManagedCreate(w, name, staging, ifNotExists, calls);
            var table := Registered(staging.location, staging.tableId);
            var asked := Disturbed(w.tables, calls.stage.others);
            var met := Disturbed(asked, calls.register.others);
            var loaded := Disturbed(AfterRegistering(met, name, table, calls.register), calls.load.others);
            var unclear := !calls.register.fault.Works? && calls.register.fault.error == OtherError;
            if RefusedAsTaken(asked, name, calls.stage) then
              outcome == if ifNotExists then AlreadyThere else Failed(NameTaken)
            else if !calls.stage.fault.Works? then outcome == Failed(calls.stage.fault.error)
            else if calls.credentials.Some? then outcome == Failed(calls.credentials.value)
            else if !calls.write.Works? then outcome == Failed(calls.write.error)
            else if Comparable(staging.location) in w.logs then outcome == Failed(OtherError)
            else if Registers(met, name, calls.register) then outcome == Created && w'.tables == met[name := table]
            else if RefusedAsTaken(met, name, calls.register) then
              outcome == if ifNotExists then AlreadyThere else Failed(NameTaken)
            else if unclear && calls.load.fault.Works? && name in loaded && loaded[name].uuid == staging.tableId then
              outcome == Created && w'.tables == loaded
            else outcome == Failed(calls.register.fault.error)
  {
    hide Comparable, Disturbed;
  }

  // ---------- What a clean-up may lose ----------

  /** The catalogs met between two worlds. */
  function MetSince(w: World, w': World): (r: seq<Tables>)
    requires |w.met| <= |w'.met|
  {
    w'.met[|w.met|..]
  }

  /** A clean-up never removes the log of a table that the catalog lists there whenever it is asked. */
  lemma CleanUpKeepsListed(w: World, name: string, location: string, ask: Call, load: Call, remove: Call)
    requires Comparable(location) in w.logs
    ensures var w' := CleanUp(w, name, location, ask, load, remove);
            ((forall tables :: tables in MetSince(w, w') ==> ListedAt(tables, name, location))
                ==> Comparable(location) in w'.logs)
  {
    var w' := CleanUp(w, name, location, ask, load, remove);
    var asked := Disturbed(w.tables, ask.others);
    var loaded := Disturbed(asked, load.others);
    hide Disturbed, Comparable;
    var since := MetSince(w, w');
    assert since[0] == asked && asked in since;
    if Comparable(location) !in w'.logs && name in asked {
      assert since[1] == loaded && loaded in since;
    }
  }

  /** The name is checked and the log removed in separate calls: a registration in between loses its log. */
  lemma CleanUpCanRace(name: string)
    ensures exists w: World, calls: (Call, Call, Call) ::
              var w' := CleanUp(w, name, "/t", calls.0, calls.1, calls.2);
              "/t" in w.logs && ListedAt(w'.tables, name, "/t") && "/t" !in w'.logs
  {
    var w := World(map[], {"/t"}, []);
    var calm := Call(map[], Works);
    var table := Registered("/t", "other");
    var racing := Call(map[name := Some(table)], Works);
    NormalIsFixed("/t");
    hide Comparable;
    var w' := CleanUp(w, name, "/t", calm, calm, racing);
    assert Disturbed(map[], map[]) == map[];
    assert w'.tables == map[name := table];
    assert (calm, calm, racing).0 == calm;
  }

  // ---------- What a create reports and leaves behind ----------

  /** The calls of the clean-up work, and nobody else changes the catalog meanwhile. */
  predicate CleanUpWorks(calls: ExternalCalls) {
    && calls.cleanUpAsk.others == map[] && calls.cleanUpLoad.others == map[] && calls.cleanUpRemove.others == map[]
    && calls.cleanUpAsk.fault.Works? && calls.cleanUpLoad.fault.Works? && !calls.cleanUpRemove.fault.FailsBefore?
  }

  lemma NothingDisturbed(tables: Tables)
    ensures Disturbed(tables, map[]) == tables
  {
  }

  /** A version 0 at a place where there was none, which no table listed under the name owns. */
  predicate StrayLog(w: World, w': World, name: string, location: string) {
    Comparable(location) !in w.logs && Comparable(location) in w'.logs && !ListedAt(w'.tables, name, location)
  }

  /** The name is asked for and not found taken, so that version 0 is written. */
  predicate GetsToWrite(w: World, name: string, calls: ExternalCalls) {
    calls.taken.fault.Works? && name !in Reach(w, calls.taken).tables
  }

  /**
   * After an external create that did not report success but could clean up, there is a version 0 at
   * its location exactly if there was one before, or it wrote one and the catalog lists the table
   * there, or the write itself failed once the file was there. So a stray one, that no table owns, is
   * left exactly if the write fails after the fact on a free location, which the clean-up does not
   * cover; and no registered table loses its log.
   */
  lemma FailedCreateLeaves(w: World, name: string, location: string, listed: Registered, ifNotExists: bool, calls: ExternalCalls)
    requires CleanUpWorks(calls)
    ensures var (w', outcome) := ExternalCreate(w, name, location, listed, ifNotExists, calls);
            !outcome.Created? ==>
              && (Comparable(location) in w'.logs <==>
                  || Comparable(location) in w.logs
                  || (GetsToWrite(w, name, calls) && calls.write.Works? && ListedAt(w'.tables, name, location))
                  || (GetsToWrite(w, name, calls) && calls.write.FailsAfter?))
              && (StrayLog(w, w', name, location) <==>
                  Comparable(location) !in w.logs && GetsToWrite(w, name, calls) && calls.write.FailsAfter?)
  {
    hide Comparable;
    forall tables: Tables ensures Disturbed(tables, map[]) == tables {
      NothingDisturbed(tables);
    }
    hide Disturbed;
  }

  /**
   * The stray log that a failed write leaves is there whatever the clean-up calls would do, and from
   * then on no external create at that location succeeds.
   */
  lemma FailedWriteBlocksTheLocation(w: World, name: string, location: string, listed: Registered, ifNotExists: bool,
                                     calls: ExternalCalls, name': string, listed': Registered, ifNotExists': bool,
                                     calls': ExternalCalls)
    requires Comparable(location) !in w.logs && GetsToWrite(w, name, calls) && calls.write.FailsAfter?
    ensures var (w', outcome) := ExternalCreate(w, name, location, listed, ifNotExists, calls);
            && outcome == Failed(calls.write.error)
            && StrayLog(w, w', name, location)
            && w'.tables == Reach(w, calls.taken).tables
            && !ExternalCreate(w', name', location, listed', ifNotExists', calls').1.Created?
  {
    hide Comparable, Disturbed;
  }

  // ---------- The properties of a managed table ----------

  /** What the staging reply says the table has to be, and would rather be. */
  datatype Wishes = Wishes(suggested: seq<(string, string)>, required: seq<(string, string)>, features: seq<string>)

  const FEATURE := "delta.feature."

  const CREATABLE := {
    "delta.appendOnly", "delta.checkpointInterval", "delta.checkpointPolicy", "delta.checkpoint.writeStatsAsJson",
    "delta.checkpoint.writeStatsAsStruct", "delta.columnMapping.mode", "delta.dataSkippingNumIndexedCols",
    "delta.dataSkippingStatsColumns", "delta.deletedFileRetentionDuration", "delta.enableChangeDataFeed",
    "delta.enableDeletionVectors", "delta.enableExpiredLogCleanup", "delta.enableIcebergCompatV3",
    "delta.enableInCommitTimestamps", "delta.enableRowTracking", "delta.enableTypeWidening",
    "delta.logRetentionDuration", "delta.parquet.format.version", "delta.setTransactionRetentionDuration"}

  /** Kernel accepts any property outside `delta.` and these within. */
  predicate Creatable(key: string) {
    !StartsWith(key, "delta.") || key in CREATABLE
  }

  /** The value a list of assignments leaves a key with: the last one. */
  function LastValue(pairs: seq<(string, string)>, key: string): (r: Option<string>) {
    if pairs == [] then None
    else
      var last := pairs[|pairs| - 1];
      if last.0 == key then Some(last.1) else LastValue(pairs[..|pairs| - 1], key)
  }

  function Get(options: map<string, string>, key: string): (r: Option<string>) {
    if key in options then Some(options[key]) else None
  }

  function Or(first: Option<string>, second: Option<string>): (r: Option<string>) {
    if first.Some? then first else second
  }

  predicate NamesFeature(features: seq<string>, key: string) {
    exists feature :: feature in features && FEATURE + feature == key
  }

  /**
   * A feature the catalog names is supported; else what it requires holds, then what it suggests and
   * kernel takes, then the statement's own.
   */
  function Settled(options: map<string, string>, wishes: Wishes, key: string): (r: Option<string>) {
    if NamesFeature(wishes.features, key) then Some("supported")
    else
      Or(LastValue(wishes.required, key),
         Or(if Creatable(key) then LastValue(wishes.suggested, key) else None, Get(options, key)))
  }

  lemma LastOfPrefix(pairs: seq<(string, string)>, i: nat, key: string)
    requires i < |pairs|
    ensures LastValue(pairs[..i + 1], key) == if pairs[i].0 == key then Some(pairs[i].1) else LastValue(pairs[..i], key)
  {
    assert pairs[..i + 1][..i] == pairs[..i];
  }

  lemma NamedByPrefix(features: seq<string>, i: nat, key: string)
    requires i < |features|
    ensures NamesFeature(features[..i + 1], key) <==> FEATURE + features[i] == key || NamesFeature(features[..i], key)
  {
    assert features[..i + 1] == features[..i] + [features[i]];
  }

  /** The last pair with this key has this value. */
  ghost predicate EndsWith(pairs: seq<(string, string)>, key: string, value: string) {
    exists i :: 0 <= i < |pairs| && pairs[i] == (key, value) && forall j :: i < j < |pairs| ==> pairs[j].0 != key
  }

  ghost predicate Mentions(pairs: seq<(string, string)>, key: string) {
    exists i :: 0 <= i < |pairs| && pairs[i].0 == key
  }

  lemma EndsSnoc(pairs: seq<(string, string)>, key: string, value: string)
    requires pairs != []
    ensures var (last, init) := (pairs[|pairs| - 1], pairs[..|pairs| - 1]);
            && (last == (key, value) ==> EndsWith(pairs, key, value))
            && (last.0 != key && EndsWith(init, key, value) ==> EndsWith(pairs, key, value))
  {
    var n := |pairs| - 1;
    var init := pairs[..n];
    if pairs[n].0 != key && EndsWith(init, key, value) {
      var i :| 0 <= i < n && init[i] == (key, value) && forall j :: i < j < n ==> init[j].0 != key;
      assert pairs[i] == init[i];
      assert forall j :: i < j < n ==> pairs[j] == init[j];
    }
  }

  lemma MentionsSnoc(pairs: seq<(string, string)>, key: string)
    requires pairs != []
    ensures Mentions(pairs, key) <==> pairs[|pairs| - 1].0 == key || Mentions(pairs[..|pairs| - 1], key)
  {
    var n := |pairs| - 1;
    assert forall j :: 0 <= j < n ==> pairs[j] == pairs[..n][j];
  }

  lemma {:induction false} LastValueIsLast(pairs: seq<(string, string)>, key: string)
    ensures LastValue(pairs, key).None? <==> !Mentions(pairs, key)
    ensures LastValue(pairs, key).Some? ==> EndsWith(pairs, key, LastValue(pairs, key).value)
  {
    hide EndsWith;
    if pairs != [] {
      hide Mentions;
      LastValueIsLast(pairs[..|pairs| - 1], key);
      MentionsSnoc(pairs, key);
      if LastValue(pairs, key).Some? {
        EndsSnoc(pairs, key, LastValue(pairs, key).value);
      }
    }
  }

  lemma OneLast(pairs: seq<(string, string)>, key: string, value: string)
    requires EndsWith(pairs, key, value)
    ensures LastValue(pairs, key) == Some(value)
  {
    hide LastValue;
    LastValueIsLast(pairs, key);
  }

  /** Of the wishes and options for a key, which one holds. */
  lemma SettledExactly(options: map<string, string>, wishes: Wishes, key: string, value: string)
    ensures (exists feature :: feature in wishes.features && "delta.feature." + feature == key) ==>
              Settled(options, wishes, key) == Some("supported")
    ensures (forall feature :: feature in wishes.features ==> "delta.feature." + feature != key) ==>
              var creatable := !StartsWith(key, "delta.") || key in CREATABLE;
              && (EndsWith(wishes.required, key, value) ==> Settled(options, wishes, key) == Some(value))
              && (!Mentions(wishes.required, key) && creatable && EndsWith(wishes.suggested, key, value) ==>
                    Settled(options, wishes, key) == Some(value))
              && (!Mentions(wishes.required, key) && !(creatable && Mentions(wishes.suggested, key)) ==>
                    Settled(options, wishes, key) == if key in options then Some(options[key]) else None)
  {
    hide LastValue, EndsWith, Mentions;
    LastValueIsLast(wishes.required, key);
    LastValueIsLast(wishes.suggested, key);
    if EndsWith(wishes.required, key, value) {
      OneLast(wishes.required, key, value);
    }
    if EndsWith(wishes.suggested, key, value) {
      OneLast(wishes.suggested, key, value);
    }
  }

  method AddSuggested(options: map<string, string>, pairs: seq<(string, string)>) returns (merged: map<string, string>)
    ensures forall key :: Get(merged, key) == Or(if Creatable(key) then LastValue(pairs, key) else None, Get(options, key))
  {
    merged := options;
    for i := 0 to |pairs|
      invariant forall key :: Get(merged, key) ==
                  Or(if Creatable(key) then LastValue(pairs[..i], key) else None, Get(options, key))
    {
      ghost var before := merged;
      if Creatable(pairs[i].0) {
        merged := merged[pairs[i].0 := pairs[i].1];
      }
      hide Creatable;
      forall key
        ensures Get(merged, key) ==
                Or(if Creatable(key) then LastValue(pairs[..i + 1], key) else None, Get(options, key))
      {
        LastOfPrefix(pairs, i, key);
        hide LastValue;
        assert Get(before, key) == Or(if Creatable(key) then LastValue(pairs[..i], key) else None, Get(options, key));
      }
    }
    assert pairs[..|pairs|] == pairs;
  }

  method AddRequired(options: map<string, string>, pairs: seq<(string, string)>) returns (merged: map<string, string>)
    ensures forall key :: Get(merged, key) == Or(LastValue(pairs, key), Get(options, key))
  {
    merged := options;
    for i := 0 to |pairs|
      invariant forall key :: Get(merged, key) == Or(LastValue(pairs[..i], key), Get(options, key))
    {
      ghost var before := merged;
      merged := merged[pairs[i].0 := pairs[i].1];
      forall key ensures Get(merged, key) == Or(LastValue(pairs[..i + 1], key), Get(options, key)) {
        LastOfPrefix(pairs, i, key);
        hide LastValue;
        assert Get(before, key) == Or(LastValue(pairs[..i], key), Get(options, key));
      }
    }
    assert pairs[..|pairs|] == pairs;
  }

  method AddFeatures(options: map<string, string>, features: seq<string>) returns (merged: map<string, string>)
    ensures forall key :: Get(merged, key) == if NamesFeature(features, key) then Some("supported") else Get(options, key)
  {
    merged := options;
    for i := 0 to |features|
      invariant forall key :: Get(merged, key) ==
                  if NamesFeature(features[..i], key) then Some("supported") else Get(options, key)
    {
      ghost var before := merged;
      merged := merged[FEATURE + features[i] := "supported"];
      forall key
        ensures Get(merged, key) == if NamesFeature(features[..i + 1], key) then Some("supported") else Get(options, key)
      {
        NamedByPrefix(features, i, key);
        hide NamesFeature;
        assert Get(before, key) == if NamesFeature(features[..i], key) then Some("supported") else Get(options, key);
      }
    }
    assert features[..|features|] == features;
  }

  /** The suggestions, then what is required, then the features: a later one wins. */
  method MergeProperties(options: map<string, string>, wishes: Wishes) returns (merged: map<string, string>)
    ensures forall key :: Get(merged, key) == Settled(options, wishes, key)
  {
    merged := AddSuggested(options, wishes.suggested);
    merged := AddRequired(merged, wishes.required);
    merged := AddFeatures(merged, wishes.features);
  }

  // ---------- The statement ----------

  /** The statement's location option: absent, NULL, or a text. */
  datatype Place = NoPlace | NullPlace | At(location: string)

  predicate Contains(text: string, part: string) {
    exists i | 0 <= i <= |text| :: StartsWith(text[i..], part)
  }

  /** A relative path would be resolved against the server's own working directory. */
  predicate Absolute(location: string) {
    StartsWith(location, "/") || Contains(location, "://")
  }

  /** It starts with a slash, or names a scheme. */
  lemma AbsoluteExactly(location: string)
    ensures Absolute(location) <==>
            || (location != "" && location[0] == '/')
            || exists i :: 0 <= i <= |location| - 3 && location[i] == ':' && location[i + 1] == '/' && location[i + 2] == '/'
  {
    if Contains(location, "://") {
      var i :| 0 <= i <= |location| && StartsWith(location[i..], "://");
      assert location[i..][..3] == "://";
      assert location[i] == location[i..][0] && location[i + 1] == location[i..][1] && location[i + 2] == location[i..][2];
    }
    if i :| 0 <= i <= |location| - 3 && location[i] == ':' && location[i + 1] == '/' && location[i + 2] == '/' {
      assert location[i..][..3] == "://";
      assert StartsWith(location[i..], "://");
    }
    if location != "" && location[0] == '/' {
      assert location[..1] == "/";
    }
  }

  /** The tables of one schema as one client keeps them, and the world it changes by its calls. */
  class UCTableSet {
    const readOnly: bool
    var isLoaded: bool
    var world: World

    constructor (readOnly: bool, world: World)
      ensures this.readOnly == readOnly && this.world == world && !isLoaded
    {
      this.readOnly, this.world, isLoaded := readOnly, world, false;
    }

    method MarkNeedsReload()
      modifies `isLoaded
      ensures !isLoaded
    {
      isLoaded := false;
    }

    method RegisterTable(name: string, table: Registered, register: Call, load: Call, isOurs: Registered -> bool)
      returns (error: Option<Error>)
      modifies `world
      ensures (world, error) == Registration(old(world), name, table, register, load, isOurs)
    {
      var (registered, failure) := Register(world, name, table, register);
      world := registered;
      if failure.None? {
        return None;
      }
      if failure.value.Interrupted? || failure.value.NameTaken? || failure.value.OtherCatalogError? {
        return failure;
      }
      var (asked, loaded) := LoadTable(world, name, load);
      world := asked;
      if loaded.Ok? && isOurs(loaded.value) {
        return None;
      }
      return failure;
    }

    method RemoveUnregisteredVersionZero(name: string, location: string, ask: Call, load: Call, remove: Call)
      modifies `world
      ensures world == CleanUp(old(world), name, location, ask, load, remove)
    {
      var (asked, found) := TableExists(world, name, ask);
      world := asked;
      if found.Err? {
        return;
      }
      if found.value {
        var (again, loaded) := LoadTable(world, name, load);
        world := again;
        if loaded.Err? {
          return;
        }
        var listed := ComparableLocation(loaded.value.location);
        var written := ComparableLocation(location);
        if listed == written {
          return;
        }
      }
      world := RemoveVersionZero(world, location, remove);
    }

    method CreateExternal(name: string, location: string, listed: Registered, ifNotExists: bool, calls: ExternalCalls)
      returns (outcome: Outcome)
      modifies this
      ensures (world, outcome) == ExternalCreate(old(world), name, location, listed, ifNotExists, calls)
      ensures isLoaded == (old(isLoaded) && !outcome.Created?)
    {
      var (asked, taken) := TableExists(world, name, calls.taken);
      world := asked;
      if taken.Err? {
        return Failed(taken.error);
      }
      if taken.value {
        return if ifNotExists then AlreadyThere else Failed(NameTaken);
      }
      var (written, unwritten) := WriteVersionZero(world, location, calls.write);
      world := written;
      if unwritten.Some? {
        return Failed(unwritten.value);
      }
      var error := RegisterTable(name, listed, calls.register, calls.load, SameLocation(location));
      if error.Some? {
        RemoveUnregisteredVersionZero(name, location, calls.cleanUpAsk, calls.cleanUpLoad, calls.cleanUpRemove);
        return Report(error.value, ifNotExists);
      }
      MarkNeedsReload();
      return Created;
    }

    /** What is written and registered is the statement's options with the catalog's wishes merged in. */
    method CreateManaged(name: string, staging: Staging, options: map<string, string>, wishes: Wishes, ifNotExists: bool,
                         calls: ManagedCalls)
      returns (outcome: Outcome, properties: map<string, string>)
      modifies this
      ensures (world, outcome) == ManagedCreate(old(world), name, staging, ifNotExists, calls)
      ensures isLoaded == (old(isLoaded) && !outcome.Created?)
      ensures outcome.Created? ==> forall key :: Get(properties, key) == Settled(options, wishes, key)
    {
      properties := options;
      var (asked, unstaged) := Stage(world, name, calls.stage);
      world := asked;
      if unstaged.Some? {
        return Report(unstaged.value, ifNotExists), properties;
      }
      if calls.credentials.Some? {
        return Failed(calls.credentials.value), properties;
      }
      properties := MergeProperties(options, wishes);
      var (written, unwritten) := WriteVersionZero(world, staging.location, calls.write);
      world := written;
      if unwritten.Some? {
        return Failed(unwritten.value), properties;
      }
      var table := Registered(staging.location, staging.tableId);
      var error := RegisterTable(name, table, calls.register, calls.load, SameId(staging.tableId));
      if error.Some? {
        return Report(error.value, ifNotExists), properties;
      }
      MarkNeedsReload();
      outcome := Created;
    }

    /** The whole statement: a location makes the table external, and only an absolute one will do. */
    method CreateTable(name: string, place: Place, listed: Registered, staging: Staging, options: map<string, string>,
                       wishes: Wishes, ifNotExists: bool, external: ExternalCalls, managed: ManagedCalls)
      returns (outcome: Outcome)
      modifies this
      ensures readOnly || place.NullPlace? || (place.At? && !Absolute(place.location)) ==>
                outcome == Failed(OtherError) && world == old(world) && isLoaded == old(isLoaded)
      ensures !readOnly && place.At? && Absolute(place.location) ==>
                (world, outcome) == ExternalCreate(old(world), name, place.location, listed, ifNotExists, external)
      ensures !readOnly && place.NoPlace? ==>
                (world, outcome) == ManagedCreate(old(world), name, staging, ifNotExists, managed)
      ensures isLoaded == (old(isLoaded) && !outcome.Created?)
    {
      if readOnly || place.NullPlace? {
        return Failed(OtherError);
      }
      if place.At? {
        if !Absolute(place.location) {
          return Failed(OtherError);
        }
        outcome := CreateExternal(name, place.location, listed, ifNotExists, external);
      } else {
        var properties;
        outcome, properties := CreateManaged(name, staging, options, wishes, ifNotExists, managed);
      }
    }
  }
}
