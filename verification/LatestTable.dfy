/** When the active table is built from the files on disk, with administrators reloading beside the watch
    loop: the exact condition. */
module LatestTable {
  import opened Options
  import opened Loader
  import opened HotReload
  import opened ReloadSafety
  import opened Freshness

  /** Anything but an edit of a route file. */
  predicate Quiet(step: Step) {
    step.Edit? ==> !IsRouteFile(step.name)
  }

  ghost predicate Quietly(steps: seq<Step>) {
    forall step <- steps :: Quiet(step)
  }

  /** Every reload has listed only route files. */
  ghost predicate Listings(s: State) {
    forall id <- s.admins :: OnlyRouteFiles(s.admins[id])
  }

  /** No administrator's reload under way will, unless a route file changes, store another table than `t`. */
  ghost predicate Harmless(w: World, s: State, t: Table) {
    forall id <- s.admins :: s.admins[id].Reading? ==>
      BuildOf(w.env, Eventual(s.disk, s.admins[id])) in {Failed, Built(t)}
  }

  /** Nothing under way can leave another table than `t` active, if the files on disk build `t`. */
  ghost predicate Settling(w: World, s: State, t: Table) {
    Harmless(w, s, t) && (Quiescent(s) ==> Active(s) == t)
  }

  // ---- listings ------------------------------------------------------------------------

  lemma NotListed(p: Phase)
    requires !p.Reading?
    ensures OnlyRouteFiles(p)
  {
  }

  lemma ListingsStep(w: World, s: State, step: Step)
    requires Lawful(w) && Enabled(s, step) && Listings(s)
    ensures Listings(Next(w, s, step))
  {
    hide BuildOf, Compose, RouteFiles, IsRouteFile, Stored, Lawful, Listed, ReadOne, OnlyRouteFiles;
    NotListed(Started);
    match step
    case AdminLists(id) => ListedCurrent(w, s);
    case AdminReads(id) => ReadTowards(s, s.admins[id]);
    case _ =>
  }

  lemma {:induction false} ListingsRun(w: World, s: State, steps: seq<Step>)
    requires Lawful(w) && Listings(s) && Run(w, s, steps).Some?
    ensures Listings(Run(w, s, steps).value)
    decreases steps
  {
    hide Next, Listings, Lawful;
    if steps != [] {
      ListingsStep(w, s, steps[0]);
      ListingsRun(w, Next(w, s, steps[0]), steps[1..]);
    }
  }

  // ---- the condition suffices --------------------------------------------------------------

  /** The files on disk build `t`, and nothing under way can leave another table active. */
  ghost predicate Towards(w: World, s: State, t: Table) {
    && s.history != []
    && Fresh(w, s)
    && Listings(s)
    && BuildOf(w.env, Snapshot(w, s.disk)) == Built(t)
    && Settling(w, s, t)
  }

  lemma QuietDisk(w: World, s: State, step: Step)
    requires Enabled(s, step) && Quiet(step)
    ensures RouteFiles(Next(w, s, step).disk) == RouteFiles(s.disk)
    ensures Snapshot(w, Next(w, s, step).disk) == Snapshot(w, s.disk)
    ensures forall id <- s.admins :: s.admins[id].Reading? ==>
              Eventual(Next(w, s, step).disk, s.admins[id]) == Eventual(s.disk, s.admins[id])
  {
    hide BuildOf, Compose, RouteFiles, IsRouteFile, Stored, Listed, ReadOne, Snapshot, Eventual;
    var disk := Next(w, s, step).disk;
    if step.Edit? {
      OtherEdit(s.disk, step.name, step.content);
    }
    SameFiles(w, s.disk, disk, Idle);
    forall id | id in s.admins && s.admins[id].Reading? ensures Eventual(disk, s.admins[id]) == Eventual(s.disk, s.admins[id]) {
      SameFiles(w, s.disk, disk, s.admins[id]);
    }
  }

  lemma HarmlessStep(w: World, s: State, step: Step, t: Table)
    requires Lawful(w) && Enabled(s, step) && Quiet(step) && Towards(w, s, t)
    ensures Harmless(w, Next(w, s, step), t)
  {
    hide BuildOf, Compose, RouteFiles, IsRouteFile, Stored, Lawful, Listed, ReadOne, Snapshot, Eventual, Fresh, Quiescent, Quiet, OnlyRouteFiles;
    QuietDisk(w, s, step);
    match step
    case AdminLists(id) =>
      ListedCurrent(w, s);
    case AdminReads(id) =>
      ReadTowards(s, s.admins[id]);
    case _ =>
  }

  lemma NothingLeft(disk: Dir, p: Phase)
    requires CanFinish(p)
    ensures Eventual(disk, p) == p.got
  {
    assert p.got + [] == p.got;
  }

  /** The end of an administrator's reload leaves the table alone or stores `t`. */
  lemma EndIsHarmless(w: World, s: State, id: nat, t: Table)
    requires Towards(w, s, t) && id in s.admins && CanFinish(s.admins[id])
    ensures var after := Stored(w, s.history, s.admins[id].got);
            after == s.history || after == s.history + [Version(t, Some(s.admins[id].got))]
  {
    hide BuildOf, Snapshot, Fresh, Quiescent;
    var p := s.admins[id];
    NothingLeft(s.disk, p);
  }

  /** The end of the loop's last reload stores `t`. */
  lemma LastReloadStores(w: World, s: State, t: Table)
    requires Towards(w, s, t) && CanFinish(s.loop) && !Waiting(s)
    ensures Stored(w, s.history, s.loop.got) == s.history + [Version(t, Some(s.loop.got))]
  {
    hide BuildOf, Snapshot, Waiting;
    NothingLeft(s.disk, s.loop);
  }

  lemma ActiveStep(w: World, s: State, step: Step, t: Table)
    requires Lawful(w) && Enabled(s, step) && Quiet(step) && Towards(w, s, t)
    ensures Quiescent(Next(w, s, step)) ==> Active(Next(w, s, step)) == t
    ensures Next(w, s, step).history != []
  {
    hide BuildOf, Compose, RouteFiles, IsRouteFile, Stored, Lawful, Listed, ReadOne, Snapshot, Eventual, Fresh, Waiting, Harmless;
    var s' := Next(w, s, step);
    match step
    case Edit(name, content) => QueueGrows(s, s', name);
    case TakeEvent => QueueShrinks(s, s');
    case TimerExpires => DebouncerWaits(s');
    case CallbackSends => DebouncerWaits(s');
    case TakeToken =>
    case LoopLists => ListedCurrent(w, s);
    case LoopReads => ReadsOn(s, s.loop);
    case LoopFinishes =>
      SameWaiting(s, s');
      if Waiting(s) {
        StoredGrows(w, s.history, s.loop.got);
      } else {
        LastReloadStores(w, s, t);
      }
    case AdminFinishes(id) =>
      SameWaiting(s, s');
      EndIsHarmless(w, s, id, t);
    case _ => SameWaiting(s, s');
  }

  lemma StoredGrows(w: World, history: seq<Version>, got: seq<File>)
    ensures history <= Stored(w, history, got)
  {
    hide BuildOf;
  }

  lemma DebouncerWaits(s: State)
    requires s.debounce.firing > 0 || s.debounce.token
    ensures Waiting(s)
  {
  }

  lemma ReadsOn(s: State, p: Phase)
    requires CanRead(p)
    ensures ReadOne(s, p).Reading?
  {
  }

  lemma SameWaiting(s: State, s': State)
    requires s'.queue == s.queue && s'.debounce == s.debounce && s'.loop.Started? == s.loop.Started?
    ensures Waiting(s') == Waiting(s)
  {
  }

  lemma TowardsStep(w: World, s: State, step: Step, t: Table)
    requires Lawful(w) && Enabled(s, step) && Quiet(step) && Towards(w, s, t)
    ensures Towards(w, Next(w, s, step), t)
  {
    hide BuildOf, Quiet, Lawful, Snapshot, Fresh, Listings, Harmless, Quiescent, Next;
    FreshStep(w, s, step);
    ListingsStep(w, s, step);
    QuietDisk(w, s, step);
    HarmlessStep(w, s, step, t);
    ActiveStep(w, s, step, t);
  }

  lemma {:induction false} TowardsRun(w: World, s: State, steps: seq<Step>, t: Table)
    requires Lawful(w) && Quietly(steps) && Run(w, s, steps).Some? && Towards(w, s, t)
    ensures Towards(w, Run(w, s, steps).value, t)
    decreases steps
  {
    hide Next, Towards, Lawful, Quiet;
    if steps != [] {
      assert steps[0] in steps;
      TowardsStep(w, s, steps[0], t);
      TowardsRun(w, Next(w, s, steps[0]), steps[1..], t);
    }
  }

  lemma QuiescentTowards(w: World, s: State, t: Table)
    requires Towards(w, s, t) && Quiescent(s)
    ensures Active(s) == t
  {
    hide Fresh, Listings, BuildOf, Snapshot, Harmless, Quiescent;
  }

  // ---- the condition is needed ---------------------------------------------------------------

  /** Left to itself the loop comes to rest, and administrators' reloads stay where they are. */
  lemma {:induction false} LoopRests(w: World, s: State) returns (steps: seq<Step>, s': State)
    requires Lawful(w)
    ensures Quietly(steps) && Run(w, s, steps) == Some(s')
    ensures AtRest(s') && s'.disk == s.disk && s'.admins == s.admins
    ensures s.history <= s'.history
    decreases Left(s)
  {
    hide Lawful, Left, Next, Enabled;
    if AtRest(s) {
      steps, s' := [], s;
    } else {
      var step := NotAtRestCanMove(s);
      LeftDecreases(w, s, step);
      LeftNonNegative(Next(w, s, step));
      LoopStepKeeps(w, s, step);
      var later;
      later, s' := LoopRests(w, Next(w, s, step));
      steps := [step] + later;
      RunStep(w, s, step, later);
    }
  }

  lemma LoopStepKeeps(w: World, s: State, step: Step)
    requires LoopStep(step) && Enabled(s, step)
    ensures Next(w, s, step).disk == s.disk && Next(w, s, step).admins == s.admins
    ensures s.history <= Next(w, s, step).history
  {
    hide Stored, Listed, ReadOne, IsRouteFile;
    if step.LoopFinishes? {
      StoredGrows(w, s.history, s.loop.got);
    }
  }

  /** An administrator's reload reads on to its end and stores what it has then read. */
  lemma {:induction false} ReloadEnds(w: World, s: State, id: nat) returns (steps: seq<Step>, s': State)
    requires id in s.admins && s.admins[id].Reading? && OnlyRouteFiles(s.admins[id])
    ensures Quietly(steps) && Run(w, s, steps) == Some(s')
    ensures s'.history == Stored(w, s.history, Eventual(s.disk, s.admins[id]))
    ensures s' == s.(admins := s'.admins, history := s'.history)
    decreases |s.admins[id].names| - |s.admins[id].got|
  {
    hide Stored, Eventual, OnlyRouteFiles, Run, IsRouteFile;
    var p := s.admins[id];
    if CanRead(p) {
      ReadTowards(s, p);
      var next := Next(w, s, AdminReads(id));
      var later;
      later, s' := ReloadEnds(w, next, id);
      steps := [AdminReads(id)] + later;
      RunStep(w, s, AdminReads(id), later);
    } else {
      NothingLeft(s.disk, p);
      steps, s' := [AdminFinishes(id)], Next(w, s, AdminFinishes(id));
      RunStep(w, s, AdminFinishes(id), []);
    }
  }

  /** While an administrator's reload that will build `u` is under way, the system can come to rest on
      `u`: the loop finishes first, and the reload stores last. */
  lemma StaleReloadCanWin(w: World, s: State, id: nat) returns (steps: seq<Step>, s': State)
    requires Lawful(w) && id in s.admins && s.admins[id].Reading? && OnlyRouteFiles(s.admins[id])
    requires BuildOf(w.env, Eventual(s.disk, s.admins[id])).Built?
    ensures Quietly(steps) && Run(w, s, steps) == Some(s')
    ensures AtRest(s') && s'.disk == s.disk
    ensures Active(s') == BuildOf(w.env, Eventual(s.disk, s.admins[id])).table
  {
    hide Lawful, Eventual, BuildOf, OnlyRouteFiles, Run, Quiet;
    var first, rest := LoopRests(w, s);
    var last;
    last, s' := ReloadEnds(w, rest, id);
    steps := first + last;
    RunConcat(w, s, first, last);
  }

  // ---- the theorem ---------------------------------------------------------------------------

  /** Every way for the system to become quiescent from `s` without another change leaves `t` active. */
  ghost predicate AlwaysEndsOn(w: World, s: State, t: Table) {
    forall steps :: Quietly(steps) && Run(w, s, steps).Some? && Quiescent(Run(w, s, steps).value) ==>
      Active(Run(w, s, steps).value) == t
  }

  lemma SettlingNeeded(w: World, s: State, t: Table)
    requires Lawful(w) && Listings(s) && AlwaysEndsOn(w, s, t)
    ensures Settling(w, s, t)
  {
    hide Lawful, BuildOf, Next, Quiet, OnlyRouteFiles, Eventual, IsRouteFile;
    if Quiescent(s) {
      assert Run(w, s, []) == Some(s);
    }
    forall id | id in s.admins && s.admins[id].Reading?
      ensures BuildOf(w.env, Eventual(s.disk, s.admins[id])) in {Failed, Built(t)}
    {
      if BuildOf(w.env, Eventual(s.disk, s.admins[id])).Built? {
        var steps, s' := StaleReloadCanWin(w, s, id);
        assert Quiescent(s');
        assert Active(Run(w, s, steps).value) == t;
      }
    }
  }

  /** From any reachable state whose files build, every way to quiescence without another change of a
      route file leaves exactly what they build active, if and only if each administrator's reload that
      has listed the directory will fail or build the same, and the table is right already if the loop
      has nothing to do. */
  lemma EndsOnLatestIff(w: World, startup: Table, disk: Dir, before: seq<Step>)
    requires Lawful(w) && Run(w, Init(startup, disk), before).Some?
    requires BuildOf(w.env, Snapshot(w, Run(w, Init(startup, disk), before).value.disk)).Built?
    ensures var s := Run(w, Init(startup, disk), before).value;
            var t := BuildOf(w.env, Snapshot(w, s.disk)).table;
            AlwaysEndsOn(w, s, t) <==> Settling(w, s, t)
  {
    hide Lawful, BuildOf, Next, Settling, Quietly, Fresh, Listings, Quiescent, Snapshot;
    var s := Run(w, Init(startup, disk), before).value;
    var t := BuildOf(w.env, Snapshot(w, s.disk)).table;
    Reachable(w, startup, disk, before);
    if Settling(w, s, t) {
      forall steps | Quietly(steps) && Run(w, s, steps).Some? && Quiescent(Run(w, s, steps).value)
        ensures Active(Run(w, s, steps).value) == t
      {
        TowardsRun(w, s, steps, t);
        QuiescentTowards(w, Run(w, s, steps).value, t);
      }
    }
    if AlwaysEndsOn(w, s, t) {
      SettlingNeeded(w, s, t);
    }
  }

  lemma Reachable(w: World, startup: Table, disk: Dir, steps: seq<Step>)
    requires Lawful(w) && Run(w, Init(startup, disk), steps).Some?
    ensures var s := Run(w, Init(startup, disk), steps).value; Fresh(w, s) && Listings(s) && s.history != []
  {
    hide Lawful, Next, Fresh, RouteFiles;
    NoChangeLost(w, startup, disk, steps);
    assert Listings(Init(startup, disk));
    ListingsRun(w, Init(startup, disk), steps);
    StoresIffBuilds(w, Init(startup, disk), steps);
  }

  lemma {:induction false} QuietRunDisk(w: World, s: State, steps: seq<Step>)
    requires Quietly(steps) && Run(w, s, steps).Some?
    ensures Snapshot(w, Run(w, s, steps).value.disk) == Snapshot(w, s.disk)
    decreases steps
  {
    hide Next, Quiet, Snapshot;
    if steps != [] {
      assert steps[0] in steps;
      QuietDisk(w, s, steps[0]);
      QuietRunDisk(w, Next(w, s, steps[0]), steps[1..]);
    }
  }

  /** A changed route file leaves the loop something to do, and reloads that have not listed yet none to
      do wrong. */
  lemma EditSettles(w: World, s: State, edit: Step, t: Table)
    requires edit.Edit? && IsRouteFile(edit.name)
    requires forall id <- s.admins :: s.admins[id].Started?
    ensures Settling(w, Next(w, s, edit), t)
  {
    hide BuildOf, RouteFiles, Eventual, IsRouteFile;
    var s' := Next(w, s, edit);
    assert s'.queue[|s.queue|] == edit.name;
  }

  /** In particular: if no administrator's reload has listed the directory when a route file changes for
      the last time, the system becomes quiescent only on what the files build, however many reloads
      administrators start after that. */
  lemma LatestAfterLastEdit(w: World, startup: Table, disk: Dir, before: seq<Step>, edit: Step, after: seq<Step>)
    requires Lawful(w) && edit.Edit? && IsRouteFile(edit.name) && Quietly(after)
    requires Run(w, Init(startup, disk), before).Some?
    requires var s := Run(w, Init(startup, disk), before).value;
             && (forall id <- s.admins :: s.admins[id].Started?)
             && Run(w, Next(w, s, edit), after).Some?
    ensures var s := Run(w, Next(w, Run(w, Init(startup, disk), before).value, edit), after).value;
            && Run(w, Init(startup, disk), before + ([edit] + after)) == Some(s)
            && (Quiescent(s) ==>
                  CaughtUp(w, s) &&
                  (BuildOf(w.env, Snapshot(w, s.disk)).Built? ==> Active(s) == BuildOf(w.env, Snapshot(w, s.disk)).table))
  {
    hide Lawful, BuildOf, Next, Settling, Quietly, Listings, Snapshot, CaughtUp, IsRouteFile, Waiting, Active;
    var s0 := Run(w, Init(startup, disk), before).value;
    var s1 := Next(w, s0, edit);
    var s := Run(w, s1, after).value;
    RunStep(w, s0, edit, after);
    RunConcat(w, Init(startup, disk), before, [edit] + after);
    RunConcat(w, Init(startup, disk), before, [edit]);
    Reachable(w, startup, disk, before + [edit]);
    Reachable(w, startup, disk, before + ([edit] + after));
    QuietRunDisk(w, s1, after);
    if BuildOf(w.env, Snapshot(w, s.disk)).Built? && Quiescent(s) {
      var t := BuildOf(w.env, Snapshot(w, s.disk)).table;
      EditSettles(w, s0, edit, t);
      TowardsRun(w, s1, after, t);
      QuiescentTowards(w, s, t);
    }
  }

  // ---- a stale table ---------------------------------------------------------------------------

  const FILE: string := "a.yaml"

  function Holding(text: string): Dir {
    map[FILE := text]
  }

  function Holds(text: string): seq<File> {
    [File(FILE, Some(text))]
  }

  lemma OnlyListing(names: seq<string>, name: string)
    requires Lists(names, {name})
    ensures names == [name]
  {
    ListingSize(names, {name});
    assert names[0] in names;
  }

  /** The directory that holds the one route file. */
  lemma OneFile(w: World, text: string)
    requires Lawful(w)
    ensures IsRouteFile(FILE) && RouteFiles(Holding(text)) == Holding(text)
    ensures w.list(RouteFiles(Holding(text)).Keys) == [FILE]
    ensures Snapshot(w, Holding(text)) == Holds(text)
  {
    RouteFileIff(FILE);
    assert RouteFiles(Holding(text)).Keys == {FILE};
    OnlyListing(w.list({FILE}), FILE);
  }

  lemma RestCaughtUp(w: World, s: State)
    requires Fresh(w, s) && AtRest(s)
    ensures CaughtUp(w, s)
  {
    hide CaughtUp;
  }

  /** An administrator's reload that reads before a change and ends after the loop's leaves the old table
      active when the system has come to rest. */
  lemma SlowAdminReloadCanWin(w: World, startup: Table, was: string, now: string) returns (steps: seq<Step>, s: State)
    requires Lawful(w) && BuildOf(w.env, Holds(was)).Built? && BuildOf(w.env, Holds(now)).Built?
    requires BuildOf(w.env, Holds(was)) != BuildOf(w.env, Holds(now))
    ensures Run(w, Init(startup, Holding(was)), steps) == Some(s) && AtRest(s) && CaughtUp(w, s)
    ensures s.disk == Holding(now) && Snapshot(w, s.disk) == Holds(now)
    ensures Active(s) == BuildOf(w.env, Holds(was)).table != BuildOf(w.env, Snapshot(w, s.disk)).table
  {
    hide BuildOf, Lawful, Fresh, Listings;
    OneFile(w, was);
    OneFile(w, now);
    var s0 := Init(startup, Holding(was));
    var s3 := ReadsOld(w, s0, was);
    var edit := Edit(FILE, Some(now));
    var s4 := Next(w, s3, edit);
    assert Holding(was)[FILE := now] == Holding(now);
    assert Eventual(s4.disk, s4.admins[0]) == Holds(was);
    RunStep(w, s3, edit, []);
    RunConcat(w, s0, READ_OLD, [edit]);
    var last;
    last, s := StaleReloadCanWin(w, s4, 0);
    steps := READ_OLD + [edit] + last;
    RunConcat(w, s0, READ_OLD + [edit], last);
    Reachable(w, startup, Holding(was), steps);
    RestCaughtUp(w, s);
  }

  const READ_OLD: seq<Step> := [AdminStarts(0), AdminLists(0), AdminReads(0)]

  lemma ReadsOld(w: World, s: State, text: string) returns (s': State)
    requires Lawful(w) && s.disk == Holding(text) && s.admins == map[]
    ensures Run(w, s, READ_OLD) == Some(s')
    ensures s' == s.(admins := map[0 := Reading([FILE], Holds(text))])
  {
    hide BuildOf, RouteFiles, IsRouteFile, Lawful;
    OneFile(w, text);
    var s1 := Next(w, s, AdminStarts(0));
    assert s1.admins == map[0 := Started];
    var s2 := Next(w, s1, AdminLists(0));
    assert s2.admins == map[0 := Reading([FILE], [])];
    s' := Next(w, s2, AdminReads(0));
    assert [] + Holds(text) == Holds(text);
    assert s'.admins == map[0 := Reading([FILE], Holds(text))];
    RunStep(w, s2, AdminReads(0), []);
    RunStep(w, s1, AdminLists(0), [AdminReads(0)]);
    RunStep(w, s, AdminStarts(0), [AdminLists(0), AdminReads(0)]);
  }
}
