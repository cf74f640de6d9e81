/** What every interleaving of the hot-reload protocol keeps of the active table and of requests. */
module ReloadSafety {
  import opened Options
  import opened Loader
  import opened HotReload

  // ---- what a reload reads -------------------------------------------------------------

  /** Files read one by one off a changing disk: a listing at moment `at`, and then each file in turn at
      a later moment. */
  ghost predicate ReadAt(w: World, disks: seq<Dir>, names: seq<string>, got: seq<File>, at: nat, when: seq<nat>) {
    && at < |disks| && names == w.list(RouteFiles(disks[at]).Keys)
    && |when| == |got| <= |names|
    && (forall i :: 0 <= i < |got| ==> at < when[i] < |disks| && ReadFrom(disks[when[i]], names[i], got[i]))
    && (forall i, j :: 0 <= i < j < |when| ==> when[i] < when[j])
  }

  /** The file as it is on `disk`, or that it is gone. */
  predicate ReadFrom(disk: Dir, name: string, f: File) {
    f.name == name && if name in disk then f.content == Some(disk[name]) else f.content == None
  }

  ghost predicate ReadOff(w: World, disks: seq<Dir>, names: seq<string>, got: seq<File>) {
    exists at: nat, when: seq<nat> :: ReadAt(w, disks, names, got, at, when)
  }

  ghost predicate ReadWhole(w: World, disks: seq<Dir>, got: seq<File>) {
    exists names :: |names| == |got| && ReadOff(w, disks, names, got)
  }

  lemma ReadLater(w: World, disks: seq<Dir>, disk: Dir, names: seq<string>, got: seq<File>)
    requires ReadOff(w, disks, names, got)
    ensures ReadOff(w, disks + [disk], names, got)
    ensures |got| < |names| ==> ReadOff(w, disks + [disk], names, got + [ReadNow(disk, names[|got|])])
  {
    hide RouteFiles;
    var at: nat, when: seq<nat> :| ReadAt(w, disks, names, got, at, when);
    assert ReadAt(w, disks + [disk], names, got, at, when);
    if |got| < |names| {
      assert ReadAt(w, disks + [disk], names, got + [ReadNow(disk, names[|got|])], at, when + [|disks|]);
    }
  }

  lemma ReadNothingYet(w: World, disks: seq<Dir>, disk: Dir)
    ensures ReadOff(w, disks + [disk], w.list(RouteFiles(disk).Keys), [])
  {
    hide RouteFiles;
    assert ReadAt(w, disks + [disk], w.list(RouteFiles(disk).Keys), [], |disks|, []);
  }

  lemma WholeLater(w: World, disks: seq<Dir>, disk: Dir, got: seq<File>)
    requires ReadWhole(w, disks, got)
    ensures ReadWhole(w, disks + [disk], got)
  {
    hide ReadOff;
    var names :| |names| == |got| && ReadOff(w, disks, names, got);
    ReadLater(w, disks, disk, names, got);
  }

  ghost predicate PhaseSound(w: World, disks: seq<Dir>, p: Phase) {
    p.Reading? ==> ReadOff(w, disks, p.names, p.got)
  }

  lemma FinishedWhole(w: World, disks: seq<Dir>, disk: Dir, p: Phase)
    requires PhaseSound(w, disks, p) && CanFinish(p)
    ensures ReadWhole(w, disks + [disk], p.got)
  {
    var at: nat, when: seq<nat> :| ReadAt(w, disks, p.names, p.got, at, when);
    WholeLater(w, disks, disk, p.got);
  }

  // ---- tables and requests -----------------------------------------------------------

  ghost predicate HasTable(history: seq<Version>, t: Table) {
    exists i :: 0 <= i < |history| && history[i].table == t
  }

  /** The table is the complete build of files that one reload read, whole and without error, off the
      disk as it was over time. */
  ghost predicate GoodVersion(w: World, disks: seq<Dir>, v: Version) {
    && v.source.Some?
    && ReadWhole(w, disks, v.source.value)
    && BuildOf(w.env, v.source.value) == Built(v.table)
  }

  /** Every table ever active is the startup table or such a build. */
  ghost predicate GoodHistory(w: World, startup: Table, disks: seq<Dir>, history: seq<Version>) {
    && history != []
    && history[0] == Version(startup, None)
    && forall i :: 1 <= i < |history| ==> GoodVersion(w, disks, history[i])
  }

  /** Who serves a request matched against `t`: by default the user's routes where they match, and the
      built-in ones elsewhere; with strict built-ins the other way round; nobody where neither matches. */
  ghost predicate ByPrecedence(w: World, t: Table, req: string, choice: Choice) {
    var user, builtin := t != NoMux && w.userMatches(t, req), w.builtinMatches(req);
    && (!w.strictBuiltins ==> (choice == ByUser <==> user) && (choice == ByBuiltin <==> builtin && !user))
    && (w.strictBuiltins ==> (choice == ByBuiltin <==> builtin) && (choice == ByUser <==> user && !builtin))
    && (choice == NotFound <==> !user && !builtin)
  }

  lemma ComposeIs(w: World, t: Table, req: string)
    ensures ByPrecedence(w, t, req, Compose(w, t, req))
  {
  }

  /** Each request is matched and served against one table, and that table has been active. */
  ghost predicate GoodRequests(w: World, s: State) {
    && (forall id <- s.requests ::
          var p := s.requests[id];
          HasTable(s.history, p.table) && (p.Matched? ==> ByPrecedence(w, p.table, p.req, p.choice)))
    && (forall r <- s.served :: HasTable(s.history, r.table) && ByPrecedence(w, r.table, r.req, r.choice))
  }

  ghost predicate Sound(w: World, startup: Table, disks: seq<Dir>, s: State) {
    && GoodHistory(w, startup, disks, s.history)
    && GoodRequests(w, s)
    && PhaseSound(w, disks, s.loop)
    && (forall id <- s.admins :: PhaseSound(w, disks, s.admins[id]))
  }

  lemma HistoryLater(w: World, startup: Table, disks: seq<Dir>, disk: Dir, history: seq<Version>)
    requires GoodHistory(w, startup, disks, history)
    ensures GoodHistory(w, startup, disks + [disk], history)
  {
    hide BuildOf, ReadWhole;
    forall i | 1 <= i < |history| ensures GoodVersion(w, disks + [disk], history[i]) {
      WholeLater(w, disks, disk, history[i].source.value);
    }
  }

  /** The end of a reload keeps the history good and every table in it. */
  lemma StoredKeeps(w: World, startup: Table, disks: seq<Dir>, disk: Dir, history: seq<Version>, p: Phase)
    requires GoodHistory(w, startup, disks, history) && PhaseSound(w, disks, p) && CanFinish(p)
    ensures GoodHistory(w, startup, disks + [disk], Stored(w, history, p.got))
    ensures forall t :: HasTable(history, t) ==> HasTable(Stored(w, history, p.got), t)
  {
    hide BuildOf, ReadWhole;
    HistoryLater(w, startup, disks, disk, history);
    FinishedWhole(w, disks, disk, p);
    var after := Stored(w, history, p.got);
    forall t | HasTable(history, t) ensures HasTable(after, t) {
      var i :| 0 <= i < |history| && history[i].table == t;
      assert after[i] == history[i];
    }
  }

  lemma PhaseLater(w: World, disks: seq<Dir>, disk: Dir, p: Phase)
    requires PhaseSound(w, disks, p)
    ensures PhaseSound(w, disks + [disk], p)
  {
    hide ReadOff;
    if p.Reading? {
      ReadLater(w, disks, disk, p.names, p.got);
    }
  }

  /** A reload that lists or reads stays sound. */
  lemma PhaseStep(w: World, disks: seq<Dir>, s: State, p: Phase)
    requires PhaseSound(w, disks, p)
    ensures PhaseSound(w, disks + [s.disk], Listed(w, s))
    ensures CanRead(p) ==> PhaseSound(w, disks + [s.disk], ReadOne(s, p))
  {
    hide ReadOff, RouteFiles;
    ReadNothingYet(w, disks, s.disk);
    if CanRead(p) {
      ReadLater(w, disks, s.disk, p.names, p.got);
    }
  }

  lemma SoundStep(w: World, startup: Table, disks: seq<Dir>, s: State, step: Step)
    requires Enabled(s, step) && Sound(w, startup, disks, s)
    ensures Sound(w, startup, disks + [s.disk], Next(w, s, step))
  {
    hide BuildOf, Compose, HasTable, RouteFiles, Stored, GoodHistory, PhaseSound, ReadOne, Listed, GoodVersion, ByPrecedence;
    HistoryLater(w, startup, disks, s.disk, s.history);
    PhaseLater(w, disks, s.disk, s.loop);
    forall id | id in s.admins ensures PhaseSound(w, disks + [s.disk], s.admins[id]) {
      PhaseLater(w, disks, s.disk, s.admins[id]);
    }
    PhaseOutside(w, disks + [s.disk]);
    match step
    case LoopLists => PhaseStep(w, disks, s, s.loop);
    case LoopReads => PhaseStep(w, disks, s, s.loop);
    case LoopFinishes => StoredKeeps(w, startup, disks, s.disk, s.history, s.loop);
    case AdminLists(id) => PhaseStep(w, disks, s, s.admins[id]);
    case AdminReads(id) => PhaseStep(w, disks, s, s.admins[id]);
    case AdminFinishes(id) => StoredKeeps(w, startup, disks, s.disk, s.history, s.admins[id]);
    case RequestLoads(id, req) => ActiveInHistory(w, startup, disks, s);
    case RequestMatches(id) => ComposeIs(w, s.requests[id].table, s.requests[id].req);
    case _ =>
  }

  lemma PhaseOutside(w: World, disks: seq<Dir>)
    ensures PhaseSound(w, disks, Idle) && PhaseSound(w, disks, Started)
  {
  }

  lemma ActiveInHistory(w: World, startup: Table, disks: seq<Dir>, s: State)
    requires GoodHistory(w, startup, disks, s.history)
    ensures HasTable(s.history, Active(s))
  {
    hide GoodVersion;
  }

  lemma {:induction false} SoundRun(w: World, startup: Table, disks: seq<Dir>, s: State, steps: seq<Step>)
    requires Sound(w, startup, disks, s) && Run(w, s, steps).Some?
    ensures Sound(w, startup, disks + Disks(w, s, steps), Run(w, s, steps).value)
    decreases steps
  {
    hide Next, Sound;
    if steps == [] {
      assert disks + [] == disks;
    } else {
      SoundStep(w, startup, disks, s, steps[0]);
      SoundRun(w, startup, disks + [s.disk], Next(w, s, steps[0]), steps[1..]);
      assert disks + Disks(w, s, steps) == disks + [s.disk] + Disks(w, Next(w, s, steps[0]), steps[1..]);
    }
  }

  /** Safety over every interleaving of edits, watch reloads, administrators' reloads and requests: every
      table ever active is the startup table or the complete build of files that some reload listed and
      then read one by one off the disk, and every request is matched and served against one such
      table. */
  lemma TablesAreComplete(w: World, startup: Table, disk: Dir, steps: seq<Step>)
    requires Run(w, Init(startup, disk), steps).Some?
    ensures Sound(w, startup, Disks(w, Init(startup, disk), steps), Run(w, Init(startup, disk), steps).value)
  {
    hide Next, RouteFiles, GoodVersion;
    var s0 := Init(startup, disk);
    assert Sound(w, startup, [], s0);
    SoundRun(w, startup, [], s0, steps);
    assert [] + Disks(w, s0, steps) == Disks(w, s0, steps);
  }

  // ---- the table a request is served by -----------------------------------------------------

  /** The table that was active when each step of a run was taken. */
  function Actives(w: World, s: State, steps: seq<Step>): (tables: seq<Table>)
    requires Run(w, s, steps).Some?
    ensures |tables| == |steps|
    decreases steps
  {
    if steps == [] then [] else [Active(s)] + Actives(w, Next(w, s, steps[0]), steps[1..])
  }

  /** Request `id` arrived for `req` when `t` was active. */
  ghost predicate Arrived(steps: seq<Step>, tables: seq<Table>, id: nat, req: string, t: Table) {
    exists i :: 0 <= i < |steps| && i < |tables| && steps[i] == RequestLoads(id, req) && tables[i] == t
  }

  ghost predicate AllArrived(steps: seq<Step>, tables: seq<Table>, s: State) {
    && (forall id <- s.requests :: Arrived(steps, tables, id, s.requests[id].req, s.requests[id].table))
    && (forall r <- s.served :: exists id :: Arrived(steps, tables, id, r.req, r.table))
  }

  lemma ArrivedLater(steps: seq<Step>, tables: seq<Table>, step: Step, table: Table)
    requires |steps| == |tables|
    ensures forall id, req, t :: Arrived(steps, tables, id, req, t) ==> Arrived(steps + [step], tables + [table], id, req, t)
    ensures step.RequestLoads? ==> Arrived(steps + [step], tables + [table], step.id, step.req, table)
  {
    forall id, req, t | Arrived(steps, tables, id, req, t) ensures Arrived(steps + [step], tables + [table], id, req, t) {
      var i :| 0 <= i < |steps| && i < |tables| && steps[i] == RequestLoads(id, req) && tables[i] == t;
      assert (steps + [step])[i] == steps[i] && (tables + [table])[i] == tables[i];
    }
    assert (steps + [step])[|steps|] == step && (tables + [table])[|steps|] == table;
  }

  lemma ArrivedStep(w: World, steps: seq<Step>, tables: seq<Table>, s: State, step: Step)
    requires |steps| == |tables| && Enabled(s, step) && AllArrived(steps, tables, s)
    ensures AllArrived(steps + [step], tables + [Active(s)], Next(w, s, step))
  {
    hide BuildOf, Compose, RouteFiles, IsRouteFile, Stored, Listed, ReadOne, Arrived, Active;
    ArrivedLater(steps, tables, step, Active(s));
  }

  lemma {:induction false} ArrivedRun(w: World, past: seq<Step>, tables: seq<Table>, s: State, steps: seq<Step>)
    requires |past| == |tables| && AllArrived(past, tables, s) && Run(w, s, steps).Some?
    ensures AllArrived(past + steps, tables + Actives(w, s, steps), Run(w, s, steps).value)
    decreases steps
  {
    hide Next, AllArrived, Active;
    if steps == [] {
      assert past + [] == past && tables + [] == tables;
    } else {
      ArrivedStep(w, past, tables, s, steps[0]);
      ArrivedRun(w, past + [steps[0]], tables + [Active(s)], Next(w, s, steps[0]), steps[1..]);
      assert past + steps == past + [steps[0]] + steps[1..];
      assert tables + Actives(w, s, steps) == tables + [Active(s)] + Actives(w, Next(w, s, steps[0]), steps[1..]);
    }
  }

  /** Every request served in a run is served by the table that was active when it arrived, whatever reloads
      end before it is matched and served, and by the route that precedence says. */
  lemma ServedByArrivalTable(w: World, startup: Table, disk: Dir, steps: seq<Step>)
    requires Run(w, Init(startup, disk), steps).Some?
    ensures var s0 := Init(startup, disk);
            forall r <- Run(w, s0, steps).value.served ::
              && (exists id :: Arrived(steps, Actives(w, s0, steps), id, r.req, r.table))
              && ByPrecedence(w, r.table, r.req, r.choice)
  {
    hide Next, RouteFiles, GoodVersion, GoodHistory, PhaseSound, Arrived, ByPrecedence;
    var s0 := Init(startup, disk);
    TablesAreComplete(w, startup, disk, steps);
    ArrivedRun(w, [], [], s0, steps);
    assert [] + steps == steps && [] + Actives(w, s0, steps) == Actives(w, s0, steps);
  }

  // ---- what fails changes nothing ----------------------------------------------------------

  /** The step ends a reload whose files build. */
  predicate Builds(w: World, s: State, step: Step)
    requires Enabled(s, step)
  {
    match step
    case LoopFinishes => BuildOf(w.env, s.loop.got).Built?
    case AdminFinishes(id) => BuildOf(w.env, s.admins[id].got).Built?
    case _ => false
  }

  predicate SomeBuilds(w: World, s: State, steps: seq<Step>)
    requires Run(w, s, steps).Some?
    decreases steps
  {
    steps != [] && (Builds(w, s, steps[0]) || SomeBuilds(w, Next(w, s, steps[0]), steps[1..]))
  }

  lemma StoreStep(w: World, s: State, step: Step)
    requires Enabled(s, step)
    ensures var after := Next(w, s, step).history;
            if Builds(w, s, step) then |after| == |s.history| + 1 && s.history <= after else after == s.history
  {
    hide BuildOf, RouteFiles, Compose, IsRouteFile;
  }

  /** Over any run, the history of active tables grows exactly when some reload in it ends with files that
      build; failed reloads, edits and requests leave the active table alone. */
  lemma {:induction false} StoresIffBuilds(w: World, s: State, steps: seq<Step>)
    requires Run(w, s, steps).Some?
    ensures var s' := Run(w, s, steps).value;
            && s.history <= s'.history
            && (s'.history != s.history <==> SomeBuilds(w, s, steps))
            && (!SomeBuilds(w, s, steps) ==> Active(s') == Active(s))
    decreases steps
  {
    hide Next, Builds;
    if steps != [] {
      StoreStep(w, s, steps[0]);
      StoresIffBuilds(w, Next(w, s, steps[0]), steps[1..]);
    }
  }
}
