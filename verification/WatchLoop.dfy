/** The watch loop as a program: the swapped table of internal/httpserver/userroutes.go, the `reload`
    closure, the timer and channel of `watchRoutes`, and its select loop among everything else that goes
    on in the process. It refines the protocol step for step. */
module WatchLoop {
  import opened Options
  import opened Loader
  import opened HotReload
  import opened ReloadSafety
  import opened Freshness

  /** The atomic pointer requests load and reloads store. */
  class UserRoutes {
    var mux: Table

    constructor (mux: Table)
      ensures this.mux == mux
    {
      this.mux := mux;
    }

    method Store(mux: Table)
      modifies this
      ensures this.mux == mux
    {
      this.mux := mux;
    }

    method Load() returns (t: Table)
      ensures t == mux
    {
      t := mux;
    }
  }

  /** The `reload` closure: builds from the files read, and stores only what built. */
  method Reload(env: Env, userRoutes: UserRoutes, files: seq<File>) returns (ok: bool, count: nat)
    modifies userRoutes
    ensures ok == BuildOf(env, files).Built?
    ensures count == if ok && BuildOf(env, files).table.Mux? then |BuildOf(env, files).table.routes| else 0
    ensures userRoutes.mux == Reloaded(env, old(userRoutes.mux), files)
  {
    var b;
    b, count := BuildUserMux(env, files);
    if b.Failed? {
      return false, 0;
    }
    userRoutes.Store(b.table);
    ok := true;
  }

  function Reloaded(env: Env, active: Table, files: seq<File>): Table {
    match BuildOf(env, files) case Failed => active case Built(table) => table
  }

  /** The pointer and the protocol's history agree on what a reload leaves active. */
  lemma ReloadedIsStored(w: World, history: seq<Version>, files: seq<File>)
    requires history != []
    ensures var after := Stored(w, history, files);
            after[|after| - 1].table == Reloaded(w.env, history[|history| - 1].table, files)
  {
    hide BuildOf;
  }

  datatype Timer = Unset | Running | Stopped

  /** `timer` and `debounced` of `watchRoutes`. */
  class Debouncer {
    var timer: Timer
    var firing: nat
    var debounced: bool

    constructor ()
      ensures View() == Debounce(false, 0, false)
    {
      timer, firing, debounced := Unset, 0, false;
    }

    ghost function View(): Debounce
      reads this
    {
      Debounce(timer.Running?, firing, debounced)
    }

    /** The event arm of the select. `AfterFunc` the first time and `Reset` after both leave the timer
        running its full period. */
    method Event(name: string)
      modifies this
      ensures View() == OnEvent(old(View()), name)
    {
      if !IsRouteFile(name) {
        return;
      }
      timer := Running;
    }

    method Expires()
      requires timer.Running?
      modifies this
      ensures View() == Expire(old(View()))
    {
      timer, firing := Stopped, firing + 1;
    }

    /** The timer's callback: sends unless the channel is full. */
    method Fire()
      requires firing > 0
      modifies this
      ensures View() == Send(old(View()))
    {
      firing := firing - 1;
      if !debounced {
        debounced := true;
      }
    }

    method Receive()
      requires debounced
      modifies this
      ensures View() == old(View()).(token := false)
    {
      debounced := false;
    }
  }

  // ---- the process ---------------------------------------------------------------------

  /** A step that is not the select loop's own: an edit, the timer or its callback, an administrator's
      reload, a request. */
  predicate FromOutside(step: Step) {
    !(step.TakeEvent? || step.TakeToken? || step.LoopLists? || step.LoopReads? || step.LoopFinishes?)
  }

  /** Everything the loop shares with the rest of the process. */
  class Process {
    var disk: Dir
    var queue: seq<string>
    var admins: map<nat, Phase>
    var requests: map<nat, Pending>
    var served: seq<Served>
    const loop: Debouncer
    const userRoutes: UserRoutes

    /** The state of the protocol. */
    ghost var state: State

    ghost predicate Valid()
      reads this, loop, userRoutes
    {
      && state.disk == disk && state.queue == queue
      && state.admins == admins && state.requests == requests && state.served == served
      && state.debounce == loop.View()
      && state.history != [] && Active(state) == userRoutes.mux
    }

    constructor (startup: Table, disk: Dir)
      ensures Valid() && state == Init(startup, disk)
      ensures fresh(loop) && fresh(userRoutes)
    {
      this.disk, queue, admins, requests, served := disk, [], map[], map[], [];
      loop := new Debouncer();
      userRoutes := new UserRoutes(startup);
      state := Init(startup, disk);
    }

    /** One step of the rest of the process, if it can be taken. */
    method Happens(w: World, step: Step)
      requires Valid() && FromOutside(step)
      modifies this, loop, userRoutes
      ensures Valid() && state == if Enabled(old(state), step) then Next(w, old(state), step) else old(state)
    {
      hide BuildOf, Compose, RouteFiles, IsRouteFile;
      match step {
        case Edit(name, content) =>
          disk := if content.Some? then disk[name := content.value] else disk - {name};
          queue := queue + [name];
        case TimerExpires =>
          if loop.timer.Running? {
            loop.Expires();
          }
        case CallbackSends =>
          if loop.firing > 0 {
            loop.Fire();
          }
        case AdminStarts(_) => Administers(w, step);
        case AdminLists(_) => Administers(w, step);
        case AdminReads(_) => Administers(w, step);
        case AdminFinishes(_) => Administers(w, step);
        case RequestLoads(_, _) => Requests(w, step);
        case RequestMatches(_) => Requests(w, step);
        case RequestServed(_) => Requests(w, step);
      }
      if step.Edit? || step.TimerExpires? || step.CallbackSends? {
        state := if Enabled(state, step) then Next(w, state, step) else state;
      }
    }

    /** One step of an administrator's reload. */
    method Administers(w: World, step: Step)
      requires Valid() && (step.AdminStarts? || step.AdminLists? || step.AdminReads? || step.AdminFinishes?)
      modifies this, userRoutes
      ensures Valid() && state == if Enabled(old(state), step) then Next(w, old(state), step) else old(state)
    {
      hide BuildOf, RouteFiles, IsRouteFile;
      var id := step.id;
      ghost var before := state;
      if Enabled(state, step) {
        state := Next(w, state, step);
      }
      match step
      case AdminStarts(_) =>
        if id !in admins {
          admins := admins[id := Started];
        }
      case AdminLists(_) =>
        if id in admins && admins[id].Started? {
          admins := admins[id := Reading(w.list(RouteFiles(disk).Keys), [])];
        }
      case AdminReads(_) =>
        if id in admins && CanRead(admins[id]) {
          var p := admins[id];
          admins := admins[id := p.(got := p.got + [ReadNow(disk, p.names[|p.got|])])];
        }
      case AdminFinishes(_) =>
        if id in admins && CanFinish(admins[id]) {
          ReloadedIsStored(w, before.history, admins[id].got);
          var _, _ := Reload(w.env, userRoutes, admins[id].got);
          admins := admins - {id};
        }
    }

    /** One step of a request: it loads the table, matches it, is served. */
    method Requests(w: World, step: Step)
      requires Valid() && (step.RequestLoads? || step.RequestMatches? || step.RequestServed?)
      modifies this
      ensures Valid() && state == if Enabled(old(state), step) then Next(w, old(state), step) else old(state)
    {
      hide Compose, RouteFiles;
      var id := step.id;
      if Enabled(state, step) {
        state := Next(w, state, step);
      }
      match step
      case RequestLoads(_, req) =>
        if id !in requests {
          var table := userRoutes.Load();
          requests := requests[id := Loaded(req, table)];
        }
      case RequestMatches(_) =>
        if id in requests && requests[id].Loaded? {
          var p := requests[id];
          requests := requests[id := Matched(p.req, p.table, Compose(w, p.table, p.req))];
        }
      case RequestServed(_) =>
        if id in requests && requests[id].Matched? {
          var p := requests[id];
          requests, served := requests - {id}, served + [Served(p.req, p.table, p.choice)];
        }
    }
  }

  // ---- schedules -------------------------------------------------------------------------

  datatype Arm = Cancelled | EventArm | TokenArm

  /** A schedule: a step of the rest of the process, or a turn of the loop, in which the select picks an
      arm and a reload under way lists, reads one file or ends. */
  datatype Turn = Other(step: Step) | Go(arm: Arm)

  /** What a reload under way does in its turn. */
  function ReloadStep(p: Phase): (step: Step)
    requires !p.Idle?
    ensures forall s: State :: s.loop == p ==> Enabled(s, step)
  {
    if p.Started? then LoopLists else if CanRead(p) then LoopReads else LoopFinishes
  }

  function ArmStep(arm: Arm): Step
    requires !arm.Cancelled?
  {
    if arm.EventArm? then TakeEvent else TakeToken
  }

  function IfEnabled(w: World, s: State, step: Step): State {
    if Enabled(s, step) then Next(w, s, step) else s
  }

  /** The protocol under a schedule: a reload that has started runs to its end even when the schedule is
      over, and a cancelled context is seen only by the select. */
  function Played(w: World, s: State, turns: seq<Turn>): State
    decreases |turns|, if s.loop.Started? then 1 else 0,
              if s.loop.Reading? then 1 + (if |s.loop.got| < |s.loop.names| then |s.loop.names| - |s.loop.got| else 0) else 0
  {
    if turns == [] then
      if s.loop.Idle? then s else Played(w, Next(w, s, ReloadStep(s.loop)), [])
    else match turns[0]
      case Other(step) => Played(w, if FromOutside(step) then IfEnabled(w, s, step) else s, turns[1..])
      case Go(arm) =>
        if !s.loop.Idle? then Played(w, Next(w, s, ReloadStep(s.loop)), turns[1..])
        else if arm.Cancelled? then s
        else Played(w, IfEnabled(w, s, ArmStep(arm)), turns[1..])
  }

  // ---- the loop ----------------------------------------------------------------------------

  /** Lets the rest of the process run until it is the loop's turn. */
  method Pause(w: World, p: Process, turns: seq<Turn>) returns (rest: seq<Turn>)
    requires p.Valid() && !p.state.loop.Idle?
    modifies p, p.loop, p.userRoutes
    ensures p.Valid() && p.state.loop == old(p.state.loop) && |rest| <= |turns|
    ensures Played(w, old(p.state), turns) == Played(w, Next(w, p.state, ReloadStep(p.state.loop)), rest)
  {
    hide Next, Enabled, ReloadStep;
    rest := turns;
    while rest != [] && rest[0].Other?
      invariant p.Valid() && p.state.loop == old(p.state.loop) && |rest| <= |turns|
      invariant Played(w, old(p.state), turns) == Played(w, p.state, rest)
      decreases |rest|
    {
      var step := rest[0].step;
      if FromOutside(step) {
        LoopUntouched(w, p.state, step);
        p.Happens(w, step);
      }
      rest := rest[1..];
    }
    if rest != [] {
      rest := rest[1..];
    }
  }

  lemma LoopUntouched(w: World, s: State, step: Step)
    requires FromOutside(step)
    ensures IfEnabled(w, s, step).loop == s.loop
  {
    hide BuildOf, Compose, RouteFiles, IsRouteFile, Stored, Listed, ReadOne;
  }

  /** The reload after a token: lists the directory, reads file by file, and ends in the closure. */
  method ReloadRoutes(w: World, p: Process, turns: seq<Turn>) returns (rest: seq<Turn>)
    requires p.Valid() && p.state.loop.Started?
    modifies p, p.loop, p.userRoutes
    ensures p.Valid() && p.state.loop.Idle? && |rest| <= |turns|
    ensures Played(w, old(p.state), turns) == Played(w, p.state, rest)
  {
    hide Played, BuildOf, RouteFiles, Compose, IsRouteFile;
    rest := Pause(w, p, turns);
    var names, got := w.list(RouteFiles(p.disk).Keys), [];
    p.state := Next(w, p.state, LoopLists);
    for i := 0 to |names|
      invariant p.Valid() && p.state.loop == Reading(names, got) && |got| == i && |rest| <= |turns|
      invariant Played(w, old(p.state), turns) == Played(w, p.state, rest)
    {
      rest := Pause(w, p, rest);
      got := got + [ReadNow(p.disk, names[i])];
      p.state := Next(w, p.state, LoopReads);
    }
    rest := Pause(w, p, rest);
    ReloadedIsStored(w, p.state.history, got);
    var _, _ := Reload(w.env, p.userRoutes, got);
    p.state := Next(w, p.state, LoopFinishes);
  }

  /** `watchRoutes`: the select loop, under any schedule of everything else, goes through exactly the
      states of the protocol. */
  method WatchRoutes(w: World, p: Process, turns: seq<Turn>)
    requires p.Valid() && p.state.loop.Idle?
    modifies p, p.loop, p.userRoutes
    ensures p.Valid() && p.state == Played(w, old(p.state), turns)
  {
    hide BuildOf, RouteFiles, Compose, IsRouteFile, Enabled, Next;
    var rest := turns;
    while rest != []
      invariant p.Valid() && p.state.loop.Idle?
      invariant Played(w, old(p.state), turns) == Played(w, p.state, rest)
      decreases |rest|
    {
      var turn := rest[0];
      rest := rest[1..];
      match turn {
        case Other(step) =>
          if FromOutside(step) {
            LoopUntouched(w, p.state, step);
            p.Happens(w, step);
          }
        case Go(Cancelled) => return;
        case Go(EventArm) => TakeEvents(w, p);
        case Go(TokenArm) =>
          var taken := TakeTokens(w, p);
          if taken {
            rest := ReloadRoutes(w, p, rest);
          }
      }
    }
  }

  /** The event arm, if an event is queued. */
  method TakeEvents(w: World, p: Process)
    requires p.Valid() && p.state.loop.Idle?
    modifies p, p.loop
    ensures p.Valid() && p.state.loop.Idle? && p.state == IfEnabled(w, old(p.state), TakeEvent)
  {
    hide RouteFiles, IsRouteFile;
    if p.queue == [] {
      return;
    }
    var name := p.queue[0];
    p.queue := p.queue[1..];
    p.loop.Event(name);
    p.state := Next(w, p.state, TakeEvent);
  }

  /** The token arm up to its reload, if the channel holds the token. */
  method TakeTokens(w: World, p: Process) returns (taken: bool)
    requires p.Valid() && p.state.loop.Idle?
    modifies p, p.loop
    ensures p.Valid() && p.state == IfEnabled(w, old(p.state), TakeToken)
    ensures if taken then p.state.loop.Started? else p.state.loop.Idle?
  {
    hide RouteFiles;
    if !p.loop.debounced {
      return false;
    }
    p.loop.Receive();
    p.state := Next(w, p.state, TakeToken);
    taken := true;
  }

  // ---- schedules and runs --------------------------------------------------------------------

  /** A run continued at its front by a step that need not be enabled. */
  lemma Preceded(w: World, s: State, step: Step, later: seq<Step>) returns (steps: seq<Step>)
    ensures Run(w, s, steps) == Run(w, IfEnabled(w, s, step), later)
  {
    hide Next, Enabled;
    if Enabled(s, step) {
      RunStep(w, s, step, later);
      steps := [step] + later;
    } else {
      steps := later;
    }
  }

  lemma RunNone(w: World, s: State)
    ensures Run(w, s, []) == Some(s)
  {
  }

  /** Under any schedule the loop follows a run of the protocol, and ends between reloads. */
  lemma {:induction false} PlayedIsRun(w: World, s: State, turns: seq<Turn>) returns (steps: seq<Step>)
    ensures Run(w, s, steps) == Some(Played(w, s, turns))
    ensures Played(w, s, turns).loop.Idle?
    decreases |turns|, if s.loop.Started? then 1 else 0,
              if s.loop.Reading? then 1 + (if |s.loop.got| < |s.loop.names| then |s.loop.names| - |s.loop.got| else 0) else 0
  {
    hide Run, BuildOf, RouteFiles, Compose, IsRouteFile, Stored, Enabled;
    if turns == [] && s.loop.Idle? {
      steps := [];
      RunNone(w, s);
    } else if turns == [] {
      var step := ReloadStep(s.loop);
      steps := PlayedIsRun(w, Next(w, s, step), []);
      steps := Preceded(w, s, step, steps);
    } else {
      match turns[0]
      case Other(step) =>
        steps := PlayedIsRun(w, if FromOutside(step) then IfEnabled(w, s, step) else s, turns[1..]);
        if FromOutside(step) {
          steps := Preceded(w, s, step, steps);
        }
      case Go(arm) =>
        if !s.loop.Idle? {
          steps := PlayedIsRun(w, Next(w, s, ReloadStep(s.loop)), turns[1..]);
          steps := Preceded(w, s, ReloadStep(s.loop), steps);
        } else if arm.Cancelled? {
          steps := [];
          RunNone(w, s);
        } else {
          steps := PlayedIsRun(w, IfEnabled(w, s, ArmStep(arm)), turns[1..]);
          steps := Preceded(w, s, ArmStep(arm), steps);
        }
    }
  }

  /** A cancelled context ends the loop at its next select, whatever else is ready. */
  lemma CancelEnds(w: World, s: State, later: seq<Turn>)
    requires s.loop.Idle?
    ensures Played(w, s, [Go(Cancelled)] + later) == s
  {
  }

  function TurnOf(step: Step): Turn {
    if FromOutside(step) then Other(step) else Go(if step.TakeEvent? then EventArm else TokenArm)
  }

  function Schedule(steps: seq<Step>): seq<Turn> {
    if steps == [] then [] else [TurnOf(steps[0])] + Schedule(steps[1..])
  }

  /** And every run of the protocol that ends between reloads is what the loop does under some schedule. */
  lemma {:induction false} RunIsPlayed(w: World, s: State, steps: seq<Step>)
    requires Run(w, s, steps).Some? && Run(w, s, steps).value.loop.Idle?
    ensures Played(w, s, Schedule(steps)) == Run(w, s, steps).value
    decreases steps
  {
    hide Next;
    if steps != [] {
      RunIsPlayed(w, Next(w, s, steps[0]), steps[1..]);
      assert Schedule(steps)[1..] == Schedule(steps[1..]);
    }
  }

  /** From startup, under any schedule: when the loop ends, unless an event, the timer, its callback or the
      token is pending, it has last attempted the route files as they are on disk; it has not reloaded
      more often than route files changed; and the table that requests load is the startup table or the
      complete build of files read off the disk. */
  method WatchFromStartup(w: World, startup: Table, disk: Dir, turns: seq<Turn>) returns (p: Process, ghost steps: seq<Step>)
    requires Lawful(w)
    ensures p.Valid() && Run(w, Init(startup, disk), steps) == Some(p.state)
    ensures p.state.loop.Idle?
    ensures !Waiting(p.state) ==> CaughtUp(w, p.state)
    ensures Counted(p.state)
    ensures p.userRoutes.mux == startup
         || exists files :: ReadWhole(w, Disks(w, Init(startup, disk), steps), files)
                            && BuildOf(w.env, files) == Built(p.userRoutes.mux)
  {
    hide Run, Played, BuildOf, Lawful, Waiting, CaughtUp, Counted, ReadWhole;
    p := new Process(startup, disk);
    WatchRoutes(w, p, turns);
    steps := PlayedIsRun(w, Init(startup, disk), turns);
    NoChangeLost(w, startup, disk, steps);
    ReloadsBoundedByEvents(w, startup, disk, steps);
    TablesAreComplete(w, startup, disk, steps);
    var history := p.state.history;
    if |history| > 1 {
      assert GoodVersion(w, Disks(w, Init(startup, disk), steps), history[|history| - 1]);
    }
  }
}
