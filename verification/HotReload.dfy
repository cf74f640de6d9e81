/** The hot-reload protocol: file events, a debounce timer, a one-slot channel, reloads that read the
    directory file by file and may fail, an atomically swapped table, and the requests served from it,
    as interleaved steps. */
module HotReload {
  import opened Options
  import opened Loader

  // ---- route files -----------------------------------------------------------------

  /** `filepath.Ext`: the suffix from the last dot of the last path element. */
  function Ext(name: string): (ext: string)
    ensures |ext| <= |name| && ext == name[|name| - |ext|..]
  {
    if name == "" || name[|name| - 1] == '/' then ""
    else if name[|name| - 1] == '.' then "."
    else
      var front := Ext(name[..|name| - 1]);
      if front == "" then "" else front + [name[|name| - 1]]
  }

  predicate IsRouteFile(name: string) {
    Ext(name) == ".yaml" || Ext(name) == ".yml"
  }

  predicate HasSuffix(s: string, suffix: string) {
    |s| >= |suffix| && s[|s| - |suffix|..] == suffix
  }

  /** An extension, dot included, with neither dot nor slash after it. */
  predicate IsExtension(ext: string) {
    |ext| >= 1 && ext[0] == '.' && forall i :: 1 <= i < |ext| ==> ext[i] != '.' && ext[i] != '/'
  }

  lemma {:induction false} ExtOfExtension(name: string, ext: string)
    requires IsExtension(ext)
    ensures Ext(name) == ext <==> HasSuffix(name, ext)
    decreases |name|
  {
    var n, m := |name|, |ext|;
    if name == "" {
    } else if m == 1 {
      assert ext == ".";
      assert HasSuffix(name, ext) <==> name[n - 1] == '.';
    } else {
      var front, shorter := name[..n - 1], ext[..m - 1];
      assert IsExtension(shorter);
      ExtOfExtension(front, shorter);
      assert ext == shorter + [ext[m - 1]];
      assert HasSuffix(name, ext) <==> HasSuffix(front, shorter) && name[n - 1] == ext[m - 1] by {
        SuffixStep(name, ext);
      }
    }
  }

  lemma SuffixStep(name: string, ext: string)
    requires |name| >= 1 && |ext| >= 2
    ensures HasSuffix(name, ext)
       <==> HasSuffix(name[..|name| - 1], ext[..|ext| - 1]) && name[|name| - 1] == ext[|ext| - 1]
  {
    var n, m := |name|, |ext|;
    if HasSuffix(name, ext) {
      assert name[..n - 1][n - m..] == name[n - m..][..m - 1];
    }
    if HasSuffix(name[..n - 1], ext[..m - 1]) && name[n - 1] == ext[m - 1] {
      assert name[n - m..] == name[..n - 1][n - m..] + [name[n - 1]];
      assert ext == ext[..m - 1] + [ext[m - 1]];
    }
  }

  /** The files watched and loaded are those whose names end in .yaml or .yml. */
  lemma RouteFileIff(name: string)
    ensures IsRouteFile(name) <==> HasSuffix(name, ".yaml") || HasSuffix(name, ".yml")
  {
    ExtOfExtension(name, ".yaml");
    ExtOfExtension(name, ".yml");
  }

  // ---- the debouncer -----------------------------------------------------------------

  /** The loop's timer and channel: whether the timer is running, how many of its callbacks have started
      but not sent yet, and whether the channel holds its one token. */
  datatype Debounce = Debounce(armed: bool, firing: nat, token: bool)

  function OnEvent(d: Debounce, name: string): Debounce {
    if IsRouteFile(name) then d.(armed := true) else d
  }

  /** The timer runs out and starts its callback. */
  function Expire(d: Debounce): Debounce
    requires d.armed
  {
    d.(armed := false, firing := d.firing + 1)
  }

  /** The callback's non-blocking send. */
  function Send(d: Debounce): Debounce
    requires d.firing > 0
  {
    d.(firing := d.firing - 1, token := true)
  }

  /** Every event of a route file, and no other, leaves the timer running; the timer runs out once per
      callback; and a callback leaves the channel with its token, full or not. */
  lemma DebounceSteps(d: Debounce, name: string)
    ensures OnEvent(d, name)
         == Debounce(d.armed || HasSuffix(name, ".yaml") || HasSuffix(name, ".yml"), d.firing, d.token)
    ensures d.armed ==> Expire(d) == Debounce(false, d.firing + 1, d.token)
    ensures d.firing > 0 ==> Send(d) == Debounce(d.armed, d.firing - 1, true)
  {
    hide IsRouteFile, HasSuffix;
    RouteFileIff(name);
  }

  // ---- the system ----------------------------------------------------------------------

  /** Where one reload is: not running, started, reading the files it has listed, or done reading. */
  datatype Phase = Idle | Started | Reading(names: seq<string>, got: seq<File>)

  /** A table that is or was active, and what it was built from: `None` for the one at startup. */
  datatype Version = Version(table: Table, source: Option<seq<File>>)

  /** Where one request is: it has loaded a table, and then matched against it. */
  datatype Pending = Loaded(req: string, table: Table) | Matched(req: string, table: Table, choice: Choice)

  datatype Choice = ByUser | ByBuiltin | NotFound

  datatype Served = Served(req: string, table: Table, choice: Choice)

  type Dir = map<string, string>

  /** What stands outside the protocol: the loader's environment, the order a directory is listed in,
      the patterns a user table and the built-in table match, and the precedence flag. */
  datatype World = World(
    env: Env,
    list: set<string> -> seq<string>,
    userMatches: (Table, string) -> bool,
    builtinMatches: string -> bool,
    strictBuiltins: bool)

  /** A listing names every file of the set once. */
  ghost predicate Lists(names: seq<string>, s: set<string>) {
    && (forall n :: n in s <==> n in names)
    && (forall i, j :: 0 <= i < j < |names| ==> names[i] != names[j])
  }

  ghost predicate Lawful(w: World) {
    forall s: set<string> :: Lists(w.list(s), s)
  }

  datatype State = State(
    disk: Dir,
    queue: seq<string>,
    debounce: Debounce,
    loop: Phase,
    admins: map<nat, Phase>,
    history: seq<Version>,
    requests: map<nat, Pending>,
    served: seq<Served>,
    // Bookkeeping that no step reads.
    lastRead: Option<seq<File>>,
    base: Dir,
    started: nat,
    accepted: nat)

  function RouteFiles(disk: Dir): Dir {
    map name | name in disk && IsRouteFile(name) :: disk[name]
  }

  function Active(s: State): Table {
    if s.history == [] then NoMux else s.history[|s.history| - 1].table
  }

  /** Reading a file that was listed finds its present content, or that it is gone. */
  function ReadNow(disk: Dir, name: string): File {
    File(name, if name in disk then Some(disk[name]) else None)
  }

  /** `compose`: the first table in precedence order that matches serves. */
  function Compose(w: World, user: Table, req: string): Choice {
    var byUser := user.Mux? && w.userMatches(user, req);
    var byBuiltin := w.builtinMatches(req);
    if w.strictBuiltins then
      if byBuiltin then ByBuiltin else if byUser then ByUser else NotFound
    else
      if byUser then ByUser else if byBuiltin then ByBuiltin else NotFound
  }

  /** The `reload` closure's end: store on success, keep on failure. */
  function Stored(w: World, history: seq<Version>, got: seq<File>): seq<Version> {
    match BuildOf(w.env, got)
    case Failed => history
    case Built(table) => history + [Version(table, Some(got))]
  }

  /** The steps: the world edits or removes a file, a timer runs out, its callback sends; the watch loop
      takes an event or a token, and its reload lists, reads and finishes; an administrator's reload
      does the same; a request loads the table, matches and is served. */
  datatype Step =
    | Edit(name: string, content: Option<string>)
    | TimerExpires
    | CallbackSends
    | TakeEvent
    | TakeToken
    | LoopLists
    | LoopReads
    | LoopFinishes
    | AdminStarts(id: nat)
    | AdminLists(id: nat)
    | AdminReads(id: nat)
    | AdminFinishes(id: nat)
    | RequestLoads(id: nat, req: string)
    | RequestMatches(id: nat)
    | RequestServed(id: nat)

  predicate CanRead(p: Phase) { p.Reading? && |p.got| < |p.names| }

  predicate CanFinish(p: Phase) { p.Reading? && |p.got| >= |p.names| }

  predicate Enabled(s: State, step: Step) {
    match step
    case Edit(_, _) => true
    case TimerExpires => s.debounce.armed
    case CallbackSends => s.debounce.firing > 0
    case TakeEvent => s.loop.Idle? && s.queue != []
    case TakeToken => s.loop.Idle? && s.debounce.token
    case LoopLists => s.loop.Started?
    case LoopReads => CanRead(s.loop)
    case LoopFinishes => CanFinish(s.loop)
    case AdminStarts(id) => id !in s.admins
    case AdminLists(id) => id in s.admins && s.admins[id].Started?
    case AdminReads(id) => id in s.admins && CanRead(s.admins[id])
    case AdminFinishes(id) => id in s.admins && CanFinish(s.admins[id])
    case RequestLoads(id, _) => id !in s.requests
    case RequestMatches(id) => id in s.requests && s.requests[id].Loaded?
    case RequestServed(id) => id in s.requests && s.requests[id].Matched?
  }

  function Listed(w: World, s: State): Phase {
    Reading(w.list(RouteFiles(s.disk).Keys), [])
  }

  function ReadOne(s: State, p: Phase): Phase
    requires CanRead(p)
  {
    p.(got := p.got + [ReadNow(s.disk, p.names[|p.got|])])
  }

  function Next(w: World, s: State, step: Step): State
    requires Enabled(s, step)
  {
    match step
    case Edit(name, content) =>
      s.(disk := (if content.Some? then s.disk[name := content.value] else s.disk - {name}),
         queue := s.queue + [name])
    case TimerExpires => s.(debounce := Expire(s.debounce))
    case CallbackSends => s.(debounce := Send(s.debounce))
    case TakeEvent =>
      s.(queue := s.queue[1..],
         debounce := OnEvent(s.debounce, s.queue[0]),
         accepted := s.accepted + if IsRouteFile(s.queue[0]) then 1 else 0)
    case TakeToken => s.(debounce := s.debounce.(token := false), loop := Started, started := s.started + 1)
    case LoopLists => s.(loop := Listed(w, s))
    case LoopReads => s.(loop := ReadOne(s, s.loop))
    case LoopFinishes =>
      s.(loop := Idle, history := Stored(w, s.history, s.loop.got), lastRead := Some(s.loop.got))
    case AdminStarts(id) => s.(admins := s.admins[id := Started])
    case AdminLists(id) => s.(admins := s.admins[id := Listed(w, s)])
    case AdminReads(id) => s.(admins := s.admins[id := ReadOne(s, s.admins[id])])
    case AdminFinishes(id) =>
      s.(admins := s.admins - {id}, history := Stored(w, s.history, s.admins[id].got))
    case RequestLoads(id, req) => s.(requests := s.requests[id := Loaded(req, Active(s))])
    case RequestMatches(id) =>
      var p := s.requests[id];
      s.(requests := s.requests[id := Matched(p.req, p.table, Compose(w, p.table, p.req))])
    case RequestServed(id) =>
      var p := s.requests[id];
      s.(requests := s.requests - {id}, served := s.served + [Served(p.req, p.table, p.choice)])
  }

  /** The state once the watcher is attached: a table from startup, and whatever is on disk by now. */
  function Init(startup: Table, disk: Dir): State {
    State(disk, [], Debounce(false, 0, false), Idle, map[], [Version(startup, None)], map[], [], None,
          RouteFiles(disk), 0, 0)
  }

  function Run(w: World, s: State, steps: seq<Step>): Option<State>
    decreases steps
  {
    if steps == [] then Some(s)
    else if !Enabled(s, steps[0]) then None
    else Run(w, Next(w, s, steps[0]), steps[1..])
  }

  /** The disk as it was when each step of a run was taken. */
  function Disks(w: World, s: State, steps: seq<Step>): (disks: seq<Dir>)
    requires Run(w, s, steps).Some?
    ensures |disks| == |steps|
    decreases steps
  {
    if steps == [] then [] else [s.disk] + Disks(w, Next(w, s, steps[0]), steps[1..])
  }

  lemma {:induction false} RunConcat(w: World, s: State, a: seq<Step>, b: seq<Step>)
    requires Run(w, s, a).Some?
    ensures Run(w, s, a + b) == Run(w, Run(w, s, a).value, b)
    decreases a
  {
    hide Next, Enabled;
    if a == [] {
      assert a + b == b;
    } else {
      assert (a + b)[0] == a[0] && (a + b)[1..] == a[1..] + b;
      RunConcat(w, Next(w, s, a[0]), a[1..], b);
    }
  }

  lemma RunStep(w: World, s: State, step: Step, later: seq<Step>)
    requires Enabled(s, step)
    ensures Run(w, s, [step] + later) == Run(w, Next(w, s, step), later)
    ensures Run(w, s, [step]) == Some(Next(w, s, step))
  {
    hide Next;
    assert ([step] + later)[1..] == later;
    assert [step][1..] == [];
  }
}
