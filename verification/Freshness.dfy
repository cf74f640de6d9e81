/** That the watch loop loses no change, comes to rest, and exactly when it rests on the latest files. */
module Freshness {
  import opened Options
  import opened Loader
  import opened HotReload

  // ---- what a reload would read --------------------------------------------------------

  function ReadAll(dir: Dir, names: seq<string>): (files: seq<File>)
    ensures |files| == |names|
  {
    seq(|names|, i requires 0 <= i < |names| => ReadNow(dir, names[i]))
  }

  /** What listing the directory and reading its route files yields if nothing changes meanwhile. */
  function Snapshot(w: World, disk: Dir): seq<File> {
    ReadAll(RouteFiles(disk), w.list(RouteFiles(disk).Keys))
  }

  /** What a reload has read, followed by what it will read if nothing changes any more. */
  function Eventual(disk: Dir, p: Phase): seq<File>
    requires p.Reading?
  {
    p.got + if |p.got| < |p.names| then ReadAll(RouteFiles(disk), p.names[|p.got|..]) else []
  }

  /** A reload has listed only route files. */
  ghost predicate OnlyRouteFiles(p: Phase) {
    p.Reading? ==> forall n <- p.names :: IsRouteFile(n)
  }

  /** A reload has read nothing but what is on disk now. */
  ghost predicate Current(w: World, disk: Dir, p: Phase) {
    p.Reading? ==> p.names == w.list(RouteFiles(disk).Keys) && OnlyRouteFiles(p) && Eventual(disk, p) == Snapshot(w, disk)
  }

  /** A snapshot is exactly the files whose names end in .yaml or .yml, each once and with its content. */
  lemma SnapshotIs(w: World, disk: Dir)
    requires Lawful(w)
    ensures forall f <- Snapshot(w, disk) ::
              f.name in disk && (HasSuffix(f.name, ".yaml") || HasSuffix(f.name, ".yml")) && f.content == Some(disk[f.name])
    ensures forall n <- disk :: HasSuffix(n, ".yaml") || HasSuffix(n, ".yml") ==> File(n, Some(disk[n])) in Snapshot(w, disk)
    ensures forall i, j :: 0 <= i < j < |Snapshot(w, disk)| ==> Snapshot(w, disk)[i].name != Snapshot(w, disk)[j].name
  {
    hide IsRouteFile, HasSuffix;
    forall n: string ensures IsRouteFile(n) <==> HasSuffix(n, ".yaml") || HasSuffix(n, ".yml") {
      RouteFileIff(n);
    }
    var dir := RouteFiles(disk);
    var names, files := w.list(dir.Keys), Snapshot(w, disk);
    forall f | f in files ensures f.name in dir && f.content == Some(disk[f.name]) {
      var k :| 0 <= k < |files| && files[k] == f;
      assert names[k] in names;
    }
    forall n | n in dir ensures File(n, Some(disk[n])) in files {
      assert n in dir.Keys;
      var k :| 0 <= k < |names| && names[k] == n;
      assert files[k] == File(n, Some(disk[n]));
    }
  }

  lemma {:induction false} ListingSize(names: seq<string>, s: set<string>)
    requires Lists(names, s)
    ensures |names| == |s|
    decreases names
  {
    if names == [] {
      assert s == {};
    } else {
      var rest := names[1..];
      forall n ensures n in s - {names[0]} <==> n in rest {
        if n in rest {
          var i :| 0 <= i < |rest| && rest[i] == n;
          assert names[i + 1] == n;
        }
      }
      assert names[0] in s;
      ListingSize(rest, s - {names[0]});
    }
  }

  /** Listing starts a reload that has read nothing out of date. */
  lemma ListedCurrent(w: World, s: State)
    requires Lawful(w)
    ensures Listed(w, s).Reading? && OnlyRouteFiles(Listed(w, s)) && Current(w, s.disk, Listed(w, s))
  {
    hide IsRouteFile;
    var dir := RouteFiles(s.disk);
    var names := w.list(dir.Keys);
    forall n | n in names ensures IsRouteFile(n) {
      assert n in dir.Keys;
    }
    assert Eventual(s.disk, Listed(w, s)) == Snapshot(w, s.disk) by {
      assert names[0..] == names;
    }
  }

  /** Reading goes on towards what the reload will have read in the end. */
  lemma ReadTowards(s: State, p: Phase)
    requires CanRead(p) && OnlyRouteFiles(p)
    ensures ReadOne(s, p).Reading? && ReadOne(s, p).names == p.names
    ensures OnlyRouteFiles(ReadOne(s, p)) && Eventual(s.disk, ReadOne(s, p)) == Eventual(s.disk, p)
  {
    hide IsRouteFile, RouteFiles, ReadNow, ReadAll;
    var n := |p.got|;
    assert p.names[n] in p.names;
    ReadRoute(s.disk, p.names[n]);
    ReadFirst(RouteFiles(s.disk), p.names, n);
    if n + 1 == |p.names| {
      assert ReadAll(RouteFiles(s.disk), p.names[n + 1..]) == [];
    }
  }

  lemma ReadFirst(dir: Dir, names: seq<string>, n: nat)
    requires n < |names|
    ensures ReadAll(dir, names[n..]) == [ReadNow(dir, names[n])] + ReadAll(dir, names[n + 1..])
  {
    hide ReadNow;
  }

  lemma ReadRoute(disk: Dir, name: string)
    requires IsRouteFile(name)
    ensures ReadNow(RouteFiles(disk), name) == ReadNow(disk, name)
  {
    hide IsRouteFile;
  }

  // ---- no change is lost ---------------------------------------------------------------

  /** Something will still make the loop read: an event, the timer, its callback, the token, or a reload
      that has taken its token and not yet read. */
  ghost predicate Waiting(s: State) {
    || (exists i :: 0 <= i < |s.queue| && IsRouteFile(s.queue[i]))
    || s.debounce.armed || s.debounce.firing > 0 || s.debounce.token
    || s.loop.Started?
  }

  /** No reload of the loop is under way or to come. */
  ghost predicate Quiescent(s: State) {
    s.loop.Idle? && !Waiting(s)
  }

  /** The last attempt read the route files as they are now; before any attempt, they are as they were
      when the watcher was attached. */
  ghost predicate CaughtUp(w: World, s: State) {
    match s.lastRead
    case None => RouteFiles(s.disk) == s.base
    case Some(got) => got == Snapshot(w, s.disk)
  }

  ghost predicate Fresh(w: World, s: State) {
    !Waiting(s) ==> (s.loop.Idle? ==> CaughtUp(w, s)) && Current(w, s.disk, s.loop)
  }

  /** An edit of anything but a route file leaves the route files alone. */
  lemma OtherEdit(disk: Dir, name: string, content: Option<string>)
    requires !IsRouteFile(name)
    ensures RouteFiles(if content.Some? then disk[name := content.value] else disk - {name}) == RouteFiles(disk)
  {
    hide IsRouteFile;
  }

  lemma SameFiles(w: World, disk: Dir, disk': Dir, p: Phase)
    requires RouteFiles(disk') == RouteFiles(disk)
    ensures Snapshot(w, disk') == Snapshot(w, disk)
    ensures p.Reading? ==> Eventual(disk', p) == Eventual(disk, p)
  {
  }

  lemma QueueGrows(s: State, s': State, name: string)
    requires s'.queue == s.queue + [name] && s'.debounce == s.debounce && s'.loop == s.loop
    ensures Waiting(s') <==> Waiting(s) || IsRouteFile(name)
  {
    hide IsRouteFile;
    assert s'.queue[|s.queue|] == name;
    assert forall i :: 0 <= i < |s.queue| ==> s'.queue[i] == s.queue[i];
  }

  lemma QueueShrinks(s: State, s': State)
    requires s.queue != [] && s'.queue == s.queue[1..] && s'.loop == s.loop
    requires s'.debounce == OnEvent(s.debounce, s.queue[0])
    ensures Waiting(s') <==> Waiting(s)
  {
    hide IsRouteFile;
    assert forall i :: 1 <= i < |s.queue| ==> s'.queue[i - 1] == s.queue[i];
  }

  lemma FreshStep(w: World, s: State, step: Step)
    requires Lawful(w) && Enabled(s, step) && Fresh(w, s)
    ensures Fresh(w, Next(w, s, step))
  {
    hide BuildOf, Compose, RouteFiles, IsRouteFile, Stored, Lawful, Listed, ReadOne, Snapshot, ReadAll, OnlyRouteFiles;
    var s' := Next(w, s, step);
    match step
    case Edit(name, content) =>
      QueueGrows(s, s', name);
      if !IsRouteFile(name) {
        OtherEdit(s.disk, name, content);
        SameFiles(w, s.disk, s'.disk, s.loop);
      }
    case TakeEvent => QueueShrinks(s, s');
    case LoopLists => ListedCurrent(w, s);
    case LoopReads =>
      if !Waiting(s') {
        assert !Waiting(s);
        ReadTowards(s, s.loop);
      }
    case LoopFinishes =>
      if !Waiting(s') {
        assert !Waiting(s);
        assert s.loop.got + [] == s.loop.got;
      }
    case _ =>
      assert s'.queue == s.queue && s'.disk == s.disk;
  }

  lemma {:induction false} FreshRun(w: World, s: State, steps: seq<Step>)
    requires Lawful(w) && Fresh(w, s) && Run(w, s, steps).Some?
    ensures Fresh(w, Run(w, s, steps).value)
    decreases steps
  {
    hide Next, Fresh, Lawful;
    if steps != [] {
      FreshStep(w, s, steps[0]);
      FreshRun(w, Next(w, s, steps[0]), steps[1..]);
    }
  }

  /** The loop loses no change: in every reachable state, unless something will still make it read, a
      reload under way has read nothing but what is on disk now, and an idle loop has last attempted
      exactly the route files on disk now. */
  lemma NoChangeLost(w: World, startup: Table, disk: Dir, steps: seq<Step>)
    requires Lawful(w) && Run(w, Init(startup, disk), steps).Some?
    ensures Fresh(w, Run(w, Init(startup, disk), steps).value)
  {
    hide Next, RouteFiles, Lawful;
    assert Fresh(w, Init(startup, disk));
    FreshRun(w, Init(startup, disk), steps);
  }

  /** What is pending stays pending until the loop lists the directory. */
  lemma WaitingStep(w: World, s: State, step: Step)
    requires Enabled(s, step) && step != LoopLists
    requires Waiting(s) || (step.Edit? && IsRouteFile(step.name))
    ensures Waiting(Next(w, s, step))
  {
    hide BuildOf, Compose, RouteFiles, IsRouteFile, Stored, Listed, ReadOne;
    var s' := Next(w, s, step);
    match step
    case Edit(name, content) => QueueGrows(s, s', name);
    case TakeEvent => QueueShrinks(s, s');
    case _ =>
  }

  lemma {:induction false} StaysWaiting(w: World, s: State, steps: seq<Step>)
    requires Run(w, s, steps).Some? && Waiting(s) && LoopLists !in steps
    ensures Waiting(Run(w, s, steps).value)
    decreases steps
  {
    hide Next, Waiting, Enabled;
    if steps != [] {
      assert steps[0] in steps;
      WaitingStep(w, s, steps[0]);
      StaysWaiting(w, Next(w, s, steps[0]), steps[1..]);
    }
  }

  /** Every change, one that is undone later included, is pending until the loop lists the directory
      after it: from any state, if a run changes a route file and the loop does not list afterwards,
      something will still make the loop read. */
  lemma {:induction false} ChangePending(w: World, s: State, steps: seq<Step>, i: nat)
    requires Run(w, s, steps).Some?
    requires i < |steps| && steps[i].Edit? && IsRouteFile(steps[i].name) && LoopLists !in steps[i + 1..]
    ensures Waiting(Run(w, s, steps).value)
    decreases i
  {
    hide Next, Waiting, Enabled, IsRouteFile;
    if i == 0 {
      WaitingStep(w, s, steps[0]);
      StaysWaiting(w, Next(w, s, steps[0]), steps[1..]);
    } else {
      assert steps[1..][i..] == steps[i + 1..];
      ChangePending(w, Next(w, s, steps[0]), steps[1..], i - 1);
    }
  }

  // ---- how many reloads ------------------------------------------------------------------

  function One(b: bool): nat { if b then 1 else 0 }

  ghost predicate Counted(s: State) {
    s.started + One(s.debounce.token) + s.debounce.firing + One(s.debounce.armed) <= s.accepted
  }

  lemma CountedStep(w: World, s: State, step: Step)
    requires Counted(s) && Enabled(s, step)
    ensures Counted(Next(w, s, step))
  {
    hide BuildOf, Compose, RouteFiles, IsRouteFile, Stored, Listed, ReadOne, Active;
    match step
    case Edit(_, _) => {}
    case TakeEvent => {}
    case _ => {}
  }

  lemma {:induction false} CountedRun(w: World, s: State, steps: seq<Step>)
    requires Counted(s) && Run(w, s, steps).Some?
    ensures Counted(Run(w, s, steps).value)
    decreases steps
  {
    hide Next, Counted;
    if steps != [] {
      CountedStep(w, s, steps[0]);
      CountedRun(w, Next(w, s, steps[0]), steps[1..]);
    }
  }

  /** Watch reloads never outnumber the route-file events taken, the pending ones included. */
  lemma ReloadsBoundedByEvents(w: World, startup: Table, disk: Dir, steps: seq<Step>)
    requires Run(w, Init(startup, disk), steps).Some?
    ensures Counted(Run(w, Init(startup, disk), steps).value)
  {
    hide Next, RouteFiles;
    CountedRun(w, Init(startup, disk), steps);
  }

  // ---- coming to rest ----------------------------------------------------------------------

  predicate LoopStep(step: Step) {
    step.TimerExpires? || step.CallbackSends? || step.TakeEvent? || step.TakeToken?
    || step.LoopLists? || step.LoopReads? || step.LoopFinishes?
  }

  function LoopSteps(steps: seq<Step>): nat {
    if steps == [] then 0 else One(LoopStep(steps[0])) + LoopSteps(steps[1..])
  }

  predicate AtRest(s: State) {
    s.queue == [] && s.debounce == Debounce(false, 0, false) && s.loop.Idle?
  }

  /** Steps a whole reload of the directory takes after its token. */
  function ReloadCost(s: State): nat {
    |RouteFiles(s.disk)| + 3
  }

  function PhaseCost(s: State): int {
    match s.loop
    case Idle => 0
    case Started => ReloadCost(s)
    case Reading(names, got) => (if |got| < |names| then |names| - |got| else 0) + 1
  }

  /** A bound on the loop steps left once changes stop: every event costs more than the timer it arms, the
      timer more than its callback, and so on down to the reload itself. */
  function Left(s: State): int {
    Weight(|s.queue|, One(s.debounce.armed), s.debounce.firing, One(s.debounce.token), PhaseCost(s), ReloadCost(s))
  }

  function Weight(events: int, armed: int, firing: int, token: int, phase: int, c: int): int {
    events * (c + 4) + armed * (c + 3) + firing * (c + 2) + token * (c + 1) + phase
  }

  /** Each loop step trades one item for less than its weight. */
  lemma WeightSteps(q: int, a: int, f: int, t: int, p: int, c: int)
    requires c >= 0
    ensures Weight(q - 1, a, f, t, p, c) == Weight(q, a, f, t, p, c) - (c + 4)
    ensures Weight(q, a - 1, f, t, p, c) == Weight(q, a, f, t, p, c) - (c + 3)
    ensures Weight(q, a, f - 1, t, p, c) == Weight(q, a, f, t, p, c) - (c + 2)
    ensures Weight(q, a, f, t - 1, p, c) == Weight(q, a, f, t, p, c) - (c + 1)
  {
    assert (q - 1) * (c + 4) == q * (c + 4) - (c + 4);
    assert (a - 1) * (c + 3) == a * (c + 3) - (c + 3);
    assert (f - 1) * (c + 2) == f * (c + 2) - (c + 2);
    assert (t - 1) * (c + 1) == t * (c + 1) - (c + 1);
  }

  lemma LeftDecreases(w: World, s: State, step: Step)
    requires Lawful(w) && LoopStep(step) && Enabled(s, step)
    ensures Left(Next(w, s, step)) < Left(s)
  {
    hide BuildOf, RouteFiles, IsRouteFile, Lists, Stored, Lawful, Weight;
    var c := ReloadCost(s);
    var q, f, p := |s.queue|, s.debounce.firing, PhaseCost(s);
    var a, t := One(s.debounce.armed), One(s.debounce.token);
    match step
    case TakeEvent =>
      WeightSteps(q, a, f, t, p, c);
      WeightSteps(q - 1, 1, f, t, p, c);
    case TimerExpires =>
      WeightSteps(q, a, f, t, p, c);
      WeightSteps(q, 0, f + 1, t, p, c);
    case CallbackSends =>
      WeightSteps(q, a, f, t, p, c);
      WeightSteps(q, a, f - 1, 1, p, c);
    case TakeToken =>
      WeightSteps(q, a, f, t, p, c);
      WeightPhase(q, a, f, 0, p, c, c);
    case LoopLists =>
      ListedCount(w, RouteFiles(s.disk));
      WeightPhase(q, a, f, t, p, PhaseCost(Next(w, s, step)), c);
    case LoopReads =>
      WeightPhase(q, a, f, t, p, PhaseCost(Next(w, s, step)), c);
    case LoopFinishes =>
      WeightPhase(q, a, f, t, p, 0, c);
  }

  lemma WeightPhase(q: int, a: int, f: int, t: int, p: int, p': int, c: int)
    ensures Weight(q, a, f, t, p', c) == Weight(q, a, f, t, p, c) - p + p'
  {
  }

  lemma ListedCount(w: World, dir: Dir)
    requires Lawful(w)
    ensures |w.list(dir.Keys)| == |dir|
  {
    ListingSize(w.list(dir.Keys), dir.Keys);
  }

  /** Unless it is at rest the loop can always move. */
  lemma NotAtRestCanMove(s: State) returns (step: Step)
    requires !AtRest(s)
    ensures LoopStep(step) && Enabled(s, step)
  {
    if s.debounce.armed {
      step := TimerExpires;
    } else if s.debounce.firing > 0 {
      step := CallbackSends;
    } else {
      match s.loop
      case Idle => step := if s.debounce.token then TakeToken else TakeEvent;
      case Started => step := LoopLists;
      case Reading(names, got) => step := if |got| < |names| then LoopReads else LoopFinishes;
    }
  }

  /** Administrators' reloads and requests take nothing away and add nothing. */
  lemma LeftKept(w: World, s: State, step: Step)
    requires Enabled(s, step) && !LoopStep(step) && !step.Edit?
    ensures Left(Next(w, s, step)) == Left(s)
  {
    hide BuildOf, RouteFiles, IsRouteFile, Compose, Stored, Weight, Listed, ReadOne;
  }

  lemma {:induction false} LeftBoundsRun(w: World, s: State, steps: seq<Step>)
    requires Lawful(w) && Run(w, s, steps).Some? && forall step <- steps :: !step.Edit?
    ensures 0 <= Left(s) && LoopSteps(steps) + Left(Run(w, s, steps).value) <= Left(s)
    decreases steps
  {
    hide Next, Lawful, Left, LoopStep;
    LeftNonNegative(s);
    if steps != [] {
      if LoopStep(steps[0]) {
        LeftDecreases(w, s, steps[0]);
      } else {
        LeftKept(w, s, steps[0]);
      }
      LeftBoundsRun(w, Next(w, s, steps[0]), steps[1..]);
    }
  }

  lemma LeftNonNegative(s: State)
    ensures Left(s) >= 0
  {
    hide RouteFiles;
    var c := ReloadCost(s);
    Product(|s.queue|, c + 4);
    Product(s.debounce.firing, c + 2);
  }

  lemma Product(a: nat, b: nat)
    ensures a * b >= 0
  {
  }

  /** Once changes stop, from any reachable state, the loop takes at most `Left` more steps however many
      requests and administrators' reloads there are; and if it can take none it is at rest, having last
      attempted the route files as they are. */
  lemma ComesToRest(w: World, startup: Table, disk: Dir, before: seq<Step>, after: seq<Step>)
    requires Lawful(w) && forall step <- after :: !step.Edit?
    requires Run(w, Init(startup, disk), before).Some?
    requires Run(w, Run(w, Init(startup, disk), before).value, after).Some?
    ensures var s := Run(w, Init(startup, disk), before).value;
            var s' := Run(w, s, after).value;
            && LoopSteps(after) <= Left(s)
            && ((forall step :: LoopStep(step) ==> !Enabled(s', step)) ==> AtRest(s') && CaughtUp(w, s'))
  {
    hide Next, Lawful, Left, BuildOf, RouteFiles, Snapshot;
    var s := Run(w, Init(startup, disk), before).value;
    var s' := Run(w, s, after).value;
    LeftBoundsRun(w, s, after);
    LeftNonNegative(s');
    NoChangeLost(w, startup, disk, before);
    FreshRun(w, s, after);
    if !AtRest(s') {
      var step := NotAtRestCanMove(s');
    }
  }
}
