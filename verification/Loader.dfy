/** Loading and building the route table: `LoadDir`, `loadRoutes` and `buildUserMux`, all or nothing. */
module Loader {
  import opened Bytes
  import opened Options
  import opened Resolution
  import opened Precedence

  /** A file as it was read; `None` when it was gone by then. */
  datatype File = File(name: string, content: Option<string>)

  /** What one file yields: the routes that compiled, and how many errors there were. */
  datatype Parsed = Parsed(routes: seq<Route>, errors: nat)

  /** What stands outside the loader: the parser of a route file, the preset packs compiled in and the
      ones asked for, and whether a route list registers on a mux without conflict. */
  datatype Env = Env(
    parse: string -> Parsed,
    pack: string -> Option<seq<File>>,
    presets: seq<string>,
    registers: seq<Route> -> bool)

  /** A user table: no mux at all, or a mux for a route list. */
  datatype Table = NoMux | Mux(routes: seq<Route>)

  datatype Build = Failed | Built(table: Table)

  // ---- what loading yields -------------------------------------------------------

  function Sourced(rs: seq<Route>, source: string): (r: seq<Route>)
    ensures |r| == |rs|
  {
    seq(|rs|, i requires 0 <= i < |rs| => rs[i].(source := source))
  }

  function FileParsed(env: Env, f: File): Parsed {
    match f.content
    case None => Parsed([], 1)
    case Some(text) => Parsed(Sourced(env.parse(text).routes, f.name), env.parse(text).errors)
  }

  function Both(a: Parsed, b: Parsed): Parsed {
    Parsed(a.routes + b.routes, a.errors + b.errors)
  }

  function DirParsed(env: Env, files: seq<File>): Parsed {
    if files == [] then Parsed([], 0)
    else Both(DirParsed(env, files[..|files| - 1]), FileParsed(env, files[|files| - 1]))
  }

  function PackParsed(env: Env, name: string): Parsed {
    match env.pack(name)
    case None => Parsed([], 1)
    case Some(files) =>
      var p := DirParsed(env, files);
      Parsed(Sourced(p.routes, "preset:" + name), p.errors)
  }

  function PresetsParsed(env: Env, names: seq<string>): Parsed {
    if names == [] then Parsed([], 0)
    else Both(PresetsParsed(env, names[..|names| - 1]), PackParsed(env, names[|names| - 1]))
  }

  /** `buildUserMux` on the files of routes.d as they were read. */
  function BuildOf(env: Env, files: seq<File>): Build {
    var user, presets := DirParsed(env, files), PresetsParsed(env, env.presets);
    var resolved := Resolved(user.routes, presets.routes);
    if user.errors + presets.errors > 0 then Failed
    else if resolved == [] then Built(NoMux)
    else if !env.registers(resolved) then Failed
    else Built(Mux(resolved))
  }

  // ---- which routes, in which order ------------------------------------------------

  /** The routes `text` parses to, in their order, each marked with where it comes from. */
  function RoutesFrom(env: Env, text: string, source: string): (rs: seq<Route>)
    ensures |rs| == |env.parse(text).routes|
    ensures forall j :: 0 <= j < |rs| ==>
              rs[j] == Route(env.parse(text).routes[j].path, env.parse(text).routes[j].verb, env.parse(text).routes[j].status, source)
  {
    Sourced(env.parse(text).routes, source)
  }

  /** The routes of each file, marked with `source`, or, without one, with the file's name; none of a file
      that was gone. */
  function RoutesByFile(env: Env, files: seq<File>, source: Option<string>): (rss: seq<seq<Route>>)
    ensures |rss| == |files|
    ensures forall i :: 0 <= i < |files| ==>
              rss[i] == match files[i].content
                        case None => []
                        case Some(text) => RoutesFrom(env, text, if source.Some? then source.value else files[i].name)
  {
    seq(|files|, i requires 0 <= i < |files| =>
      match files[i].content
      case None => []
      case Some(text) => RoutesFrom(env, text, if source.Some? then source.value else files[i].name))
  }

  /** Loading a directory yields the routes of its files, file by file in the order of the listing. */
  lemma {:induction false} DirRoutes(env: Env, files: seq<File>)
    ensures DirParsed(env, files).routes == Flatten(RoutesByFile(env, files, None))
  {
    hide Sourced;
    if files != [] {
      var n := |files| - 1;
      DirRoutes(env, files[..n]);
      var front, last := RoutesByFile(env, files[..n], None), RoutesByFile(env, files, None)[n];
      assert RoutesByFile(env, files, None) == front + [last];
      FlattenLast(front, last);
    }
  }

  lemma {:induction false} SourcedFlatten(rss: seq<seq<Route>>, source: string)
    ensures Sourced(Flatten(rss), source) == Flatten(seq(|rss|, i requires 0 <= i < |rss| => Sourced(rss[i], source)))
  {
    var marked := seq(|rss|, i requires 0 <= i < |rss| => Sourced(rss[i], source));
    if rss != [] {
      SourcedFlatten(rss[1..], source);
      assert marked[1..] == seq(|rss| - 1, i requires 0 <= i < |rss| - 1 => Sourced(rss[1..][i], source));
      assert Sourced(rss[0] + Flatten(rss[1..]), source) == Sourced(rss[0], source) + Sourced(Flatten(rss[1..]), source);
    }
  }

  /** The routes of one preset pack, all marked as that preset's. */
  function PackRoutes(env: Env, name: string): seq<Route> {
    match env.pack(name)
    case None => []
    case Some(files) => Flatten(RoutesByFile(env, files, Some("preset:" + name)))
  }

  lemma PackRoutesIs(env: Env, name: string)
    ensures PackParsed(env, name).routes == PackRoutes(env, name)
  {
    hide Sourced, DirParsed;
    match env.pack(name)
    case None =>
    case Some(files) =>
      var rss, source := RoutesByFile(env, files, None), "preset:" + name;
      DirRoutes(env, files);
      SourcedFlatten(rss, source);
      var marked := seq(|rss|, i requires 0 <= i < |rss| => Sourced(rss[i], source));
      forall i | 0 <= i < |rss| ensures marked[i] == RoutesByFile(env, files, Some(source))[i] {
        SourcedTwice(env, files[i], source);
      }
      assert marked == RoutesByFile(env, files, Some(source));
  }

  lemma SourcedTwice(env: Env, f: File, source: string)
    ensures match f.content
            case None => Sourced([], source) == []
            case Some(text) => Sourced(RoutesFrom(env, text, f.name), source) == RoutesFrom(env, text, source)
  {
  }

  /** The presets asked for yield the routes of their packs, pack by pack in that order. */
  lemma {:induction false} PresetRoutes(env: Env, names: seq<string>)
    ensures PresetsParsed(env, names).routes
         == Flatten(seq(|names|, i requires 0 <= i < |names| => PackRoutes(env, names[i])))
  {
    hide PackParsed, PackRoutes;
    if names != [] {
      var n := |names| - 1;
      PresetRoutes(env, names[..n]);
      PackRoutesIs(env, names[n]);
      var front := seq(n, i requires 0 <= i < n => PackRoutes(env, names[..n][i]));
      assert seq(|names|, i requires 0 <= i < |names| => PackRoutes(env, names[i])) == front + [PackRoutes(env, names[n])];
      FlattenLast(front, PackRoutes(env, names[n]));
    }
  }

  // ---- the loops -----------------------------------------------------------------

  /** `LoadDir` over the files read: appends what each one yields. */
  method LoadDir(env: Env, files: seq<File>) returns (out: seq<Route>, errs: nat)
    ensures Parsed(out, errs) == DirParsed(env, files)
  {
    out, errs := [], 0;
    for i := 0 to |files|
      invariant Parsed(out, errs) == DirParsed(env, files[..i])
    {
      assert files[..i + 1][..i] == files[..i];
      var p := FileParsed(env, files[i]);
      out, errs := out + p.routes, errs + p.errors;
    }
    assert files[..|files|] == files;
  }

  /** Overwrites the source of each route in place. */
  method MarkSource(r: array<Route>, source: string)
    modifies r
    ensures r[..] == Sourced(old(r[..]), source)
  {
    for i := 0 to r.Length
      invariant forall j :: 0 <= j < i ==> r[j] == old(r[j]).(source := source)
      invariant forall j :: i <= j < r.Length ==> r[j] == old(r[j])
    {
      r[i] := r[i].(source := source);
    }
  }

  /** `loadRoutes`: user routes, then every preset pack asked for, then precedence. */
  method LoadRoutes(env: Env, files: seq<File>) returns (user: seq<Route>, presets: seq<Route>, resolved: seq<Route>, errors: nat)
    ensures user == DirParsed(env, files).routes && presets == PresetsParsed(env, env.presets).routes
    ensures errors == DirParsed(env, files).errors + PresetsParsed(env, env.presets).errors
    ensures resolved == Resolved(user, presets)
  {
    hide Sourced, Resolved;
    user, errors := LoadDir(env, files);
    presets := [];
    for i := 0 to |env.presets|
      invariant presets == PresetsParsed(env, env.presets[..i]).routes
      invariant errors == DirParsed(env, files).errors + PresetsParsed(env, env.presets[..i]).errors
    {
      assert env.presets[..i + 1][..i] == env.presets[..i];
      var name := env.presets[i];
      match env.pack(name)
      case None =>
        errors := errors + 1;
        assert presets + [] == presets;
      case Some(sub) =>
        var r, errs := LoadDir(env, sub);
        var marked := new Route[|r|](k requires 0 <= k < |r| => r[k]);
        assert marked[..] == r;
        MarkSource(marked, "preset:" + name);
        presets, errors := presets + marked[..], errors + errs;
    }
    assert env.presets[..|env.presets|] == env.presets;
    resolved := Resolve(user, presets);
  }

  /** `buildUserMux`. */
  method BuildUserMux(env: Env, files: seq<File>) returns (b: Build, count: nat)
    ensures b == BuildOf(env, files)
    ensures count == if b.Built? && b.table.Mux? then |b.table.routes| else 0
  {
    var user, presets, resolved, errors := LoadRoutes(env, files);
    if errors > 0 {
      return Failed, 0;
    }
    if |resolved| == 0 {
      return Built(NoMux), 0;
    }
    if !env.registers(resolved) {
      return Failed, 0;
    }
    return Built(Mux(resolved)), |resolved|;
  }

  // ---- all or nothing --------------------------------------------------------------

  predicate FileClean(env: Env, f: File) {
    f.content.Some? && env.parse(f.content.value).errors == 0
  }

  predicate PackClean(env: Env, name: string) {
    var pack := env.pack(name);
    pack.Some? && forall i :: 0 <= i < |pack.value| ==> FileClean(env, pack.value[i])
  }

  lemma {:induction false} DirErrors(env: Env, files: seq<File>)
    ensures DirParsed(env, files).errors == 0 <==> forall i :: 0 <= i < |files| ==> FileClean(env, files[i])
  {
    if files != [] {
      var n := |files| - 1;
      DirErrors(env, files[..n]);
      assert forall i :: 0 <= i < n ==> files[..n][i] == files[i];
    }
  }

  lemma {:induction false} PresetErrors(env: Env, names: seq<string>)
    ensures PresetsParsed(env, names).errors == 0 <==> forall i :: 0 <= i < |names| ==> PackClean(env, names[i])
  {
    if names != [] {
      var n := |names| - 1;
      PresetErrors(env, names[..n]);
      assert forall i :: 0 <= i < n ==> names[..n][i] == names[i];
      if env.pack(names[n]).Some? {
        DirErrors(env, env.pack(names[n]).value);
      }
    }
  }

  /** A table is built exactly when every file of routes.d and every preset asked for loads without a
      single error, and the resolved routes, if any, register; and it is the whole resolved list. There
      is no mux exactly when there are no routes at all. */
  lemma AllOrNothing(env: Env, files: seq<File>)
    ensures var user, presets := DirParsed(env, files).routes, PresetsParsed(env, env.presets).routes;
            var b := BuildOf(env, files);
            && (b.Built? <==>
                 && (forall i :: 0 <= i < |files| ==> FileClean(env, files[i]))
                 && (forall i :: 0 <= i < |env.presets| ==> PackClean(env, env.presets[i]))
                 && (user + presets == [] || env.registers(Resolved(user, presets))))
            && (b.Built? ==> (b.table == NoMux <==> user + presets == []))
            && (b.Built? && user + presets != [] ==> b.table == Mux(Resolved(user, presets)))
  {
    hide Resolved, FileClean, PackClean, DirParsed, PresetsParsed;
    DirErrors(env, files);
    PresetErrors(env, env.presets);
    ResolvedEmptyIff(DirParsed(env, files).routes, PresetsParsed(env, env.presets).routes);
  }

  lemma ResolvedEmptyIff(user: seq<Route>, presets: seq<Route>)
    ensures Resolved(user, presets) == [] <==> user + presets == []
  {
    hide Resolved, PathOf;
    PathsConserved(user, presets);
    EmptyIffPathless(user);
    EmptyIffPathless(presets);
    EmptyIffPathless(Resolved(user, presets));
    assert user + presets == [] <==> user == [] && presets == [] by {
      assert |user + presets| == |user| + |presets|;
    }
  }

  lemma EmptyIffPathless(rs: seq<Route>)
    ensures PathSet(rs) == {} <==> rs == []
  {
    hide PathOf;
    if rs != [] {
      assert PathOf(rs[0]) in PathSet(rs);
    }
  }
}
