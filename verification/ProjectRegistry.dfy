/**
 * Project bindings: the registry under `projects/registry.json`, the
 * `ACTIVE_PROJECT` marker and each store's `metadata.json`.
 *
 * All three are written in place, so every operation is given a `Disk`: how many of
 * its file writes go through before one fails, and whether the failing one left the
 * file as it was or cut the new text short. Creating a directory is not counted.
 *
 * The registry lies among the stores, under a name that is also the id of one root. Until
 * the registry is first saved, that root's store can take its place.
 */
module ProjectRegistry {
  import opened Basics
  import opened RegistryTable

  const GLOBAL_PROJECT_ID := "_global"

  const REGISTRY_FILE := "registry.json"

  /** A canonical absolute path as its components. */
  type Path = seq<string>

  datatype Kind = Repo | Global

  datatype Project = Project(path: Path, kind: Kind)

  datatype Metadata = Metadata(projectId: string, path: Path, kind: Kind)

  datatype Context = Context(id: string, path: Path, kind: Kind)

  /** What the host contributes: `$HOME` and the hash that names a path outside it. */
  datatype Machine = Machine(home: Path, hash: Path -> string)

  datatype Registry = Registry(entries: seq<Entry<Project>>, current: Option<string>)

  /** `blocked` says that a directory stands where the registry is looked for. */
  datatype Home = Home(
    registry: File<Registry>,
    blocked: bool,
    marker: Option<string>,
    stores: map<string, File<Metadata>>)

  datatype Failure = Io | Malformed | UnknownProject | ReservedProject

  datatype Outcome<+R> = Outcome(home: Home, disk: Disk, result: Result<R, Failure>)

  datatype Removal = Removal(removed: bool, wasCurrent: bool)

  const NO_PROJECTS := Registry([], None)

  const EMPTY := Home(Missing, false, None, map[])

  // ---- Project ids ----

  function Sanitize(s: string): (r: string)
    ensures |r| == |s|
    ensures forall i | 0 <= i < |s| :: IsCleanChar(r[i]) && r[i] == if IsCleanChar(s[i]) then s[i] else '-'
  {
    if s == "" then "" else [if IsCleanChar(s[0]) then s[0] else '-'] + Sanitize(s[1..])
  }

  /** Components joined by the path separator. */
  function Joined(parts: Path): string {
    if parts == [] then "" else if |parts| == 1 then parts[0] else parts[0] + "/" + Joined(parts[1..])
  }

  function ProjectId(m: Machine, path: Path): string {
    if path == m.home then GLOBAL_PROJECT_ID
    else if |m.home| <= |path| && path[..|m.home|] == m.home then
      var slug := Sanitize(Joined(path[|m.home|..]));
      if slug == "" then "proj-" + m.hash(path) else slug
    else "proj-" + m.hash(path)
  }

  /** The hash is rendered in characters an id may hold. */
  ghost predicate ValidMachine(m: Machine) {
    forall path :: IsCleanId(m.hash(path))
  }

  lemma {:induction false} ProjectIdIsClean(m: Machine, path: Path)
    requires ValidMachine(m)
    ensures IsCleanId(ProjectId(m, path))
  {
    assert IsCleanId(m.hash(path));
  }

  predicate IsComponent(name: string) {
    name != "" && '/' !in name
  }

  lemma {:induction false} JoinedHasSeparator(parts: Path)
    ensures |parts| > 1 ==> '/' in Joined(parts)
  {
  }

  /** A name that no other text is mapped to: it holds no dash. */
  predicate IsDashless(name: string) {
    IsCleanId(name) && '-' !in name
  }

  lemma {:induction false} DashlessSlug(text: string, name: string)
    requires IsDashless(name)
    ensures Sanitize(text) == name <==> text == name
  {
    var slug := Sanitize(text);
    if slug == name {
      assert forall i | 0 <= i < |text| :: slug[i] == name[i] && name[i] in name;
    }
    if text == name {
      assert forall i | 0 <= i < |text| :: IsCleanChar(name[i]) && slug[i] == name[i];
    }
  }

  lemma {:induction false} DashlessJoin(parts: Path, name: string)
    requires IsDashless(name) && forall part | part in parts :: IsComponent(part)
    ensures Joined(parts) == name <==> parts == [name]
  {
    JoinedHasSeparator(parts);
    if Joined(parts) == name {
      assert '/' !in name by { assert forall i | 0 <= i < |name| :: IsCleanChar(name[i]); }
      assert |parts| == 1;
    }
  }

  /** Below the home directory, exactly the entry of that name has a dashless name as its id. */
  lemma {:induction false} DashlessIdExactly(m: Machine, path: Path, name: string)
    requires IsDashless(name) && forall part | part in path :: IsComponent(part)
    ensures ProjectId(m, path) == name
       <==> (path == m.home && name == GLOBAL_PROJECT_ID) || path == m.home + [name]
  {
    assert ("proj-" + m.hash(path))[4] == '-';
    if |m.home| <= |path| && path[..|m.home|] == m.home {
      var rest := path[|m.home|..];
      assert path == m.home + rest;
      assert forall part | part in rest :: part in path;
      DashlessJoin(rest, name);
      DashlessSlug(Joined(rest), name);
    }
  }

  /**
   * The reserved id is not out of reach of the slugs: it names the home directory
   * and also a directory called `_global` directly inside it, and nothing else.
   */
  lemma {:induction false} ReservedIdExactly(m: Machine, path: Path)
    requires forall name | name in path :: IsComponent(name)
    ensures ProjectId(m, path) == "_global" <==> path == m.home || path == m.home + ["_global"]
  {
    DashlessIdExactly(m, path, GLOBAL_PROJECT_ID);
  }

  /** The store of a root is the registry's own path exactly for `registry.json` in the home directory. */
  lemma {:induction false} RegistryIdExactly(m: Machine, path: Path)
    requires forall name | name in path :: IsComponent(name)
    ensures ProjectId(m, path) == "registry.json" <==> path == m.home + ["registry.json"]
  {
    DashlessIdExactly(m, path, REGISTRY_FILE);
  }

  /** Characters that a slug cannot tell apart. */
  predicate SameInSlug(a: char, b: char) {
    a == b || ((a == '-' || !IsCleanChar(a)) && (b == '-' || !IsCleanChar(b)))
  }

  /** A path strictly below the home directory. */
  predicate IsBelow(m: Machine, path: Path) {
    |m.home| < |path| && path[..|m.home|] == m.home && Joined(path[|m.home|..]) != ""
  }

  lemma {:induction false} SlugsAgreeExactly(a: string, b: string)
    ensures Sanitize(a) == Sanitize(b) <==> |a| == |b| && forall i | 0 <= i < |a| :: SameInSlug(a[i], b[i])
  {
    if Sanitize(a) == Sanitize(b) {
      forall i | 0 <= i < |a|
        ensures SameInSlug(a[i], b[i])
      {
        assert Sanitize(a)[i] == Sanitize(b)[i];
      }
    }
  }

  /**
   * Two roots below the home directory share a project id exactly when their relative
   * texts have one length and differ only where a slug puts a dash.
   */
  lemma {:induction false} SharedIdExactly(m: Machine, a: Path, b: Path)
    requires IsBelow(m, a) && IsBelow(m, b)
    ensures
      var s, t := Joined(a[|m.home|..]), Joined(b[|m.home|..]);
      ProjectId(m, a) == ProjectId(m, b) <==> |s| == |t| && forall i | 0 <= i < |s| :: SameInSlug(s[i], t[i])
  {
    SlugsAgreeExactly(Joined(a[|m.home|..]), Joined(b[|m.home|..]));
  }

  /** A root outside the home directory is named by its hash: two of them share an id exactly when their hashes agree. */
  lemma {:induction false} OutsideIdExactly(m: Machine, a: Path, b: Path)
    requires !(m.home <= a) && !(m.home <= b)
    ensures ProjectId(m, a) == "proj-" + m.hash(a)
    ensures ProjectId(m, a) == ProjectId(m, b) <==> m.hash(a) == m.hash(b)
  {
    assert ("proj-" + m.hash(a))[5..] == m.hash(a) && ("proj-" + m.hash(b))[5..] == m.hash(b);
  }

  /** `a/b-c` and `a-b/c` are one project. */
  lemma {:induction false} DistinctRootsShareAnId(m: Machine)
    ensures ProjectId(m, m.home + ["a", "b-c"]) == ProjectId(m, m.home + ["a-b", "c"])
  {
    PairBelow(m, "a", "b-c");
    PairBelow(m, "a-b", "c");
    var s, t := "a" + "/" + "b-c", "a-b" + "/" + "c";
    assert |s| == |t| == 5;
    assert s[0] == t[0] && s[1] == '/' && t[1] == '-' && s[2] == t[2] && s[3] == '-' && t[3] == '/' && s[4] == t[4];
    SharedIdExactly(m, m.home + ["a", "b-c"], m.home + ["a-b", "c"]);
  }

  lemma {:induction false} PairBelow(m: Machine, x: string, y: string)
    ensures IsBelow(m, m.home + [x, y]) && Joined((m.home + [x, y])[|m.home|..]) == x + "/" + y
  {
    var path := m.home + [x, y];
    assert path[|m.home|..] == [x, y] && path[..|m.home|] == m.home && [x, y][1..] == [y];
    assert Joined([y]) == y;
    assert Joined([x, y]) == x + "/" + Joined([x, y][1..]);
  }

  // ---- Operations on a home, as values ----

  /** A missing or blank registry is an empty one; an unreadable one, or a directory, is a hard error. */
  function Load(h: Home): Result<Registry, Failure> {
    if h.blocked then Err(Io)
    else match h.registry
    case Missing => Ok(NO_PROJECTS)
    case Blank => Ok(NO_PROJECTS)
    case Garbled => Err(Malformed)
    case Whole(registry) => Ok(registry)
  }

  function StoreOf(h: Home, id: string): File<Metadata> {
    if id in h.stores then h.stores[id] else Missing
  }

  function ContextForRoot(m: Machine, root: Path): Context {
    var id := ProjectId(m, root);
    Context(id, root, if id == GLOBAL_PROJECT_ID then Global else Repo)
  }

  /** A registered entry first, then the store's metadata, then the reserved id. */
  function ContextForId(m: Machine, h: Home, id: string): Result<Option<Context>, Failure> {
    match Load(h)
    case Err(failure) => Err(failure)
    case Ok(registry) =>
      match Find(registry.entries, id)
      case Some(e) => Ok(Some(Context(e.id, e.info.path, e.info.kind)))
      case None =>
        if id == REGISTRY_FILE && !h.registry.Missing? then Err(Io)
        else match StoreOf(h, id)
        case Whole(meta) => Ok(Some(Context(meta.projectId, meta.path, meta.kind)))
        case Missing => Ok(if id == GLOBAL_PROJECT_ID then Some(ContextForRoot(m, m.home)) else None)
        case _ => Err(Malformed)
  }

  function ActiveId(h: Home): Result<Option<string>, Failure> {
    match Load(h)
    case Err(failure) => Err(failure)
    case Ok(registry) => Ok(if registry.current.Some? then registry.current else ReadMarker(h.marker))
  }

  function Selecting(registry: Registry, ctx: Context, now: string): Registry {
    Registry(Upsert(registry.entries, Entry(ctx.id, Project(ctx.path, ctx.kind), "", ""), now), Some(ctx.id))
  }

  /** Load, upsert the context, make it current, save, and write the marker. */
  function Activated(h: Home, ctx: Context, now: string, disk: Disk): Outcome<Context> {
    match Load(h)
    case Err(failure) => Outcome(h, disk, Err(failure))
    case Ok(registry) =>
      if disk.writes == 0 then Outcome(h.(registry := Torn(h.registry, disk.tear)), disk, Err(Io))
      else
        var saved := h.(registry := Whole(Selecting(registry, ctx, now)));
        if disk.writes == 1 then
          Outcome(saved.(marker := TornMarker(h.marker, ctx.id, disk.tear)), disk.(writes := 0), Err(Io))
        else Outcome(saved.(marker := Some(MarkerText(ctx.id))), disk.(writes := disk.writes - 2), Ok(ctx))
  }

  function Described(h: Home, ctx: Context): Home {
    h.(stores := h.stores[ctx.id := Whole(Metadata(ctx.id, ctx.path, ctx.kind))])
  }

  function Undescribed(h: Home, id: string, tear: Tear): Home {
    if tear.Kept? then h else h.(stores := h.stores[id := Torn(StoreOf(h, id), tear)])
  }

  /** The home once the directory of the id was created. */
  function Made(h: Home, id: string): Home {
    if id == REGISTRY_FILE then h.(blocked := true) else h
  }

  function Registered(m: Machine, h: Home, root: Path, now: string, disk: Disk): Outcome<Context> {
    var ctx := ContextForRoot(m, root);
    if ctx.id == REGISTRY_FILE && !h.registry.Missing? then Outcome(h, disk, Err(Io))
    else if disk.writes == 0 then Outcome(Undescribed(Made(h, ctx.id), ctx.id, disk.tear), disk, Err(Io))
    else Activated(Described(Made(h, ctx.id), ctx), ctx, now, disk.(writes := disk.writes - 1))
  }

  function Switched(m: Machine, h: Home, id: string, now: string, disk: Disk): Outcome<Context> {
    match ContextForId(m, h, id)
    case Err(failure) => Outcome(h, disk, Err(failure))
    case Ok(None) => Outcome(h, disk, Err(UnknownProject))
    case Ok(Some(ctx)) => Activated(h, ctx, now, disk)
  }

  /** Save the registry, and delete the marker when nothing is selected any more. */
  function Replaced(h: Home, registry: Registry, unmark: bool, disk: Disk): Outcome<()> {
    if disk.writes == 0 then Outcome(h.(registry := Torn(h.registry, disk.tear)), disk, Err(Io))
    else
      var saved := h.(registry := Whole(registry));
      if !unmark then Outcome(saved, disk.(writes := disk.writes - 1), Ok(()))
      else if disk.writes == 1 then Outcome(saved, disk.(writes := 0), Err(Io))
      else Outcome(saved.(marker := None), disk.(writes := disk.writes - 2), Ok(()))
  }

  function Removed(h: Home, id: string, disk: Disk): Outcome<Removal> {
    if id == GLOBAL_PROJECT_ID then Outcome(h, disk, Err(ReservedProject))
    else match Load(h)
      case Err(failure) => Outcome(h, disk, Err(failure))
      case Ok(registry) =>
        var kept := Without(registry.entries, id);
        var removal := Removal(|kept| != |registry.entries|, registry.current == Some(id));
        var o := Replaced(h, Registry(kept, if removal.wasCurrent then None else registry.current), removal.wasCurrent, disk);
        Outcome(o.home, o.disk, if o.result.Ok? then Ok(removal) else Err(o.result.error))
  }

  /** Load, forget the current id, save and delete the marker. */
  function Deselected(h: Home, disk: Disk): Outcome<()> {
    match Load(h)
    case Err(failure) => Outcome(h, disk, Err(failure))
    case Ok(registry) => Replaced(h, registry.(current := None), true, disk)
  }

  /** `project add` after registering: put back what was active. */
  function Restored(m: Machine, o: Outcome<Context>, before: Option<string>, now: string): Outcome<Context>
    requires o.result.Ok?
  {
    match before
    case Some(id) =>
      if id == o.result.value.id then o
      else
        var back := Switched(m, o.home, id, now, o.disk);
        back.(result := if back.result.Ok? then o.result else back.result)
    case None =>
      var none := Deselected(o.home, o.disk);
      Outcome(none.home, none.disk, if none.result.Ok? then o.result else Err(none.result.error))
  }

  function Added(m: Machine, h: Home, root: Path, switch: bool, now: string, disk: Disk): Outcome<Context> {
    match ActiveId(h)
    case Err(failure) => Outcome(h, disk, Err(failure))
    case Ok(before) =>
      var o := Registered(m, h, root, now, disk);
      if o.result.Err? || switch then o else Restored(m, o, before, now)
  }

  // ---- Runs ----

  datatype Op =
    | Register(root: Path, now: string)
    | Switch(id: string, now: string)
    | Remove(id: string)
    | Add(root: Path, switch: bool, now: string)

  datatype Call = Call(op: Op, disk: Disk)

  function Apply(m: Machine, h: Home, call: Call): Home {
    match call.op
    case Register(root, now) => Registered(m, h, root, now, call.disk).home
    case Switch(id, now) => Switched(m, h, id, now, call.disk).home
    case Remove(id) => Removed(h, id, call.disk).home
    case Add(root, switch, now) => Added(m, h, root, switch, now, call.disk).home
  }

  /** Each operation writes at most five files. */
  const ENOUGH_WRITES: nat := 5

  predicate Completed(call: Call) {
    call.disk.writes >= ENOUGH_WRITES
  }

  /** A failing write of the call, if any, leaves its file as it was. */
  predicate Uncut(call: Call) {
    call.disk.tear.Kept?
  }

  function After(m: Machine, h: Home, calls: seq<Call>): Home {
    if calls == [] then h else Apply(m, After(m, h, calls[..|calls| - 1]), calls[|calls| - 1])
  }

  // ---- Every run, however its writes fail ----

  predicate Readable(h: Home) {
    !h.registry.Garbled? && !h.blocked
  }

  function Listing(h: Home): Registry {
    if h.registry.Whole? then h.registry.value else NO_PROJECTS
  }

  predicate ConsistentRegistry(r: Registry) {
    && UniqueIds(r.entries)
    && (forall e | e in r.entries :: IsCleanId(e.id))
    && (r.current.Some? ==> Find(r.entries, r.current.value).Some?)
    && (forall e | e in r.entries :: e.id != REGISTRY_FILE)
  }

  /** A directory on the registry's path came before any registry. */
  predicate ConsistentPath(h: Home) {
    (h.blocked ==> h.registry.Missing?) && (REGISTRY_FILE in h.stores ==> h.blocked)
  }

  predicate ConsistentStores(stores: map<string, File<Metadata>>) {
    forall id | id in stores && stores[id].Whole? :: IsCleanId(id) && stores[id].value.projectId == id
  }

  /** What can be read is in order. Kept by every call, whatever its failing write leaves. */
  predicate Consistent(h: Home) {
    ConsistentRegistry(Listing(h)) && ConsistentStores(h.stores) && ConsistentPath(h)
  }

  /** The id's own store names it, or it is the reserved id without a store: removal does not undo this. */
  predicate Known(h: Home, id: string) {
    StoreOf(h, id).Whole? || (id == GLOBAL_PROJECT_ID && StoreOf(h, id).Missing?)
  }

  /** What a switch to the id needs. */
  predicate Resolves(h: Home, id: string) {
    Readable(h) && (Find(Listing(h).entries, id).Some? || Known(h, id))
  }

  lemma {:induction false} FoundIsMember(entries: seq<Entry<Project>>, id: string)
    ensures Find(entries, id).Some? ==> Find(entries, id).value in entries && Find(entries, id).value.id == id
  {
  }

  /** A switch finds a context exactly for the ids that resolve, and for the id it was asked for. */
  lemma {:induction false} ResolvesExactly(m: Machine, h: Home, id: string)
    requires Consistent(h) && ValidMachine(m)
    ensures ContextForId(m, h, id).Ok? && ContextForId(m, h, id).value.Some? <==> Resolves(h, id)
    ensures Resolves(h, id) ==> ContextForId(m, h, id).value.value.id == id && IsCleanId(id) && id != REGISTRY_FILE
  {
    FoundIsMember(Listing(h).entries, id);
    ProjectIdIsClean(m, m.home);
  }

  lemma {:induction false} SelectingIsConsistent(r: Registry, ctx: Context, now: string)
    requires ConsistentRegistry(r) && IsCleanId(ctx.id) && ctx.id != REGISTRY_FILE
    ensures ConsistentRegistry(Selecting(r, ctx, now))
  {
    UpsertMembers(r, ctx, now);
    UpsertMeaning(r.entries, Entry(ctx.id, Project(ctx.path, ctx.kind), "", ""), now, ctx.id);
  }

  lemma {:induction false} UpsertMembers(r: Registry, ctx: Context, now: string)
    ensures forall e | e in Selecting(r, ctx, now).entries ::
              e in r.entries || (e.id == ctx.id && e.info == Project(ctx.path, ctx.kind))
  {
  }

  lemma {:induction false} ActivatedIsConsistent(h: Home, ctx: Context, now: string, disk: Disk)
    requires Consistent(h) && IsCleanId(ctx.id) && (ctx.id == REGISTRY_FILE ==> h.blocked)
    ensures Consistent(Activated(h, ctx, now, disk).home)
  {
    if !h.blocked { SelectingIsConsistent(Listing(h), ctx, now); }
  }

  lemma {:induction false} RegisteredIsConsistent(m: Machine, h: Home, root: Path, now: string, disk: Disk)
    requires Consistent(h) && ValidMachine(m)
    ensures Consistent(Registered(m, h, root, now, disk).home)
  {
    ProjectIdIsClean(m, root);
    var ctx := ContextForRoot(m, root);
    if disk.writes > 0 && (ctx.id == REGISTRY_FILE ==> h.registry.Missing?) {
      var described := Described(Made(h, ctx.id), ctx);
      assert Consistent(described);
      ActivatedIsConsistent(described, ctx, now, disk.(writes := disk.writes - 1));
    }
  }

  lemma {:induction false} SwitchedIsConsistent(m: Machine, h: Home, id: string, now: string, disk: Disk)
    requires Consistent(h) && ValidMachine(m)
    ensures Consistent(Switched(m, h, id, now, disk).home)
  {
    ResolvesExactly(m, h, id);
    if Resolves(h, id) {
      ActivatedIsConsistent(h, ContextForId(m, h, id).value.value, now, disk);
    }
  }

  lemma {:induction false} RemovalIsConsistent(r: Registry, id: string)
    requires ConsistentRegistry(r)
    ensures ConsistentRegistry(Registry(Without(r.entries, id), if r.current == Some(id) then None else r.current))
  {
    WithoutMembers(r.entries, id);
    WithoutUnique(r.entries, id);
    if r.current.Some? { WithoutMeaning(r.entries, id, r.current.value); }
  }

  lemma {:induction false} RestoredIsConsistent(m: Machine, o: Outcome<Context>, before: Option<string>, now: string)
    requires Consistent(o.home) && ValidMachine(m) && o.result.Ok?
    ensures Consistent(Restored(m, o, before, now).home)
  {
    if before.Some? { SwitchedIsConsistent(m, o.home, before.value, now, o.disk); }
  }

  lemma {:induction false} AddedIsConsistent(m: Machine, h: Home, root: Path, switch: bool, now: string, disk: Disk)
    requires Consistent(h) && ValidMachine(m)
    ensures Consistent(Added(m, h, root, switch, now, disk).home)
  {
    RegisteredIsConsistent(m, h, root, now, disk);
    var o := Registered(m, h, root, now, disk);
    if ActiveId(h).Ok? && o.result.Ok? { RestoredIsConsistent(m, o, ActiveId(h).value, now); }
  }

  lemma {:induction false} RemovedIsConsistent(h: Home, id: string, disk: Disk)
    requires Consistent(h)
    ensures Consistent(Removed(h, id, disk).home)
  {
    RemovalIsConsistent(Listing(h), id);
  }

  lemma {:induction false} CallIsConsistent(m: Machine, h: Home, call: Call)
    requires Consistent(h) && ValidMachine(m)
    ensures Consistent(Apply(m, h, call))
  {
    match call.op
    case Register(root, now) => RegisteredIsConsistent(m, h, root, now, call.disk);
    case Switch(id, now) => SwitchedIsConsistent(m, h, id, now, call.disk);
    case Remove(id) => RemovedIsConsistent(h, id, call.disk);
    case Add(root, switch, now) => AddedIsConsistent(m, h, root, switch, now, call.disk);
  }

  /**
   * From an empty home, whatever was called and however any write failed: if the
   * registry can be read at all, its ids are unique and its current project is listed.
   */
  lemma {:induction false} RunIsConsistent(m: Machine, calls: seq<Call>)
    requires ValidMachine(m)
    ensures Consistent(After(m, EMPTY, calls))
  {
    if calls != [] {
      RunIsConsistent(m, calls[..|calls| - 1]);
      CallIsConsistent(m, After(m, EMPTY, calls[..|calls| - 1]), calls[|calls| - 1]);
    }
  }

  // ---- What a failing save costs ----

  /** The project is listed with this creation time. */
  predicate Lists(h: Home, id: string, created: string) {
    && h.registry.Whole? && !h.blocked
    && Find(h.registry.value.entries, id).Some?
    && Find(h.registry.value.entries, id).value.createdAt == created
  }

  /** Registering the root gets as far as saving the registry. */
  predicate GetsToSave(m: Machine, h: Home, root: Path) {
    Readable(h) && ProjectId(m, root) != REGISTRY_FILE
  }

  /** The write of the call that fails is a save of the registry. */
  predicate SaveFails(m: Machine, h: Home, call: Call) {
    match call.op
    case Register(root, _) => call.disk.writes == 1 && GetsToSave(m, h, root)
    case Switch(id, _) => call.disk.writes == 0 && Resolves(h, id)
    case Remove(id) => call.disk.writes == 0 && id != GLOBAL_PROJECT_ID && Readable(h)
    case Add(root, switch, _) =>
      && GetsToSave(m, h, root)
      && (call.disk.writes == 1
          || (call.disk.writes == 3 && !switch && RestoreSaves(h, ActiveId(h).value, ProjectId(m, root))))
  }

  /** Putting back what was active before a project was added saves the registry once more. */
  predicate RestoreSaves(h: Home, before: Option<string>, added: string) {
    before.None? || (before.value != added && Resolves(h, before.value))
  }

  predicate CutsRegistry(m: Machine, h: Home, call: Call) {
    call.disk.tear.Cut? && SaveFails(m, h, call)
  }

  lemma {:induction false} ActivatedListing(h: Home, ctx: Context, now: string, disk: Disk, id: string, created: string)
    requires Lists(h, id, created)
    ensures Lists(Activated(h, ctx, now, disk).home, id, created) <==> !(disk.writes == 0 && disk.tear.Cut?)
  {
    UpsertMeaning(Listing(h).entries, Entry(ctx.id, Project(ctx.path, ctx.kind), "", ""), now, id);
  }

  lemma {:induction false} RegisteredListing(m: Machine, h: Home, root: Path, now: string, disk: Disk, id: string, created: string)
    requires Lists(h, id, created)
    ensures Lists(Registered(m, h, root, now, disk).home, id, created)
       <==> !(disk.writes == 1 && disk.tear.Cut? && GetsToSave(m, h, root))
  {
    var ctx := ContextForRoot(m, root);
    if disk.writes > 0 && ctx.id != REGISTRY_FILE {
      ActivatedListing(Described(h, ctx), ctx, now, disk.(writes := disk.writes - 1), id, created);
    }
  }

  lemma {:induction false} SwitchedListing(m: Machine, h: Home, target: string, now: string, disk: Disk, id: string, created: string)
    requires Consistent(h) && ValidMachine(m) && Lists(h, id, created)
    ensures Lists(Switched(m, h, target, now, disk).home, id, created)
       <==> !(disk.writes == 0 && disk.tear.Cut? && Resolves(h, target))
  {
    ResolvesExactly(m, h, target);
    if Resolves(h, target) {
      ActivatedListing(h, ContextForId(m, h, target).value.value, now, disk, id, created);
    }
  }

  lemma {:induction false} RemovedListing(h: Home, target: string, disk: Disk, id: string, created: string)
    requires Lists(h, id, created) && target != id
    ensures Lists(Removed(h, target, disk).home, id, created)
       <==> !(disk.writes == 0 && disk.tear.Cut? && target != GLOBAL_PROJECT_ID)
  {
    WithoutMeaning(Listing(h).entries, target, id);
  }

  /** After a complete registration, what resolved still does, and the new project is active. */
  lemma {:induction false} RegisteredHome(m: Machine, h: Home, root: Path, now: string, disk: Disk, other: string)
    requires ValidMachine(m) && GetsToSave(m, h, root) && disk.writes >= 3 && other != ProjectId(m, root)
    ensures
      var o := Registered(m, h, root, now, disk);
      && o.result == Ok(ContextForRoot(m, root)) && o.disk == disk.(writes := disk.writes - 3)
      && o.home.registry.Whole? && o.home.registry.value.current == Some(ProjectId(m, root))
      && Find(o.home.registry.value.entries, other) == Find(Listing(h).entries, other)
      && StoreOf(o.home, other) == StoreOf(h, other)
      && (Resolves(o.home, other) <==> Resolves(h, other))
  {
    var ctx := ContextForRoot(m, root);
    UpsertMeaning(Listing(h).entries, Entry(ctx.id, Project(ctx.path, ctx.kind), "", ""), now, other);
  }

  lemma {:induction false} RegisteredAnswers(m: Machine, h: Home, root: Path, now: string, disk: Disk)
    requires GetsToSave(m, h, root)
    ensures
      var o := Registered(m, h, root, now, disk);
      && (o.result.Ok? <==> disk.writes >= 3)
      && (disk.writes >= 3 ==>
            && o.result == Ok(ContextForRoot(m, root)) && o.disk == disk.(writes := disk.writes - 3)
            && o.home.registry.Whole? && o.home.registry.value.current == Some(ProjectId(m, root))
            && o.home.marker == Some(MarkerText(ProjectId(m, root))))
  {
  }

  lemma {:induction false} AddedIs(m: Machine, h: Home, root: Path, switch: bool, now: string, disk: Disk)
    requires GetsToSave(m, h, root)
    ensures
      var o := Registered(m, h, root, now, disk);
      && ((disk.writes < 3 || switch) ==> Added(m, h, root, switch, now, disk) == o)
      && (disk.writes >= 3 && !switch ==>
            o.result.Ok? && Added(m, h, root, switch, now, disk) == Restored(m, o, ActiveId(h).value, now))
  {
    RegisteredAnswers(m, h, root, now, disk);
  }

  lemma {:induction false} RestoreSavesSame(m: Machine, h: Home, root: Path, now: string, disk: Disk)
    requires ValidMachine(m) && GetsToSave(m, h, root) && disk.writes >= 3
    ensures
      var o := Registered(m, h, root, now, disk);
      var before, added := ActiveId(h).value, ProjectId(m, root);
      o.result.Ok? && (RestoreSaves(o.home, before, added) <==> RestoreSaves(h, before, added))
  {
    RegisteredAnswers(m, h, root, now, disk);
    var before := ActiveId(h).value;
    if before.Some? && before.value != ProjectId(m, root) {
      RegisteredHome(m, h, root, now, disk, before.value);
    }
  }

  lemma {:induction false} RestoredListing(m: Machine, o: Outcome<Context>, before: Option<string>, now: string, id: string, created: string)
    requires Consistent(o.home) && ValidMachine(m) && o.result.Ok? && Lists(o.home, id, created)
    ensures Lists(Restored(m, o, before, now).home, id, created)
       <==> !(o.disk.writes == 0 && o.disk.tear.Cut? && RestoreSaves(o.home, before, o.result.value.id))
  {
    if before.Some? && before.value != o.result.value.id {
      SwitchedListing(m, o.home, before.value, now, o.disk, id, created);
    }
  }

  lemma {:induction false} AddedListing(m: Machine, h: Home, root: Path, switch: bool, now: string, disk: Disk, id: string, created: string)
    requires Consistent(h) && ValidMachine(m) && Lists(h, id, created)
    ensures Lists(Added(m, h, root, switch, now, disk).home, id, created)
       <==> !CutsRegistry(m, h, Call(Add(root, switch, now), disk))
  {
    RegisteredListing(m, h, root, now, disk, id, created);
    RegisteredIsConsistent(m, h, root, now, disk);
    if GetsToSave(m, h, root) { AddedIs(m, h, root, switch, now, disk); }
    if GetsToSave(m, h, root) && disk.writes >= 3 && !switch {
      RestoreSavesSame(m, h, root, now, disk);
      RegisteredAnswers(m, h, root, now, disk);
      RestoredListing(m, Registered(m, h, root, now, disk), ActiveId(h).value, now, id, created);
    }
  }

  lemma {:induction false} CallListing(m: Machine, h: Home, call: Call, id: string, created: string)
    requires Consistent(h) && ValidMachine(m) && Lists(h, id, created) && call.op != Remove(id)
    ensures Lists(Apply(m, h, call), id, created) <==> !CutsRegistry(m, h, call)
  {
    match call.op
    case Register(root, now) => RegisteredListing(m, h, root, now, call.disk, id, created);
    case Switch(target, now) => SwitchedListing(m, h, target, now, call.disk, id, created);
    case Remove(target) => RemovedListing(h, target, call.disk, id, created);
    case Add(root, switch, now) => AddedListing(m, h, root, switch, now, call.disk, id, created);
  }

  /**
   * A listed project keeps its place and its `created_at` at every point of a run that
   * does not remove it exactly when no save of the registry in that run was cut short.
   */
  lemma {:induction false} CreationKeptExactly(m: Machine, h: Home, calls: seq<Call>, id: string, created: string)
    requires ValidMachine(m) && Consistent(h) && Lists(h, id, created)
    requires forall i | 0 <= i < |calls| :: calls[i].op != Remove(id)
    ensures ListedThroughout(m, h, calls, id, created) <==> NoSaveIsCut(m, h, calls)
    ensures Consistent(After(m, h, calls))
  {
    if calls != [] {
      var front, last := calls[..|calls| - 1], calls[|calls| - 1];
      CreationKeptExactly(m, h, front, id, created);
      CallIsConsistent(m, After(m, h, front), last);
      if ListedThroughout(m, h, front, id, created) {
        CallListing(m, After(m, h, front), last, id, created);
      }
    }
  }

  /** After every call of the run, and before the first. */
  predicate ListedThroughout(m: Machine, h: Home, calls: seq<Call>, id: string, created: string) {
    && (calls != [] ==> ListedThroughout(m, h, calls[..|calls| - 1], id, created))
    && Lists(After(m, h, calls), id, created)
  }

  predicate NoSaveIsCut(m: Machine, h: Home, calls: seq<Call>) {
    calls != [] ==>
      && NoSaveIsCut(m, h, calls[..|calls| - 1])
      && !CutsRegistry(m, After(m, h, calls[..|calls| - 1]), calls[|calls| - 1])
  }

  /**
   * The loss at its simplest: one project is registered, and the save that should add a
   * second one runs out of space at once. The registry then loads without an error and
   * lists nothing, and switching back to the first project stamps it anew.
   */
  lemma {:induction false} CutSaveLosesProjects(m: Machine, a: Path, b: Path, t: string, u: string, later: string)
    requires ValidMachine(m) && ProjectId(m, a) != ProjectId(m, b)
    requires ProjectId(m, a) != REGISTRY_FILE && ProjectId(m, b) != REGISTRY_FILE
    ensures
      var first := Registered(m, EMPTY, a, t, Disk(ENOUGH_WRITES, Kept)).home;
      var second := Registered(m, first, b, u, Disk(1, Cut(0)));
      var back := Switched(m, second.home, ProjectId(m, a), later, Disk(ENOUGH_WRITES, Kept));
      && Lists(first, ProjectId(m, a), t)
      && second.result == Err(Io) && Load(second.home) == Ok(NO_PROJECTS)
      && back.result == Ok(ContextForRoot(m, a)) && Lists(back.home, ProjectId(m, a), later)
  {
    var ctx := ContextForRoot(m, a);
    var entry := Entry(ctx.id, Project(ctx.path, ctx.kind), "", "");
    UpsertMeaning([], entry, t, ctx.id);
    UpsertMeaning([], entry, later, ctx.id);
    assert Find(NO_PROJECTS.entries, ctx.id) == None;
  }

  // ---- Runs whose failing writes leave their files as they were ----

  predicate KnownEntries(h: Home) {
    forall e | e in Listing(h).entries :: Known(h, e.id)
  }

  predicate WholeStores(h: Home) {
    forall id | id in h.stores :: h.stores[id].Whole?
  }

  predicate KnownMarker(h: Home) {
    ReadMarker(h.marker).Some? ==> IsCleanId(ReadMarker(h.marker).value) && Known(h, ReadMarker(h.marker).value)
  }

  /** Every id the registry or the marker names can be switched to, even once it is removed. */
  predicate Sound(h: Home) {
    Consistent(h) && !h.registry.Blank? && Readable(h) && WholeStores(h) && KnownEntries(h) && KnownMarker(h)
  }

  lemma {:induction false} ActivatedIsSound(h: Home, ctx: Context, now: string, disk: Disk)
    requires Sound(h) && IsCleanId(ctx.id) && ctx.id != REGISTRY_FILE && Known(h, ctx.id)
    requires disk.tear.Kept? || disk.writes >= 2
    ensures Sound(Activated(h, ctx, now, disk).home)
  {
    ActivatedIsConsistent(h, ctx, now, disk);
    UpsertMembers(Listing(h), ctx, now);
    CleanIdReadsBack(ctx.id);
  }

  lemma {:induction false} RegisteredIsSound(m: Machine, h: Home, root: Path, now: string, disk: Disk)
    requires Sound(h) && ValidMachine(m) && (disk.tear.Kept? || disk.writes >= 3)
    requires !TakesRegistryPath(m, h, root)
    ensures Sound(Registered(m, h, root, now, disk).home)
    ensures Registered(m, h, root, now, disk).home.stores.Keys >= h.stores.Keys
  {
    ProjectIdIsClean(m, root);
    var ctx := ContextForRoot(m, root);
    if disk.writes > 0 && ctx.id != REGISTRY_FILE {
      assert Sound(Described(h, ctx));
      ActivatedIsSound(Described(h, ctx), ctx, now, disk.(writes := disk.writes - 1));
    }
  }

  lemma {:induction false} SwitchedIsSound(m: Machine, h: Home, id: string, now: string, disk: Disk)
    requires Sound(h) && ValidMachine(m) && (disk.tear.Kept? || disk.writes >= 2)
    ensures Sound(Switched(m, h, id, now, disk).home)
    ensures Switched(m, h, id, now, disk).result == Err(UnknownProject)
       <==> !Known(h, id) && !(id == REGISTRY_FILE && !h.registry.Missing?)
  {
    FoundIsMember(Listing(h).entries, id);
    ResolvesExactly(m, h, id);
    if Known(h, id) {
      ActivatedIsSound(h, ContextForId(m, h, id).value.value, now, disk);
    }
  }

  lemma {:induction false} RemovedIsSound(h: Home, id: string, disk: Disk)
    requires Sound(h) && (disk.tear.Kept? || disk.writes >= 2)
    ensures Sound(Removed(h, id, disk).home)
  {
    RemovalIsConsistent(Listing(h), id);
    WithoutMembers(Listing(h).entries, id);
  }

  lemma {:induction false} ActiveIsKnown(h: Home)
    requires Sound(h)
    ensures ActiveId(h).Ok?
    ensures ActiveId(h).value.Some? ==> Known(h, ActiveId(h).value.value) && Resolves(h, ActiveId(h).value.value)
  {
    if Listing(h).current.Some? { FoundIsMember(Listing(h).entries, Listing(h).current.value); }
  }

  lemma {:induction false} RestoredIsSound(m: Machine, o: Outcome<Context>, before: Option<string>, now: string)
    requires Sound(o.home) && ValidMachine(m) && o.result.Ok? && (o.disk.tear.Kept? || o.disk.writes >= 2)
    requires before.Some? ==> Known(o.home, before.value)
    ensures Sound(Restored(m, o, before, now).home)
    ensures Restored(m, o, before, now).result == o.result || Restored(m, o, before, now).result == Err(Io)
  {
    if before.Some? {
      SwitchedIsSound(m, o.home, before.value, now, o.disk);
      ResolvesExactly(m, o.home, before.value);
    }
  }

  lemma {:induction false} AddedIsSound(m: Machine, h: Home, root: Path, switch: bool, now: string, disk: Disk)
    requires Sound(h) && ValidMachine(m) && (disk.tear.Kept? || disk.writes >= ENOUGH_WRITES)
    requires !TakesRegistryPath(m, h, root)
    ensures
      var o := Added(m, h, root, switch, now, disk);
      Sound(o.home) && (o.result == Ok(ContextForRoot(m, root)) || o.result == Err(Io))
  {
    ActiveIsKnown(h);
    if GetsToSave(m, h, root) { RegisteredAnswers(m, h, root, now, disk); }
    RegisteredIsSound(m, h, root, now, disk);
    var o := Registered(m, h, root, now, disk);
    if o.result.Ok? { RestoredIsSound(m, o, ActiveId(h).value, now); }
  }

  // ---- A store on the registry's path ----

  /** Registering the root puts a directory where the registry is looked for. */
  predicate TakesRegistryPath(m: Machine, h: Home, root: Path) {
    ProjectId(m, root) == REGISTRY_FILE && h.registry.Missing? && !h.blocked
  }

  predicate CallTakesRegistryPath(m: Machine, h: Home, call: Call) {
    (call.op.Register? || call.op.Add?) && TakesRegistryPath(m, h, call.op.root)
  }

  predicate TakesRegistryPathAt(m: Machine, h: Home, calls: seq<Call>, k: nat)
    requires k < |calls|
  {
    CallTakesRegistryPath(m, After(m, h, calls[..k]), calls[k])
  }

  predicate SomeTakesRegistryPath(m: Machine, h: Home, calls: seq<Call>) {
    exists k | 0 <= k < |calls| :: TakesRegistryPathAt(m, h, calls, k)
  }

  lemma {:induction false} SomeTakesUpTo(m: Machine, h: Home, calls: seq<Call>)
    requires calls != []
    ensures
      var front, last := calls[..|calls| - 1], calls[|calls| - 1];
      SomeTakesRegistryPath(m, h, calls) <==>
        SomeTakesRegistryPath(m, h, front) || CallTakesRegistryPath(m, After(m, h, front), last)
  {
    var front := calls[..|calls| - 1];
    forall k | 0 <= k < |front|
      ensures TakesRegistryPathAt(m, h, calls, k) <==> TakesRegistryPathAt(m, h, front, k)
    {
      assert front[..k] == calls[..k];
    }
    assert TakesRegistryPathAt(m, h, calls, |calls| - 1)
      <==> CallTakesRegistryPath(m, After(m, h, front), calls[|calls| - 1]);
  }

  /** A call is refused. */
  predicate Failing(m: Machine, h: Home, call: Call) {
    match call.op
    case Register(root, now) => Registered(m, h, root, now, call.disk).result.Err?
    case Switch(id, now) => Switched(m, h, id, now, call.disk).result.Err?
    case Remove(id) => Removed(h, id, call.disk).result.Err?
    case Add(root, switch, now) => Added(m, h, root, switch, now, call.disk).result.Err?
  }

  lemma {:induction false} RegisteredBlocks(m: Machine, h: Home, root: Path, now: string, disk: Disk)
    requires Consistent(h)
    ensures
      var o := Registered(m, h, root, now, disk);
      && (o.home.blocked <==> h.blocked || TakesRegistryPath(m, h, root))
      && (h.blocked || ProjectId(m, root) == REGISTRY_FILE ==> o.result == Err(Io))
  {
  }

  lemma {:induction false} RestoredBlocks(m: Machine, o: Outcome<Context>, before: Option<string>, now: string)
    requires o.result.Ok?
    ensures Restored(m, o, before, now).home.blocked == o.home.blocked
  {
  }

  lemma {:induction false} ApplyBlocks(m: Machine, h: Home, call: Call)
    requires Consistent(h)
    ensures Apply(m, h, call).blocked <==> h.blocked || CallTakesRegistryPath(m, h, call)
    ensures h.blocked ==> Failing(m, h, call)
  {
    match call.op
    case Register(root, now) => RegisteredBlocks(m, h, root, now, call.disk);
    case Switch(id, now) =>
    case Remove(id) =>
    case Add(root, switch, now) =>
      RegisteredBlocks(m, h, root, now, call.disk);
      var o := Registered(m, h, root, now, call.disk);
      if ActiveId(h).Ok? && o.result.Ok? { RestoredBlocks(m, o, ActiveId(h).value, now); }
  }

  /** However writes fail, the path is taken exactly when some call took it before the first save. */
  lemma {:induction false} BlockedExactly(m: Machine, h: Home, calls: seq<Call>)
    requires ValidMachine(m) && Consistent(h)
    ensures Consistent(After(m, h, calls))
    ensures After(m, h, calls).blocked <==> h.blocked || SomeTakesRegistryPath(m, h, calls)
  {
    if calls != [] {
      var front, last := calls[..|calls| - 1], calls[|calls| - 1];
      BlockedExactly(m, h, front);
      CallIsConsistent(m, After(m, h, front), last);
      ApplyBlocks(m, After(m, h, front), last);
      SomeTakesUpTo(m, h, calls);
    }
  }

  /**
   * `registry.json` in the home directory as the first root: however its writes go, it is
   * refused after its store was created, and from then on every call fails.
   */
  lemma {:induction false} RegistryRootStrandsHome(m: Machine, now: string, disk: Disk, calls: seq<Call>, call: Call)
    requires ValidMachine(m) && forall name | name in m.home :: IsComponent(name)
    ensures
      var o := Registered(m, EMPTY, m.home + ["registry.json"], now, disk);
      && o.result == Err(Io)
      && Failing(m, After(m, o.home, calls), call) && ActiveId(After(m, o.home, calls)) == Err(Io)
  {
    var root := m.home + [REGISTRY_FILE];
    assert IsComponent(REGISTRY_FILE);
    RegistryIdExactly(m, root);
    RegisteredBlocks(m, EMPTY, root, now, disk);
    RegisteredIsConsistent(m, EMPTY, root, now, disk);
    var h := Registered(m, EMPTY, root, now, disk).home;
    BlockedExactly(m, h, calls);
    ApplyBlocks(m, After(m, h, calls), call);
  }

  /**
   * From an empty home, wherever each call was interrupted, as long as no file was cut
   * short: every id the registry or the marker names can still be switched to, exactly
   * unless some call took the registry's path.
   */
  lemma {:induction false} RunIsSound(m: Machine, calls: seq<Call>)
    requires ValidMachine(m) && forall i | 0 <= i < |calls| :: Uncut(calls[i])
    ensures Sound(After(m, EMPTY, calls)) <==> !SomeTakesRegistryPath(m, EMPTY, calls)
  {
    BlockedExactly(m, EMPTY, calls);
    if calls != [] && !After(m, EMPTY, calls).blocked {
      var front, last := calls[..|calls| - 1], calls[|calls| - 1];
      RunIsSound(m, front);
      SomeTakesUpTo(m, EMPTY, calls);
      CallIsSound(m, After(m, EMPTY, front), last);
    }
  }

  lemma {:induction false} CallIsSound(m: Machine, h: Home, call: Call)
    requires Sound(h) && ValidMachine(m) && Uncut(call) && !CallTakesRegistryPath(m, h, call)
    ensures Sound(Apply(m, h, call))
  {
    match call.op
    case Register(root, now) => RegisteredIsSound(m, h, root, now, call.disk);
    case Switch(id, now) => SwitchedIsSound(m, h, id, now, call.disk);
    case Remove(id) => RemovedIsSound(h, id, call.disk);
    case Add(root, switch, now) => AddedIsSound(m, h, root, switch, now, call.disk);
  }

  // ---- What one failing write costs a home in order ----

  /** The write of the call that fails is the metadata of this id, and it is cut short. */
  predicate CutsMetadata(m: Machine, call: Call, id: string) {
    && call.disk.writes == 0 && call.disk.tear.Cut?
    && (call.op.Register? || call.op.Add?) && ProjectId(m, call.op.root) == id
  }

  lemma {:induction false} ActivatedResolves(h: Home, ctx: Context, now: string, disk: Disk, id: string)
    requires Readable(h) && Known(h, id)
    ensures
      var h' := Activated(h, ctx, now, disk).home;
      Known(h', id) && (Resolves(h', id) <==> !(disk.writes == 0 && disk.tear.Cut? && disk.tear.length > 0))
  {
  }

  lemma {:induction false} RegisteredResolves(m: Machine, h: Home, root: Path, now: string, disk: Disk, id: string)
    requires Consistent(h) && Readable(h) && Known(h, id)
    ensures
      var h' := Registered(m, h, root, now, disk).home;
      Resolves(h', id) <==>
        && !(disk.writes == 1 && disk.tear.Cut? && disk.tear.length > 0 && GetsToSave(m, h, root))
        && !(disk.writes == 0 && disk.tear.Cut? && ProjectId(m, root) == id && Find(Listing(h).entries, id).None?)
        && !TakesRegistryPath(m, h, root)
    ensures disk.writes > 0 && GetsToSave(m, h, root) ==> Known(Registered(m, h, root, now, disk).home, id)
  {
    var ctx := ContextForRoot(m, root);
    if disk.writes > 0 && ctx.id != REGISTRY_FILE {
      ActivatedResolves(Described(h, ctx), ctx, now, disk.(writes := disk.writes - 1), id);
    }
  }

  lemma {:induction false} SwitchedResolves(m: Machine, h: Home, target: string, now: string, disk: Disk, id: string)
    requires Consistent(h) && ValidMachine(m) && Readable(h) && Known(h, id)
    ensures Resolves(Switched(m, h, target, now, disk).home, id)
       <==> !(disk.writes == 0 && disk.tear.Cut? && disk.tear.length > 0 && Resolves(h, target))
  {
    ResolvesExactly(m, h, target);
    if Resolves(h, target) {
      ActivatedResolves(h, ContextForId(m, h, target).value.value, now, disk, id);
    }
  }

  lemma {:induction false} AddedResolves(m: Machine, h: Home, root: Path, switch: bool, now: string, disk: Disk, id: string)
    requires Consistent(h) && ValidMachine(m) && Readable(h) && Known(h, id)
    ensures
      var call := Call(Add(root, switch, now), disk);
      Resolves(Added(m, h, root, switch, now, disk).home, id) <==>
        && !(CutsRegistry(m, h, call) && disk.tear.length > 0)
        && !(CutsMetadata(m, call, id) && Find(Listing(h).entries, id).None?)
        && !CallTakesRegistryPath(m, h, call)
  {
    RegisteredResolves(m, h, root, now, disk, id);
    RegisteredIsConsistent(m, h, root, now, disk);
    RegisteredBlocks(m, h, root, now, disk);
    if GetsToSave(m, h, root) { AddedIs(m, h, root, switch, now, disk); }
    if GetsToSave(m, h, root) && disk.writes >= 3 && !switch {
      RestoreSavesSame(m, h, root, now, disk);
      RegisteredAnswers(m, h, root, now, disk);
      RestoredResolves(m, Registered(m, h, root, now, disk), ActiveId(h).value, now, id);
    }
  }

  lemma {:induction false} RestoredResolves(m: Machine, o: Outcome<Context>, before: Option<string>, now: string, id: string)
    requires Consistent(o.home) && ValidMachine(m) && o.result.Ok? && Readable(o.home) && Known(o.home, id)
    ensures Resolves(Restored(m, o, before, now).home, id)
       <==> !(o.disk.writes == 0 && o.disk.tear.Cut? && o.disk.tear.length > 0 && RestoreSaves(o.home, before, o.result.value.id))
  {
    if before.Some? && before.value != o.result.value.id {
      SwitchedResolves(m, o.home, before.value, now, o.disk, id);
    }
  }

  /**
   * An id with a described store can be switched to after the next call too, exactly
   * unless that call garbles the registry, cuts this id's own metadata while the registry
   * does not list it, or takes the registry's path. A blanked registry does not take it
   * away.
   */
  lemma {:induction false} SwitchableExactly(m: Machine, h: Home, call: Call, id: string)
    requires Consistent(h) && ValidMachine(m) && Readable(h) && Known(h, id)
    ensures Resolves(Apply(m, h, call), id) <==>
      && !(CutsRegistry(m, h, call) && call.disk.tear.length > 0)
      && !(CutsMetadata(m, call, id) && Find(Listing(h).entries, id).None?)
      && !CallTakesRegistryPath(m, h, call)
  {
    match call.op
    case Register(root, now) => RegisteredResolves(m, h, root, now, call.disk, id);
    case Switch(target, now) => SwitchedResolves(m, h, target, now, call.disk, id);
    case Remove(target) =>
    case Add(root, switch, now) => AddedResolves(m, h, root, switch, now, call.disk, id);
  }

  lemma {:induction false} AddedCurrent(m: Machine, h: Home, root: Path, switch: bool, now: string, disk: Disk)
    requires Consistent(h) && ValidMachine(m) && Listing(h).current.Some?
    ensures Listing(Added(m, h, root, switch, now, disk).home).current.Some?
       <==> !CutsRegistry(m, h, Call(Add(root, switch, now), disk))
  {
    RegisteredIsConsistent(m, h, root, now, disk);
    if GetsToSave(m, h, root) { AddedIs(m, h, root, switch, now, disk); }
    if GetsToSave(m, h, root) && disk.writes >= 3 && !switch {
      RestoreSavesSame(m, h, root, now, disk);
      RegisteredAnswers(m, h, root, now, disk);
      RestoredCurrent(m, Registered(m, h, root, now, disk), Listing(h).current.value, now);
    }
  }

  lemma {:induction false} RestoredCurrent(m: Machine, o: Outcome<Context>, active: string, now: string)
    requires Consistent(o.home) && ValidMachine(m) && o.result.Ok? && Listing(o.home).current.Some?
    ensures Listing(Restored(m, o, Some(active), now).home).current.Some?
       <==> !(o.disk.writes == 0 && o.disk.tear.Cut? && RestoreSaves(o.home, Some(active), o.result.value.id))
  {
    ResolvesExactly(m, o.home, active);
  }

  /** Something stays current after any call but its removal, exactly unless a save is cut short. */
  lemma {:induction false} CurrentKeptExactly(m: Machine, h: Home, call: Call)
    requires Consistent(h) && ValidMachine(m) && Listing(h).current.Some?
    requires call.op != Remove(Listing(h).current.value)
    ensures Listing(Apply(m, h, call)).current.Some? <==> !CutsRegistry(m, h, call)
  {
    match call.op
    case Register(root, now) =>
    case Switch(id, now) => ResolvesExactly(m, h, id);
    case Remove(id) =>
    case Add(root, switch, now) => AddedCurrent(m, h, root, switch, now, call.disk);
  }

  // ---- Completed runs ----

  /** The marker file mirrors the registry. */
  predicate Mirrors(h: Home) {
    ReadMarker(h.marker) == Listing(h).current && (Listing(h).current == None ==> h.marker == None)
  }

  predicate BackedBy(h: Home, id: string, info: Project) {
    if id in h.stores then h.stores[id] == Whole(Metadata(id, info.path, info.kind)) else id == GLOBAL_PROJECT_ID
  }

  /** Every registered project can be rebuilt from its own store, except the reserved one. */
  predicate Backed(h: Home) {
    forall e | e in Listing(h).entries :: BackedBy(h, e.id, e.info)
  }

  predicate InOrder(h: Home) {
    Sound(h) && Mirrors(h) && Backed(h)
  }

  lemma {:induction false} ActivatedCompletes(h: Home, ctx: Context, now: string, disk: Disk)
    requires Readable(h) && IsCleanId(ctx.id) && disk.writes >= 2
    requires Backed(h) && BackedBy(h, ctx.id, Project(ctx.path, ctx.kind))
    ensures Mirrors(Activated(h, ctx, now, disk).home) && Backed(Activated(h, ctx, now, disk).home)
  {
    CleanIdReadsBack(ctx.id);
    UpsertMembers(Listing(h), ctx, now);
  }

  /** After an upsert the only row with the id is the one written. */
  lemma {:induction false} ReplacedRow(r: Registry, ctx: Context, now: string)
    requires UniqueIds(r.entries)
    ensures forall e | e in Selecting(r, ctx, now).entries ::
              if e.id == ctx.id then e.info == Project(ctx.path, ctx.kind) else e in r.entries
  {
  }

  lemma {:induction false} RegisteredCompletes(m: Machine, h: Home, root: Path, now: string, disk: Disk)
    requires Sound(h) && ValidMachine(m) && Backed(h) && disk.writes >= 3 && GetsToSave(m, h, root)
    ensures Mirrors(Registered(m, h, root, now, disk).home) && Backed(Registered(m, h, root, now, disk).home)
  {
    ProjectIdIsClean(m, root);
    var ctx := ContextForRoot(m, root);
    // An entry of the same id is about to be replaced; every other one keeps its store.
    CleanIdReadsBack(ctx.id);
    ReplacedRow(Listing(h), ctx, now);
  }

  lemma {:induction false} SwitchedCompletes(m: Machine, h: Home, id: string, now: string, disk: Disk)
    requires InOrder(h) && ValidMachine(m) && disk.writes >= 2
    ensures Mirrors(Switched(m, h, id, now, disk).home) && Backed(Switched(m, h, id, now, disk).home)
  {
    FoundIsMember(Listing(h).entries, id);
    ResolvesExactly(m, h, id);
    if Resolves(h, id) {
      ActivatedCompletes(h, ContextForId(m, h, id).value.value, now, disk);
    }
  }

  lemma {:induction false} RemovedCompletes(h: Home, id: string, disk: Disk)
    requires InOrder(h) && disk.writes >= 2
    ensures Mirrors(Removed(h, id, disk).home) && Backed(Removed(h, id, disk).home)
  {
    WithoutMembers(Listing(h).entries, id);
  }

  lemma {:induction false} AddedCompletes(m: Machine, h: Home, root: Path, switch: bool, now: string, disk: Disk)
    requires InOrder(h) && ValidMachine(m) && disk.writes >= ENOUGH_WRITES && GetsToSave(m, h, root)
    ensures Mirrors(Added(m, h, root, switch, now, disk).home) && Backed(Added(m, h, root, switch, now, disk).home)
  {
    RegisteredIsSound(m, h, root, now, disk);
    RegisteredCompletes(m, h, root, now, disk);
    RegisteredAnswers(m, h, root, now, disk);
    if !switch { RestoredCompletes(m, Registered(m, h, root, now, disk), ActiveId(h).value, now); }
  }

  lemma {:induction false} RestoredCompletes(m: Machine, o: Outcome<Context>, before: Option<string>, now: string)
    requires InOrder(o.home) && ValidMachine(m) && o.result.Ok? && o.disk.writes >= 2
    ensures Mirrors(Restored(m, o, before, now).home) && Backed(Restored(m, o, before, now).home)
  {
    if before.Some? { SwitchedCompletes(m, o.home, before.value, now, o.disk); }
  }

  lemma {:induction false} CallCompletes(m: Machine, h: Home, call: Call)
    requires InOrder(h) && ValidMachine(m) && Completed(call) && !CallTakesRegistryPath(m, h, call)
    ensures InOrder(Apply(m, h, call))
  {
    match call.op
    case Register(root, now) =>
      if GetsToSave(m, h, root) {
        RegisteredIsSound(m, h, root, now, call.disk);
        RegisteredCompletes(m, h, root, now, call.disk);
      }
    case Switch(id, now) =>
      SwitchedIsSound(m, h, id, now, call.disk);
      SwitchedCompletes(m, h, id, now, call.disk);
    case Remove(id) =>
      RemovedIsSound(h, id, call.disk);
      RemovedCompletes(h, id, call.disk);
    case Add(root, switch, now) =>
      if GetsToSave(m, h, root) {
        AddedIsSound(m, h, root, switch, now, call.disk);
        AddedCompletes(m, h, root, switch, now, call.disk);
      } else {
        assert Apply(m, h, call) == h;
      }
  }

  /**
   * From an empty home, after any completed operations, the marker mirrors the registry,
   * exactly unless some call took the registry's path.
   */
  lemma {:induction false} RunMirrors(m: Machine, calls: seq<Call>)
    requires ValidMachine(m)
    requires forall i | 0 <= i < |calls| :: Completed(calls[i])
    ensures InOrder(After(m, EMPTY, calls)) <==> !SomeTakesRegistryPath(m, EMPTY, calls)
  {
    BlockedExactly(m, EMPTY, calls);
    if calls != [] && !After(m, EMPTY, calls).blocked {
      var front, last := calls[..|calls| - 1], calls[|calls| - 1];
      RunMirrors(m, front);
      SomeTakesUpTo(m, EMPTY, calls);
      CallCompletes(m, After(m, EMPTY, front), last);
    }
  }

  /**
   * Removing a project answers whether it was listed and whether it was current, clears
   * the selection exactly in the latter case, and loses nothing: a later switch finds
   * the same root and kind.
   */
  lemma {:induction false} RemovalIsRecoverable(m: Machine, calls: seq<Call>, id: string, disk: Disk, now: string)
    requires ValidMachine(m)
    requires forall i | 0 <= i < |calls| :: Completed(calls[i])
    requires disk.writes >= ENOUGH_WRITES && id != GLOBAL_PROJECT_ID
    ensures
      var h := After(m, EMPTY, calls);
      var o := Removed(h, id, disk);
      if SomeTakesRegistryPath(m, EMPTY, calls) then o.result == Err(Io)
      else
        && o.result == Ok(Removal(Find(Listing(h).entries, id).Some?, Listing(h).current == Some(id)))
        && Find(Listing(o.home).entries, id) == None
        && (Listing(h).current == Some(id) ==> ActiveId(o.home) == Ok(None))
        && (Listing(h).current != Some(id) ==> ActiveId(o.home) == ActiveId(h))
        && (Find(Listing(h).entries, id).Some? ==>
              && ContextForId(m, h, id).Ok? && ContextForId(m, h, id).value.Some?
              && Switched(m, o.home, id, now, disk).result == Ok(ContextForId(m, h, id).value.value))
  {
    RunMirrors(m, calls);
    BlockedExactly(m, EMPTY, calls);
    if !SomeTakesRegistryPath(m, EMPTY, calls) { RemovalOf(m, After(m, EMPTY, calls), id, disk, now); }
  }

  lemma {:induction false} RemovalOf(m: Machine, h: Home, id: string, disk: Disk, now: string)
    requires ValidMachine(m) && InOrder(h) && disk.writes >= ENOUGH_WRITES && id != GLOBAL_PROJECT_ID
    ensures
      var o := Removed(h, id, disk);
      && o.result == Ok(Removal(Find(Listing(h).entries, id).Some?, Listing(h).current == Some(id)))
      && Find(Listing(o.home).entries, id) == None
      && (Listing(h).current == Some(id) ==> ActiveId(o.home) == Ok(None))
      && (Listing(h).current != Some(id) ==> ActiveId(o.home) == ActiveId(h))
      && (Find(Listing(h).entries, id).Some? ==>
            && ContextForId(m, h, id).Ok? && ContextForId(m, h, id).value.Some?
            && Switched(m, o.home, id, now, disk).result == Ok(ContextForId(m, h, id).value.value))
  {
    WithoutMeaning(Listing(h).entries, id, id);
    WithoutShortens(Listing(h).entries, id);
    FoundIsMember(Listing(h).entries, id);
  }

  /** Registering again refreshes the opening time and the root but not the creation time. */
  lemma {:induction false} RegisterStamps(m: Machine, h: Home, root: Path, now: string, disk: Disk)
    requires GetsToSave(m, h, root) && disk.writes >= 3
    ensures
      var id := ProjectId(m, root);
      var found := Find(Listing(Registered(m, h, root, now, disk).home).entries, id);
      && found.Some? && found.value.info.path == root && found.value.lastOpenedAt == now
      && (found.value.info.kind == Global <==> id == "_global")
      && found.value.createdAt == (match Find(Listing(h).entries, id) case Some(e) => e.createdAt case None => now)
  {
    var ctx := ContextForRoot(m, root);
    UpsertMeaning(Listing(h).entries, Entry(ctx.id, Project(ctx.path, ctx.kind), "", ""), now, ctx.id);
  }

  // ---- `project add` ----

  /** What was active can be put back after adding a project. */
  predicate PutsBack(h: Home, added: string)
    requires Readable(h)
  {
    match ActiveId(h).value
    case None => true
    case Some(active) => active == added || Resolves(h, active)
  }

  lemma {:induction false} SwitchedBack(m: Machine, h: Home, id: string, now: string, disk: Disk)
    requires Consistent(h) && ValidMachine(m) && Readable(h) && disk.writes >= 2
    ensures
      var o := Switched(m, h, id, now, disk);
      && (o.result.Ok? <==> Resolves(h, id))
      && (Resolves(h, id) ==> ActiveId(o.home) == Ok(Some(id)) && ReadMarker(o.home.marker) == Some(id))
  {
    ResolvesExactly(m, h, id);
    if Resolves(h, id) { CleanIdReadsBack(id); }
  }

  lemma {:induction false} SwitchedKeepsEntry(m: Machine, h: Home, target: string, now: string, disk: Disk, id: string)
    requires Consistent(h) && ValidMachine(m) && Resolves(h, target) && target != id && disk.writes >= 1
    ensures Find(Listing(Switched(m, h, target, now, disk).home).entries, id) == Find(Listing(h).entries, id)
  {
    ResolvesExactly(m, h, target);
    var ctx := ContextForId(m, h, target).value.value;
    UpsertMeaning(Listing(h).entries, Entry(ctx.id, Project(ctx.path, ctx.kind), "", ""), now, id);
  }

  /**
   * On every home that calls can leave, files cut short or not: an `add` whose writes go
   * through succeeds exactly when the registry is readable, the root's store is not the
   * registry's path, and what was active can be put back, or `--switch` was given; then
   * the active id is the one it should be.
   */
  lemma {:induction false} AddSucceedsExactly(m: Machine, h: Home, root: Path, switch: bool, now: string, disk: Disk)
    requires Consistent(h) && ValidMachine(m) && disk.writes >= ENOUGH_WRITES
    ensures
      var o, id := Added(m, h, root, switch, now, disk), ProjectId(m, root);
      && (o.result.Ok? <==> Readable(h) && id != REGISTRY_FILE && (switch || PutsBack(h, id)))
      && (o.result.Ok? ==>
            && o.result == Ok(ContextForRoot(m, root))
            && ActiveId(o.home) == (if switch then Ok(Some(id)) else ActiveId(h))
            && ActiveId(o.home) == Ok(ReadMarker(o.home.marker))
            && Find(Listing(o.home).entries, id).Some?)
  {
    RegisteredBlocks(m, h, root, now, disk);
    if GetsToSave(m, h, root) { AddRestoresExactly(m, h, root, switch, now, disk); }
  }

  lemma {:induction false} AddRestoresExactly(m: Machine, h: Home, root: Path, switch: bool, now: string, disk: Disk)
    requires Consistent(h) && ValidMachine(m) && disk.writes >= ENOUGH_WRITES && GetsToSave(m, h, root)
    ensures
      var o, id := Added(m, h, root, switch, now, disk), ProjectId(m, root);
      && (o.result.Ok? <==> switch || PutsBack(h, id))
      && (o.result.Ok? ==>
            && o.result == Ok(ContextForRoot(m, root))
            && ActiveId(o.home) == (if switch then Ok(Some(id)) else ActiveId(h))
            && ActiveId(o.home) == Ok(ReadMarker(o.home.marker))
            && Find(Listing(o.home).entries, id).Some?)
  {
    var id := ProjectId(m, root);
    ProjectIdIsClean(m, root);
    CleanIdReadsBack(id);
    var o := Registered(m, h, root, now, disk);
    RegisterStamps(m, h, root, now, disk);
    RegisteredAnswers(m, h, root, now, disk);
    AddedIs(m, h, root, switch, now, disk);
    RegisteredIsConsistent(m, h, root, now, disk);
    var before := ActiveId(h).value;
    if !switch { RestoredExactly(m, o, before, now); }
    if before.Some? && before.value != id { RegisteredHome(m, h, root, now, disk, before.value); }
  }

  lemma {:induction false} RestoredExactly(m: Machine, o: Outcome<Context>, before: Option<string>, now: string)
    requires Consistent(o.home) && ValidMachine(m) && o.result.Ok? && o.disk.writes >= 2 && o.home.registry.Whole?
    requires
      var id := o.result.value.id;
      && o.home.registry.value.current == Some(id) && ReadMarker(o.home.marker) == Some(id)
      && Find(o.home.registry.value.entries, id).Some?
    ensures
      var r := Restored(m, o, before, now);
      && (r.result.Ok? <==> before.None? || before.value == o.result.value.id || Resolves(o.home, before.value))
      && (r.result.Ok? ==>
            && r.result == o.result && ActiveId(r.home) == Ok(before) && ReadMarker(r.home.marker) == before
            && Find(Listing(r.home).entries, o.result.value.id).Some?)
  {
    if before.Some? && before.value != o.result.value.id {
      SwitchedBack(m, o.home, before.value, now, o.disk);
      if Resolves(o.home, before.value) {
        SwitchedKeepsEntry(m, o.home, before.value, now, o.disk, o.result.value.id);
      }
    }
  }

  /**
   * In particular, after any run whose failing writes left their files as they were,
   * `add` never fails for want of the previously active project: with every write going
   * through it fails exactly when its own or an earlier root's store is the registry's
   * path.
   */
  lemma {:induction false} AddIsNonDisruptive(m: Machine, calls: seq<Call>, root: Path, switch: bool, now: string, disk: Disk)
    requires ValidMachine(m) && forall i | 0 <= i < |calls| :: Uncut(calls[i])
    ensures
      var h := After(m, EMPTY, calls);
      var o := Added(m, h, root, switch, now, disk);
      && (disk.tear.Kept? ==> o.result == Ok(ContextForRoot(m, root)) || o.result == Err(Io))
      && (disk.writes >= ENOUGH_WRITES ==>
            && (o.result == Ok(ContextForRoot(m, root))
                <==> ProjectId(m, root) != REGISTRY_FILE && !SomeTakesRegistryPath(m, EMPTY, calls))
            && (o.result.Ok? ==>
                  ActiveId(o.home) == (if switch then Ok(Some(ProjectId(m, root))) else ActiveId(h))))
  {
    RunIsSound(m, calls);
    BlockedExactly(m, EMPTY, calls);
    var h := After(m, EMPTY, calls);
    RegisteredBlocks(m, h, root, now, disk);
    if !h.blocked {
      ActiveIsKnown(h);
      if disk.tear.Kept? && !TakesRegistryPath(m, h, root) { AddedIsSound(m, h, root, switch, now, disk); }
    }
    if disk.writes >= ENOUGH_WRITES { AddSucceedsExactly(m, h, root, switch, now, disk); }
  }

  /**
   * A marker cut short can do it: one project is registered but its marker write stops
   * after one character, the project is removed but its marker cannot be deleted, and
   * then adding another project fails because the one-character id is unknown.
   */
  lemma {:induction false} CutMarkerStrandsAdd(m: Machine, a: Path, b: Path, t: string, u: string)
    requires ValidMachine(m) && |ProjectId(m, a)| >= 2 && ProjectId(m, a) != GLOBAL_PROJECT_ID
    requires ProjectId(m, b) != ProjectId(m, a)[..1]
    requires ProjectId(m, a) != REGISTRY_FILE && ProjectId(m, b) != REGISTRY_FILE
    ensures
      var first := Registered(m, EMPTY, a, t, Disk(2, Cut(1))).home;
      var second := Removed(first, ProjectId(m, a), Disk(1, Kept)).home;
      Added(m, second, b, false, u, Disk(ENOUGH_WRITES, Kept)).result == Err(UnknownProject)
  {
    var id := ProjectId(m, a);
    CutMarkerHome(m, a, t);
    var second := Removed(Registered(m, EMPTY, a, t, Disk(2, Cut(1))).home, id, Disk(1, Kept)).home;
    var disk := Disk(ENOUGH_WRITES, Kept);
    AddedIs(m, second, b, false, u, disk);
    RegisteredAnswers(m, second, b, u, disk);
    RegisteredHome(m, second, b, u, disk, id[..1]);
  }

  /** The home those two calls leave: nothing listed, and a marker that names one character. */
  lemma {:induction false} CutMarkerHome(m: Machine, a: Path, t: string)
    requires ValidMachine(m) && |ProjectId(m, a)| >= 2 && ProjectId(m, a) != GLOBAL_PROJECT_ID
    requires ProjectId(m, a) != REGISTRY_FILE
    ensures
      var id := ProjectId(m, a);
      var h := Removed(Registered(m, EMPTY, a, t, Disk(2, Cut(1))).home, id, Disk(1, Kept)).home;
      && h.registry == Whole(NO_PROJECTS) && !h.blocked && ActiveId(h) == Ok(Some(id[..1]))
      && Find(Listing(h).entries, id[..1]) == None && StoreOf(h, id[..1]) == Missing && id[..1] != GLOBAL_PROJECT_ID
  {
    var id := ProjectId(m, a);
    ProjectIdIsClean(m, a);
    TornMarkerReads(None, id, Cut(1));
    var first := Registered(m, EMPTY, a, t, Disk(2, Cut(1))).home;
    var ctx := ContextForRoot(m, a);
    var plain := Entry(id, Project(ctx.path, ctx.kind), "", "");
    var entry := Stamped(plain, None, t);
    var none: seq<Entry<Project>> := [];
    assert Upsert(none, plain, t) == none + [entry] == [entry];
    assert first.registry == Whole(Registry([entry], Some(id)));
    assert [entry][1..] == [] && Without([entry], id) == [];
    assert |id[..1]| == 1 && |GLOBAL_PROJECT_ID| == 7 && |REGISTRY_FILE| == 13;
  }

  function RootOf(m: Machine, h: Home, id: string): Option<Path> {
    match ContextForId(m, h, id)
    case Ok(Some(ctx)) => Some(ctx.path)
    case _ => None
  }

  /**
   * `add` without `--switch` keeps the active id but not always what it stands for: the
   * active root is unchanged exactly when the new root has another id or is that root, and
   * its store is not the path of a registry that is yet to be saved.
   */
  lemma {:induction false} AddKeepsRootExactly(m: Machine, h: Home, root: Path, now: string, disk: Disk, active: string)
    requires Sound(h) && ValidMachine(m) && disk.writes >= ENOUGH_WRITES && ActiveId(h) == Ok(Some(active))
    ensures RootOf(m, Added(m, h, root, false, now, disk).home, active) == RootOf(m, h, active)
       <==> (ProjectId(m, root) != active || RootOf(m, h, active) == Some(root)) && !TakesRegistryPath(m, h, root)
  {
    ActiveIsKnown(h);
    ResolvesExactly(m, h, active);
    if ProjectId(m, root) == REGISTRY_FILE {
      RegisteredBlocks(m, h, root, now, disk);
      assert !TakesRegistryPath(m, h, root) ==> Added(m, h, root, false, now, disk).home == h;
    } else if ProjectId(m, root) == active {
      AddReplacesRoot(m, h, root, now, disk);
    } else {
      AddSparesRoot(m, h, root, now, disk, active);
    }
  }

  lemma {:induction false} AddReplacesRoot(m: Machine, h: Home, root: Path, now: string, disk: Disk)
    requires GetsToSave(m, h, root) && disk.writes >= ENOUGH_WRITES && ActiveId(h) == Ok(Some(ProjectId(m, root)))
    ensures RootOf(m, Added(m, h, root, false, now, disk).home, ProjectId(m, root)) == Some(root)
  {
    RegisteredAnswers(m, h, root, now, disk);
    RegisterStamps(m, h, root, now, disk);
    assert Added(m, h, root, false, now, disk) == Registered(m, h, root, now, disk);
  }

  lemma {:induction false} AddSparesRoot(m: Machine, h: Home, root: Path, now: string, disk: Disk, active: string)
    requires Sound(h) && ValidMachine(m) && disk.writes >= ENOUGH_WRITES && ActiveId(h) == Ok(Some(active))
    requires ProjectId(m, root) != active && ProjectId(m, root) != REGISTRY_FILE
    ensures RootOf(m, Added(m, h, root, false, now, disk).home, active) == RootOf(m, h, active)
  {
    ActiveIsKnown(h);
    RegisteredHome(m, h, root, now, disk, active);
    RegisteredIsConsistent(m, h, root, now, disk);
    var o := Registered(m, h, root, now, disk);
    SameRoot(m, h, o.home, active);
    SwitchKeepsRoot(m, o.home, active, now, o.disk);
    assert Added(m, h, root, false, now, disk).home == Switched(m, o.home, active, now, o.disk).home;
  }

  lemma {:induction false} SameRoot(m: Machine, h: Home, h': Home, id: string)
    requires Readable(h) && Readable(h') && id != REGISTRY_FILE && h'.registry.Whole? && StoreOf(h', id) == StoreOf(h, id)
    requires Find(h'.registry.value.entries, id) == Find(Listing(h).entries, id)
    ensures RootOf(m, h', id) == RootOf(m, h, id)
  {
  }

  lemma {:induction false} SwitchKeepsRoot(m: Machine, h: Home, id: string, now: string, disk: Disk)
    requires Consistent(h) && ValidMachine(m) && Resolves(h, id) && disk.writes >= 1
    ensures RootOf(m, Switched(m, h, id, now, disk).home, id) == RootOf(m, h, id)
  {
    ResolvesExactly(m, h, id);
    var ctx := ContextForId(m, h, id).value.value;
    UpsertMeaning(Listing(h).entries, Entry(id, Project(ctx.path, ctx.kind), "", ""), now, id);
  }

  // ---- The home directory as the commands change it ----

  class ProjectHome {
    const machine: Machine
    var registry: File<Registry>
    var blocked: bool
    var marker: Option<string>
    var stores: map<string, File<Metadata>>

    function View(): Home
      reads this
    {
      Home(registry, blocked, marker, stores)
    }

    constructor (machine: Machine)
      ensures View() == EMPTY && this.machine == machine
    {
      this.machine := machine;
      registry, blocked, marker, stores := Missing, false, None, map[];
    }

    /** Load and upsert the registry, save it with the context current, then write the marker. */
    method Activate(ctx: Context, now: string, disk: Disk) returns (r: Result<Context, Failure>, left: Disk)
      modifies this`registry, this`marker
      ensures Activated(old(View()), ctx, now, disk) == Outcome(View(), left, r)
    {
      var loaded := Load(View());
      if loaded.Err? {
        return Err(loaded.error), disk;
      }
      var entries := UpsertEntry(loaded.value.entries, Entry(ctx.id, Project(ctx.path, ctx.kind), "", ""), now);
      if disk.writes == 0 {
        registry := Torn(registry, disk.tear);
        return Err(Io), disk;
      }
      registry := Whole(Registry(entries, Some(ctx.id)));
      if disk.writes == 1 {
        marker := TornMarker(marker, ctx.id, disk.tear);
        return Err(Io), disk.(writes := 0);
      }
      marker := Some(MarkerText(ctx.id));
      return Ok(ctx), disk.(writes := disk.writes - 2);
    }

    /** `register_and_activate` */
    method Register(root: Path, now: string, disk: Disk) returns (r: Result<Context, Failure>, left: Disk)
      modifies this
      ensures Registered(machine, old(View()), root, now, disk) == Outcome(View(), left, r)
    {
      var ctx := ContextForRoot(machine, root);
      if ctx.id == REGISTRY_FILE {
        if !registry.Missing? {
          return Err(Io), disk;
        }
        blocked := true;
      }
      if disk.writes == 0 {
        if disk.tear.Cut? {
          stores := stores[ctx.id := Torn(StoreOf(View(), ctx.id), disk.tear)];
        }
        return Err(Io), disk;
      }
      stores := stores[ctx.id := Whole(Metadata(ctx.id, ctx.path, ctx.kind))];
      r, left := Activate(ctx, now, disk.(writes := disk.writes - 1));
    }

    /** `switch_current_project` */
    method Switch(id: string, now: string, disk: Disk) returns (r: Result<Context, Failure>, left: Disk)
      modifies this
      ensures Switched(machine, old(View()), id, now, disk) == Outcome(View(), left, r)
    {
      var found := ContextForId(machine, View(), id);
      match found
      case Err(failure) => return Err(failure), disk;
      case Ok(None) => return Err(UnknownProject), disk;
      case Ok(Some(ctx)) => r, left := Activate(ctx, now, disk);
    }

    /** Save a registry, and delete the marker when asked to. */
    method Replace(saved: Registry, unmark: bool, disk: Disk) returns (r: Result<(), Failure>, left: Disk)
      modifies this`registry, this`marker
      ensures Replaced(old(View()), saved, unmark, disk) == Outcome(View(), left, r)
    {
      if disk.writes == 0 {
        registry := Torn(registry, disk.tear);
        return Err(Io), disk;
      }
      registry := Whole(saved);
      if !unmark {
        return Ok(()), disk.(writes := disk.writes - 1);
      }
      if disk.writes == 1 {
        return Err(Io), disk.(writes := 0);
      }
      marker := None;
      return Ok(()), disk.(writes := disk.writes - 2);
    }

    /** `remove_project` */
    method Remove(id: string, disk: Disk) returns (r: Result<Removal, Failure>, left: Disk)
      modifies this
      ensures Removed(old(View()), id, disk) == Outcome(View(), left, r)
    {
      if id == GLOBAL_PROJECT_ID {
        return Err(ReservedProject), disk;
      }
      var loaded := Load(View());
      if loaded.Err? {
        return Err(loaded.error), disk;
      }
      var kept := Without(loaded.value.entries, id);
      var removal := Removal(|kept| != |loaded.value.entries|, loaded.value.current == Some(id));
      var current := if removal.wasCurrent then None else loaded.value.current;
      var saved;
      saved, left := Replace(Registry(kept, current), removal.wasCurrent, disk);
      r := if saved.Ok? then Ok(removal) else Err(saved.error);
    }

    /** `project add [--switch]` */
    method Add(root: Path, switch: bool, now: string, disk: Disk) returns (r: Result<Context, Failure>, left: Disk)
      modifies this
      ensures Added(machine, old(View()), root, switch, now, disk) == Outcome(View(), left, r)
    {
      var before := ActiveId(View());
      if before.Err? {
        return Err(before.error), disk;
      }
      r, left := Register(root, now, disk);
      if r.Err? || switch {
        return;
      }
      match before.value
      case Some(id) =>
        if id != r.value.id {
          var back;
          back, left := Switch(id, now, left);
          if back.Err? { r := back; }
        }
      case None =>
        var loaded := Load(View());
        if loaded.Err? {
          return Err(loaded.error), left;
        }
        var none;
        none, left := Replace(loaded.value.(current := None), true, left);
        if none.Err? { r := Err(none.error); }
    }
  }
}
