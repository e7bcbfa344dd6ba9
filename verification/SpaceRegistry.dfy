/**
 * Execution spaces: the registry, the `ACTIVE_SPACE` marker, and in each space's
 * directory its `metadata.json` and migration receipt.
 *
 * As for projects, a `Disk` says how many file writes go through before one fails;
 * creating a directory is not counted. Registry, metadata and receipt are replaced
 * atomically, so that a failing write leaves them as they were; only the marker is
 * written in place and may be cut short. Completing a receipt is best effort: its failure
 * does not fail the operation.
 *
 * The registry and its lock file lie among the directories of the spaces, under names
 * that are valid space ids. Every operation takes the lock first, so that the lock file is
 * always there; the registry file is there from the first save on, and until then a
 * space's directory can take its place.
 */
module SpaceRegistry {
  import opened Basics
  import opened RegistryTable

  datatype Info = Info(name: string, binding: Option<string>, company: Option<string>)

  datatype Metadata = Metadata(spaceId: string, info: Info)

  /** The part of the migration receipt that registration reads and changes. */
  datatype Receipt = NoReceipt | Unreadable | Registration(status: string, recovery: string)

  datatype Dir = Dir(metadata: Option<Metadata>, receipt: Receipt)

  datatype Space = Space(id: string, info: Info)

  /** `saved` says whether there is a registry file; without one the registry reads as empty. */
  datatype Home = Home(
    saved: bool,
    entries: seq<Entry<Info>>,
    current: Option<string>,
    marker: Option<string>,
    dirs: map<string, Dir>)

  datatype Failure = Io | InvalidId | UnknownSpace

  datatype Outcome = Outcome(home: Home, result: Result<Space, Failure>)

  const EMPTY := Home(false, [], None, None, map[])

  const REGISTRY_FILE := "registry.json"

  const LOCK_FILE := ".registry.lock"

  /** A directory stands where the registry is looked for: no load succeeds. */
  predicate Blocked(h: Home) {
    REGISTRY_FILE in h.dirs
  }

  /** The name belongs to a file, so that no directory can be made of it. */
  predicate IsControlFile(h: Home, id: string) {
    id == LOCK_FILE || (id == REGISTRY_FILE && h.saved)
  }

  predicate IsSpaceId(id: string) {
    IsCleanId(id) && id != "." && id != ".."
  }

  function RecoveryCommand(id: string): string {
    "harness space switch " + id
  }

  function PendingReceipt(id: string): Receipt {
    Registration("pending", RecoveryCommand(id))
  }

  function CompletedReceipt(id: string): Receipt {
    Registration("complete", RecoveryCommand(id))
  }

  /** A blank name falls back to the id. */
  function NormalName(name: string, id: string): string {
    if IsBlank(name) then id else name
  }

  /** A registered entry first, then the metadata of the directory. */
  function Lookup(h: Home, id: string): Option<Space> {
    match Find(h.entries, id)
    case Some(e) => Some(Space(e.id, e.info))
    case None =>
      if id in h.dirs && h.dirs[id].metadata.Some? then
        Some(Space(h.dirs[id].metadata.value.spaceId, h.dirs[id].metadata.value.info))
      else None
  }

  function ContextForId(h: Home, id: string): Result<Option<Space>, Failure> {
    if !IsSpaceId(id) then Err(InvalidId)
    else if Blocked(h) || (Find(h.entries, id) == None && IsControlFile(h, id)) then Err(Io)
    else Ok(Lookup(h, id))
  }

  /** The directory of an id, created if it was missing. */
  function Made(h: Home, id: string): Home {
    if id in h.dirs then h else h.(dirs := h.dirs[id := Dir(None, NoReceipt)])
  }

  function Described(h: Home, space: Space): Home {
    var receipt := if space.id in h.dirs then h.dirs[space.id].receipt else NoReceipt;
    h.(dirs := h.dirs[space.id := Dir(Some(Metadata(space.id, space.info)), receipt)])
  }

  /** A receipt pending for exactly this space becomes complete. */
  function ReceiptCompleted(h: Home, id: string): Home {
    if id in h.dirs && h.dirs[id].receipt == PendingReceipt(id)
    then h.(dirs := h.dirs[id := h.dirs[id].(receipt := CompletedReceipt(id))])
    else h
  }

  function Saved(h: Home, space: Space, now: string): Home {
    h.(saved := true,
       entries := Upsert(h.entries, Entry(space.id, space.info, "", ""), now),
       current := Some(space.id))
  }

  /** Registry, marker, receipt: the tail shared by registration and switching. */
  function Activated(h: Home, space: Space, now: string, disk: Disk): Outcome {
    if disk.writes == 0 then Outcome(h, Err(Io))
    else
      var saved := Saved(h, space, now);
      if disk.writes == 1 then Outcome(saved.(marker := TornMarker(h.marker, space.id, disk.tear)), Err(Io))
      else
        var marked := saved.(marker := Some(MarkerText(space.id)));
        Outcome(if disk.writes == 2 then marked else ReceiptCompleted(marked, space.id), Ok(space))
  }

  function Registered(h: Home, id: string, info: Info, now: string, disk: Disk): Outcome {
    if !IsSpaceId(id) then Outcome(h, Err(InvalidId))
    else if IsControlFile(h, id) then Outcome(h, Err(Io))
    else
      var space := Space(id, info.(name := NormalName(info.name, id)));
      var described := Described(h, space);
      if disk.writes == 0 then Outcome(Made(h, id), Err(Io))
      else if Blocked(described) then Outcome(described, Err(Io))
      else Activated(described, space, now, disk.(writes := disk.writes - 1))
  }

  function Switched(h: Home, id: string, now: string, disk: Disk): Outcome {
    match ContextForId(h, id)
    case Err(failure) => Outcome(h, Err(failure))
    case Ok(None) => Outcome(h, Err(UnknownSpace))
    case Ok(Some(space)) => Activated(h, space, now, disk)
  }

  /** A migration may publish an id that is neither registered nor the name of a directory or a control file. */
  predicate MayPublish(h: Home, id: string) {
    IsSpaceId(id) && !Blocked(h) && Find(h.entries, id) == None && id !in h.dirs && !IsControlFile(h, id)
  }

  /** The staged metadata keeps the name as it was given, and the receipt is pending. */
  function Published(h: Home, id: string, name: string, binding: string): Home {
    if MayPublish(h, id)
    then h.(dirs := h.dirs[id := Dir(Some(Metadata(id, Info(name, Some(binding), None))), PendingReceipt(id))])
    else h
  }

  // ---- Runs ----

  datatype Op =
    | Register(id: string, info: Info, now: string)
    | Switch(id: string, now: string)
    | Publish(id: string, name: string, binding: string)

  datatype Call = Call(op: Op, disk: Disk)

  function Apply(h: Home, call: Call): Home {
    match call.op
    case Register(id, info, now) => Registered(h, id, info, now, call.disk).home
    case Switch(id, now) => Switched(h, id, now, call.disk).home
    case Publish(id, name, binding) => Published(h, id, name, binding)
  }

  function After(h: Home, calls: seq<Call>): Home {
    if calls == [] then h else Apply(After(h, calls[..|calls| - 1]), calls[|calls| - 1])
  }

  predicate HasMetadata(h: Home, id: string) {
    id in h.dirs && h.dirs[id].metadata.Some?
  }

  predicate NamedDirs(h: Home) {
    forall id | id in h.dirs && h.dirs[id].metadata.Some? :: IsSpaceId(id) && h.dirs[id].metadata.value.spaceId == id
  }

  predicate DescribedEntries(h: Home) {
    forall e | e in h.entries :: IsSpaceId(e.id) && HasMetadata(h, e.id)
  }

  /** Kept by every operation, wherever it is cut short. */
  predicate Sound(h: Home) {
    && UniqueIds(h.entries)
    && NamedDirs(h)
    && DescribedEntries(h)
    && (h.current.Some? ==> Find(h.entries, h.current.value).Some?)
    && (h.marker.Some? ==> h.current.Some?)
    && LOCK_FILE !in h.dirs
    && (h.saved ==> !Blocked(h))
    && (!h.saved ==> h.entries == [] && h.current == None && h.marker == None)
  }

  lemma {:induction false} UpsertMembers(entries: seq<Entry<Info>>, space: Space, now: string)
    ensures forall e | e in Upsert(entries, Entry(space.id, space.info, "", ""), now) ::
              e in entries || (e.id == space.id && e.info == space.info)
  {
  }

  lemma {:induction false} FoundIsMember(h: Home, id: string)
    ensures Find(h.entries, id).Some? ==> Find(h.entries, id).value in h.entries && Find(h.entries, id).value.id == id
  {
  }

  /** Every id of a readable home that has metadata answers with itself, and no other id answers. */
  lemma {:induction false} ContextAnswersId(h: Home, id: string)
    requires Sound(h)
    ensures ContextForId(h, id).Ok? && ContextForId(h, id).value.Some? <==> HasMetadata(h, id) && !Blocked(h)
    ensures HasMetadata(h, id) ==> IsSpaceId(id) && Lookup(h, id).Some? && Lookup(h, id).value.id == id
    ensures HasMetadata(h, id) && !Blocked(h) ==> ContextForId(h, id) == Ok(Lookup(h, id))
  {
    FoundIsMember(h, id);
  }

  lemma {:induction false} SavedIsSound(h: Home, space: Space, now: string, marker: Option<string>)
    requires Sound(h) && !Blocked(h) && HasMetadata(h, space.id)
    ensures Sound(Saved(h, space, now).(marker := marker))
  {
    UpsertMembers(h.entries, space, now);
    UpsertMeaning(h.entries, Entry(space.id, space.info, "", ""), now, space.id);
  }

  lemma {:induction false} ReceiptCompletedIsSound(h: Home, id: string)
    requires Sound(h)
    ensures Sound(ReceiptCompleted(h, id))
  {
  }

  lemma {:induction false} ActivatedIsSound(h: Home, space: Space, now: string, disk: Disk)
    requires Sound(h) && !Blocked(h) && HasMetadata(h, space.id)
    ensures Sound(Activated(h, space, now, disk).home)
  {
    SavedIsSound(h, space, now, TornMarker(h.marker, space.id, disk.tear));
    SavedIsSound(h, space, now, Some(MarkerText(space.id)));
    ReceiptCompletedIsSound(Saved(h, space, now).(marker := Some(MarkerText(space.id))), space.id);
  }

  lemma {:induction false} DescribedIsSound(h: Home, space: Space)
    requires Sound(h) && IsSpaceId(space.id) && !IsControlFile(h, space.id)
    ensures Sound(Described(h, space)) && HasMetadata(Described(h, space), space.id) && Sound(Made(h, space.id))
  {
  }

  lemma {:induction false} ApplyIsSound(h: Home, call: Call)
    requires Sound(h)
    ensures Sound(Apply(h, call))
  {
    match call.op
    case Register(id, info, now) =>
      if IsSpaceId(id) && !IsControlFile(h, id) {
        var space := Space(id, info.(name := NormalName(info.name, id)));
        DescribedIsSound(h, space);
        if call.disk.writes > 0 && !Blocked(Described(h, space)) {
          ActivatedIsSound(Described(h, space), space, now, call.disk.(writes := call.disk.writes - 1));
        }
      }
    case Switch(id, now) =>
      ContextAnswersId(h, id);
      if HasMetadata(h, id) && !Blocked(h) {
        ActivatedIsSound(h, ContextForId(h, id).value.value, now, call.disk);
      }
    case Publish(id, name, binding) =>
  }

  /**
   * From an empty home, wherever each call was interrupted and whatever it left of the
   * marker: ids are unique, the current space is registered, every registered id is
   * described by its own directory, and once the registry was saved it can be read.
   */
  lemma {:induction false} RunIsSound(calls: seq<Call>)
    ensures Sound(After(EMPTY, calls))
  {
    if calls != [] {
      RunIsSound(calls[..|calls| - 1]);
      ApplyIsSound(After(EMPTY, calls[..|calls| - 1]), calls[|calls| - 1]);
    }
  }

  // ---- A space on the registry's path ----

  /** The call puts a directory where the registry is looked for. */
  predicate TakesRegistryPath(h: Home, call: Call) {
    && !h.saved && !Blocked(h)
    && match call.op
       case Register(id, _, _) => id == REGISTRY_FILE
       case Switch(_, _) => false
       case Publish(id, _, _) => id == REGISTRY_FILE
  }

  lemma {:induction false} ApplyBlocks(h: Home, call: Call)
    requires Sound(h)
    ensures Blocked(Apply(h, call)) <==> Blocked(h) || TakesRegistryPath(h, call)
    ensures Blocked(h) && !call.op.Publish? ==> Failing(h, call)
  {
    RegistryFileIsAnId();
    match call.op
    case Register(id, info, now) =>
      RegisterBlocks(h, id, info, now, call.disk);
    case Switch(id, now) =>
    case Publish(id, name, binding) =>
      assert Find(h.entries, id) == None || h.saved;
  }

  lemma {:induction false} RegisterBlocks(h: Home, id: string, info: Info, now: string, disk: Disk)
    requires Sound(h)
    ensures Blocked(Registered(h, id, info, now, disk).home) <==> Blocked(h) || (!h.saved && id == REGISTRY_FILE)
    ensures Blocked(h) || id == REGISTRY_FILE ==> Registered(h, id, info, now, disk).result.Err?
  {
    RegistryFileIsAnId();
    var space := Space(id, info.(name := NormalName(info.name, id)));
    assert Blocked(Described(h, space)) <==> Blocked(h) || id == REGISTRY_FILE;
  }

  /** The call is refused. */
  predicate Failing(h: Home, call: Call) {
    match call.op
    case Register(id, info, now) => Registered(h, id, info, now, call.disk).result.Err?
    case Switch(id, now) => Switched(h, id, now, call.disk).result.Err?
    case Publish(id, _, _) => !MayPublish(h, id)
  }

  lemma {:induction false} RegistryFileIsAnId()
    ensures IsSpaceId(REGISTRY_FILE) && IsSpaceId(LOCK_FILE)
  {
    assert forall c | c in REGISTRY_FILE :: IsCleanChar(c);
    assert forall c | c in LOCK_FILE :: IsCleanChar(c);
  }

  predicate TakesRegistryPathAt(h: Home, calls: seq<Call>, k: nat)
    requires k < |calls|
  {
    TakesRegistryPath(After(h, calls[..k]), calls[k])
  }

  predicate SomeTakesRegistryPath(h: Home, calls: seq<Call>) {
    exists k | 0 <= k < |calls| :: TakesRegistryPathAt(h, calls, k)
  }

  lemma {:induction false} SomeTakesUpTo(h: Home, calls: seq<Call>)
    requires calls != []
    ensures
      var front, last := calls[..|calls| - 1], calls[|calls| - 1];
      SomeTakesRegistryPath(h, calls) <==> SomeTakesRegistryPath(h, front) || TakesRegistryPath(After(h, front), last)
  {
    var front := calls[..|calls| - 1];
    forall k | 0 <= k < |front|
      ensures TakesRegistryPathAt(h, calls, k) <==> TakesRegistryPathAt(h, front, k)
    {
      assert front[..k] == calls[..k];
    }
    assert TakesRegistryPathAt(h, calls, |calls| - 1) <==> TakesRegistryPath(After(h, front), calls[|calls| - 1]);
  }

  /** The registry is unreadable exactly when some call put a directory on its path before the first save. */
  lemma {:induction false} BlockedExactly(h: Home, calls: seq<Call>)
    requires Sound(h)
    ensures Sound(After(h, calls))
    ensures Blocked(After(h, calls)) <==> Blocked(h) || SomeTakesRegistryPath(h, calls)
  {
    if calls != [] {
      var front, last := calls[..|calls| - 1], calls[|calls| - 1];
      BlockedExactly(h, front);
      ApplyIsSound(After(h, front), last);
      ApplyBlocks(After(h, front), last);
      SomeTakesUpTo(h, calls);
    }
  }

  /** From then on every call fails, whatever happens in between: nothing recovers. */
  lemma {:induction false} BlockedForGood(h: Home, calls: seq<Call>, call: Call)
    requires Sound(h) && Blocked(h)
    ensures Blocked(After(h, calls)) && Failing(After(h, calls), call) && ActiveId(After(h, calls)) == Err(Io)
  {
    BlockedExactly(h, calls);
    ApplyBlocks(After(h, calls), call);
  }

  /**
   * `migrate-from-project --id registry.json` in a home without a registry: publication
   * goes through, and its activation and every call after it fail for good.
   */
  lemma {:induction false} RegistryIdStrandsHome(
    name: string, binding: string, now: string, disk: Disk, calls: seq<Call>, call: Call)
    ensures MayPublish(EMPTY, "registry.json")
    ensures
      var published := Published(EMPTY, "registry.json", name, binding);
      var o := Registered(published, "registry.json", Info(name, Some(binding), None), now, disk);
      && o.result == Err(Io)
      && Failing(After(o.home, calls), call) && ActiveId(After(o.home, calls)) == Err(Io)
  {
    RegistryFileIsAnId();
    var published := Published(EMPTY, REGISTRY_FILE, name, binding);
    var register := Call(Register(REGISTRY_FILE, Info(name, Some(binding), None), now), disk);
    ApplyIsSound(EMPTY, Call(Publish(REGISTRY_FILE, name, binding), disk));
    ApplyIsSound(published, register);
    ApplyBlocks(published, register);
    BlockedForGood(Apply(published, register), calls, call);
  }

  /** The lock file's name is a valid id that can never be registered, switched to or published. */
  lemma {:induction false} LockIdIsRefused(h: Home, info: Info, now: string, disk: Disk)
    requires Sound(h)
    ensures IsSpaceId(".registry.lock") && !MayPublish(h, ".registry.lock")
    ensures Registered(h, ".registry.lock", info, now, disk) == Outcome(h, Err(Io))
    ensures Switched(h, ".registry.lock", now, disk) == Outcome(h, Err(Io))
  {
    RegistryFileIsAnId();
    FoundIsMember(h, LOCK_FILE);
  }

  function ActiveId(h: Home): Result<Option<string>, Failure> {
    if Blocked(h) then Err(Io) else if h.current.Some? then Ok(h.current) else Ok(ReadMarker(h.marker))
  }

  /**
   * The active space can be asked for exactly unless a call took the registry's path, and
   * then always exists: the registry answers before a marker that was cut short.
   */
  lemma {:induction false} ActiveSpaceIsDescribed(calls: seq<Call>)
    ensures
      var h := After(EMPTY, calls);
      && (ActiveId(h).Ok? <==> !SomeTakesRegistryPath(EMPTY, calls))
      && (ActiveId(h).Ok? && ActiveId(h).value.Some? ==> HasMetadata(h, ActiveId(h).value.value))
  {
    RunIsSound(calls);
    BlockedExactly(EMPTY, calls);
    var h := After(EMPTY, calls);
    if h.current.Some? { FoundIsMember(h, h.current.value); }
  }

  // ---- What was given is what is found ----

  /** The space as the caller described it, under its id where no name was given. */
  predicate IsAsGiven(space: Space, id: string, given: Info) {
    && space.id == id && space.info.binding == given.binding && space.info.company == given.company
    && (if forall i | 0 <= i < |given.name| :: IsWhitespace(given.name[i]) then space.info.name == id
        else space.info.name == given.name)
  }

  /**
   * A registration that succeeds answers the space as it was given, and so does every
   * later lookup of the id, in the registry and from its directory's metadata alone; it
   * is then the active space, and no other id's answer has changed.
   */
  lemma {:induction false} RegisteredAsGiven(h: Home, id: string, given: Info, now: string, disk: Disk, other: string)
    requires Sound(h) && Registered(h, id, given, now, disk).result.Ok?
    ensures
      var o := Registered(h, id, given, now, disk);
      && IsAsGiven(o.result.value, id, given)
      && ContextForId(o.home, id) == Ok(Some(o.result.value))
      && id in o.home.dirs && o.home.dirs[id].metadata == Some(Metadata(id, o.result.value.info))
      && ActiveId(o.home) == Ok(Some(id)) && ReadMarker(o.home.marker) == Some(id)
      && (other != id ==> Lookup(o.home, other) == Lookup(h, other))
  {
    var space := Space(id, given.(name := NormalName(given.name, id)));
    var described, left := Described(h, space), disk.(writes := disk.writes - 1);
    ActivatedAnswers(described, space, now, left, id);
    ActivatedAnswers(described, space, now, left, other);
    assert Registered(h, id, given, now, disk) == Activated(described, space, now, left);
    assert other != id ==> Lookup(described, other) == Lookup(h, other);
    CleanIdReadsBack(id);
  }

  /** Letters, digits, dots, underscores and dashes, but neither of the two names every directory has. */
  predicate IsNameOfSpace(id: string) {
    && id !in {"", ".", ".."}
    && forall i | 0 <= i < |id| ::
         'a' <= id[i] <= 'z' || 'A' <= id[i] <= 'Z' || '0' <= id[i] <= '9' || id[i] in {'.', '_', '-'}
  }

  /** Exactly the other ids are refused as invalid, before anything is touched. */
  lemma {:induction false} InvalidIdsExactly(h: Home, id: string, given: Info, now: string, disk: Disk)
    ensures Registered(h, id, given, now, disk).result == Err(InvalidId) <==> !IsNameOfSpace(id)
    ensures Switched(h, id, now, disk).result == Err(InvalidId) <==> !IsNameOfSpace(id)
    ensures !IsNameOfSpace(id) ==>
      Registered(h, id, given, now, disk).home == h && Switched(h, id, now, disk).home == h && !MayPublish(h, id)
  {
    assert IsSpaceId(id) <==> IsNameOfSpace(id);
  }

  /** A published space is described as it was given, bound to its project, with a receipt that says how to recover it. */
  lemma {:induction false} PublishedAsGiven(h: Home, id: string, name: string, binding: string)
    requires MayPublish(h, id)
    ensures
      var h' := Published(h, id, name, binding);
      && h'.dirs == h.dirs[id := Dir(Some(Metadata(id, Info(name, Some(binding), None))),
                                     Registration("pending", "harness space switch " + id))]
      && h'.entries == h.entries && h'.current == h.current && h'.marker == h.marker
  {
  }

  /** The receipt in the directory of an id. */
  function ReceiptOf(h: Home, id: string): Receipt {
    if id in h.dirs then h.dirs[id].receipt else NoReceipt
  }

  /** An activation that went through completes a receipt pending for its own space, if that write succeeds, and no other. */
  lemma {:induction false} ReceiptsExactly(h: Home, space: Space, now: string, disk: Disk, other: string)
    requires disk.writes >= 2
    ensures
      var pending := Registration("pending", "harness space switch " + space.id);
      ReceiptOf(Activated(h, space, now, disk).home, other) ==
        if other == space.id && ReceiptOf(h, other) == pending && disk.writes > 2
        then Registration("complete", "harness space switch " + space.id) else ReceiptOf(h, other)
  {
  }

  /** The same directories with the same metadata. */
  predicate SameMetadata(h: Home, h': Home) {
    h'.dirs.Keys == h.dirs.Keys && forall id | id in h.dirs :: h'.dirs[id].metadata == h.dirs[id].metadata
  }

  lemma {:induction false} SavedAnswers(h: Home, space: Space, now: string, other: string)
    ensures Lookup(Saved(h, space, now), other) == if other == space.id then Some(space) else Lookup(h, other)
  {
    UpsertMeaning(h.entries, Entry(space.id, space.info, "", ""), now, other);
  }

  lemma {:induction false} CompletionAnswers(h: Home, id: string, other: string)
    ensures Lookup(ReceiptCompleted(h, id), other) == Lookup(h, other) && SameMetadata(h, ReceiptCompleted(h, id))
  {
  }

  /** After an activation that went through the space answers, and every other id as before. */
  lemma {:induction false} ActivatedAnswers(h: Home, space: Space, now: string, disk: Disk, other: string)
    requires disk.writes >= 2
    ensures
      var home := Activated(h, space, now, disk).home;
      && Lookup(home, other) == (if other == space.id then Some(space) else Lookup(h, other))
      && home.current == Some(space.id) && home.marker == Some(MarkerText(space.id)) && SameMetadata(h, home)
  {
    var marked := Saved(h, space, now).(marker := Some(MarkerText(space.id)));
    SavedAnswers(h, space, now, other);
    assert Lookup(marked, other) == Lookup(Saved(h, space, now), other);
    CompletionAnswers(marked, space.id, other);
  }

  /** A switch that succeeds answers what the lookup found, and selects it. */
  lemma {:induction false} SwitchedAsFound(h: Home, id: string, now: string, disk: Disk, other: string)
    requires Sound(h) && Switched(h, id, now, disk).result.Ok?
    ensures
      var o := Switched(h, id, now, disk);
      && Lookup(h, id) == Some(o.result.value) && Lookup(o.home, id) == Some(o.result.value)
      && ActiveId(o.home) == Ok(Some(id)) && ReadMarker(o.home.marker) == Some(id)
      && (other != id ==> Lookup(o.home, other) == Lookup(h, other))
  {
    ContextAnswersId(h, id);
    ActivatedAnswers(h, Lookup(h, id).value, now, disk, id);
    ActivatedAnswers(h, Lookup(h, id).value, now, disk, other);
    CleanIdReadsBack(id);
  }

  // ---- The marker on its own ----

  /** What a reader of the marker alone is sent to exists. */
  predicate MarkerNamesSpace(h: Home) {
    ReadMarker(h.marker).Some? ==> HasMetadata(h, ReadMarker(h.marker).value)
  }

  /** Nothing but a failing write keeps the id from being registered. */
  predicate CanRegister(h: Home, id: string) {
    IsSpaceId(id) && !Blocked(h) && id != REGISTRY_FILE && id != LOCK_FILE
  }

  /** The id whose marker the call fails to write. */
  function UnwrittenMarker(h: Home, call: Call): Option<string> {
    match call.op
    case Register(id, _, _) => if CanRegister(h, id) && call.disk.writes == 2 then Some(id) else None
    case Switch(id, _) => if HasMetadata(h, id) && !Blocked(h) && call.disk.writes == 1 then Some(id) else None
    case Publish(_, _, _) => None
  }

  /** The marker is cut inside the id, to the id of no space. */
  predicate CutsMarker(h: Home, call: Call) {
    && call.disk.tear.Cut? && UnwrittenMarker(h, call).Some?
    && 0 < call.disk.tear.length < |UnwrittenMarker(h, call).value|
    && !HasMetadata(h, UnwrittenMarker(h, call).value[..call.disk.tear.length])
  }

  lemma {:induction false} ActivatedMarker(h: Home, space: Space, now: string, disk: Disk)
    requires MarkerNamesSpace(h) && HasMetadata(h, space.id) && IsSpaceId(space.id)
    ensures MarkerNamesSpace(Activated(h, space, now, disk).home) <==>
      !(disk.writes == 1 && disk.tear.Cut? && 0 < disk.tear.length < |space.id|
        && !HasMetadata(h, space.id[..disk.tear.length]))
  {
    CleanIdReadsBack(space.id);
    if disk.tear.Cut? {
      TornMarkerReads(h.marker, space.id, disk.tear);
      assert space.id[..|space.id|] == space.id;
    }
  }

  lemma {:induction false} RegisterMarker(h: Home, call: Call)
    requires Sound(h) && MarkerNamesSpace(h) && call.op.Register?
    ensures MarkerNamesSpace(Apply(h, call)) <==> !CutsMarker(h, call)
  {
    var id, disk := call.op.id, call.disk;
    var space := Space(id, call.op.info.(name := NormalName(call.op.info.name, id)));
    if CanRegister(h, id) && disk.writes > 0 {
      ActivatedMarker(Described(h, space), space, call.op.now, disk.(writes := disk.writes - 1));
    } else {
      assert Apply(h, call).marker == h.marker;
    }
  }

  /** The marker goes on naming a space exactly unless a call cuts it to the id of none. */
  lemma {:induction false} MarkerKeptExactly(h: Home, call: Call)
    requires Sound(h) && MarkerNamesSpace(h)
    ensures MarkerNamesSpace(Apply(h, call)) <==> !CutsMarker(h, call)
  {
    match call.op
    case Register(id, info, now) =>
      RegisterMarker(h, call);
    case Switch(id, now) =>
      ContextAnswersId(h, id);
      if HasMetadata(h, id) && !Blocked(h) {
        ActivatedMarker(h, ContextForId(h, id).value.value, now, call.disk);
      }
    case Publish(id, name, binding) =>
  }

  /** One registration whose marker write stops after the first character. */
  lemma {:induction false} CutMarkerNamesNoSpace(id: string, info: Info, now: string)
    requires CanRegister(EMPTY, id) && |id| >= 2
    ensures
      var h := Registered(EMPTY, id, info, now, Disk(2, Cut(1))).home;
      ReadMarker(h.marker) == Some(id[..1]) && !HasMetadata(h, id[..1]) && ActiveId(h) == Ok(Some(id))
  {
    TornMarkerReads(None, id, Cut(1));
  }

  // ---- Recovery of an interrupted activation ----

  /** What a switch to the id answers, and the receipt it will complete. */
  predicate Pinned(h: Home, id: string, info: Info) {
    && IsSpaceId(id) && Lookup(h, id) == Some(Space(id, info))
    && id in h.dirs
    && (h.dirs[id].receipt == PendingReceipt(id) || h.dirs[id].receipt == CompletedReceipt(id))
  }

  /** The name a recovering switch finds after `writes` writes of the activation. */
  function RecoveredName(name: string, id: string, writes: nat): string {
    if writes == 0 then name else NormalName(name, id)
  }

  /** A failed activation leaves a published space pinned, and its id answers exactly unless it took the registry's path. */
  lemma {:induction false} FailedActivationPins(h: Home, id: string, name: string, binding: string, now: string, disk: Disk)
    requires Sound(h) && MayPublish(h, id)
    requires Registered(Published(h, id, name, binding), id, Info(name, Some(binding), None), now, disk).result.Err?
    ensures
      var failed := Registered(Published(h, id, name, binding), id, Info(name, Some(binding), None), now, disk).home;
      var info := Info(RecoveredName(name, id, disk.writes), Some(binding), None);
      && Pinned(failed, id, info)
      && (Blocked(failed) <==> id == REGISTRY_FILE)
      && ContextForId(failed, id) == if id == REGISTRY_FILE then Err(Io) else Ok(Some(Space(id, info)))
  {
    var published := Published(h, id, name, binding);
    if disk.writes > 0 {
      var space := Space(id, Info(NormalName(name, id), Some(binding), None));
      UpsertMeaning(published.entries, Entry(id, space.info, "", ""), now, id);
    }
  }

  lemma {:induction false} ActivatedKeepsPin(h: Home, space: Space, now: string, disk: Disk, id: string, info: Info)
    requires Pinned(h, id, info) && (space.id == id ==> space.info == info)
    ensures Pinned(Activated(h, space, now, disk).home, id, info)
  {
    SavedKeepsPin(h, space, now, id, info);
    CompletionKeepsPin(Saved(h, space, now).(marker := Some(MarkerText(space.id))), space.id, id, info);
  }

  lemma {:induction false} SavedKeepsPin(h: Home, space: Space, now: string, id: string, info: Info)
    requires Pinned(h, id, info) && (space.id == id ==> space.info == info)
    ensures Pinned(Saved(h, space, now), id, info)
  {
    UpsertMeaning(h.entries, Entry(space.id, space.info, "", ""), now, id);
  }

  lemma {:induction false} CompletionKeepsPin(h: Home, completed: string, id: string, info: Info)
    requires Pinned(h, id, info)
    ensures Pinned(ReceiptCompleted(h, completed), id, info)
  {
  }

  /** Only registering the same id again may change the pinned answer. */
  lemma {:induction false} ApplyKeepsPin(h: Home, call: Call, id: string, info: Info)
    requires Sound(h) && Pinned(h, id, info)
    requires call.op.Register? ==> call.op.id != id
    ensures Pinned(Apply(h, call), id, info)
  {
    match call.op
    case Register(other, given, now) =>
      var space := Space(other, given.(name := NormalName(given.name, other)));
      assert Pinned(Described(h, space), id, info) && Pinned(Made(h, other), id, info);
      if IsSpaceId(other) && !IsControlFile(h, other) && call.disk.writes > 0 && !Blocked(Described(h, space)) {
        ActivatedKeepsPin(Described(h, space), space, now, call.disk.(writes := call.disk.writes - 1), id, info);
      }
    case Switch(other, now) =>
      ContextAnswersId(h, other);
      if HasMetadata(h, other) && !Blocked(h) {
        ActivatedKeepsPin(h, ContextForId(h, other).value.value, now, call.disk, id, info);
      }
    case Publish(other, name, binding) =>
  }

  lemma {:induction false} RunKeepsPin(h: Home, calls: seq<Call>, id: string, info: Info)
    requires Sound(h) && Pinned(h, id, info)
    requires forall i | 0 <= i < |calls| :: calls[i].op.Register? ==> calls[i].op.id != id
    ensures Sound(After(h, calls)) && Pinned(After(h, calls), id, info)
  {
    if calls != [] {
      var front, last := calls[..|calls| - 1], calls[|calls| - 1];
      RunKeepsPin(h, front, id, info);
      ApplyKeepsPin(After(h, front), last, id, info);
      ApplyIsSound(After(h, front), last);
    }
  }

  /** A switch to a pinned id answers the pinned space, selects it and completes its receipt. */
  lemma {:induction false} SwitchOfPinned(h: Home, id: string, info: Info, now: string, disk: Disk)
    requires Sound(h) && !Blocked(h) && Pinned(h, id, info) && disk.writes >= 2
    ensures
      var o := Switched(h, id, now, disk);
      && o.result == Ok(Space(id, info))
      && o.home.current == Some(id) && ReadMarker(o.home.marker) == Some(id)
      && Find(o.home.entries, id).Some? && Find(o.home.entries, id).value.info == info
      && id in o.home.dirs
      && (disk.writes >= 3 ==> o.home.dirs[id].receipt == CompletedReceipt(id))
  {
    ContextAnswersId(h, id);
    CleanIdReadsBack(id);
    UpsertMeaning(h.entries, Entry(id, info, "", ""), now, id);
  }

  /** What the switch has to bring about. */
  predicate Recovered(o: Outcome, id: string, binding: string, intended: Result<Space, Failure>, disk: Disk) {
    && o.result.Ok? && intended.Ok?
    && o.result.value.id == intended.value.id == id
    && o.result.value.info.binding == intended.value.info.binding == Some(binding)
    && o.result.value.info.company == intended.value.info.company
    && o.home.current == Some(id) && ReadMarker(o.home.marker) == Some(id)
    && id in o.home.dirs
    && (disk.writes >= 3 ==> o.home.dirs[id].receipt == Registration("complete", "harness space switch " + id))
  }

  /**
   * Recovery. After any earlier run, a migration publishes the id and its activation
   * fails at some step; any further calls follow, cut short or not, except registering
   * that id anew. A switch whose registry and marker writes succeed then recovers exactly
   * unless the published id, or a call in between, took the registry's path: it yields
   * the id and project binding the activation would have produced, selects the space, and
   * completes the receipt when that write succeeds too. The name is the activation's
   * exactly when it was not blank or the activation's metadata had been written.
   */
  lemma {:induction false} SwitchRecovers(
    before: seq<Call>, id: string, name: string, binding: string, now: string, failing: Disk,
    between: seq<Call>, later: string, disk: Disk)
    requires MayPublish(After(EMPTY, before), id)
    requires failing.writes < 3 && disk.writes >= 2
    requires forall i | 0 <= i < |between| :: between[i].op.Register? ==> between[i].op.id != id
    ensures
      var published := Published(After(EMPTY, before), id, name, binding);
      var given := Info(name, Some(binding), None);
      var intended := Registered(published, id, given, now, Disk(4, Kept)).result;
      var failed := Registered(published, id, given, now, failing);
      var o := Switched(After(failed.home, between), id, later, disk);
      var lost := id == REGISTRY_FILE || SomeTakesRegistryPath(failed.home, between);
      && failed.result == Err(Io)
      && (lost ==> o.result == Err(Io))
      && (!lost ==> Recovered(o, id, binding, intended, disk) && (o.result == intended <==> failing.writes > 0 || !IsBlank(name)))
  {
    var start := After(EMPTY, before);
    var given := Info(name, Some(binding), None);
    var failed := Registered(Published(start, id, name, binding), id, given, now, failing).home;
    var info := Info(RecoveredName(name, id, failing.writes), Some(binding), None);
    RunIsSound(before);
    IntendedSpace(start, id, name, binding, now, failing);
    FailedActivationPins(start, id, name, binding, now, failing);
    RunKeepsPin(failed, between, id, info);
    BlockedExactly(failed, between);
    if !Blocked(After(failed, between)) {
      SwitchOfPinned(After(failed, between), id, info, later, disk);
      BlankIsNotAnId(name, id);
    }
  }

  /** What the activation would have answered, had every write gone through. */
  lemma {:induction false} IntendedSpace(h: Home, id: string, name: string, binding: string, now: string, failing: Disk)
    requires Sound(h) && MayPublish(h, id) && failing.writes < 3
    ensures
      var published, given := Published(h, id, name, binding), Info(name, Some(binding), None);
      && Registered(published, id, given, now, Disk(4, Kept)).result
         == (if id == REGISTRY_FILE then Err(Io) else Ok(Space(id, Info(NormalName(name, id), Some(binding), None))))
      && Registered(published, id, given, now, failing).result == Err(Io)
      && Sound(Registered(published, id, given, now, failing).home)
  {
    ApplyIsSound(h, Call(Publish(id, name, binding), Disk(0, Kept)));
    ApplyIsSound(Published(h, id, name, binding), Call(Register(id, Info(name, Some(binding), None), now), failing));
  }

  lemma {:induction false} BlankIsNotAnId(name: string, id: string)
    requires IsSpaceId(id)
    ensures IsBlank(name) ==> name != id
  {
    assert IsCleanChar(id[0]);
  }

  // ---- The home directory as the commands change it ----

  class SpaceHome {
    var saved: bool
    var entries: seq<Entry<Info>>
    var current: Option<string>
    var marker: Option<string>
    var dirs: map<string, Dir>

    function View(): Home
      reads this
    {
      Home(saved, entries, current, marker, dirs)
    }

    constructor ()
      ensures View() == EMPTY
    {
      saved, entries, current, marker, dirs := false, [], None, None, map[];
    }

    /** `complete_pending_migration_registration`; `writable` says whether its one write goes through. */
    method CompletePendingRegistration(space: Space, writable: bool)
      modifies this`dirs
      ensures View() == if writable then ReceiptCompleted(old(View()), space.id) else old(View())
    {
      if space.id !in dirs || !dirs[space.id].receipt.Registration? {
        return;
      }
      var receipt := dirs[space.id].receipt;
      if receipt.status != "pending" || receipt.recovery != RecoveryCommand(space.id) {
        return;
      }
      if writable {
        dirs := dirs[space.id := dirs[space.id].(receipt := receipt.(status := "complete"))];
      }
    }

    method Activate(space: Space, now: string, disk: Disk) returns (r: Result<Space, Failure>)
      modifies this
      ensures Activated(old(View()), space, now, disk) == Outcome(View(), r)
    {
      var upserted := UpsertEntry(entries, Entry(space.id, space.info, "", ""), now);
      if disk.writes == 0 {
        return Err(Io);
      }
      saved, entries, current := true, upserted, Some(space.id);
      if disk.writes == 1 {
        marker := TornMarker(marker, space.id, disk.tear);
        return Err(Io);
      }
      marker := Some(MarkerText(space.id));
      CompletePendingRegistration(space, disk.writes > 2);
      return Ok(space);
    }

    /** `write_metadata` */
    method WriteMetadata(space: Space, writable: bool) returns (written: bool)
      modifies this`dirs
      ensures written <==> !IsControlFile(old(View()), space.id) && writable
      ensures View() == if IsControlFile(old(View()), space.id) then old(View())
                        else if writable then Described(old(View()), space) else Made(old(View()), space.id)
    {
      if space.id == LOCK_FILE || (space.id == REGISTRY_FILE && saved) {
        return false;
      }
      if space.id !in dirs {
        dirs := dirs[space.id := Dir(None, NoReceipt)];
      }
      if writable {
        dirs := dirs[space.id := dirs[space.id].(metadata := Some(Metadata(space.id, space.info)))];
      }
      return writable;
    }

    /** `register_and_activate_locked` */
    method RegisterAndActivate(id: string, info: Info, now: string, disk: Disk) returns (r: Result<Space, Failure>)
      modifies this
      ensures Registered(old(View()), id, info, now, disk) == Outcome(View(), r)
    {
      if !IsSpaceId(id) {
        return Err(InvalidId);
      }
      var space := Space(id, info.(name := NormalName(info.name, id)));
      var written := WriteMetadata(space, disk.writes > 0);
      if !written {
        return Err(Io);
      }
      if REGISTRY_FILE in dirs {
        return Err(Io);
      }
      r := Activate(space, now, disk.(writes := disk.writes - 1));
    }

    /** `switch_current_space_locked` */
    method SwitchCurrent(id: string, now: string, disk: Disk) returns (r: Result<Space, Failure>)
      modifies this
      ensures Switched(old(View()), id, now, disk) == Outcome(View(), r)
    {
      var found := ContextForId(View(), id);
      match found
      case Err(failure) => return Err(failure);
      case Ok(None) => return Err(UnknownSpace);
      case Ok(Some(space)) => r := Activate(space, now, disk);
    }
  }
}
