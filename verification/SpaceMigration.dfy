/**
 * `space migrate-from-project` as a protocol: any number of migrations run step by
 * step, interleaved with each other and with an environment that may change the
 * source, create or alter any directory, staging directories included, and register
 * spaces. Every step may fail. The registry and its lock file lie among the directories,
 * under names that are valid target ids.
 */
module SpaceMigration {
  import opened Basics
  import S = SpaceRegistry

  /** A contracted piece of the source store: a ledger file or a directory. */
  datatype Unit = Ledger(name: string) | Directory(name: string)

  datatype Content = File(bytes: Bytes) | Tree(files: seq<(string, Bytes)>) | Special

  /** The migration receipt, as far as registration goes, and the id its recovery command names. */
  datatype Receipt = NoReceipt | Pending(id: string) | Complete(id: string)

  /** A directory under `execution-spaces/`. */
  datatype Image = Image(units: map<Unit, Content>, metadata: Option<S.Metadata>, receipt: Receipt)

  const BLANK := Image(map[], None, NoReceipt)

  /** Reading the source and creating the staging directory. */
  datatype Preparation = Preflight | Planning(next: nat) | Creating

  /** Filling, describing, verifying and sealing the staging directory. */
  datatype Staging = Filling(next: nat) | Describing | Verifying(next: nat) | Receipting

  /** Taking the registry lock, the two checks under it, and the rename. */
  datatype Publication = Locking | CheckingRegistry | CheckingTarget | Renaming

  /** Activation under the same lock. */
  datatype Activation = WritingMetadata | Registering | Marking

  /** How it ended; a failure says whether the staging directory had to be left over. */
  datatype End = Refused | Failed(leftover: bool) | PublishedInactive | Completed

  datatype Phase =
    | Preparing(preparation: Preparation)
    | Stages(staging: Staging)
    | Publishing(publication: Publication)
    | Activating(activation: Activation)
    | Ended(end: End)

  /** What a migration was asked for, and the staging name it was given. */
  datatype Args = Args(id: string, name: string, binding: string, staging: string)

  /** `plan` holds the bytes read before staging, `reread` those read again for verification. */
  datatype Migration = Migration(args: Args, phase: Phase, plan: map<Unit, Content>, reread: map<Unit, Content>)

  /** A directory name together with whether something is there. */
  type Slot = Option<Image>

  datatype LockView = Free | Mine | Theirs

  /** The names of the registry and of its lock. */
  const CONTROL_NAMES := {S.REGISTRY_FILE, S.LOCK_FILE}

  /**
   * What one migration can see: its directories, its registration, the registry lock,
   * and which control names belong to files and which to directories.
   */
  datatype View = View(
    args: Args, phase: Phase, plan: map<Unit, Content>, reread: map<Unit, Content>,
    staged: Slot, target: Slot, registered: bool, lock: LockView, files: set<string>, blocked: set<string>)

  datatype World = World(
    units: seq<Unit>,
    source: map<Unit, Content>,
    dirs: map<string, Image>,
    files: set<string>,
    registered: set<string>,
    lock: Option<nat>,
    migrations: seq<Migration>)

  /**
   * `Run`: one step of migration `p`. `ok` says whether its I/O succeeded, `tidy`
   * whether a best-effort follow-up did (removing the staging directory, completing
   * the receipt), and `copied` is what a directory copy ended up with. The environment
   * cannot put a directory where a control file is, and registers a space, which creates
   * the control files, only while no directory has their names and nobody holds the lock.
   */
  datatype Event =
    | Run(p: nat, ok: bool, tidy: bool, copied: Content)
    | ChangeSource(source: map<Unit, Content>)
    | PutDirectory(name: string, image: Image)
    | RegisterSpace(id: string)

  // ---- One migration ----

  /** Something is there, a directory or a control file. */
  predicate TargetTaken(v: View) {
    v.target.Some? || v.args.id in v.files
  }

  function Released(v: View): View {
    if v.lock.Mine? then v.(lock := Free) else v
  }

  /** Fail after cleaning up the staging directory, or reporting that it could not be removed. */
  function Abandon(v: View, tidy: bool): View {
    var leftover := v.staged.Some? && !tidy;
    Released(v.(phase := Ended(Failed(leftover)), staged := if leftover then v.staged else None))
  }

  predicate RightKind(u: Unit, c: Content) {
    match u
    case Ledger(_) => c.File?
    case Directory(_) => c.Tree?
  }

  function PlanUnit(v: View, u: Unit, k: nat, source: map<Unit, Content>): View {
    if u !in source then v.(phase := Preparing(Planning(k + 1)))
    else if !RightKind(u, source[u]) then v.(phase := Ended(Refused))
    else v.(phase := Preparing(Planning(k + 1)), plan := v.plan[u := source[u]])
  }

  function Prepare(
    units: seq<Unit>, source: map<Unit, Content>, v: View, step: Preparation, ok: bool, tidy: bool): View
  {
    match step
    case Preflight =>
      if !ok || !S.IsSpaceId(v.args.id) || TargetTaken(v) then v.(phase := Ended(Refused))
      else v.(phase := Preparing(Planning(0)))
    case Planning(k) =>
      if !ok then v.(phase := Ended(Refused))
      else if k < |units| then PlanUnit(v, units[k], k, source)
      else v.(phase := Preparing(Creating))
    case Creating =>
      if ok && v.staged.None? then v.(phase := Stages(Filling(0)), staged := Some(BLANK)) else Abandon(v, tidy)
  }

  /** Ledgers are written from the plan; directories are copied from the source again. */
  function FillUnit(v: View, u: Unit, k: nat, copied: Content): View
    requires v.staged.Some?
  {
    if u !in v.plan then v.(phase := Stages(Filling(k + 1)))
    else
      var content := if u.Ledger? then v.plan[u] else copied;
      var image := v.staged.value;
      v.(phase := Stages(Filling(k + 1)), staged := Some(image.(units := image.units[u := content])))
  }

  /** The source must still hold the planned bytes, and staging must hold them too. */
  function VerifyUnit(v: View, u: Unit, k: nat, source: map<Unit, Content>, tidy: bool): View
    requires v.staged.Some?
  {
    if u !in v.plan then v.(phase := Stages(Verifying(k + 1)))
    else if u !in source || source[u] != v.plan[u] then Abandon(v, tidy)
    else if u !in v.staged.value.units || v.staged.value.units[u] != source[u] then Abandon(v, tidy)
    else v.(phase := Stages(Verifying(k + 1)), reread := v.reread[u := source[u]])
  }

  /** What `metadata.json` says; staging keeps the name as given, activation normalises it. */
  function Described(args: Args, name: string): S.Metadata {
    S.Metadata(args.id, S.Info(name, Some(args.binding), None))
  }

  function Stage(
    units: seq<Unit>, source: map<Unit, Content>, v: View, step: Staging, ok: bool, tidy: bool, copied: Content): View
  {
    if !ok || v.staged.None? then Abandon(v, tidy)
    else match step
      case Filling(k) =>
        if k < |units| then FillUnit(v, units[k], k, copied) else v.(phase := Stages(Describing))
      case Describing =>
        v.(phase := Stages(Verifying(0)),
           staged := Some(v.staged.value.(metadata := Some(Described(v.args, v.args.name)))))
      case Verifying(k) =>
        if k < |units| then VerifyUnit(v, units[k], k, source, tidy) else v.(phase := Stages(Receipting))
      case Receipting =>
        v.(phase := Publishing(Locking), staged := Some(v.staged.value.(receipt := Pending(v.args.id))))
  }

  /** The control names that are directories once the target is one. */
  function BlockedByTarget(v: View): set<string> {
    if v.args.id in CONTROL_NAMES then v.blocked + {v.args.id} else v.blocked
  }

  /** The rename never replaces; a directory on the registry's path makes it unreadable. */
  function Publish(v: View, step: Publication, ok: bool, tidy: bool): View {
    match step
    case Locking =>
      if !ok || S.LOCK_FILE in v.blocked then Abandon(v, tidy)
      else if v.lock.Free? then
        v.(phase := Publishing(CheckingRegistry), lock := Mine, files := v.files + {S.LOCK_FILE})
      else v
    case CheckingRegistry =>
      if !ok || S.REGISTRY_FILE in v.blocked || v.registered then Abandon(v, tidy)
      else v.(phase := Publishing(CheckingTarget))
    case CheckingTarget =>
      if !ok || TargetTaken(v) then Abandon(v, tidy) else v.(phase := Publishing(Renaming))
    case Renaming =>
      if !ok || TargetTaken(v) || v.staged.None? then Abandon(v, tidy)
      else
        v.(phase := Activating(WritingMetadata), target := v.staged, staged := None,
           blocked := BlockedByTarget(v))
  }

  /** Its failure keeps the published target. */
  function Activate(v: View, step: Activation, ok: bool, tidy: bool): View {
    if !ok || v.target.None? then Released(v.(phase := Ended(PublishedInactive)))
    else match step
      case WritingMetadata =>
        var metadata := Described(v.args, S.NormalName(v.args.name, v.args.id));
        v.(phase := Activating(Registering), target := Some(v.target.value.(metadata := Some(metadata))))
      case Registering =>
        if S.REGISTRY_FILE in v.blocked then Released(v.(phase := Ended(PublishedInactive)))
        else v.(phase := Activating(Marking), registered := true, files := v.files + {S.REGISTRY_FILE})
      case Marking =>
        var image := v.target.value;
        Released(v.(phase := Ended(Completed),
                    target := if tidy && image.receipt == Pending(v.args.id)
                              then Some(image.(receipt := Complete(v.args.id))) else v.target))
  }

  function Move(
    units: seq<Unit>, source: map<Unit, Content>, v: View, ok: bool, tidy: bool, copied: Content): View
  {
    match v.phase
    case Preparing(step) => Prepare(units, source, v, step, ok, tidy)
    case Stages(step) => Stage(units, source, v, step, ok, tidy, copied)
    case Publishing(step) => Publish(v, step, ok, tidy)
    case Activating(step) => Activate(v, step, ok, tidy)
    case Ended(_) => v
  }

  // ---- All of them ----

  function Look(dirs: map<string, Image>, name: string): Slot {
    if name in dirs then Some(dirs[name]) else None
  }

  function Put(dirs: map<string, Image>, name: string, slot: Slot): map<string, Image> {
    match slot
    case Some(image) => dirs[name := image]
    case None => dirs - {name}
  }

  function ViewOf(w: World, p: nat): View
    requires p < |w.migrations|
  {
    var m := w.migrations[p];
    View(m.args, m.phase, m.plan, m.reread,
         Look(w.dirs, m.args.staging), Look(w.dirs, m.args.id), m.args.id in w.registered,
         if w.lock == None then Free else if w.lock == Some(p) then Mine else Theirs,
         w.files, w.dirs.Keys * CONTROL_NAMES)
  }

  function Install(w: World, p: nat, v: View): World
    requires p < |w.migrations|
  {
    World(w.units, w.source,
          Put(Put(w.dirs, v.args.staging, v.staged), v.args.id, v.target),
          v.files,
          if v.registered then w.registered + {v.args.id} else w.registered,
          match v.lock case Free => None case Mine => Some(p) case Theirs => w.lock,
          w.migrations[p := Migration(v.args, v.phase, v.plan, v.reread)])
  }

  /** A disabled event changes nothing. */
  function Step(w: World, e: Event): World {
    match e
    case Run(p, ok, tidy, copied) =>
      if p < |w.migrations| then Install(w, p, Move(w.units, w.source, ViewOf(w, p), ok, tidy, copied)) else w
    case ChangeSource(source) => w.(source := source)
    case PutDirectory(name, image) =>
      if name !in w.files then w.(dirs := w.dirs[name := image]) else w
    case RegisterSpace(id) =>
      if w.lock == None && CONTROL_NAMES !! w.dirs.Keys
      then w.(registered := w.registered + {id}, files := w.files + CONTROL_NAMES) else w
  }

  function After(w: World, events: seq<Event>): World {
    if events == [] then w else Step(After(w, events[..|events| - 1]), events[|events| - 1])
  }

  // ---- What a migration relies on, whoever else is at work ----

  predicate HoldsLock(phase: Phase) {
    phase.Activating? || (phase.Publishing? && !phase.publication.Locking?)
  }

  predicate IsPublished(phase: Phase) {
    phase.Activating? || (phase.Ended? && (phase.end.PublishedInactive? || phase.end.Completed?))
  }

  /** The migration has created its staging directory and not yet given it up. */
  predicate OwnsStaging(phase: Phase) {
    phase.Stages? || phase.Publishing?
  }

  /** Both checks of the target id lie behind, or the first. */
  predicate IsUnregistered(phase: Phase) {
    phase.Publishing? && (phase.publication.CheckingTarget? || phase.publication.Renaming?)
  }

  predicate IsRegistered(phase: Phase) {
    phase == Activating(Marking) || phase == Ended(Completed)
  }

  predicate PastPreflight(phase: Phase) {
    phase != Preparing(Preflight) && phase != Ended(Refused)
  }

  /** Only listed units are planned, and only planned ones are read again. */
  predicate PlanOk(units: seq<Unit>, v: View) {
    && (forall u | u in v.plan :: u in units)
    && v.reread.Keys <= v.plan.Keys
  }

  predicate ViewOk(units: seq<Unit>, v: View) {
    && (v.lock.Mine? <==> HoldsLock(v.phase))
    && (OwnsStaging(v.phase) ==> v.staged.Some?)
    && (IsPublished(v.phase) ==> v.target.Some?)
    && (IsUnregistered(v.phase) ==> !v.registered)
    && (IsRegistered(v.phase) ==> v.registered && S.REGISTRY_FILE in v.files)
    && (PastPreflight(v.phase) ==> S.IsSpaceId(v.args.id))
    && (HoldsLock(v.phase) ==> S.LOCK_FILE in v.files)
    && PlanOk(units, v)
  }

  /** A move that turns the staged directory into the target. */
  predicate Publishes(v: View, v': View) {
    !IsPublished(v.phase) && IsPublished(v'.phase)
  }

  /**
   * The reach of one move. The target is left alone before publication, appears by
   * publication only where nothing was, neither directory nor control file, and keeps its
   * units afterwards; the lock is never taken from another; the registry changes only
   * under the lock; and a control name is taken by a directory only by publication.
   */
  predicate Confined(v: View, v': View) {
    && v'.args == v.args
    && (!Publishes(v, v') && !IsPublished(v.phase) ==> v'.target == v.target)
    && (Publishes(v, v') ==>
          v.phase == Publishing(Renaming) && !TargetTaken(v) && v.staged.Some? && v'.target == v.staged)
    && (IsPublished(v.phase) ==> IsPublished(v'.phase) && (v'.target.Some? ==> v.target.Some?))
    && (v.target.Some? ==> v'.target.Some? && v'.target.value.units == v.target.value.units)
    && (v.lock.Theirs? <==> v'.lock.Theirs?)
    && (v.registered ==> v'.registered)
    && (v.registered != v'.registered ==> v.lock.Mine?)
    && v.files <= v'.files <= v.files + CONTROL_NAMES
    && v'.blocked == if Publishes(v, v') then BlockedByTarget(v) else v.blocked
  }

  lemma {:induction false} AbandonKeepsView(units: seq<Unit>, v: View, tidy: bool)
    requires ViewOk(units, v) && (v.phase == Preparing(Creating) || OwnsStaging(v.phase))
    ensures ViewOk(units, Abandon(v, tidy)) && Confined(v, Abandon(v, tidy))
  {
  }

  lemma {:induction false} PrepareKeepsView(
    units: seq<Unit>, source: map<Unit, Content>, v: View, step: Preparation, ok: bool, tidy: bool)
    requires ViewOk(units, v) && v.phase == Preparing(step)
    ensures ViewOk(units, Prepare(units, source, v, step, ok, tidy))
    ensures Confined(v, Prepare(units, source, v, step, ok, tidy))
  {
    match step
    case Preflight =>
    case Planning(k) => PlanUnitKeepsView(units, source, v, k);
    case Creating => AbandonKeepsView(units, v, tidy);
  }

  lemma {:induction false} PlanUnitKeepsView(units: seq<Unit>, source: map<Unit, Content>, v: View, k: nat)
    requires ViewOk(units, v) && v.phase == Preparing(Planning(k))
    ensures k < |units| ==>
      ViewOk(units, PlanUnit(v, units[k], k, source)) && Confined(v, PlanUnit(v, units[k], k, source))
  {
  }

  lemma {:induction false} StageKeepsView(
    units: seq<Unit>, source: map<Unit, Content>, v: View, step: Staging, ok: bool, tidy: bool, copied: Content)
    requires ViewOk(units, v) && v.phase == Stages(step)
    ensures ViewOk(units, Stage(units, source, v, step, ok, tidy, copied))
    ensures Confined(v, Stage(units, source, v, step, ok, tidy, copied))
  {
    AbandonKeepsView(units, v, tidy);
    match step
    case Filling(k) => FillUnitKeepsView(units, v, k, copied);
    case Verifying(k) => VerifyUnitKeepsView(units, source, v, k, tidy);
    case _ =>
  }

  lemma {:induction false} FillUnitKeepsView(units: seq<Unit>, v: View, k: nat, copied: Content)
    requires ViewOk(units, v) && v.phase == Stages(Filling(k))
    ensures k < |units| ==>
      ViewOk(units, FillUnit(v, units[k], k, copied)) && Confined(v, FillUnit(v, units[k], k, copied))
  {
  }

  lemma {:induction false} VerifyUnitKeepsView(units: seq<Unit>, source: map<Unit, Content>, v: View, k: nat, tidy: bool)
    requires ViewOk(units, v) && v.phase == Stages(Verifying(k))
    ensures k < |units| ==>
      && ViewOk(units, VerifyUnit(v, units[k], k, source, tidy))
      && Confined(v, VerifyUnit(v, units[k], k, source, tidy))
  {
    AbandonKeepsView(units, v, tidy);
  }

  lemma {:induction false} PublishKeepsView(units: seq<Unit>, v: View, step: Publication, ok: bool, tidy: bool)
    requires ViewOk(units, v) && v.phase == Publishing(step)
    ensures ViewOk(units, Publish(v, step, ok, tidy))
    ensures Confined(v, Publish(v, step, ok, tidy))
  {
    AbandonKeepsView(units, v, tidy);
  }

  lemma {:induction false} ActivateKeepsView(units: seq<Unit>, v: View, step: Activation, ok: bool, tidy: bool)
    requires ViewOk(units, v) && v.phase == Activating(step)
    ensures ViewOk(units, Activate(v, step, ok, tidy))
    ensures Confined(v, Activate(v, step, ok, tidy))
  {
  }

  /** Every move keeps what the migration relies on and stays within its reach. */
  lemma {:induction false} MoveKeepsView(
    units: seq<Unit>, source: map<Unit, Content>, v: View, ok: bool, tidy: bool, copied: Content)
    requires ViewOk(units, v)
    ensures ViewOk(units, Move(units, source, v, ok, tidy, copied))
    ensures Confined(v, Move(units, source, v, ok, tidy, copied))
  {
    match v.phase
    case Preparing(step) => PrepareKeepsView(units, source, v, step, ok, tidy);
    case Stages(step) => StageKeepsView(units, source, v, step, ok, tidy, copied);
    case Publishing(step) => PublishKeepsView(units, v, step, ok, tidy);
    case Activating(step) => ActivateKeepsView(units, v, step, ok, tidy);
    case Ended(_) =>
  }

  // ---- What holds of the staging directory while nobody else writes it ----

  /** Planned units found as planned, in staging and again in the source. */
  predicate Checked(v: View, image: Image, u: Unit) {
    u in v.plan ==>
      && u in image.units && image.units[u] == v.plan[u]
      && u in v.reread && v.reread[u] == v.plan[u]
  }

  predicate AllChecked(v: View, image: Image) {
    forall u | u in v.plan :: Checked(v, image, u)
  }

  /** From verification on: what was checked stays so, with the metadata and then the receipt. */
  predicate Sealed(units: seq<Unit>, v: View) {
    v.staged.Some? ==>
      var image := v.staged.value;
      match v.phase
      case Stages(Verifying(k)) =>
        && image.metadata == Some(Described(v.args, v.args.name))
        && forall i | 0 <= i < |units| && i < k :: Checked(v, image, units[i])
      case Stages(Receipting) => image.metadata == Some(Described(v.args, v.args.name)) && AllChecked(v, image)
      case Publishing(_) =>
        && image.metadata == Some(Described(v.args, v.args.name)) && AllChecked(v, image)
        && image.receipt == Pending(v.args.id)
      case _ => true
  }

  /** From creation on: staging holds nothing that is not planned. */
  predicate Exact(v: View) {
    OwnsStaging(v.phase) && v.staged.Some? ==> v.staged.value.units.Keys <= v.plan.Keys
  }

  /** From the start: something is there exactly while it is owned or reported as left over. */
  predicate Tidy(v: View) {
    v.staged.Some? <==> OwnsStaging(v.phase) || v.phase == Ended(Failed(true))
  }

  lemma {:induction false} StageKeepsSealed(
    units: seq<Unit>, source: map<Unit, Content>, v: View, step: Staging, ok: bool, tidy: bool, copied: Content)
    requires ViewOk(units, v) && Sealed(units, v) && v.phase == Stages(step)
    ensures Sealed(units, Stage(units, source, v, step, ok, tidy, copied))
  {
    if step.Verifying? {
      VerifyKeepsSealed(units, source, v, step.next, tidy);
    }
  }

  lemma {:induction false} VerifyKeepsSealed(units: seq<Unit>, source: map<Unit, Content>, v: View, k: nat, tidy: bool)
    requires ViewOk(units, v) && Sealed(units, v) && v.phase == Stages(Verifying(k))
    ensures k < |units| ==> Sealed(units, VerifyUnit(v, units[k], k, source, tidy))
    ensures k >= |units| ==> AllChecked(v, v.staged.value)
  {
    if k >= |units| {
      forall u | u in v.plan
        ensures Checked(v, v.staged.value, u)
      {
        var i :| 0 <= i < |units| && units[i] == u;
      }
    }
  }

  lemma {:induction false} PublishKeepsSealed(units: seq<Unit>, v: View, step: Publication, ok: bool, tidy: bool)
    requires Sealed(units, v) && v.phase == Publishing(step)
    ensures Sealed(units, Publish(v, step, ok, tidy))
  {
  }

  lemma {:induction false} MoveKeepsSealed(
    units: seq<Unit>, source: map<Unit, Content>, v: View, ok: bool, tidy: bool, copied: Content)
    requires ViewOk(units, v) && Sealed(units, v)
    ensures Sealed(units, Move(units, source, v, ok, tidy, copied))
  {
    match v.phase
    case Preparing(step) => PrepareStays(units, source, v, step, ok, tidy);
    case Stages(step) => StageKeepsSealed(units, source, v, step, ok, tidy, copied);
    case Publishing(step) => PublishKeepsSealed(units, v, step, ok, tidy);
    case Activating(step) => ActivateStays(v, step, ok, tidy);
    case Ended(_) =>
  }

  /** How preparation leaves the staging directory. */
  lemma {:induction false} PrepareStays(
    units: seq<Unit>, source: map<Unit, Content>, v: View, step: Preparation, ok: bool, tidy: bool)
    ensures
      var v' := Prepare(units, source, v, step, ok, tidy);
      || (v'.phase.Preparing? && v'.staged == v.staged)
      || (v'.phase == Ended(Refused) && v'.staged == v.staged)
      || (v'.phase == Stages(Filling(0)) && v'.staged == Some(BLANK) && v.staged.None?)
      || v' == Abandon(v, tidy)
  {
  }

  lemma {:induction false} ActivateStays(v: View, step: Activation, ok: bool, tidy: bool)
    ensures
      var v' := Activate(v, step, ok, tidy);
      v'.staged == v.staged && IsPublished(v'.phase)
  {
  }

  predicate KeepsStaging(v: View, v': View) {
    (Exact(v) ==> Exact(v')) && (Tidy(v) ==> Tidy(v'))
  }

  lemma {:induction false} AbandonKeepsStaging(v: View, tidy: bool)
    ensures KeepsStaging(v, Abandon(v, tidy))
  {
  }

  lemma {:induction false} PrepareKeepsStaging(
    units: seq<Unit>, source: map<Unit, Content>, v: View, step: Preparation, ok: bool, tidy: bool)
    requires v.phase == Preparing(step)
    ensures KeepsStaging(v, Prepare(units, source, v, step, ok, tidy))
  {
    PrepareStays(units, source, v, step, ok, tidy);
    AbandonKeepsStaging(v, tidy);
  }

  lemma {:induction false} StageKeepsStaging(
    units: seq<Unit>, source: map<Unit, Content>, v: View, step: Staging, ok: bool, tidy: bool, copied: Content)
    requires v.phase == Stages(step) && v.staged.Some?
    ensures KeepsStaging(v, Stage(units, source, v, step, ok, tidy, copied))
  {
    AbandonKeepsStaging(v, tidy);
  }

  lemma {:induction false} PublishKeepsStaging(v: View, step: Publication, ok: bool, tidy: bool)
    requires v.phase == Publishing(step) && v.staged.Some?
    ensures KeepsStaging(v, Publish(v, step, ok, tidy))
  {
    AbandonKeepsStaging(v, tidy);
  }

  lemma {:induction false} ActivateKeepsStaging(v: View, step: Activation, ok: bool, tidy: bool)
    requires v.phase == Activating(step)
    ensures KeepsStaging(v, Activate(v, step, ok, tidy))
  {
    ActivateStays(v, step, ok, tidy);
  }

  lemma {:induction false} MoveKeepsStaging(
    units: seq<Unit>, source: map<Unit, Content>, v: View, ok: bool, tidy: bool, copied: Content)
    requires ViewOk(units, v)
    ensures KeepsStaging(v, Move(units, source, v, ok, tidy, copied))
  {
    match v.phase
    case Preparing(step) => PrepareKeepsStaging(units, source, v, step, ok, tidy);
    case Stages(step) => StageKeepsStaging(units, source, v, step, ok, tidy, copied);
    case Publishing(step) => PublishKeepsStaging(v, step, ok, tidy);
    case Activating(step) => ActivateKeepsStaging(v, step, ok, tidy);
    case Ended(_) =>
  }
}
