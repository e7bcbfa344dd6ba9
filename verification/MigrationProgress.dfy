/**
 * Runs of a single migration with nothing in its way: it completes, unless its id is the
 * name of the registry or of its lock. The same runs show what a taken staging name and a
 * tampered staging directory lead to.
 */
module MigrationProgress {
  import opened Basics
  import opened SpaceMigration
  import opened MigrationRuns
  import S = SpaceRegistry

  /** What a faithful copy of the unit at hand ends up with. */
  function HonestCopy(units: seq<Unit>, v: View): Content {
    match v.phase
    case Stages(Filling(k)) => if k < |units| && units[k] in v.plan then v.plan[units[k]] else Special
    case _ => Special
  }

  function HonestMove(units: seq<Unit>, source: map<Unit, Content>, v: View): View {
    Move(units, source, v, true, true, HonestCopy(units, v))
  }

  /** The steps taken so far, for n units. */
  function Rank(n: nat, phase: Phase): nat {
    match phase
    case Preparing(Preflight) => 0
    case Preparing(Planning(k)) => 1 + k
    case Preparing(Creating) => n + 2
    case Stages(Filling(k)) => n + 3 + k
    case Stages(Describing) => 2 * n + 4
    case Stages(Verifying(k)) => 2 * n + 5 + k
    case Stages(Receipting) => 3 * n + 6
    case Publishing(Locking) => 3 * n + 7
    case Publishing(CheckingRegistry) => 3 * n + 8
    case Publishing(CheckingTarget) => 3 * n + 9
    case Publishing(Renaming) => 3 * n + 10
    case Activating(WritingMetadata) => 3 * n + 11
    case Activating(Registering) => 3 * n + 12
    case Activating(Marking) => 3 * n + 13
    case Ended(_) => 3 * n + 14
  }

  /** How many units the loop at hand has passed. */
  predicate InBounds(n: nat, phase: Phase) {
    match phase
    case Preparing(Planning(k)) => k <= n
    case Stages(Filling(k)) => k <= n
    case Stages(Verifying(k)) => k <= n
    case Ended(end) => end == Completed
    case _ => true
  }

  predicate RightKinds(units: seq<Unit>, source: map<Unit, Content>) {
    forall u | u in units && u in source :: RightKind(u, source[u])
  }

  function PlannedUpTo(n: nat, phase: Phase): nat {
    match phase
    case Preparing(Preflight) => 0
    case Preparing(Planning(k)) => k
    case _ => n
  }

  /** The plan is the source restricted to the units passed so far. */
  predicate PlanFollows(units: seq<Unit>, source: map<Unit, Content>, v: View) {
    && (forall u | u in v.plan :: u in source && source[u] == v.plan[u])
    && (forall i | 0 <= i < |units| && i < PlannedUpTo(|units|, v.phase) && units[i] in source :: units[i] in v.plan)
  }

  predicate Filled(v: View, u: Unit) {
    u in v.plan && v.staged.Some? ==> u in v.staged.value.units && v.staged.value.units[u] == v.plan[u]
  }

  function FilledUpTo(n: nat, phase: Phase): nat {
    match phase
    case Stages(Filling(k)) => k
    case Stages(_) => n
    case _ => 0
  }

  predicate FillFollows(units: seq<Unit>, v: View) {
    forall i | 0 <= i < |units| && i < FilledUpTo(|units|, v.phase) :: Filled(v, units[i])
  }

  /** Nothing is in the way but what the migration itself put there. */
  predicate WayIsClear(v: View) {
    && S.IsSpaceId(v.args.id)
    && (!IsPublished(v.phase) ==> v.target.None?)
    && (v.registered ==> IsRegistered(v.phase))
    && !v.lock.Theirs?
    && (v.args.id in v.files ==> v.args.id == S.LOCK_FILE && v.phase.Publishing?)
    && S.LOCK_FILE !in v.blocked
    && (S.REGISTRY_FILE in v.blocked <==> v.args.id == S.REGISTRY_FILE && IsPublished(v.phase))
  }

  /** Its id is a control name and stands in the way of its own next step. */
  predicate Stuck(v: View) {
    || (v.args.id == S.LOCK_FILE && (v.phase == Publishing(CheckingTarget) || v.phase == Publishing(Renaming)))
    || (v.args.id == S.REGISTRY_FILE && v.phase == Activating(Registering))
  }

  predicate OnCourse(units: seq<Unit>, source: map<Unit, Content>, v: View) {
    && ViewOk(units, v) && Sealed(units, v) && Exact(v) && TargetWhole(v)
    && InBounds(|units|, v.phase) && RightKinds(units, source)
    && PlanFollows(units, source, v) && FillFollows(units, v) && WayIsClear(v)
    && ReceiptIsDone(v)
  }

  /** A completed migration has completed its receipt. */
  predicate ReceiptIsDone(v: View) {
    v.phase == Ended(Completed) ==> v.target.Some? && v.target.value.receipt == Complete(v.args.id)
  }

  /** One step further, and still on course in what each kind of step has to keep up. */
  predicate Advances(units: seq<Unit>, source: map<Unit, Content>, v: View, v': View) {
    && InBounds(|units|, v'.phase) && PlanFollows(units, source, v') && FillFollows(units, v') && WayIsClear(v')
    && ReceiptIsDone(v')
    && Rank(|units|, v'.phase) == Rank(|units|, v.phase) + 1
  }

  lemma {:induction false} PrepareAdvances(units: seq<Unit>, source: map<Unit, Content>, v: View, step: Preparation)
    requires OnCourse(units, source, v) && v.phase == Preparing(step) && (step.Creating? ==> v.staged.None?)
    ensures Advances(units, source, v, Prepare(units, source, v, step, true, true))
    ensures !step.Creating? ==> Prepare(units, source, v, step, true, true).staged == v.staged
  {
    if step.Planning? && step.next < |units| { PlanAdvances(units, source, v, step.next); }
  }

  lemma {:induction false} PlanAdvances(units: seq<Unit>, source: map<Unit, Content>, v: View, k: nat)
    requires OnCourse(units, source, v) && v.phase == Preparing(Planning(k)) && k < |units|
    ensures Advances(units, source, v, PlanUnit(v, units[k], k, source))
    ensures PlanUnit(v, units[k], k, source).staged == v.staged
  {
  }

  lemma {:induction false} FillAdvances(units: seq<Unit>, source: map<Unit, Content>, v: View, k: nat)
    requires OnCourse(units, source, v) && v.phase == Stages(Filling(k)) && k < |units|
    ensures Advances(units, source, v, FillUnit(v, units[k], k, HonestCopy(units, v)))
  {
  }

  lemma {:induction false} VerifyAdvances(units: seq<Unit>, source: map<Unit, Content>, v: View, k: nat)
    requires OnCourse(units, source, v) && v.phase == Stages(Verifying(k)) && k < |units|
    ensures Advances(units, source, v, VerifyUnit(v, units[k], k, source, true))
  {
    assert Filled(v, units[k]);
  }

  lemma {:induction false} StageAdvances(units: seq<Unit>, source: map<Unit, Content>, v: View, step: Staging)
    requires OnCourse(units, source, v) && v.phase == Stages(step)
    ensures Advances(units, source, v, Stage(units, source, v, step, true, true, HonestCopy(units, v)))
  {
    match step
    case Filling(k) => if k < |units| { FillAdvances(units, source, v, k); }
    case Verifying(k) => if k < |units| { VerifyAdvances(units, source, v, k); }
    case _ =>
  }

  lemma {:induction false} PublishAdvances(units: seq<Unit>, source: map<Unit, Content>, v: View, step: Publication)
    requires OnCourse(units, source, v) && v.phase == Publishing(step) && !Stuck(v)
    ensures Advances(units, source, v, Publish(v, step, true, true))
  {
  }

  lemma {:induction false} ActivateAdvances(units: seq<Unit>, source: map<Unit, Content>, v: View, step: Activation)
    requires OnCourse(units, source, v) && v.phase == Activating(step) && !Stuck(v)
    ensures Advances(units, source, v, Activate(v, step, true, true))
  {
  }

  lemma {:induction false} HonestAdvances(units: seq<Unit>, source: map<Unit, Content>, v: View)
    requires OnCourse(units, source, v) && !v.phase.Ended? && !Stuck(v) && (v.phase == Preparing(Creating) ==> v.staged.None?)
    ensures Advances(units, source, v, HonestMove(units, source, v))
    ensures v.phase.Preparing? && v.phase != Preparing(Creating) ==> HonestMove(units, source, v).staged == v.staged
  {
    match v.phase
    case Preparing(step) => PrepareAdvances(units, source, v, step);
    case Stages(step) => StageAdvances(units, source, v, step);
    case Publishing(step) => PublishAdvances(units, source, v, step);
    case Activating(step) => ActivateAdvances(units, source, v, step);
  }

  lemma {:induction false} HonestStaysOnCourse(units: seq<Unit>, source: map<Unit, Content>, v: View)
    requires OnCourse(units, source, v) && !v.phase.Ended? && !Stuck(v) && (v.phase == Preparing(Creating) ==> v.staged.None?)
    ensures OnCourse(units, source, HonestMove(units, source, v))
  {
    var copied := HonestCopy(units, v);
    HonestAdvances(units, source, v);
    MoveKeepsView(units, source, v, true, true, copied);
    MoveKeepsSealed(units, source, v, true, true, copied);
    MoveKeepsStaging(units, source, v, true, true, copied);
    MoveKeepsTarget(units, source, v, true, true, copied);
  }

  // ---- As a run ----

  function SoloEvent(w: World, p: nat): Event
    requires p < |w.migrations|
  {
    Run(p, true, true, HonestCopy(w.units, ViewOf(w, p)))
  }

  /** Only migration p takes steps, and none of them fails. */
  predicate IsSolo(events: seq<Event>, p: nat) {
    forall i | 0 <= i < |events| :: events[i].Run? && events[i].p == p && events[i].ok && events[i].tidy
  }

  /** A migration about to start with a valid, free and unregistered id, well-formed sources and a usable registry. */
  predicate Ready(w: World, p: nat) {
    && Start(w) && p < |w.migrations|
    && S.IsSpaceId(w.migrations[p].args.id)
    && w.migrations[p].args.id !in w.dirs && w.migrations[p].args.id !in w.files
    && w.migrations[p].args.id !in w.registered
    && CONTROL_NAMES !! w.dirs.Keys
    && RightKinds(w.units, w.source)
  }

  /** How many steps it can take on its own. */
  function Reach(n: nat, id: string): nat {
    if id == S.LOCK_FILE then 3 * n + 9 else if id == S.REGISTRY_FILE then 3 * n + 12 else 3 * n + 14
  }

  predicate SoloState(start: World, p: nat, n: nat, w: World) {
    && w.units == start.units && w.source == start.source
    && |w.migrations| == |start.migrations| && p < |w.migrations| && Inv(w)
    && w.migrations[p].args == start.migrations[p].args
    && OnCourse(w.units, w.source, ViewOf(w, p)) && Rank(|w.units|, w.migrations[p].phase) == n
    && (w.migrations[p].phase.Preparing? ==>
          Look(w.dirs, w.migrations[p].args.staging) == Look(start.dirs, w.migrations[p].args.staging))
  }

  lemma {:induction false} SoloStart(start: World, p: nat)
    requires Ready(start, p)
    ensures SoloState(start, p, 0, start)
  {
    assert start.migrations[p].phase == Preparing(Preflight);
  }

  lemma {:induction false} SoloStep(start: World, p: nat, n: nat, w: World)
    requires SoloState(start, p, n, w) && n < Reach(|start.units|, start.migrations[p].args.id)
    requires n == |start.units| + 2 ==> start.migrations[p].args.staging !in start.dirs
    ensures SoloState(start, p, n + 1, Step(w, SoloEvent(w, p)))
  {
    var v := ViewOf(w, p);
    HonestAdvances(w.units, w.source, v);
    HonestStaysOnCourse(w.units, w.source, v);
    StepView(w, SoloEvent(w, p), p);
  }

  /** After n steps on its own a migration is n steps further, unless its staging name was taken. */
  lemma {:induction false} SoloRun(start: World, p: nat, n: nat) returns (events: seq<Event>, w: World)
    requires Ready(start, p) && n <= Reach(|start.units|, start.migrations[p].args.id)
    requires n > |start.units| + 2 ==> start.migrations[p].args.staging !in start.dirs
    ensures |events| == n && IsSolo(events, p) && SoloState(start, p, n, w)
    ensures After(start, events) == w
  {
    if n == 0 {
      events, w := [], start;
      SoloStart(start, p);
    } else {
      var before, now := SoloRun(start, p, n - 1);
      SoloStep(start, p, n - 1, now);
      var e := SoloEvent(now, p);
      AfterAppend(start, before, e);
      events, w := before + [e], Step(now, e);
    }
  }

  lemma {:induction false} AfterAppend(start: World, events: seq<Event>, e: Event)
    ensures After(start, events + [e]) == Step(After(start, events), e)
  {
    assert (events + [e])[..|events|] == events;
  }

  /** The rank tells where it is. */
  lemma {:induction false} RankTells(n: nat, phase: Phase)
    requires InBounds(n, phase)
    ensures Rank(n, phase) == n + 2 <==> phase == Preparing(Creating)
    ensures Rank(n, phase) == 3 * n + 9 <==> phase == Publishing(CheckingTarget)
    ensures Rank(n, phase) == 3 * n + 10 <==> phase == Publishing(Renaming)
    ensures Rank(n, phase) == 3 * n + 12 <==> phase == Activating(Registering)
    ensures Rank(n, phase) == 3 * n + 14 <==> phase == Ended(Completed)
  {
  }

  /** The source has arrived under the id, which is registered, its receipt is complete, and the lock is free. */
  ghost predicate Arrived(start: World, p: nat, w: World)
    requires p < |start.migrations|
  {
    var args := start.migrations[p].args;
    && args.id in w.registered && args.id in w.dirs && w.lock == None
    && (forall u :: u in w.dirs[args.id].units <==> u in start.units && u in start.source)
    && (forall u | u in w.dirs[args.id].units :: w.dirs[args.id].units[u] == start.source[u])
    && w.dirs[args.id].metadata == Some(Described(args, S.NormalName(args.name, args.id)))
    && w.dirs[args.id].receipt == Complete(args.id)
  }

  lemma {:induction false} OrdinaryIdCompletes(start: World, p: nat) returns (events: seq<Event>, w: World)
    requires Ready(start, p) && start.migrations[p].args.staging !in start.dirs
    requires start.migrations[p].args.id !in CONTROL_NAMES
    ensures |events| == 3 * |start.units| + 14 && IsSolo(events, p) && After(start, events) == w
    ensures |w.migrations| == |start.migrations| && w.migrations[p].phase == Ended(Completed) && Arrived(start, p, w)
  {
    events, w := SoloRun(start, p, 3 * |start.units| + 14);
    RankTells(|start.units|, w.migrations[p].phase);
    var v := ViewOf(w, p);
    forall u
      ensures u in v.plan <==> u in start.units && u in start.source
    {
      if u in start.units && u in start.source {
        var i :| 0 <= i < |start.units| && start.units[i] == u;
        assert start.units[i] in v.plan;
      }
    }
  }

  /** The registry's own name: published, and the registry unreadable from then on. */
  lemma {:induction false} RegistryIdEndsInactive(start: World, p: nat) returns (events: seq<Event>, w: World)
    requires Ready(start, p) && start.migrations[p].args.staging !in start.dirs
    requires start.migrations[p].args.id == S.REGISTRY_FILE
    ensures IsSolo(events, p) && After(start, events) == w
    ensures |w.migrations| == |start.migrations| && w.migrations[p].phase == Ended(PublishedInactive)
    ensures S.REGISTRY_FILE in w.dirs && w.lock == None && S.REGISTRY_FILE !in w.registered
  {
    var before, now := SoloRun(start, p, 3 * |start.units| + 12);
    RankTells(|start.units|, now.migrations[p].phase);
    var e := SoloEvent(now, p);
    AfterAppend(start, before, e);
    StepView(now, e, p);
    events, w := before + [e], Step(now, e);
  }

  /** The lock's name: taken by the time it is checked. */
  lemma {:induction false} LockIdFails(start: World, p: nat) returns (events: seq<Event>, w: World)
    requires Ready(start, p) && start.migrations[p].args.staging !in start.dirs
    requires start.migrations[p].args.id == S.LOCK_FILE
    ensures IsSolo(events, p) && After(start, events) == w
    ensures |w.migrations| == |start.migrations| && w.migrations[p].phase == Ended(Failed(false))
    ensures S.LOCK_FILE !in w.dirs && start.migrations[p].args.staging !in w.dirs && w.lock == None
  {
    var before, now := SoloRun(start, p, 3 * |start.units| + 9);
    RankTells(|start.units|, now.migrations[p].phase);
    var e := SoloEvent(now, p);
    AfterAppend(start, before, e);
    StepView(now, e, p);
    events, w := before + [e], Step(now, e);
  }

  /**
   * With a valid id that nobody holds and a free staging name, a migration left to itself
   * completes exactly when its id is not the name of the registry or of its lock: the
   * target then holds exactly the listed units of the source, the id is registered, and
   * the lock is free again.
   */
  lemma {:induction false} UncontestedMigrationCompletes(start: World, p: nat) returns (events: seq<Event>, w: World)
    requires Ready(start, p) && start.migrations[p].args.staging !in start.dirs
    ensures IsSolo(events, p) && After(start, events) == w
    ensures |w.migrations| == |start.migrations| && w.migrations[p].phase.Ended? && w.lock == None
    ensures w.migrations[p].phase == Ended(Completed) <==> start.migrations[p].args.id !in CONTROL_NAMES
    ensures w.migrations[p].phase == Ended(Completed) ==> |events| == 3 * |start.units| + 14 && Arrived(start, p, w)
  {
    if start.migrations[p].args.id == S.LOCK_FILE {
      events, w := LockIdFails(start, p);
    } else if start.migrations[p].args.id == S.REGISTRY_FILE {
      events, w := RegistryIdEndsInactive(start, p);
    } else {
      events, w := OrdinaryIdCompletes(start, p);
    }
  }

  /**
   * A taken staging name: planning goes through, creating the staging directory fails,
   * and the cleanup removes the directory that held the name all along.
   */
  lemma {:induction false} TakenNameIsRemoved(start: World, p: nat, ok: bool, copied: Content) returns (events: seq<Event>, w: World)
    requires Ready(start, p) && start.migrations[p].args.staging in start.dirs
    ensures IsSolo(events, p) && After(start, events) == w
    ensures
      var w' := Step(w, Run(p, ok, true, copied));
      var staging := start.migrations[p].args.staging;
      && staging in w.dirs && w.dirs[staging] == start.dirs[staging] && staging !in w'.dirs
      && |w'.migrations| == |start.migrations| && w'.migrations[p].phase == Ended(Failed(false))
  {
    events, w := SoloRun(start, p, |start.units| + 2);
    RankTells(|start.units|, w.migrations[p].phase);
    StepView(w, Run(p, ok, true, copied), p);
  }

  /** Creation spares every existing directory exactly when the staging name was free. */
  lemma {:induction false} CreationIsHarmlessExactly(w: World, p: nat, ok: bool, copied: Content)
    requires p < |w.migrations| && w.migrations[p].phase == Preparing(Creating)
    requires w.migrations[p].args.staging != w.migrations[p].args.id
    ensures
      var w' := Step(w, Run(p, ok, true, copied));
      (forall name | name in w.dirs :: name in w'.dirs && w'.dirs[name] == w.dirs[name])
        <==> w.migrations[p].args.staging !in w.dirs
  {
    var v' := Move(w.units, w.source, ViewOf(w, p), ok, true, copied);
    assert v'.target == ViewOf(w, p).target;
    assert v'.staged == (if ok && ViewOf(w, p).staged.None? then Some(BLANK) else None);
  }

  /**
   * Verification does not reach as far as the rename: whatever someone puts under the
   * staging name in between is published instead.
   */
  lemma {:induction false} TamperedStagingIsPublished(start: World, p: nat, image: Image) returns (events: seq<Event>, before: World)
    requires Ready(start, p) && start.migrations[p].args.staging !in start.dirs
    requires start.migrations[p].args.id != S.LOCK_FILE
    ensures IsSolo(events, p) && After(start, events) == before
    ensures
      var args := start.migrations[p].args;
      var w := Step(Step(before, PutDirectory(args.staging, image)), Run(p, true, true, Special));
      |w.migrations| == |start.migrations| && w.migrations[p].phase == Activating(WritingMetadata)
      && args.id in w.dirs && w.dirs[args.id] == image
  {
    events, before := SoloRun(start, p, 3 * |start.units| + 10);
    RankTells(|start.units|, before.migrations[p].phase);
    TamperedStep(before, p, image);
  }

  lemma {:induction false} TamperedStep(w: World, p: nat, image: Image)
    requires Inv(w) && p < |w.migrations| && w.migrations[p].phase == Publishing(Renaming)
    requires w.migrations[p].args.id !in w.dirs && w.migrations[p].args.id !in w.files
    ensures
      var args := w.migrations[p].args;
      var w' := Step(Step(w, PutDirectory(args.staging, image)), Run(p, true, true, Special));
      |w'.migrations| == |w.migrations| && w'.migrations[p].phase == Activating(WritingMetadata)
      && args.id in w'.dirs && w'.dirs[args.id] == image
  {
    var put := PutDirectory(w.migrations[p].args.staging, image);
    StepView(w, put, p);
    StepView(Step(w, put), Run(p, true, true, Special), p);
  }
}
