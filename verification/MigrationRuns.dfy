/** What holds over every run of any number of migrations and their environment. */
module MigrationRuns {
  import opened Basics
  import opened SpaceMigration
  import S = SpaceRegistry

  /** Staging names are unlike each other, unlike every target and unlike the control names. */
  predicate DistinctNames(ms: seq<Migration>) {
    && (forall p, q | 0 <= p < q < |ms| :: ms[p].args.staging != ms[q].args.staging)
    && (forall p, q | 0 <= p < |ms| && 0 <= q < |ms| :: ms[p].args.staging != ms[q].args.id)
    && (forall p | 0 <= p < |ms| :: ms[p].args.staging !in CONTROL_NAMES)
  }

  /** Nothing has begun. A staging name may already be taken. */
  predicate Start(w: World) {
    && DistinctNames(w.migrations) && w.files <= CONTROL_NAMES
    && w.lock == None
    && forall p | 0 <= p < |w.migrations| ::
         w.migrations[p].phase == Preparing(Preflight) && w.migrations[p].plan == w.migrations[p].reread == map[]
  }

  predicate Inv(w: World) {
    && DistinctNames(w.migrations) && w.files <= CONTROL_NAMES
    && forall p | 0 <= p < |w.migrations| :: ViewOk(w.units, ViewOf(w, p))
  }

  /** What a step of anyone else may change in a migration's view. */
  predicate Nudged(v: View, v': View) {
    && v'.args == v.args && v'.phase == v.phase && v'.plan == v.plan && v'.reread == v.reread
    && (v.staged.Some? ==> v'.staged.Some?)
    && (v.target.Some? ==> v'.target.Some?)
    && (v'.lock.Mine? <==> v.lock.Mine?)
    && (v.registered ==> v'.registered)
    && (v.lock.Mine? ==> v'.registered == v.registered)
    && v.files <= v'.files && v.blocked <= v'.blocked
  }

  lemma {:induction false} NudgedKeepsView(units: seq<Unit>, v: View, v': View)
    requires ViewOk(units, v) && Nudged(v, v')
    ensures ViewOk(units, v')
  {
  }

  /** A migration sees exactly what it installed. */
  lemma {:induction false} InstalledView(w: World, p: nat, v: View)
    requires p < |w.migrations| && w.migrations[p].args.staging != w.migrations[p].args.id
    requires w.migrations[p].args.staging !in CONTROL_NAMES
    requires Confined(ViewOf(w, p), v)
    ensures ViewOf(Install(w, p, v), p) == v
  {
    InstalledNames(w, p, v);
  }

  /** Which control names are directories changes by publication only. */
  lemma {:induction false} InstalledNames(w: World, p: nat, v: View)
    requires p < |w.migrations| && w.migrations[p].args.staging !in CONTROL_NAMES
    requires Confined(ViewOf(w, p), v)
    ensures Install(w, p, v).dirs.Keys * CONTROL_NAMES == v.blocked
  {
    var args := w.migrations[p].args;
    var dirs := Install(w, p, v).dirs;
    forall name | name in CONTROL_NAMES
      ensures name in dirs <==> name in v.blocked
    {
      assert name != args.staging;
    }
  }

  lemma {:induction false} InstallLeavesOthers(w: World, p: nat, q: nat, v: View)
    requires p < |w.migrations| && q < |w.migrations| && p != q && DistinctNames(w.migrations)
    requires Confined(ViewOf(w, p), v)
    ensures Nudged(ViewOf(w, q), ViewOf(Install(w, p, v), q))
    ensures ViewOf(Install(w, p, v), q).staged == ViewOf(w, q).staged
  {
    InstalledNames(w, p, v);
    var m, n := w.migrations[p].args, w.migrations[q].args;
    assert n.staging != m.staging && n.staging != m.id && n.id != m.staging;
  }

  /** The view a migration would install by one step. */
  function Next(w: World, p: nat, e: Event): View
    requires p < |w.migrations| && e.Run?
  {
    Move(w.units, w.source, ViewOf(w, p), e.ok, e.tidy, e.copied)
  }

  predicate Writes(e: Event, name: string) {
    e.PutDirectory? && e.name == name
  }

  lemma {:induction false} RunKeepsInv(w: World, e: Event)
    requires Inv(w) && e.Run? && e.p < |w.migrations|
    ensures Inv(Step(w, e)) && |Step(w, e).migrations| == |w.migrations|
    ensures Confined(ViewOf(w, e.p), Next(w, e.p, e)) && ViewOf(Step(w, e), e.p) == Next(w, e.p, e)
    ensures forall q | 0 <= q < |w.migrations| && q != e.p ::
              Nudged(ViewOf(w, q), ViewOf(Step(w, e), q)) && ViewOf(Step(w, e), q).staged == ViewOf(w, q).staged
  {
    var v := Next(w, e.p, e);
    MoveKeepsView(w.units, w.source, ViewOf(w, e.p), e.ok, e.tidy, e.copied);
    InstalledView(w, e.p, v);
    forall q | 0 <= q < |w.migrations| && q != e.p
      ensures Nudged(ViewOf(w, q), ViewOf(Step(w, e), q)) && ViewOk(w.units, ViewOf(Step(w, e), q))
      ensures ViewOf(Step(w, e), q).staged == ViewOf(w, q).staged
    {
      InstallLeavesOthers(w, e.p, q, v);
      NudgedKeepsView(w.units, ViewOf(w, q), ViewOf(Step(w, e), q));
    }
  }

  lemma {:induction false} EnvironmentKeepsInv(w: World, e: Event)
    requires Inv(w) && (!e.Run? || e.p >= |w.migrations|)
    ensures Inv(Step(w, e)) && Step(w, e).migrations == w.migrations
    ensures forall q | 0 <= q < |w.migrations| ::
              && Nudged(ViewOf(w, q), ViewOf(Step(w, e), q))
              && (!Writes(e, w.migrations[q].args.staging) ==> ViewOf(Step(w, e), q).staged == ViewOf(w, q).staged)
  {
    forall q | 0 <= q < |w.migrations|
      ensures Nudged(ViewOf(w, q), ViewOf(Step(w, e), q)) && ViewOk(w.units, ViewOf(Step(w, e), q))
      ensures !Writes(e, w.migrations[q].args.staging) ==> ViewOf(Step(w, e), q).staged == ViewOf(w, q).staged
    {
      NudgedKeepsView(w.units, ViewOf(w, q), ViewOf(Step(w, e), q));
    }
  }

  /** The view of a migration after any event: its own move, or a nudge. */
  lemma {:induction false} StepView(w: World, e: Event, p: nat)
    requires Inv(w) && p < |w.migrations|
    ensures Inv(Step(w, e)) && |Step(w, e).migrations| == |w.migrations| && Step(w, e).units == w.units
    ensures ViewOf(Step(w, e), p).args == ViewOf(w, p).args
    ensures e.Run? && e.p == p ==> ViewOf(Step(w, e), p) == Next(w, p, e)
    ensures !(e.Run? && e.p == p) ==>
      && Nudged(ViewOf(w, p), ViewOf(Step(w, e), p))
      && (!Writes(e, w.migrations[p].args.staging) ==> ViewOf(Step(w, e), p).staged == ViewOf(w, p).staged)
  {
    if e.Run? && e.p < |w.migrations| { RunKeepsInv(w, e); } else { EnvironmentKeepsInv(w, e); }
  }

  lemma {:induction false} StepKeepsInv(w: World, e: Event)
    requires Inv(w)
    ensures Inv(Step(w, e)) && |Step(w, e).migrations| == |w.migrations| && Step(w, e).units == w.units
  {
    if e.Run? && e.p < |w.migrations| { RunKeepsInv(w, e); } else { EnvironmentKeepsInv(w, e); }
  }

  /** In every state of every interleaving each migration is where its phase says. */
  lemma {:induction false} Reachable(start: World, events: seq<Event>)
    requires Start(start)
    ensures Inv(After(start, events)) && |After(start, events).migrations| == |start.migrations|
    ensures After(start, events).units == start.units
  {
    if events != [] {
      Reachable(start, events[..|events| - 1]);
      StepKeepsInv(After(start, events[..|events| - 1]), events[|events| - 1]);
    }
  }

  lemma {:induction false} ArgumentsKept(start: World, events: seq<Event>, p: nat)
    requires Start(start) && p < |start.migrations|
    ensures |After(start, events).migrations| == |start.migrations|
    ensures After(start, events).migrations[p].args == start.migrations[p].args
  {
    Reachable(start, events);
    if events != [] {
      ArgumentsKept(start, events[..|events| - 1], p);
      Reachable(start, events[..|events| - 1]);
      StepView(After(start, events[..|events| - 1]), events[|events| - 1], p);
    }
  }

  // ---- Nothing else is touched ----

  /** Before publication a migration touches nothing but its staging directory; afterwards not the units. */
  lemma {:induction false} StepFrame(start: World, events: seq<Event>, e: Event, name: string)
    requires Start(start) && e.Run? && e.p < |start.migrations|
    ensures
      var w := After(start, events);
      var w' := Step(w, e);
      |w.migrations| == |start.migrations| && var m := w.migrations[e.p];
      name in w.dirs && name != m.args.staging ==>
        && name in w'.dirs && w'.dirs[name].units == w.dirs[name].units
        && (!(IsPublished(m.phase) && name == m.args.id) ==> w'.dirs[name] == w.dirs[name])
  {
    Reachable(start, events);
    RunKeepsInv(After(start, events), e);
  }

  predicate IsStagingName(w: World, name: string) {
    exists p | 0 <= p < |w.migrations| :: w.migrations[p].args.staging == name
  }

  predicate NobodyPublished(w: World, name: string) {
    forall p | 0 <= p < |w.migrations| && w.migrations[p].args.id == name :: !IsPublished(w.migrations[p].phase)
  }

  lemma {:induction false} OccupiedStep(w: World, e: Event, name: string)
    requires Inv(w) && name in w.dirs && !IsStagingName(w, name) && NobodyPublished(w, name) && !Writes(e, name)
    ensures
      var w' := Step(w, e);
      && name in w'.dirs && w'.dirs[name] == w.dirs[name]
      && !IsStagingName(w', name) && NobodyPublished(w', name)
  {
    if e.Run? && e.p < |w.migrations| {
      RunKeepsInv(w, e);
      assert w.migrations[e.p].args.staging != name;
    } else {
      EnvironmentKeepsInv(w, e);
    }
  }

  /**
   * An existing directory that does not hold a staging name is never replaced or
   * altered: however many migrations run, fail or race, even towards that very id, it
   * stays as it was unless someone other than a migration writes it.
   */
  lemma {:induction false} ExistingDirectoryIsUntouched(start: World, events: seq<Event>, name: string)
    requires Start(start) && name in start.dirs && !IsStagingName(start, name)
    requires forall i | 0 <= i < |events| :: !Writes(events[i], name)
    ensures
      var w := After(start, events);
      name in w.dirs && w.dirs[name] == start.dirs[name] && NobodyPublished(w, name) && !IsStagingName(w, name)
  {
    if events != [] {
      ExistingDirectoryIsUntouched(start, events[..|events| - 1], name);
      Reachable(start, events[..|events| - 1]);
      OccupiedStep(After(start, events[..|events| - 1]), events[|events| - 1], name);
    }
  }

  // ---- One publisher ----

  predicate OnePublisher(w: World) {
    forall p, q | 0 <= p < q < |w.migrations| && w.migrations[p].args.id == w.migrations[q].args.id ::
      !(IsPublished(w.migrations[p].phase) && IsPublished(w.migrations[q].phase))
  }

  lemma {:induction false} OnePublisherStep(w: World, e: Event)
    requires Inv(w) && OnePublisher(w)
    ensures OnePublisher(Step(w, e))
  {
    if e.Run? && e.p < |w.migrations| {
      RunKeepsInv(w, e);
      var w' := Step(w, e);
      forall q | 0 <= q < |w.migrations| && q != e.p && w.migrations[q].args.id == w.migrations[e.p].args.id
        ensures !(IsPublished(w'.migrations[e.p].phase) && IsPublished(w'.migrations[q].phase))
      {
        assert ViewOk(w.units, ViewOf(w, q));
        assert Nudged(ViewOf(w, q), ViewOf(w', q));
        assert Confined(ViewOf(w, e.p), ViewOf(w', e.p));
      }
    }
  }

  /** At most one of any number of concurrent migrations publishes an id. */
  lemma {:induction false} AtMostOnePublishes(start: World, events: seq<Event>)
    requires Start(start)
    ensures OnePublisher(After(start, events))
  {
    if events != [] {
      AtMostOnePublishes(start, events[..|events| - 1]);
      Reachable(start, events[..|events| - 1]);
      OnePublisherStep(After(start, events[..|events| - 1]), events[|events| - 1]);
    }
  }

  // ---- What is published ----

  /** From event k on nobody but migrations writes the name. */
  predicate Undisturbed(events: seq<Event>, k: nat, name: string) {
    forall i | k <= i < |events| :: !Writes(events[i], name)
  }

  /** Verification has not begun yet. */
  predicate BeforeVerification(phase: Phase) {
    phase.Preparing? || (phase.Stages? && (phase.staging.Filling? || phase.staging.Describing?))
  }

  lemma {:induction false} SealedStep(w: World, e: Event, p: nat)
    requires Inv(w) && p < |w.migrations| && Sealed(w.units, ViewOf(w, p)) && !Writes(e, w.migrations[p].args.staging)
    ensures |Step(w, e).migrations| == |w.migrations| && Sealed(w.units, ViewOf(Step(w, e), p))
  {
    StepView(w, e, p);
    if e.Run? && e.p == p { MoveKeepsSealed(w.units, w.source, ViewOf(w, p), e.ok, e.tidy, e.copied); }
  }

  /** Undisturbed since before verification, staging is sealed. */
  lemma {:induction false} SealedSince(start: World, events: seq<Event>, k: nat, p: nat)
    requires Start(start) && p < |start.migrations| && k <= |events|
    requires |After(start, events[..k]).migrations| == |start.migrations|
    requires BeforeVerification(After(start, events[..k]).migrations[p].phase)
    requires Undisturbed(events, k, start.migrations[p].args.staging)
    ensures |After(start, events).migrations| == |start.migrations|
    ensures Sealed(start.units, ViewOf(After(start, events), p))
  {
    Reachable(start, events);
    if k == |events| {
      assert events[..k] == events;
    } else {
      var front, last := events[..|events| - 1], events[|events| - 1];
      assert front[..k] == events[..k];
      SealedSince(start, front, k, p);
      Reachable(start, front);
      ArgumentsKept(start, front, p);
      SealedStep(After(start, front), last, p);
    }
  }

  lemma {:induction false} StagingStep(w: World, e: Event, p: nat)
    requires Inv(w) && p < |w.migrations| && !Writes(e, w.migrations[p].args.staging)
    ensures |Step(w, e).migrations| == |w.migrations| && KeepsStaging(ViewOf(w, p), ViewOf(Step(w, e), p))
  {
    StepView(w, e, p);
    if e.Run? && e.p == p { MoveKeepsStaging(w.units, w.source, ViewOf(w, p), e.ok, e.tidy, e.copied); }
  }

  /** Undisturbed since before its creation, staging holds nothing that is not planned. */
  lemma {:induction false} ExactSince(start: World, events: seq<Event>, k: nat, p: nat)
    requires Start(start) && p < |start.migrations| && k <= |events|
    requires |After(start, events[..k]).migrations| == |start.migrations|
    requires After(start, events[..k]).migrations[p].phase.Preparing?
    requires Undisturbed(events, k, start.migrations[p].args.staging)
    ensures |After(start, events).migrations| == |start.migrations|
    ensures Exact(ViewOf(After(start, events), p))
  {
    Reachable(start, events);
    if k == |events| {
      assert events[..k] == events;
    } else {
      var front, last := events[..|events| - 1], events[|events| - 1];
      assert front[..k] == events[..k];
      ExactSince(start, front, k, p);
      Reachable(start, front);
      ArgumentsKept(start, front, p);
      StagingStep(After(start, front), last, p);
    }
  }

  /** The directory as the space registry reads it. */
  function AsSpaceDir(image: Image): S.Dir {
    S.Dir(image.metadata, match image.receipt
                          case NoReceipt => S.NoReceipt
                          case Pending(id) => S.PendingReceipt(id)
                          case Complete(id) => S.CompletedReceipt(id))
  }

  lemma {:induction false} RenamingAct(
    units: seq<Unit>, source: map<Unit, Content>, v: View, ok: bool, tidy: bool, copied: Content)
    requires ViewOk(units, v) && Confined(v, Move(units, source, v, ok, tidy, copied))
    requires Publishes(v, Move(units, source, v, ok, tidy, copied))
    ensures v.phase == Publishing(Renaming) && v.lock.Mine? && !v.registered && !TargetTaken(v) && v.staged.Some?
    ensures v.args.id != S.LOCK_FILE
    ensures
      var v' := Move(units, source, v, ok, tidy, copied);
      v' == v.(phase := Activating(WritingMetadata), target := v.staged, staged := None, blocked := v'.blocked)
  {
  }

  /** The event is the step with which migration `e.p` publishes. */
  predicate PublishesBy(w: World, e: Event) {
    && e.Run? && e.p < |w.migrations| && |Step(w, e).migrations| == |w.migrations|
    && !IsPublished(w.migrations[e.p].phase) && IsPublished(Step(w, e).migrations[e.p].phase)
  }

  /**
   * Publication, whatever else happens: only under the registry lock, onto an absent and
   * unregistered target that is no control file, and of whatever then holds the staging
   * name.
   */
  lemma {:induction false} PublicationIsGuarded(start: World, events: seq<Event>, e: Event)
    requires Start(start) && PublishesBy(After(start, events), e)
    ensures
      var w := After(start, events);
      var w' := Step(w, e);
      var args := w.migrations[e.p].args;
      && S.IsSpaceId(args.id) && args.id !in w.dirs && args.id !in w.files && args.id !in w.registered
      && w.lock == Some(e.p) && args.id != S.LOCK_FILE
      && args.staging in w.dirs && args.staging !in w'.dirs
      && args.id in w'.dirs && w'.dirs[args.id] == w.dirs[args.staging]
  {
    Reachable(start, events);
    var w := After(start, events);
    assert ViewOk(w.units, ViewOf(w, e.p));
    RunKeepsInv(w, e);
    RenamingAct(w.units, w.source, ViewOf(w, e.p), e.ok, e.tidy, e.copied);
  }

  /**
   * If nobody else writes the staging name from before verification on, the published
   * directory holds every planned unit as planned, as read from the source again and as
   * read back from staging, with the metadata and pending receipt that recovery expects.
   */
  lemma {:induction false} PublicationHoldsPlan(start: World, events: seq<Event>, k: nat, e: Event)
    requires Start(start) && PublishesBy(After(start, events), e) && k <= |events| && e.p < |start.migrations|
    requires |After(start, events[..k]).migrations| == |start.migrations|
    requires BeforeVerification(After(start, events[..k]).migrations[e.p].phase)
    requires Undisturbed(events, k, start.migrations[e.p].args.staging)
    ensures
      var w := After(start, events);
      var m, dirs := w.migrations[e.p], Step(w, e).dirs;
      && m.args.id in dirs
      && (forall u | u in m.plan ::
            && u in dirs[m.args.id].units && dirs[m.args.id].units[u] == m.plan[u]
            && u in m.reread && m.reread[u] == m.plan[u])
      && S.Published(S.EMPTY, m.args.id, m.args.name, m.args.binding).dirs
         == map[m.args.id := AsSpaceDir(dirs[m.args.id])]
  {
    PublicationIsGuarded(start, events, e);
    SealedSince(start, events, k, e.p);
    Reachable(start, events);
    var w := After(start, events);
    assert ViewOk(w.units, ViewOf(w, e.p));
    RunKeepsInv(w, e);
    RenamingAct(w.units, w.source, ViewOf(w, e.p), e.ok, e.tidy, e.copied);
    forall u | u in w.migrations[e.p].plan
      ensures Checked(ViewOf(w, e.p), ViewOf(w, e.p).staged.value, u)
    {
    }
  }

  /** If nobody else writes it from before its creation on, it holds the plan and nothing else. */
  lemma {:induction false} PublicationIsExact(start: World, events: seq<Event>, k: nat, e: Event)
    requires Start(start) && PublishesBy(After(start, events), e) && k <= |events| && e.p < |start.migrations|
    requires |After(start, events[..k]).migrations| == |start.migrations|
    requires After(start, events[..k]).migrations[e.p].phase.Preparing?
    requires Undisturbed(events, k, start.migrations[e.p].args.staging)
    ensures
      var w := After(start, events);
      var m, dirs := w.migrations[e.p], Step(w, e).dirs;
      m.args.id in dirs && dirs[m.args.id].units == m.plan == m.reread
  {
    PublicationHoldsPlan(start, events, k, e);
    PublicationIsGuarded(start, events, e);
    ExactSince(start, events, k, e.p);
    Reachable(start, events);
    var w := After(start, events);
    assert ViewOk(w.units, ViewOf(w, e.p));
    RunKeepsInv(w, e);
    RenamingAct(w.units, w.source, ViewOf(w, e.p), e.ok, e.tidy, e.copied);
  }

  // ---- Tampering with the staging directory ----

  /** Every planned unit is there as planned. */
  predicate HoldsPlan(units: map<Unit, Content>, plan: map<Unit, Content>) {
    forall u | u in plan :: u in units && units[u] == plan[u]
  }

  /** The migration owns its staging directory and has nothing more to fill in. */
  predicate HasFilled(phase: Phase) {
    phase.Publishing? || (phase.Stages? && !phase.staging.Filling?)
  }

  predicate PastFilling(phase: Phase) {
    HasFilled(phase) || phase.Activating? || phase.Ended?
  }

  /** Up to the rename the staging directory holds these units. */
  predicate Carries(v: View, units: map<Unit, Content>) {
    PastFilling(v.phase) && (HasFilled(v.phase) ==> v.staged.Some? && v.staged.value.units == units)
  }

  lemma {:induction false} MoveCarries(
    units: seq<Unit>, source: map<Unit, Content>, v: View, ok: bool, tidy: bool, copied: Content, held: map<Unit, Content>)
    requires ViewOk(units, v) && Carries(v, held)
    ensures Carries(Move(units, source, v, ok, tidy, copied), held)
  {
    match v.phase
    case Stages(step) => StageCarries(units, source, v, step, ok, tidy, copied, held);
    case Publishing(step) => PublishCarries(v, step, ok, tidy, held);
    case Activating(step) => ActivateStays(v, step, ok, tidy);
    case Ended(_) =>
  }

  lemma {:induction false} StageCarries(
    units: seq<Unit>, source: map<Unit, Content>, v: View, step: Staging, ok: bool, tidy: bool, copied: Content, held: map<Unit, Content>)
    requires v.phase == Stages(step) && Carries(v, held)
    ensures Carries(Stage(units, source, v, step, ok, tidy, copied), held)
  {
  }

  lemma {:induction false} PublishCarries(v: View, step: Publication, ok: bool, tidy: bool, held: map<Unit, Content>)
    requires v.phase == Publishing(step) && Carries(v, held)
    ensures Carries(Publish(v, step, ok, tidy), held)
  {
  }

  /** The last event from k on that writes the name. */
  function LastWrite(events: seq<Event>, k: nat, name: string): (j: Option<nat>)
    requires k <= |events|
    ensures j.Some? ==> k <= j.value < |events| && Writes(events[j.value], name) && Undisturbed(events, j.value + 1, name)
    ensures j.None? ==> Undisturbed(events, k, name)
  {
    if k == |events| then None
    else if Writes(events[|events| - 1], name) then Some(|events| - 1)
    else
      var j := LastWrite(events[..|events| - 1], k, name);
      assert forall i | k <= i < |events| - 1 :: events[..|events| - 1][i] == events[i];
      j
  }

  /** What was written last is what the staging directory holds. */
  lemma {:induction false} CarriesSince(start: World, events: seq<Event>, j: nat, p: nat)
    requires Start(start) && p < |start.migrations| && j < |events|
    requires Writes(events[j], start.migrations[p].args.staging)
    requires Undisturbed(events, j + 1, start.migrations[p].args.staging)
    requires |After(start, events[..j]).migrations| == |start.migrations|
    requires PastFilling(After(start, events[..j]).migrations[p].phase)
    ensures |After(start, events).migrations| == |start.migrations|
    ensures Carries(ViewOf(After(start, events), p), events[j].image.units)
  {
    var front, last := events[..|events| - 1], events[|events| - 1];
    Reachable(start, front);
    ArgumentsKept(start, front, p);
    var w := After(start, front);
    StepView(w, last, p);
    if j == |events| - 1 {
      assert w.migrations[p].args.staging !in w.files;
    } else {
      assert front[..j] == events[..j] && front[j] == events[j];
      CarriesSince(start, front, j, p);
      assert ViewOk(w.units, ViewOf(w, p));
      if last.Run? && last.p == p {
        MoveCarries(w.units, w.source, ViewOf(w, p), last.ok, last.tidy, last.copied, events[j].image.units);
      }
    }
  }

  /** Having filled its staging directory, a migration does not fill it again. */
  lemma {:induction false} FilledStep(w: World, e: Event, p: nat)
    requires Inv(w) && p < |w.migrations|
    ensures |Step(w, e).migrations| == |w.migrations|
    ensures PastFilling(w.migrations[p].phase) ==> PastFilling(Step(w, e).migrations[p].phase)
  {
    StepView(w, e, p);
    var v := ViewOf(w, p);
    assert ViewOk(w.units, v);
    if e.Run? && e.p == p && PastFilling(v.phase) {
      var held := if v.staged.Some? then v.staged.value.units else map[];
      MoveCarries(w.units, w.source, v, e.ok, e.tidy, e.copied, held);
    }
  }

  lemma {:induction false} FilledSince(start: World, events: seq<Event>, k: nat, p: nat)
    requires Start(start) && p < |start.migrations| && k <= |events|
    requires |After(start, events[..k]).migrations| == |start.migrations|
    requires HasFilled(After(start, events[..k]).migrations[p].phase)
    ensures |After(start, events).migrations| == |start.migrations|
    ensures PastFilling(After(start, events).migrations[p].phase)
  {
    Reachable(start, events);
    if k == |events| {
      assert events[..k] == events;
    } else {
      var front := events[..|events| - 1];
      assert front[..k] == events[..k];
      FilledSince(start, front, k, p);
      Reachable(start, front);
      FilledStep(After(start, front), events[|events| - 1], p);
    }
  }

  /**
   * Verification does not reach as far as the rename. From the end of the filling on, the
   * published directory holds the plan exactly when the last write of the staging name by
   * anyone else, if there was one, held it.
   */
  lemma {:induction false} PublicationHoldsPlanExactly(start: World, events: seq<Event>, k: nat, e: Event)
    requires Start(start) && PublishesBy(After(start, events), e) && k <= |events| && e.p < |start.migrations|
    requires |After(start, events[..k]).migrations| == |start.migrations|
    requires After(start, events[..k]).migrations[e.p].phase == Stages(Describing)
    ensures
      var w := After(start, events);
      var m, dirs := w.migrations[e.p], Step(w, e).dirs;
      var j := LastWrite(events, k, start.migrations[e.p].args.staging);
      && m.args.id in dirs
      && (HoldsPlan(dirs[m.args.id].units, m.plan) <==> j.None? || HoldsPlan(events[j.value].image.units, m.plan))
  {
    var staging := start.migrations[e.p].args.staging;
    var last := LastWrite(events, k, staging);
    PublicationIsGuarded(start, events, e);
    if last.None? {
      PublicationHoldsPlan(start, events, k, e);
    } else {
      var j := last.value;
      assert events[..j][..k] == events[..k];
      FilledSince(start, events[..j], k, e.p);
      CarriesSince(start, events, j, e.p);
      ArgumentsKept(start, events, e.p);
      RenamesWhatItCarries(start, events, e, events[j].image.units);
    }
  }

  lemma {:induction false} RenamesWhatItCarries(start: World, events: seq<Event>, e: Event, held: map<Unit, Content>)
    requires Start(start) && PublishesBy(After(start, events), e)
    requires Carries(ViewOf(After(start, events), e.p), held)
    ensures
      var w := After(start, events);
      var id := w.migrations[e.p].args.id;
      id in Step(w, e).dirs && Step(w, e).dirs[id].units == held
  {
    PublicationIsGuarded(start, events, e);
    Reachable(start, events);
    var w := After(start, events);
    assert ViewOk(w.units, ViewOf(w, e.p));
    RunKeepsInv(w, e);
    RenamingAct(w.units, w.source, ViewOf(w, e.p), e.ok, e.tidy, e.copied);
  }

  // ---- What stays published ----

  /**
   * What a published target holds while only its own migration writes it: the whole
   * plan, metadata as staged and from then on as activated, and the receipt.
   */
  predicate TargetWhole(v: View) {
    IsPublished(v.phase) ==>
      && v.target.Some? && v.target.value.units == v.plan == v.reread
      && (v.phase == Activating(WritingMetadata) ==> v.target.value.metadata == Some(Described(v.args, v.args.name)))
      && (v.phase == Activating(Registering) || v.phase == Activating(Marking) || v.phase == Ended(Completed) ==>
            v.target.value.metadata == Some(Described(v.args, S.NormalName(v.args.name, v.args.id))))
      && (v.target.value.receipt == Pending(v.args.id)
          || (v.phase == Ended(Completed) && v.target.value.receipt == Complete(v.args.id)))
  }

  lemma {:induction false} ActivateKeepsTarget(v: View, step: Activation, ok: bool, tidy: bool)
    requires TargetWhole(v) && v.phase == Activating(step)
    ensures TargetWhole(Activate(v, step, ok, tidy))
  {
  }

  lemma {:induction false} MoveKeepsTarget(
    units: seq<Unit>, source: map<Unit, Content>, v: View, ok: bool, tidy: bool, copied: Content)
    requires ViewOk(units, v) && TargetWhole(v) && Sealed(units, v) && Exact(v)
    requires Confined(v, Move(units, source, v, ok, tidy, copied))
    ensures TargetWhole(Move(units, source, v, ok, tidy, copied))
  {
    if v.phase.Activating? {
      ActivateKeepsTarget(v, v.phase.activation, ok, tidy);
    } else if Publishes(v, Move(units, source, v, ok, tidy, copied)) {
      RenamingAct(units, source, v, ok, tidy, copied);
      WholeWhenSealed(units, v);
    }
  }

  lemma {:induction false} WholeWhenSealed(units: seq<Unit>, v: View)
    requires ViewOk(units, v) && Sealed(units, v) && Exact(v) && v.phase == Publishing(Renaming)
    ensures v.staged.value.units == v.plan == v.reread
  {
    forall u | u in v.plan
      ensures Checked(v, v.staged.value, u)
    {
    }
  }

  /** Nobody else's step reaches the target of a published migration. */
  lemma {:induction false} WholeStep(w: World, e: Event, p: nat)
    requires Inv(w) && OnePublisher(w) && p < |w.migrations| && TargetWhole(ViewOf(w, p))
    requires Sealed(w.units, ViewOf(w, p)) && Exact(ViewOf(w, p))
    requires !Writes(e, w.migrations[p].args.id)
    ensures |Step(w, e).migrations| == |w.migrations| && TargetWhole(ViewOf(Step(w, e), p))
  {
    assert ViewOk(w.units, ViewOf(w, p));
    if e.Run? && e.p < |w.migrations| {
      RunKeepsInv(w, e);
      if e.p == p {
        MoveKeepsTarget(w.units, w.source, ViewOf(w, p), e.ok, e.tidy, e.copied);
      } else {
        assert w.migrations[e.p].args.staging != w.migrations[p].args.id;
        assert Nudged(ViewOf(w, p), ViewOf(Step(w, e), p));
      }
    } else {
      EnvironmentKeepsInv(w, e);
    }
  }

  /**
   * If nobody else writes its staging name or its target, a published target stays whole
   * to the end of every run: racing and failing migrations of the same id do not touch it.
   */
  lemma {:induction false} PublishedTargetStaysWhole(start: World, events: seq<Event>, p: nat)
    requires Start(start) && p < |start.migrations|
    requires Undisturbed(events, 0, start.migrations[p].args.staging)
    requires Undisturbed(events, 0, start.migrations[p].args.id)
    ensures |After(start, events).migrations| == |start.migrations| && TargetWhole(ViewOf(After(start, events), p))
  {
    Reachable(start, events);
    if events != [] {
      var front, last := events[..|events| - 1], events[|events| - 1];
      PublishedTargetStaysWhole(start, front, p);
      Reachable(start, front);
      ArgumentsKept(start, front, p);
      AtMostOnePublishes(start, front);
      assert front[..0] == [];
      SealedSince(start, front, 0, p);
      ExactSince(start, front, 0, p);
      WholeStep(After(start, front), last, p);
    }
  }

  // ---- What is read and what is staged ----

  /** Of its own kind: a ledger is a file, a directory a tree of files. */
  predicate IsOfItsKind(u: Unit, c: Content) {
    (u.Ledger? && c.File?) || (u.Directory? && c.Tree?)
  }

  /**
   * In every run, planning a unit enters it as the source then holds it, passes over a
   * missing one, and ends the migration exactly when reading fails or the unit is not of
   * its kind, with nothing staged yet.
   */
  lemma {:induction false} PlanningStep(start: World, events: seq<Event>, e: Event, k: nat)
    requires Start(start) && e.Run? && e.p < |start.migrations| && k < |start.units|
    requires
      var w := After(start, events);
      |w.migrations| == |start.migrations| && w.migrations[e.p].phase == Preparing(Planning(k))
    ensures
      var w, u := After(start, events), start.units[k];
      var m, m' := w.migrations[e.p], Step(w, e).migrations[e.p];
      && (m'.phase == Ended(Refused) <==> !e.ok || (u in w.source && !IsOfItsKind(u, w.source[u])))
      && (m'.phase != Ended(Refused) ==> m'.phase == Preparing(Planning(k + 1)))
      && m'.plan == (if e.ok && u in w.source && IsOfItsKind(u, w.source[u]) then m.plan[u := w.source[u]] else m.plan)
      && Step(w, e).dirs == w.dirs
  {
    Reachable(start, events);
    var w := After(start, events);
    StepView(w, e, e.p);
  }

  /**
   * In every run, filling in a unit that was planned stages a ledger with the planned
   * bytes, whatever the source holds by then, and a directory with what its copy ended up
   * with; everything else in staging stays as it is.
   */
  lemma {:induction false} FillingStep(start: World, events: seq<Event>, e: Event, k: nat)
    requires Start(start) && e.Run? && e.ok && e.p < |start.migrations| && k < |start.units|
    requires
      var w := After(start, events);
      |w.migrations| == |start.migrations| && w.migrations[e.p].phase == Stages(Filling(k))
    ensures
      var w, u := After(start, events), start.units[k];
      var m, staged, staged' := w.migrations[e.p], ViewOf(w, e.p).staged, ViewOf(Step(w, e), e.p).staged;
      && Step(w, e).migrations[e.p].phase == Stages(Filling(k + 1)) && staged.Some? && staged'.Some?
      && (u !in m.plan ==> staged' == staged)
      && (u in m.plan && u.Ledger? ==> staged'.value == staged.value.(units := staged.value.units[u := m.plan[u]]))
      && (u in m.plan && u.Directory? ==> staged'.value == staged.value.(units := staged.value.units[u := e.copied]))
  {
    Reachable(start, events);
    var w := After(start, events);
    assert ViewOk(w.units, ViewOf(w, e.p));
    StepView(w, e, e.p);
  }

  // ---- What others may do ----

  /** Nothing but a control file, a held lock or a directory in the registry's way keeps the environment from acting. */
  lemma {:induction false} EnvironmentActs(w: World, source: map<Unit, Content>, name: string, image: Image, id: string)
    ensures Step(w, ChangeSource(source)) == w.(source := source)
    ensures name !in w.files ==>
      name in Step(w, PutDirectory(name, image)).dirs && Step(w, PutDirectory(name, image)).dirs[name] == image
    ensures name in w.files ==> Step(w, PutDirectory(name, image)) == w
    ensures
      var open := w.lock.None? && S.REGISTRY_FILE !in w.dirs && S.LOCK_FILE !in w.dirs;
      var w' := Step(w, RegisterSpace(id));
      && (open ==> id in w'.registered && S.REGISTRY_FILE in w'.files && S.LOCK_FILE in w'.files)
      && (!open ==> w' == w)
  {
  }

  // ---- What completion does ----

  /** The event is the step with which migration `e.p` completes. */
  predicate CompletesBy(w: World, e: Event) {
    && e.Run? && e.p < |w.migrations| && |Step(w, e).migrations| == |w.migrations|
    && w.migrations[e.p].phase != Ended(Completed) && Step(w, e).migrations[e.p].phase == Ended(Completed)
  }

  lemma {:induction false} StageDoesNotComplete(
    units: seq<Unit>, source: map<Unit, Content>, v: View, step: Staging, ok: bool, tidy: bool, copied: Content)
    ensures Stage(units, source, v, step, ok, tidy, copied).phase != Ended(Completed)
  {
  }

  lemma {:induction false} PublishDoesNotComplete(v: View, step: Publication, ok: bool, tidy: bool)
    requires v.phase != Ended(Completed)
    ensures Publish(v, step, ok, tidy).phase != Ended(Completed)
  {
  }

  lemma {:induction false} ActivationCompletes(v: View, step: Activation, ok: bool, tidy: bool)
    requires Activate(v, step, ok, tidy).phase == Ended(Completed)
    ensures step == Marking && ok && v.target.Some?
    ensures
      var id, target := v.args.id, v.target.value;
      Activate(v, step, ok, tidy).target
        == Some(if tidy && target.receipt == Pending(id) then target.(receipt := Complete(id)) else target)
  {
  }

  lemma {:induction false} CompletingMove(
    units: seq<Unit>, source: map<Unit, Content>, v: View, ok: bool, tidy: bool, copied: Content)
    requires v.phase != Ended(Completed) && Move(units, source, v, ok, tidy, copied).phase == Ended(Completed)
    ensures v.phase == Activating(Marking) && v.target.Some?
    ensures
      var id, target := v.args.id, v.target.value;
      Move(units, source, v, ok, tidy, copied).target
        == Some(if tidy && target.receipt == Pending(id) then target.(receipt := Complete(id)) else target)
  {
    match v.phase
    case Preparing(step) => PrepareStays(units, source, v, step, ok, tidy);
    case Stages(step) => StageDoesNotComplete(units, source, v, step, ok, tidy, copied);
    case Publishing(step) => PublishDoesNotComplete(v, step, ok, tidy);
    case Activating(step) => ActivationCompletes(v, step, ok, tidy);
    case Ended(_) =>
  }

  /**
   * In every run, the step that completes a migration completes a receipt pending for its
   * own id exactly when that last write went through, and changes nothing else of the
   * target: no other receipt, no unit and no metadata.
   */
  lemma {:induction false} CompletionCompletesReceipt(start: World, events: seq<Event>, e: Event)
    requires Start(start) && CompletesBy(After(start, events), e)
    ensures
      var w := After(start, events);
      var id, dirs, dirs' := w.migrations[e.p].args.id, w.dirs, Step(w, e).dirs;
      && w.lock == Some(e.p) && id in w.registered && id in dirs && id in dirs'
      && (dirs[id].receipt == Pending(id) ==>
            dirs'[id] == dirs[id].(receipt := if e.tidy then Complete(id) else Pending(id)))
      && (dirs[id].receipt != Pending(id) ==> dirs'[id] == dirs[id])
  {
    Reachable(start, events);
    var w := After(start, events);
    assert ViewOk(w.units, ViewOf(w, e.p));
    RunKeepsInv(w, e);
    CompletingMove(w.units, w.source, ViewOf(w, e.p), e.ok, e.tidy, e.copied);
  }

  // ---- What a failure leaves ----

  /** The lock is held exactly in the critical section, and what is published or registered is so. */
  lemma {:induction false} LockIsHeldExactly(start: World, events: seq<Event>, p: nat)
    requires Start(start) && p < |start.migrations|
    ensures
      var w := After(start, events);
      |w.migrations| == |start.migrations| && var m := w.migrations[p];
      && (w.lock == Some(p) <==> HoldsLock(m.phase))
      && (IsPublished(m.phase) ==> m.args.id in w.dirs && S.IsSpaceId(m.args.id))
      && (m.phase == Ended(Completed) ==> m.args.id in w.registered && S.REGISTRY_FILE in w.files)
  {
    Reachable(start, events);
    assert ViewOk(After(start, events).units, ViewOf(After(start, events), p));
  }

  /**
   * If the staging name was free and nobody else writes it, the staging directory exists
   * exactly while its migration owns it, or after the failure to remove it was reported.
   */
  lemma {:induction false} FailureLeavesNothing(start: World, events: seq<Event>, p: nat)
    requires Start(start) && p < |start.migrations| && start.migrations[p].args.staging !in start.dirs
    requires Undisturbed(events, 0, start.migrations[p].args.staging)
    ensures
      var w := After(start, events);
      |w.migrations| == |start.migrations| && var m := w.migrations[p];
      m.args.staging in w.dirs <==> OwnsStaging(m.phase) || m.phase == Ended(Failed(true))
  {
    Reachable(start, events);
    TidyThroughout(start, events, p);
  }

  lemma {:induction false} TidyThroughout(start: World, events: seq<Event>, p: nat)
    requires Start(start) && p < |start.migrations| && start.migrations[p].args.staging !in start.dirs
    requires Undisturbed(events, 0, start.migrations[p].args.staging)
    ensures |After(start, events).migrations| == |start.migrations| && Tidy(ViewOf(After(start, events), p))
  {
    Reachable(start, events);
    if events != [] {
      var front, last := events[..|events| - 1], events[|events| - 1];
      TidyThroughout(start, front, p);
      Reachable(start, front);
      ArgumentsKept(start, front, p);
      StagingStep(After(start, front), last, p);
    }
  }

  // ---- Plan and verification read the source ----

  /** The source held this content before event `i`. */
  predicate HeldAt(start: World, events: seq<Event>, i: nat, u: Unit, c: Content)
    requires i <= |events|
  {
    var source := After(start, events[..i]).source;
    u in source && source[u] == c
  }

  /** It held it at some point of the run. */
  predicate Seen(start: World, events: seq<Event>, u: Unit, c: Content) {
    exists i | 0 <= i < |events| :: HeldAt(start, events, i, u, c)
  }

  /** It held it at two different points. */
  predicate SeenTwice(start: World, events: seq<Event>, u: Unit, c: Content) {
    exists i, j | 0 <= i < j < |events| :: HeldAt(start, events, i, u, c) && HeldAt(start, events, j, u, c)
  }

  lemma {:induction false} HeldLater(start: World, events: seq<Event>, i: nat, u: Unit, c: Content)
    requires i < |events|
    ensures HeldAt(start, events[..|events| - 1], i, u, c) <==> HeldAt(start, events, i, u, c)
  {
    assert events[..|events| - 1][..i] == events[..i];
  }

  lemma {:induction false} SeenLater(start: World, events: seq<Event>, u: Unit, c: Content)
    requires events != []
    ensures Seen(start, events[..|events| - 1], u, c) ==> Seen(start, events, u, c)
    ensures SeenTwice(start, events[..|events| - 1], u, c) ==> SeenTwice(start, events, u, c)
    ensures Seen(start, events[..|events| - 1], u, c) && HeldAt(start, events, |events| - 1, u, c)
            ==> SeenTwice(start, events, u, c)
  {
    var front := events[..|events| - 1];
    if Seen(start, front, u, c) {
      var i :| 0 <= i < |front| && HeldAt(start, front, i, u, c);
      HeldLater(start, events, i, u, c);
    }
    if SeenTwice(start, front, u, c) {
      var i, j :| 0 <= i < j < |front| && HeldAt(start, front, i, u, c) && HeldAt(start, front, j, u, c);
      HeldLater(start, events, i, u, c);
      HeldLater(start, events, j, u, c);
    }
  }

  /** A move enters into the plan only what it reads, and into the re-read only what is planned and read. */
  predicate ReadsOnly(
    source: map<Unit, Content>, plan: map<Unit, Content>, reread: map<Unit, Content>,
    plan': map<Unit, Content>, reread': map<Unit, Content>)
  {
    && (forall u | u in plan' :: (u in plan && plan'[u] == plan[u]) || (u in source && plan'[u] == source[u]))
    && (forall u | u in reread' ::
          || (u in reread && reread'[u] == reread[u])
          || (u in source && u in plan && reread'[u] == source[u] == plan[u]))
  }

  lemma {:induction false} PrepareReads(units: seq<Unit>, source: map<Unit, Content>, v: View, step: Preparation, ok: bool, tidy: bool)
    ensures
      var v' := Prepare(units, source, v, step, ok, tidy);
      ReadsOnly(source, v.plan, v.reread, v'.plan, v'.reread)
  {
  }

  lemma {:induction false} StageReads(
    units: seq<Unit>, source: map<Unit, Content>, v: View, step: Staging, ok: bool, tidy: bool, copied: Content)
    ensures
      var v' := Stage(units, source, v, step, ok, tidy, copied);
      ReadsOnly(source, v.plan, v.reread, v'.plan, v'.reread)
  {
  }

  lemma {:induction false} MoveReads(
    units: seq<Unit>, source: map<Unit, Content>, v: View, ok: bool, tidy: bool, copied: Content)
    ensures
      var v' := Move(units, source, v, ok, tidy, copied);
      ReadsOnly(source, v.plan, v.reread, v'.plan, v'.reread)
  {
    match v.phase
    case Preparing(step) => PrepareReads(units, source, v, step, ok, tidy);
    case Stages(step) => StageReads(units, source, v, step, ok, tidy, copied);
    case Publishing(step) => PublishReads(v, step, ok, tidy);
    case Activating(step) => ActivateReads(v, step, ok, tidy);
    case Ended(_) =>
  }

  lemma {:induction false} PublishReads(v: View, step: Publication, ok: bool, tidy: bool)
    ensures Publish(v, step, ok, tidy).plan == v.plan && Publish(v, step, ok, tidy).reread == v.reread
  {
  }

  lemma {:induction false} ActivateReads(v: View, step: Activation, ok: bool, tidy: bool)
    ensures Activate(v, step, ok, tidy).plan == v.plan && Activate(v, step, ok, tidy).reread == v.reread
  {
  }

  predicate Witnessed(start: World, events: seq<Event>, m: Migration) {
    && (forall u | u in m.plan :: Seen(start, events, u, m.plan[u]))
    && (forall u | u in m.reread :: SeenTwice(start, events, u, m.reread[u]))
  }

  lemma {:induction false} ReadsAreWitnessed(start: World, events: seq<Event>, m: Migration, m': Migration)
    requires events != [] && Witnessed(start, events[..|events| - 1], m)
    requires ReadsOnly(After(start, events[..|events| - 1]).source, m.plan, m.reread, m'.plan, m'.reread)
    ensures Witnessed(start, events, m')
  {
    forall u | u in m'.plan
      ensures Seen(start, events, u, m'.plan[u])
    {
      SeenLater(start, events, u, m'.plan[u]);
      assert (u in m.plan && m'.plan[u] == m.plan[u]) || HeldAt(start, events, |events| - 1, u, m'.plan[u]);
    }
    forall u | u in m'.reread
      ensures SeenTwice(start, events, u, m'.reread[u])
    {
      SeenLater(start, events, u, m'.reread[u]);
      assert (u in m.reread && m'.reread[u] == m.reread[u]) || HeldAt(start, events, |events| - 1, u, m'.reread[u]);
    }
  }

  lemma {:induction false} StepReads(w: World, e: Event, p: nat)
    requires p < |w.migrations|
    ensures |Step(w, e).migrations| == |w.migrations|
    ensures
      var m, m' := w.migrations[p], Step(w, e).migrations[p];
      ReadsOnly(w.source, m.plan, m.reread, m'.plan, m'.reread)
  {
    if e.Run? && e.p == p { MoveReads(w.units, w.source, ViewOf(w, p), e.ok, e.tidy, e.copied); }
  }

  /**
   * Every planned unit held those bytes in the source when it was planned, and every
   * verified unit held them again at a later point of the run.
   */
  lemma {:induction false} PlansAreWitnessed(start: World, events: seq<Event>, p: nat)
    requires Start(start) && p < |start.migrations|
    ensures |After(start, events).migrations| == |start.migrations|
    ensures Witnessed(start, events, After(start, events).migrations[p])
  {
    Reachable(start, events);
    if events != [] {
      var front, last := events[..|events| - 1], events[|events| - 1];
      PlansAreWitnessed(start, front, p);
      var w := After(start, front);
      StepReads(w, last, p);
      ReadsAreWitnessed(start, events, w.migrations[p], Step(w, last).migrations[p]);
    }
  }
}
