/**
 The HostAttention projection. Rows carry no version, so freshness rests on the
 attempt counter, the lifecycle status and the claim fence.
 */
module HostAttentionFold {
  import opened Basics
  import opened FoldRuns

  const U32_MAX: int := 0xFFFF_FFFF

  type U32 = n: int | 0 <= n <= U32_MAX

  datatype Kind =
    | HostBindingStale | WorkChanged | WorkReviewRequested | WorkBlocked | WorkAccepted
    | WorkChangesRequested | WorkCancelled | WorkPrerequisiteCompleted | WorkPrerequisiteNeedsReconciliation
    | WorkDeliveryFailed | MemberStoppedWithOwnedReadyWork | MemberFailedWithOwnedReadyWork

  datatype Status = Actionable | Claimed | Delivered | Acknowledged | EscalationRequired

  /** The immutable causal fact. */
  datatype Identity = Identity(
    id: string, teamRunId: string, kind: Kind, workId: string, workVersion: nat,
    sourceEventRef: string, memberRunId: Option<string>, createdAt: string)

  /** The whole claim tuple: binding, Host lease fence, managed session and daemon fence. */
  datatype Claim = Claim(
    id: Option<string>, hostSurface: Option<string>, hostThreadId: Option<string>,
    leaseId: Option<string>, leaseGeneration: Option<nat>, leaseOwnerId: Option<string>,
    recipientMemberRunId: Option<string>, recipientSessionId: Option<string>,
    recipientSessionGeneration: Option<nat>, nodeDaemonId: Option<string>, nodeDaemonGeneration: Option<nat>)

  const UNCLAIMED := Claim(None, None, None, None, None, None, None, None, None, None, None)

  datatype Attention = Attention(
    identity: Identity, status: Status, attempt: U32, claim: Claim,
    providerReceiptId: Option<string>, lastFailureReason: Option<string>, updatedAt: string)

  // ---- Structural validation ----------------------------------------------

  predicate NotBlankIfGiven(text: Option<string>) {
    text.Some? ==> !IsBlank(text.value)
  }

  predicate ValidIdentity(i: Identity) {
    && !IsBlank(i.id) && !IsBlank(i.teamRunId) && !IsBlank(i.sourceEventRef) && !IsBlank(i.createdAt)
    && (if i.kind == HostBindingStale then i.workId == "" && i.workVersion == 0 && i.memberRunId.None?
        else !IsBlank(i.workId))
    && NotBlankIfGiven(i.memberRunId)
  }

  predicate ClaimTextsGiven(c: Claim) {
    && NotBlankIfGiven(c.id) && NotBlankIfGiven(c.hostSurface) && NotBlankIfGiven(c.hostThreadId)
    && NotBlankIfGiven(c.leaseId) && NotBlankIfGiven(c.leaseOwnerId)
    && NotBlankIfGiven(c.recipientMemberRunId) && NotBlankIfGiven(c.recipientSessionId)
    && NotBlankIfGiven(c.nodeDaemonId)
  }

  predicate LeaseFenceAll(c: Claim, present: bool) {
    c.leaseId.Some? == present && c.leaseGeneration.Some? == present && c.leaseOwnerId.Some? == present
  }

  predicate ManagedFenceAll(c: Claim, present: bool) {
    && c.recipientMemberRunId.Some? == present && c.recipientSessionId.Some? == present
    && c.recipientSessionGeneration.Some? == present && c.nodeDaemonId.Some? == present
    && c.nodeDaemonGeneration.Some? == present
  }

  predicate ExternalClaim(c: Claim) {
    c.id.Some? && c.hostSurface.Some? && c.hostThreadId.Some? && ManagedFenceAll(c, false)
  }

  predicate ManagedClaim(c: Claim) {
    && c.id.Some? && c.hostSurface == Some("managed") && c.hostThreadId.None?
    && LeaseFenceAll(c, false) && ManagedFenceAll(c, true)
  }

  predicate Valid(row: Attention) {
    var c := row.claim;
    && ValidIdentity(row.identity) && !IsBlank(row.updatedAt) && ClaimTextsGiven(c)
    && NotBlankIfGiven(row.providerReceiptId) && NotBlankIfGiven(row.lastFailureReason)
    && (LeaseFenceAll(c, false) || LeaseFenceAll(c, true))
    && (ManagedFenceAll(c, false) || ManagedFenceAll(c, true))
    && match row.status
       case Actionable | EscalationRequired =>
         && c.id.None? && c.hostSurface.None? && c.hostThreadId.None?
         && LeaseFenceAll(c, false) && ManagedFenceAll(c, false) && row.providerReceiptId.None?
       case Claimed => (ExternalClaim(c) || ManagedClaim(c)) && row.providerReceiptId.None?
       case Delivered | Acknowledged => (ExternalClaim(c) || ManagedClaim(c)) && row.providerReceiptId.Some?
  }

  // ---- The folds ----------------------------------------------------------

  predicate ValidSource(row: Attention) {
    && Valid(row) && row.status == Actionable && row.attempt == 0 && row.lastFailureReason.None?
    && row.updatedAt == row.identity.createdAt
  }

  /** Canonical source rows are immutable facts. */
  function FoldSource(current: Option<Attention>, next: Attention): Verdict {
    if !ValidSource(next) then Err(InvalidSnapshot)
    else match current
      case None => Ok(Insert)
      case Some(row) => if row == next then Ok(Replay) else Err(ImmutableIdentityConflict)
  }

  function SaturatingSuccessor(n: U32): U32 {
    if n == U32_MAX then n else n + 1
  }

  predicate SameClaim(current: Attention, next: Attention) {
    current.claim.id.Some? && next.claim == current.claim
  }

  predicate ValidTransition(current: Attention, next: Attention) {
    && next.updatedAt != ""
    && match (current.status, next.status)
       case (Actionable, Claimed) =>
         next.attempt == SaturatingSuccessor(current.attempt) && next.lastFailureReason.None?
       case (Claimed, Actionable) => next.attempt == current.attempt && next.lastFailureReason.Some?
       case (Claimed, Delivered) => Settles(current, next)
       case (Claimed, Acknowledged) => Settles(current, next)
       case (Delivered, Acknowledged) =>
         && next.attempt == current.attempt && SameClaim(current, next)
         && next.providerReceiptId == current.providerReceiptId
         && next.lastFailureReason == current.lastFailureReason
       case (Actionable, EscalationRequired) => next.attempt == current.attempt && next.lastFailureReason.Some?
       case (Claimed, EscalationRequired) => next.attempt == current.attempt && next.lastFailureReason.Some?
       case _ => false
  }

  predicate Settles(current: Attention, next: Attention) {
    && next.attempt == current.attempt && SameClaim(current, next) && next.providerReceiptId.Some?
    && next.lastFailureReason == current.lastFailureReason
  }

  /** Without a current row any structurally valid row is admitted as legacy. */
  function FoldLifecycle(current: Option<Attention>, next: Attention): Verdict {
    if !Valid(next) then Err(InvalidSnapshot)
    else match current
      case None => Ok(Insert)
      case Some(row) =>
        if row.identity != next.identity then Err(ImmutableIdentityConflict)
        else if row == next then Ok(Replay)
        else if !ValidTransition(row, next) then Err(InvalidLifecycleTransition)
        else Ok(Advance)
  }

  lemma {:induction false} FoldsAreSound()
    ensures Sound(FoldLifecycle) && Sound(FoldSource)
  {
  }

  /** A source projection never moves: whatever is offered, the first accepted row stays. */
  lemma {:induction false} SourceIsImmutable(rows: seq<Attention>, i: nat)
    requires i < |rows| && VerdictAt(FoldSource, rows, i).Ok?
    ensures Fold(FoldSource, rows) == Some(rows[i]) && ValidSource(rows[i])
    ensures Advances(FoldSource, rows) == 0
  {
    FoldsAreSound();
    RunIsChain(FoldSource, rows);
    var k := AcceptedIsOnChain(FoldSource, rows, i);
    var c := Chain(FoldSource, rows);
    assert |c| > 1 ==> FoldSource(Some(c[0]), c[1]) == Ok(Advance);
  }

  // ---- Freshness without a version ----------------------------------------

  /** Lifecycle position: attempt first, then the order of the statuses within an attempt. */
  function Rank(row: Attention): nat {
    5 * row.attempt + match row.status
                      case Claimed => 0
                      case Actionable => 1
                      case Delivered => 2
                      case Acknowledged => 3
                      case EscalationRequired => 4
  }

  /** The one advance that does not move the rank: a claim once the counter is saturated. */
  predicate SaturatedClaim(current: Attention, next: Attention) {
    current.attempt == U32_MAX && current.status == Actionable && next.status == Claimed
  }

  predicate Settled(status: Status) {
    status == Delivered || status == Acknowledged || status == EscalationRequired
  }

  lemma {:induction false} AdvanceRaisesRank(current: Attention, next: Attention)
    requires FoldLifecycle(Some(current), next) == Ok(Advance)
    ensures Rank(current) < Rank(next) || SaturatedClaim(current, next)
    ensures current.attempt <= next.attempt
    ensures Settled(current.status) ==> Settled(next.status)
  {
  }

  lemma {:induction false} RankAlongChain(c: seq<Attention>, i: nat, j: nat)
    requires IsChain(FoldLifecycle, c) && i < j < |c|
    ensures c[i].attempt <= c[j].attempt && (Settled(c[i].status) ==> Settled(c[j].status))
    ensures Rank(c[i]) < Rank(c[j]) || (c[j].attempt == U32_MAX && !Settled(c[i].status))
    decreases j
  {
    AdvanceRaisesRank(c[j - 1], c[j]);
    if i < j - 1 {
      RankAlongChain(c, i, j - 1);
    }
  }

  /** A row some run accepts and later accepts again as an advance. */
  ghost predicate CanBeReapplied(row: Attention) {
    exists rows: seq<Attention>, i: nat, j: nat | i < j < |rows| ::
      && rows[i] == row && rows[j] == row
      && VerdictAt(FoldLifecycle, rows, i).Ok? && VerdictAt(FoldLifecycle, rows, j) == Ok(Advance)
  }

  lemma {:induction false} RepeatNeedsSaturation(c: seq<Attention>, k: nat, l: nat)
    requires IsChain(FoldLifecycle, c) && k < l < |c| && c[k] == c[l]
    ensures c[l].attempt == U32_MAX
    ensures || (c[l].status == Claimed && c[l].lastFailureReason.None?)
            || (c[l].status == Actionable && c[l].lastFailureReason.Some?)
  {
    RankAlongChain(c, k, l);
    assert FoldLifecycle(Some(c[l - 1]), c[l]) == Ok(Advance);
  }

  /** Re-application happens at the saturated counter only, between claim and retry. */
  lemma {:induction false} ReapplicationNeedsSaturation(rows: seq<Attention>, i: nat, j: nat)
    requires i < j < |rows| && rows[i] == rows[j]
    requires VerdictAt(FoldLifecycle, rows, i).Ok? && VerdictAt(FoldLifecycle, rows, j) == Ok(Advance)
    ensures rows[j].attempt == U32_MAX
    ensures || (rows[j].status == Claimed && rows[j].lastFailureReason.None?)
            || (rows[j].status == Actionable && rows[j].lastFailureReason.Some?)
  {
    FoldsAreSound();
    var k, l := AcceptedInOrder(FoldLifecycle, rows, i, j);
    RepeatNeedsSaturation(Chain(FoldLifecycle, rows), k, l);
  }

  /**
   Exactly the valid rows at the saturated counter that a claim or a failed
   claim can produce may be applied twice. Below saturation no row ever is.
   */
  lemma {:induction false} ReappliedExactlyAtSaturation(row: Attention)
    ensures CanBeReapplied(row) <==>
              && Valid(row) && row.attempt == U32_MAX
              && ((row.status == Claimed && row.lastFailureReason.None?)
                  || (row.status == Actionable && row.lastFailureReason.Some?))
  {
    if CanBeReapplied(row) {
      var rows: seq<Attention>, i: nat, j: nat :|
        && i < j < |rows| && rows[i] == row && rows[j] == row
        && VerdictAt(FoldLifecycle, rows, i).Ok? && VerdictAt(FoldLifecycle, rows, j) == Ok(Advance);
      ReapplicationNeedsSaturation(rows, i, j);
    }
    if Valid(row) && row.attempt == U32_MAX {
      if row.status == Claimed && row.lastFailureReason.None? {
        assert !IsBlank("failed") by { assert !IsWhitespace("failed"[0]); }
        var retry := row.(status := Actionable, claim := UNCLAIMED, lastFailureReason := Some("failed"));
        ThreeStepRun(row, retry);
      } else if row.status == Actionable && row.lastFailureReason.Some? {
        assert !IsBlank("c") by { assert !IsWhitespace("c"[0]); }
        var claim := UNCLAIMED.(id := Some("c"), hostSurface := Some("c"), hostThreadId := Some("c"));
        var claimed := row.(status := Claimed, claim := claim, lastFailureReason := None);
        ThreeStepRun(row, claimed);
      }
    }
  }

  /** One such row, with every field spelled out. */
  lemma {:induction false} SaturatedRowRepeats()
    ensures CanBeReapplied(Attention(
      Identity("a", "t", HostBindingStale, "", 0, "e", None, "c"),
      Actionable, U32_MAX, UNCLAIMED, None, Some("f"), "u"))
  {
    var row := Attention(
      Identity("a", "t", HostBindingStale, "", 0, "e", None, "c"),
      Actionable, U32_MAX, UNCLAIMED, None, Some("f"), "u");
    assert !IsBlank("a") && !IsBlank("t") && !IsBlank("e") && !IsBlank("c") && !IsBlank("f") && !IsBlank("u") by {
      assert forall s: string | |s| == 1 && 'a' <= s[0] <= 'z' :: !IsWhitespace(s[0]);
      assert "a"[0] == 'a' && "t"[0] == 't' && "e"[0] == 'e' && "c"[0] == 'c' && "f"[0] == 'f' && "u"[0] == 'u';
    }
    assert Valid(row);
    ReappliedExactlyAtSaturation(row);
  }

  /** row, other, row is an accepted run when each advances to the other. */
  lemma {:induction false} ThreeStepRun(row: Attention, other: Attention)
    requires Valid(row)
    requires FoldLifecycle(Some(row), other) == Ok(Advance) && FoldLifecycle(Some(other), row) == Ok(Advance)
    ensures CanBeReapplied(row)
  {
    var rows := [row, other, row];
    assert rows[..0] == [] && rows[..1] == [row] && rows[..2] == [row, other];
    assert [row][..0] == [] && [row, other][..1] == [row];
    assert Fold(FoldLifecycle, rows[..0]) == None;
    assert Fold(FoldLifecycle, rows[..1]) == Some(row);
    assert Fold(FoldLifecycle, rows[..2]) == Some(other);
    assert VerdictAt(FoldLifecycle, rows, 0) == Ok(Insert);
    assert VerdictAt(FoldLifecycle, rows, 2) == Ok(Advance);
  }

  // ---- From a canonical source --------------------------------------------

  /** How many claims the chain has made. */
  function ClaimsMade(c: seq<Attention>): nat {
    if c == [] then 0 else ClaimsMade(c[..|c| - 1]) + if c[|c| - 1].status == Claimed then 1 else 0
  }

  /** The row's evidence, for rows that descend from a source. */
  predicate SourceShape(row: Attention) {
    && Valid(row)
    && (row.status == EscalationRequired || (row.status == Actionable && row.attempt > 0) ==> row.lastFailureReason.Some?)
    && (row.status in {Claimed, Delivered, Acknowledged} ==> row.lastFailureReason.None? && row.claim.id.Some?)
    && (row.status in {Delivered, Acknowledged} <==> row.providerReceiptId.Some?)
    && (row.status in {Actionable, EscalationRequired} ==> row.claim == UNCLAIMED)
  }

  /** Attempt counts the claims made (until it saturates) along every run from a source. */
  lemma {:induction false} AttemptCountsClaims(c: seq<Attention>, k: nat)
    requires IsChain(FoldLifecycle, c) && k < |c| && ValidSource(c[0])
    ensures var claims := ClaimsMade(c[..k + 1]);
            c[k].attempt == if claims <= U32_MAX then claims else U32_MAX
    ensures c[k].identity == c[0].identity && SourceShape(c[k])
  {
    assert c[..k + 1][..k] == c[..k];
    if k > 0 {
      AttemptCountsClaims(c, k - 1);
      assert FoldLifecycle(Some(c[k - 1]), c[k]) == Ok(Advance);
    } else {
      assert c[..0] == [];
    }
  }

  /** The claim tuple, and then the receipt, are frozen until the claim ends. */
  lemma {:induction false} ClaimIsFrozen(c: seq<Attention>, i: nat, j: nat)
    requires IsChain(FoldLifecycle, c) && i <= j < |c|
    requires forall k | i <= k <= j :: c[k].status in {Claimed, Delivered, Acknowledged}
    ensures c[j].claim == c[i].claim && c[j].attempt == c[i].attempt
    ensures c[j].lastFailureReason == c[i].lastFailureReason
    ensures c[i].status != Claimed ==>
              c[j].status != Claimed && c[j].providerReceiptId == c[i].providerReceiptId
    decreases j
  {
    if i < j {
      ClaimIsFrozen(c, i, j - 1);
      ClaimStep(c[j - 1], c[j]);
    }
  }

  lemma {:induction false} ClaimStep(current: Attention, next: Attention)
    requires FoldLifecycle(Some(current), next) == Ok(Advance)
    requires current.status in {Claimed, Delivered, Acknowledged} && next.status in {Claimed, Delivered, Acknowledged}
    ensures next.claim == current.claim && next.attempt == current.attempt && next.status != Claimed
    ensures next.lastFailureReason == current.lastFailureReason
    ensures current.status != Claimed ==> next.providerReceiptId == current.providerReceiptId
  {
  }

  /** Every run that starts at a canonical source, whatever rows are offered after it. */
  lemma {:induction false} RunFromSource(source: Attention, rows: seq<Attention>)
    requires ValidSource(source)
    ensures var run := [source] + rows;
            var c := Chain(FoldLifecycle, run);
            && c != [] && c[0] == source
            && Fold(FoldLifecycle, run) == Some(c[|c| - 1])
            && var last := c[|c| - 1];
               && last.identity == source.identity && SourceShape(last)
               && last.attempt == (if ClaimsMade(c) <= U32_MAX then ClaimsMade(c) else U32_MAX)
  {
    FoldsAreSound();
    var run := [source] + rows;
    RunIsChain(FoldLifecycle, run);
    assert run[..1] == [source] && [source][..0] == [];
    assert VerdictAt(FoldLifecycle, run[..1], 0) == Ok(Insert);
    assert Chain(FoldLifecycle, run[..1]) == [source];
    ChainGrows(FoldLifecycle, run, 1);
    var c := Chain(FoldLifecycle, run);
    AttemptCountsClaims(c, |c| - 1);
    assert c[..|c|] == c;
  }

  /** Acknowledged and escalated rows absorb; from a source, no other status does. */
  lemma {:induction false} AbsorbingStatuses(source: Attention, rows: seq<Attention>)
    requires ValidSource(source)
    ensures var r := Fold(FoldLifecycle, [source] + rows);
            && r.Some?
            && (r.value.status in {Acknowledged, EscalationRequired} <==>
                  forall next :: FoldLifecycle(r, next) != Ok(Advance))
  {
    RunFromSource(source, rows);
    var row := Fold(FoldLifecycle, [source] + rows).value;
    if row.status !in {Acknowledged, EscalationRequired} {
      var next := Successor(row);
    }
  }

  /** A row that can follow any unsettled or delivered row. */
  lemma {:induction false} Successor(row: Attention) returns (next: Attention)
    requires SourceShape(row) && row.status !in {Acknowledged, EscalationRequired}
    ensures FoldLifecycle(Some(row), next) == Ok(Advance)
  {
    if row.status == Delivered {
      next := row.(status := Acknowledged);
    } else {
      assert !IsBlank("x") by { assert !IsWhitespace("x"[0]); }
      next := row.(status := EscalationRequired, claim := UNCLAIMED, lastFailureReason := Some("x"));
    }
  }

  // ---- Which rows are accepted --------------------------------------------

  /** The texts of a row, given or not. */
  function Texts(row: Attention): set<Option<string>> {
    var i, c := row.identity, row.claim;
    {Some(i.id), Some(i.teamRunId), Some(i.sourceEventRef), Some(i.createdAt), Some(row.updatedAt), i.memberRunId,
     c.id, c.hostSurface, c.hostThreadId, c.leaseId, c.leaseOwnerId, c.recipientMemberRunId, c.recipientSessionId,
     c.nodeDaemonId, row.providerReceiptId, row.lastFailureReason}
  }

  predicate NoneBlank(texts: set<Option<string>>) {
    forall text | text in texts :: NotBlankIfGiven(text)
  }

  /** The Host lease a claim is fenced by, as one whole. */
  datatype Lease = Lease(id: string, generation: nat, owner: string)

  /** A Host thread claims with a lease or without one; a managed member claims with session and daemon. */
  datatype Claimant =
    | Thread(surface: string, thread: string, lease: Option<Lease>)
    | Managed(memberRunId: string, sessionId: string, sessionGeneration: nat, daemonId: string, daemonGeneration: nat)

  /** The claim tuple of a claimant. */
  function ClaimOf(id: string, c: Claimant): Claim {
    match c
    case Thread(surface, thread, None) =>
      Claim(Some(id), Some(surface), Some(thread), None, None, None, None, None, None, None, None)
    case Thread(surface, thread, Some(lease)) =>
      Claim(Some(id), Some(surface), Some(thread), Some(lease.id), Some(lease.generation), Some(lease.owner),
            None, None, None, None, None)
    case Managed(memberRunId, sessionId, sessionGeneration, daemonId, daemonGeneration) =>
      Claim(Some(id), Some("managed"), None, None, None, None, Some(memberRunId), Some(sessionId),
            Some(sessionGeneration), Some(daemonId), Some(daemonGeneration))
  }

  ghost predicate IsClaim(c: Claim) {
    exists id: string, claimant: Claimant :: c == ClaimOf(id, claimant)
  }

  /** What a stale Host binding and a change of work have to name. */
  predicate NamesWork(i: Identity) {
    if i.kind == HostBindingStale then i.workId == "" && i.workVersion == 0 && i.memberRunId == None else !IsBlank(i.workId)
  }

  /** A row is admitted exactly when no text is blank, it names its work, and it holds a whole claim or none. */
  lemma {:induction false} InsertedExactly(row: Attention)
    ensures FoldLifecycle(None, row) == Ok(Insert) <==>
      && NoneBlank(Texts(row)) && NamesWork(row.identity)
      && (if row.status in {Actionable, EscalationRequired} then row.claim == UNCLAIMED else IsClaim(row.claim))
      && (row.providerReceiptId.Some? <==> row.status in {Delivered, Acknowledged})
    ensures FoldLifecycle(None, row) != Ok(Insert) ==>
      forall current :: FoldLifecycle(current, row) == Err(InvalidSnapshot)
  {
    TextsGivenExactly(row);
    ClaimsExactly(row.claim);
  }

  lemma {:induction false} TextsGivenExactly(row: Attention)
    ensures NoneBlank(Texts(row)) <==>
      && !IsBlank(row.identity.id) && !IsBlank(row.identity.teamRunId) && !IsBlank(row.identity.sourceEventRef)
      && !IsBlank(row.identity.createdAt) && !IsBlank(row.updatedAt) && NotBlankIfGiven(row.identity.memberRunId)
      && ClaimTextsGiven(row.claim) && NotBlankIfGiven(row.providerReceiptId) && NotBlankIfGiven(row.lastFailureReason)
  {
    var i, c, texts := row.identity, row.claim, Texts(row);
    if NoneBlank(texts) {
      assert Some(i.id) in texts && Some(i.teamRunId) in texts && Some(i.sourceEventRef) in texts;
      assert Some(i.createdAt) in texts && Some(row.updatedAt) in texts && i.memberRunId in texts;
      assert c.id in texts && c.hostSurface in texts && c.hostThreadId in texts && c.leaseId in texts;
      assert c.leaseOwnerId in texts && c.recipientMemberRunId in texts && c.recipientSessionId in texts;
      assert c.nodeDaemonId in texts && row.providerReceiptId in texts && row.lastFailureReason in texts;
    }
  }

  lemma {:induction false} ClaimsExactly(c: Claim)
    ensures IsClaim(c) <==>
      (LeaseFenceAll(c, false) || LeaseFenceAll(c, true)) && (ExternalClaim(c) || ManagedClaim(c))
  {
    if (LeaseFenceAll(c, false) || LeaseFenceAll(c, true)) && (ExternalClaim(c) || ManagedClaim(c)) {
      var lease := if c.leaseId.Some? then Some(Lease(c.leaseId.value, c.leaseGeneration.value, c.leaseOwnerId.value)) else None;
      var claimant := if ExternalClaim(c) then Thread(c.hostSurface.value, c.hostThreadId.value, lease)
                      else Managed(c.recipientMemberRunId.value, c.recipientSessionId.value, c.recipientSessionGeneration.value,
                                   c.nodeDaemonId.value, c.nodeDaemonGeneration.value);
      assert c == ClaimOf(c.id.value, claimant);
    }
  }

  /** The seven edges of the lifecycle. */
  predicate IsEdge(before: Status, next: Status) {
    (before, next) in {
      (Actionable, Claimed), (Actionable, EscalationRequired), (Claimed, Actionable), (Claimed, EscalationRequired),
      (Claimed, Delivered), (Claimed, Acknowledged), (Delivered, Acknowledged)}
  }

  /** Only a claim counts as an attempt, up to the largest one. */
  predicate AttemptFollows(row: Attention, next: Attention) {
    next.attempt == if next.status == Claimed && row.attempt < U32_MAX then row.attempt + 1 else row.attempt
  }

  /** A claim starts without a reason, giving it up states one, and delivery leaves it alone. */
  predicate ReasonFollows(row: Attention, next: Attention) {
    match next.status
    case Claimed => next.lastFailureReason == None
    case Actionable | EscalationRequired => next.lastFailureReason != None
    case Delivered | Acknowledged => next.lastFailureReason == row.lastFailureReason
  }

  /** What the next row must be, field by field, besides being admissible on its own. */
  predicate Follows(row: Attention, next: Attention) {
    && next.identity == row.identity && IsEdge(row.status, next.status)
    && AttemptFollows(row, next) && ReasonFollows(row, next)
    && (next.status in {Delivered, Acknowledged} ==> next.claim == row.claim)
    && (row.status == Delivered ==> next.providerReceiptId == row.providerReceiptId)
  }

  /** From every admissible row the rows that advance it are exactly those, and the others are refused for their reason. */
  lemma {:induction false} AdvancesExactly(row: Attention, next: Attention)
    requires FoldLifecycle(None, row) == Ok(Insert) && FoldLifecycle(None, next) == Ok(Insert)
    ensures
      var verdict := FoldLifecycle(Some(row), next);
      && (verdict == Ok(Advance) <==> Follows(row, next))
      && (verdict == Ok(Replay) <==> next == row)
      && (verdict == Err(ImmutableIdentityConflict) <==> next.identity != row.identity)
      && (verdict == Err(InvalidLifecycleTransition) <==> next.identity == row.identity && next != row && !Follows(row, next))
  {
    InsertedExactly(row);
    InsertedExactly(next);
    TransitionExactly(row, next);
  }

  lemma {:induction false} TransitionExactly(row: Attention, next: Attention)
    requires Valid(row) && Valid(next)
    ensures next.identity == row.identity && ValidTransition(row, next) <==> Follows(row, next)
  {
    assert !IsBlank(next.updatedAt);
  }

  /** Some run advances a row of the one status to a row of the other. */
  ghost predicate Advancing(before: Status, next: Status) {
    exists rows: seq<Attention>, row: Attention ::
      && Fold(FoldLifecycle, rows).Some? && Fold(FoldLifecycle, rows).value.status == before
      && row.status == next && FoldLifecycle(Fold(FoldLifecycle, rows), row) == Ok(Advance)
  }

  /** A row of each status. */
  function RowOf(status: Status): Attention {
    var held := status in {Claimed, Delivered, Acknowledged};
    Attention(
      Identity("a", "a", HostBindingStale, "", 0, "a", None, "a"), status, if held then 1 else 0,
      if held then ClaimOf("a", Thread("a", "a", None)) else UNCLAIMED,
      if status in {Delivered, Acknowledged} then Some("a") else None,
      if held then None else Some("a"), "a")
  }

  lemma {:induction false} RowIsAdmitted(status: Status)
    ensures FoldLifecycle(None, RowOf(status)) == Ok(Insert)
  {
    var row := RowOf(status);
    assert !IsBlank("a") by { assert !IsWhitespace("a"[0]); }
    assert forall text | text in Texts(row) :: text == Some("a") || text == None;
    InsertedExactly(row);
  }

  /** Runs advance from one status to another exactly along the seven edges. */
  lemma {:induction false} EdgesExactly(before: Status, next: Status)
    ensures Advancing(before, next) <==> IsEdge(before, next)
  {
    if Advancing(before, next) {
      var rows: seq<Attention>, row: Attention :|
        && Fold(FoldLifecycle, rows).Some? && Fold(FoldLifecycle, rows).value.status == before
        && row.status == next && FoldLifecycle(Fold(FoldLifecycle, rows), row) == Ok(Advance);
      AdvanceIsAnEdge(rows, row);
    }
    if IsEdge(before, next) {
      var row := AlongEdge(before, next);
      OneRowRun(RowOf(before));
    }
  }

  lemma {:induction false} AdvanceIsAnEdge(rows: seq<Attention>, row: Attention)
    requires Fold(FoldLifecycle, rows).Some? && FoldLifecycle(Fold(FoldLifecycle, rows), row) == Ok(Advance)
    ensures IsEdge(Fold(FoldLifecycle, rows).value.status, row.status)
  {
    ProjectedIsAdmitted(rows);
    AdvancesExactly(Fold(FoldLifecycle, rows).value, row);
  }

  lemma {:induction false} OneRowRun(row: Attention)
    requires FoldLifecycle(None, row) == Ok(Insert)
    ensures Fold(FoldLifecycle, [row]) == Some(row)
  {
    assert [row][..0] == [];
  }

  lemma {:induction false} AlongEdge(before: Status, status: Status) returns (next: Attention)
    requires IsEdge(before, status)
    ensures FoldLifecycle(None, RowOf(before)) == Ok(Insert)
    ensures next.status == status && FoldLifecycle(Some(RowOf(before)), next) == Ok(Advance)
  {
    var attempt := if status == Claimed then 1 else RowOf(before).attempt;
    next := RowOf(status).(attempt := attempt);
    RowIsAdmitted(before);
    RowIsAdmitted(status);
    AttemptIsFree(RowOf(status), attempt);
    AdvancesExactly(RowOf(before), next);
  }

  /** The attempt plays no part in whether a row is admitted. */
  lemma {:induction false} AttemptIsFree(row: Attention, attempt: U32)
    ensures FoldLifecycle(None, row.(attempt := attempt)) == FoldLifecycle(None, row)
  {
  }

  lemma {:induction false} ProjectedIsAdmitted(rows: seq<Attention>)
    requires Fold(FoldLifecycle, rows).Some?
    ensures FoldLifecycle(None, Fold(FoldLifecycle, rows).value) == Ok(Insert)
  {
    if Fold(FoldLifecycle, rows) == Fold(FoldLifecycle, rows[..|rows| - 1]) {
      ProjectedIsAdmitted(rows[..|rows| - 1]);
    }
  }

  /** A source row has no freedom beyond its identity. */
  lemma {:induction false} SourceInsertedExactly(row: Attention)
    ensures FoldSource(None, row) == Ok(Insert) <==>
      && FoldLifecycle(None, row) == Ok(Insert)
      && row == Attention(row.identity, Actionable, 0, UNCLAIMED, None, None, row.identity.createdAt)
    ensures FoldSource(None, row) != Ok(Insert) ==> forall current :: FoldSource(current, row) == Err(InvalidSnapshot)
  {
    InsertedExactly(row);
  }

  /** After a source row was accepted, only that row is: every other is a conflict or invalid. */
  lemma {:induction false} SourceVerdicts(row: Attention, next: Attention)
    requires FoldSource(None, row) == Ok(Insert)
    ensures FoldSource(Some(row), next) ==
      if next == row then Ok(Replay)
      else if FoldSource(None, next) == Ok(Insert) then Err(ImmutableIdentityConflict) else Err(InvalidSnapshot)
  {
  }
}
