/** The canonical WorkDelivery projection: versioned, identity-fenced, claim-fenced. */
module WorkDeliveryFold {
  import opened Basics
  import opened FoldRuns

  type U32 = n: int | 0 <= n <= 0xFFFF_FFFF

  type U64 = n: int | 0 <= n <= 0xFFFF_FFFF_FFFF_FFFF

  datatype Status = Queued | Claimed | ProviderReceived | Failed

  /** The fields every revision of one delivery must share. */
  datatype Identity = Identity(
    id: string, workId: string, workRevision: U64, workExecutionBindingId: string,
    recipientAgentMemberId: string, recipientSessionId: string, recipientSessionGeneration: U64,
    targetNodeId: string, createdAt: string)

  datatype Delivery = Delivery(
    identity: Identity, status: Status, attempt: U32, claimId: Option<string>,
    claimedNodeDaemonGeneration: Option<U64>, providerReceiptId: Option<string>,
    failureCode: Option<string>, version: U64, updatedAt: string)

  const RELEASED_BEFORE_CLAIM := "WORK_EXECUTION_BINDING_RELEASED_BEFORE_CLAIM"

  const LOST_GENERATION_CODES := {
    "WORK_DELIVERY_SUPERSEDED_BY_NODE_DAEMON_DRAIN",
    "WORK_DELIVERY_SUPERSEDED_BY_NODE_DAEMON_PREDECESSOR_RECOVERY",
    "WORK_DELIVERY_SUPERSEDED_BY_HOST_LOST_EXECUTION_RECOVERY"}

  function SaturatingSuccessor(n: U64): U64 {
    if n == 0xFFFF_FFFF_FFFF_FFFF then n else n + 1
  }

  predicate Given(text: Option<string>) {
    text.Some? && text.value != ""
  }

  predicate ValidInitial(row: Delivery) {
    var i := row.identity;
    && i.id != "" && i.workId != "" && i.workRevision > 0 && i.workExecutionBindingId != ""
    && i.recipientAgentMemberId != "" && i.recipientSessionId != "" && i.recipientSessionGeneration > 0
    && i.targetNodeId != "" && i.createdAt != ""
    && row.status == Queued && row.attempt == 1 && row.claimId.None? && row.claimedNodeDaemonGeneration.None?
    && row.providerReceiptId.None? && row.failureCode.None? && row.version == 1
    && row.updatedAt == i.createdAt
  }

  predicate SameClaim(current: Delivery, next: Delivery) {
    && current.claimId.Some? && next.claimId == current.claimId
    && next.claimedNodeDaemonGeneration == current.claimedNodeDaemonGeneration
  }

  predicate ValidTransition(current: Delivery, next: Delivery) {
    && next.attempt == current.attempt && next.updatedAt != ""
    && match (current.status, next.status)
       case (Queued, Claimed) =>
         && current.claimId.None? && Given(next.claimId)
         && next.claimedNodeDaemonGeneration.Some? && next.claimedNodeDaemonGeneration.value > 0
         && next.providerReceiptId.None? && next.failureCode.None?
       case (Queued, Failed) =>
         && current.claimId.None? && next.claimId.None? && next.claimedNodeDaemonGeneration.None?
         && next.providerReceiptId.None? && next.failureCode == Some(RELEASED_BEFORE_CLAIM)
       case (Claimed, ProviderReceived) =>
         SameClaim(current, next) && Given(next.providerReceiptId) && next.failureCode.None?
       case (Claimed, Failed) =>
         SameClaim(current, next) && next.providerReceiptId.None? && Given(next.failureCode)
       case (ProviderReceived, Failed) =>
         && SameClaim(current, next) && next.providerReceiptId == current.providerReceiptId
         && Given(next.providerReceiptId)
         && next.failureCode.Some? && next.failureCode.value in LOST_GENERATION_CODES
       case _ => false
  }

  function FoldDelivery(current: Option<Delivery>, next: Delivery): Verdict {
    match current
    case Some(row) =>
      if row.identity != next.identity then Err(ImmutableIdentityConflict)
      else if next.version < row.version then Err(VersionRegression)
      else if next.version == row.version then
        (if next == row then Ok(Replay) else Err(SameVersionConflict))
      else if next.version != SaturatingSuccessor(row.version) then Err(VersionGap)
      else if !ValidTransition(row, next) then Err(InvalidLifecycleTransition)
      else Ok(Advance)
    case None => if ValidInitial(next) then Ok(Insert) else Err(InvalidSnapshot)
  }

  // ---- What every reachable row looks like --------------------------------

  /** Position in the lifecycle; the failed row is last whatever path led there. */
  function Stage(status: Status): nat {
    match status
    case Queued => 1
    case Claimed => 2
    case ProviderReceived => 3
    case Failed => 4
  }

  /** Which evidence a row of each status carries. */
  predicate WellShaped(row: Delivery) {
    && row.attempt == 1
    && (row.claimId.Some? <==> row.claimedNodeDaemonGeneration.Some?)
    && (row.failureCode.Some? <==> row.status == Failed)
    && match row.status
       case Queued => row.claimId.None? && row.providerReceiptId.None? && row.version == 1
       case Claimed => Given(row.claimId) && row.providerReceiptId.None? && row.version == 2
       case ProviderReceived => Given(row.claimId) && Given(row.providerReceiptId) && row.version == 3
       case Failed =>
         && 2 <= row.version <= 4
         && (row.claimId.Some? <==> row.version >= 3)
         && (row.providerReceiptId.Some? <==> row.version == 4)
         && (row.version == 4 ==> row.failureCode.value in LOST_GENERATION_CODES)
         && (row.version == 2 ==> row.failureCode == Some(RELEASED_BEFORE_CLAIM))
  }

  lemma {:induction false} FoldDeliveryIsSound()
    ensures Sound(FoldDelivery)
  {
  }

  /** Every row of every chain: version counts the rows, identity never moves, evidence fits the status. */
  lemma {:induction false} ChainShape(c: seq<Delivery>, k: nat)
    requires IsChain(FoldDelivery, c) && k < |c|
    ensures c[k].version == k + 1 && c[k].identity == c[0].identity && WellShaped(c[k])
  {
    if k > 0 {
      ChainShape(c, k - 1);
      assert FoldDelivery(Some(c[k - 1]), c[k]) == Ok(Advance);
    }
  }

  /** Once set, the claim, the receipt and the failure never change. */
  lemma {:induction false} EvidenceIsFrozen(c: seq<Delivery>, i: nat, j: nat)
    requires IsChain(FoldDelivery, c) && i <= j < |c|
    ensures c[i].claimId.Some? ==>
              c[j].claimId == c[i].claimId && c[j].claimedNodeDaemonGeneration == c[i].claimedNodeDaemonGeneration
    ensures c[i].providerReceiptId.Some? ==> c[j].providerReceiptId == c[i].providerReceiptId
    ensures i < j ==> Stage(c[i].status) < Stage(c[j].status)
    decreases j
  {
    if i < j {
      EvidenceIsFrozen(c, i, j - 1);
      ChainShape(c, j - 1);
      assert FoldDelivery(Some(c[j - 1]), c[j]) == Ok(Advance);
    }
  }

  // ---- Every run ----------------------------------------------------------

  /** For every sequence of offered rows: the projected row, if any, and its version. */
  lemma {:induction false} RunInvariant(rows: seq<Delivery>)
    ensures var r := Fold(FoldDelivery, rows);
            r.Some? ==>
              && r.value.version == 1 + Advances(FoldDelivery, rows) <= 4
              && WellShaped(r.value)
              && Chain(FoldDelivery, rows) != []
              && ValidInitial(Chain(FoldDelivery, rows)[0])
              && r.value.identity == Chain(FoldDelivery, rows)[0].identity
  {
    FoldDeliveryIsSound();
    RunIsChain(FoldDelivery, rows);
    var c := Chain(FoldDelivery, rows);
    if c != [] {
      ChainShape(c, |c| - 1);
    }
  }

  lemma {:induction false} ChainRowsAgree(c: seq<Delivery>, k: nat, l: nat)
    requires IsChain(FoldDelivery, c) && k <= l < |c|
    ensures c[k].identity == c[l].identity && c[k].version <= c[l].version
    ensures c[k].version == c[l].version <==> c[k] == c[l]
    ensures c[k].claimId.Some? ==>
              c[l].claimId == c[k].claimId && c[l].claimedNodeDaemonGeneration == c[k].claimedNodeDaemonGeneration
    ensures c[k].providerReceiptId.Some? ==> c[l].providerReceiptId == c[k].providerReceiptId
    ensures c[k].status == Failed ==> c[l] == c[k]
  {
    ChainShape(c, k);
    ChainShape(c, l);
    EvidenceIsFrozen(c, k, l);
  }

  /** At most one content is ever accepted per version, and accepted evidence never changes. */
  lemma {:induction false} AcceptedRowsAgree(rows: seq<Delivery>, i: nat, j: nat)
    requires i <= j < |rows| && VerdictAt(FoldDelivery, rows, i).Ok? && VerdictAt(FoldDelivery, rows, j).Ok?
    ensures rows[i].identity == rows[j].identity
    ensures rows[i].version <= rows[j].version
    ensures rows[i].version == rows[j].version <==> rows[i] == rows[j]
    ensures rows[i].claimId.Some? ==>
              && rows[j].claimId == rows[i].claimId
              && rows[j].claimedNodeDaemonGeneration == rows[i].claimedNodeDaemonGeneration
    ensures rows[i].providerReceiptId.Some? ==> rows[j].providerReceiptId == rows[i].providerReceiptId
    ensures rows[i].status == Failed ==> rows[j] == rows[i]
  {
    FoldDeliveryIsSound();
    var k, l := AcceptedInOrder(FoldDelivery, rows, i, j);
    ChainRowsAgree(Chain(FoldDelivery, rows), k, l);
  }

  /** A row accepted earlier is never accepted again as an advance. */
  lemma {:induction false} NeverReapplied(rows: seq<Delivery>, i: nat, j: nat)
    requires i < j < |rows| && VerdictAt(FoldDelivery, rows, i).Ok?
    requires VerdictAt(FoldDelivery, rows, j) == Ok(Advance)
    ensures rows[i] != rows[j]
  {
    FoldDeliveryIsSound();
    RunIsChain(FoldDelivery, rows);
    var c := Chain(FoldDelivery, rows);
    forall k, l | 0 <= k < l < |c|
      ensures c[k] != c[l]
    {
      ChainShape(c, k);
      ChainShape(c, l);
    }
    NoRowIsReapplied(FoldDelivery, rows, i, j);
  }

  // ---- Which rows are accepted --------------------------------------------

  /** Every name is given and every counter has started. */
  predicate Complete(i: Identity) {
    && "" !in {i.id, i.workId, i.workExecutionBindingId, i.recipientAgentMemberId, i.recipientSessionId}
    && "" !in {i.targetNodeId, i.createdAt}
    && i.workRevision >= 1 && i.recipientSessionGeneration >= 1
  }

  /** The first row of a delivery has no freedom beyond its identity. */
  lemma {:induction false} InsertedExactly(row: Delivery)
    ensures FoldDelivery(None, row) == Ok(Insert) <==>
      && Complete(row.identity)
      && row == Delivery(row.identity, Queued, 1, None, None, None, None, 1, row.identity.createdAt)
    ensures FoldDelivery(None, row) != Ok(Insert) ==> FoldDelivery(None, row) == Err(InvalidSnapshot)
  {
  }

  /** The five edges of the lifecycle. */
  predicate IsEdge(before: Status, next: Status) {
    (before, next) in {
      (Queued, Claimed), (Queued, Failed), (Claimed, ProviderReceived), (Claimed, Failed), (ProviderReceived, Failed)}
  }

  /** Claiming sets claim and generation; every other step leaves both as they are. */
  predicate ClaimFollows(row: Delivery, next: Delivery) {
    if next.status == Claimed then
      Given(next.claimId) && next.claimedNodeDaemonGeneration.Some? && next.claimedNodeDaemonGeneration.value >= 1
    else next.claimId == row.claimId && next.claimedNodeDaemonGeneration == row.claimedNodeDaemonGeneration
  }

  /** Receiving sets the receipt; every other step leaves it as it is. */
  predicate ReceiptFollows(row: Delivery, next: Delivery) {
    if next.status == ProviderReceived then Given(next.providerReceiptId) else next.providerReceiptId == row.providerReceiptId
  }

  /** Failing, and nothing else, sets a code: one fixed code before the claim, any after it, and three after the receipt. */
  predicate FailureFollows(row: Delivery, next: Delivery) {
    if next.status != Failed then next.failureCode.None?
    else next.failureCode.Some? && match row.status
      case Queued => next.failureCode.value == "WORK_EXECUTION_BINDING_RELEASED_BEFORE_CLAIM"
      case Claimed => next.failureCode.value != ""
      case _ =>
        || next.failureCode.value == "WORK_DELIVERY_SUPERSEDED_BY_NODE_DAEMON_DRAIN"
        || next.failureCode.value == "WORK_DELIVERY_SUPERSEDED_BY_NODE_DAEMON_PREDECESSOR_RECOVERY"
        || next.failureCode.value == "WORK_DELIVERY_SUPERSEDED_BY_HOST_LOST_EXECUTION_RECOVERY"
  }

  /** What the next row of a delivery must be, field by field. */
  predicate Follows(row: Delivery, next: Delivery) {
    && next.identity == row.identity && next.version == row.version + 1
    && next.attempt == 1 && next.updatedAt != "" && IsEdge(row.status, next.status)
    && ClaimFollows(row, next) && ReceiptFollows(row, next) && FailureFollows(row, next)
  }

  /** After every run the rows that advance the projection are exactly those. */
  lemma {:induction false} AdvancesExactly(rows: seq<Delivery>, next: Delivery)
    requires Fold(FoldDelivery, rows).Some?
    ensures FoldDelivery(Fold(FoldDelivery, rows), next) == Ok(Advance) <==> Follows(Fold(FoldDelivery, rows).value, next)
  {
    RunInvariant(rows);
    TransitionExactly(Fold(FoldDelivery, rows).value, next);
  }

  lemma {:induction false} TransitionExactly(row: Delivery, next: Delivery)
    requires WellShaped(row)
    ensures FoldDelivery(Some(row), next) == Ok(Advance) <==> Follows(row, next)
  {
  }

  /** And why a row is refused, by the first of identity, version, content and lifecycle that is wrong. */
  lemma {:induction false} RefusedExactly(rows: seq<Delivery>, next: Delivery)
    requires Fold(FoldDelivery, rows).Some?
    ensures
      var row, verdict := Fold(FoldDelivery, rows).value, FoldDelivery(Fold(FoldDelivery, rows), next);
      && (verdict == Ok(Replay) <==> next == row)
      && (verdict == Err(ImmutableIdentityConflict) <==> next.identity != row.identity)
      && (verdict == Err(VersionRegression) <==> next.identity == row.identity && next.version < row.version)
      && (verdict == Err(SameVersionConflict) <==>
            next.identity == row.identity && next.version == row.version && next != row)
      && (verdict == Err(VersionGap) <==> next.identity == row.identity && next.version > row.version + 1)
      && (verdict == Err(InvalidLifecycleTransition) <==>
            next.identity == row.identity && next.version == row.version + 1 && !Follows(row, next))
  {
    RunInvariant(rows);
    TransitionExactly(Fold(FoldDelivery, rows).value, next);
  }

  /** Some run advances a row of the one status to a row of the other. */
  ghost predicate Advancing(before: Status, next: Status) {
    exists rows: seq<Delivery>, row: Delivery ::
      && Fold(FoldDelivery, rows).Some? && Fold(FoldDelivery, rows).value.status == before
      && row.status == next && FoldDelivery(Fold(FoldDelivery, rows), row) == Ok(Advance)
  }

  /** A run that ends in a row of this status. */
  lemma {:induction false} RunTo(status: Status) returns (rows: seq<Delivery>)
    ensures Fold(FoldDelivery, rows).Some? && Fold(FoldDelivery, rows).value.status == status
  {
    var queued := Delivery(Identity("d", "w", 1, "b", "m", "s", 1, "n", "t"), Queued, 1, None, None, None, None, 1, "t");
    InsertedExactly(queued);
    rows := [queued];
    assert rows[..0] == [];
    if status != Queued {
      var front := rows;
      var row := Step(queued, if status == Failed then Failed else Claimed);
      FoldAppend(FoldDelivery, front, row);
      rows := front + [row];
      if status == ProviderReceived {
        var received := Step(row, ProviderReceived);
        FoldAppend(FoldDelivery, rows, received);
        rows := rows + [received];
      }
    }
  }

  /** A row that follows along an edge. */
  lemma {:induction false} Step(row: Delivery, status: Status) returns (next: Delivery)
    requires WellShaped(row) && IsEdge(row.status, status)
    ensures next.status == status && FoldDelivery(Some(row), next) == Ok(Advance) && WellShaped(next)
  {
    next := row.(status := status, version := row.version + 1, updatedAt := "t");
    match status
    case Claimed => next := next.(claimId := Some("c"), claimedNodeDaemonGeneration := Some(1));
    case ProviderReceived => next := next.(providerReceiptId := Some("r"));
    case _ =>
      next := next.(failureCode := Some(if row.status == Queued then RELEASED_BEFORE_CLAIM
                                        else "WORK_DELIVERY_SUPERSEDED_BY_NODE_DAEMON_DRAIN"));
    TransitionExactly(row, next);
  }

  /** Runs advance from one status to another exactly along the five edges. */
  lemma {:induction false} EdgesExactly(before: Status, next: Status)
    ensures Advancing(before, next) <==> IsEdge(before, next)
  {
    if Advancing(before, next) {
      var rows: seq<Delivery>, row: Delivery :|
        && Fold(FoldDelivery, rows).Some? && Fold(FoldDelivery, rows).value.status == before
        && row.status == next && FoldDelivery(Fold(FoldDelivery, rows), row) == Ok(Advance);
      AdvancesExactly(rows, row);
    }
    if IsEdge(before, next) {
      var rows := RunTo(before);
      RunInvariant(rows);
      var row := Step(Fold(FoldDelivery, rows).value, next);
    }
  }

  /** The failed status absorbs, and it is the only one: any other reachable row can still advance. */
  lemma {:induction false} OnlyFailedAbsorbs(rows: seq<Delivery>)
    requires Fold(FoldDelivery, rows).Some?
    ensures var r := Fold(FoldDelivery, rows);
            r.value.status == Failed <==> forall next :: FoldDelivery(r, next) != Ok(Advance)
  {
    RunInvariant(rows);
    var r := Fold(FoldDelivery, rows).value;
    if r.status != Failed {
      var next := Step(r, Failed);
    }
  }
}
