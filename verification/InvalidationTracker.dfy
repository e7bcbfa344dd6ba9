/**
 Per-stream-epoch memory of projection invalidations. The decision for each
 invalidation is characterised by the calls made before it, not by the map the
 tracker keeps.
 */
module InvalidationTracker {
  import opened Basics

  datatype ScopeKind = ExecutionSpace | Company

  datatype Invalidation = Invalidation(
    scope: ScopeKind, scopeId: string, ledger: string, revision: int, streamEpoch: string)

  /** An absent id is None; an empty one counts as absent too. */
  datatype ConfirmedScope = ConfirmedScope(executionSpaceId: Option<string>, companyScopeId: Option<string>)

  datatype Decision = OtherScope | Duplicate | Refresh(gap: bool, malformed: bool)

  /** One call: a reset, or an observation (None is a malformed payload) under a confirmed scope. */
  datatype Call = Reset(epoch: Option<string>) | Observe(invalidation: Option<Invalidation>, scope: ConfirmedScope)

  datatype State = State(epoch: Option<string>, revisions: map<string, int>)

  function ScopeName(scope: ScopeKind): string {
    match scope
    case ExecutionSpace => "execution_space"
    case Company => "company"
  }

  function Key(i: Invalidation): string {
    ScopeName(i.scope) + ['\0'] + i.scopeId + ['\0'] + i.ledger
  }

  predicate InScope(i: Invalidation, scope: ConfirmedScope) {
    var expected := match i.scope
                    case ExecutionSpace => scope.executionSpaceId
                    case Company => scope.companyScopeId;
    expected.Some? && expected.value != "" && i.scopeId == expected.value
  }

  function AtEpoch(s: State, i: Invalidation): State {
    if s.epoch == Some(i.streamEpoch) then s else State(Some(i.streamEpoch), map[])
  }

  function Decide(s: State, observed: Option<Invalidation>, scope: ConfirmedScope): Decision {
    if observed.None? then Refresh(false, true)
    else
      var i := observed.value;
      var revisions := AtEpoch(s, i).revisions;
      if !InScope(i, scope) then OtherScope
      else if Key(i) in revisions && i.revision <= revisions[Key(i)] then Duplicate
      else Refresh(Key(i) in revisions && i.revision > revisions[Key(i)] + 1, false)
  }

  function Step(s: State, call: Call): State {
    match call
    case Reset(epoch) => State(epoch, map[])
    case Observe(None, _) => s
    case Observe(Some(i), scope) =>
      var base := AtEpoch(s, i);
      if Decide(s, Some(i), scope).Refresh? then base.(revisions := base.revisions[Key(i) := i.revision]) else base
  }

  function After(h: seq<Call>): State {
    if h == [] then State(None, map[]) else Step(After(h[..|h| - 1]), h[|h| - 1])
  }

  /** Every observation of the history was made under this scope. */
  predicate FixedScope(h: seq<Call>, scope: ConfirmedScope) {
    forall k | 0 <= k < |h| && h[k].Observe? :: h[k].scope == scope
  }

  // ---- What the history says ----------------------------------------------

  predicate SameLedger(a: Invalidation, b: Invalidation) {
    a.scope == b.scope && a.ledger == b.ledger
  }

  /** From call j on nothing reset the tracker and every payload had this epoch. */
  predicate SameEpochFrom(h: seq<Call>, j: nat, epoch: string)
    requires j <= |h|
  {
    forall k | j <= k < |h| :: h[k].Observe? && (h[k].invalidation.Some? ==> h[k].invalidation.value.streamEpoch == epoch)
  }

  /** Call j is an in-scope invalidation of i's ledger that the epoch of i still remembers. */
  predicate Remembered(h: seq<Call>, j: nat, i: Invalidation, scope: ConfirmedScope)
    requires j < |h|
  {
    && h[j].Observe? && h[j].invalidation.Some?
    && InScope(h[j].invalidation.value, scope)
    && SameLedger(h[j].invalidation.value, i)
    && SameEpochFrom(h, j, i.streamEpoch)
  }

  /** Under one scope the joined key is injective, although ids may hold NUL characters. */
  lemma {:induction false} KeysTellLedgersApart(a: Invalidation, b: Invalidation, scope: ConfirmedScope)
    requires InScope(a, scope) && InScope(b, scope)
    ensures Key(a) == Key(b) <==> SameLedger(a, b)
  {
    if a.scope != b.scope {
      assert Key(a)[0] != Key(b)[0];
    } else if Key(a) == Key(b) {
      var n := |ScopeName(a.scope)| + |a.scopeId| + 2;
      assert Key(a)[n..] == a.ledger && Key(b)[n..] == b.ledger;
    }
  }

  /** Without that restriction it is not: two ledgers of different ids can share a key. */
  lemma {:induction false} KeysCollideAcrossIds()
    ensures Key(Invalidation(Company, ['a', '\0', 'b'], "c", 1, "e"))
         == Key(Invalidation(Company, "a", ['b', '\0', 'c'], 1, "e"))
  {
    assert ['a', '\0', 'b'] + ['\0'] + "c" == "a" + ['\0'] + ['b', '\0', 'c'];
    assert Key(Invalidation(Company, ['a', '\0', 'b'], "c", 1, "e"))
        == "company" + ['\0'] + (['a', '\0', 'b'] + ['\0'] + "c");
    assert Key(Invalidation(Company, "a", ['b', '\0', 'c'], 1, "e"))
        == "company" + ['\0'] + ("a" + ['\0'] + ['b', '\0', 'c']);
  }

  /** a's id is b's id, a NUL and some text that b's ledger begins with, up to the next NUL. */
  ghost predicate Shifted(a: Invalidation, b: Invalidation) {
    exists m: string :: a.scopeId == b.scopeId + ['\0'] + m && b.ledger == m + ['\0'] + a.ledger
  }

  lemma {:induction false} ShiftedText(x: string, r: string, y: string, s: string) returns (m: string)
    requires x + ['\0'] + r == y + ['\0'] + s && |x| > |y|
    ensures x == y + ['\0'] + m && s == m + ['\0'] + r
  {
    var text := x + ['\0'] + r;
    m := x[|y| + 1..];
    assert text[..|y|] == y && text[|y|] == '\0' && text[|y| + 1..] == s;
    assert x == text[..|x|];
    assert x[..|y|] == y && x[|y|] == '\0';
    assert text[|y| + 1..] == m + ['\0'] + r;
  }

  /** Two keys coincide exactly for the same ledger of the same id, or when a NUL shifts the boundary. */
  lemma {:induction false} KeysCollideExactly(a: Invalidation, b: Invalidation)
    ensures Key(a) == Key(b) <==>
      a.scope == b.scope && ((a.scopeId == b.scopeId && a.ledger == b.ledger) || Shifted(a, b) || Shifted(b, a))
  {
    KeysReduce(a, b);
    var x, y := a.scopeId + ['\0'] + a.ledger, b.scopeId + ['\0'] + b.ledger;
    if Shifted(a, b) { ShiftedMeet(a, b); }
    if Shifted(b, a) { ShiftedMeet(b, a); }
    if x == y && |a.scopeId| > |b.scopeId| {
      var m := ShiftedText(a.scopeId, a.ledger, b.scopeId, b.ledger);
    } else if x == y && |a.scopeId| < |b.scopeId| {
      var m := ShiftedText(b.scopeId, b.ledger, a.scopeId, a.ledger);
    } else if x == y {
      assert x[..|a.scopeId|] == a.scopeId && y[..|b.scopeId|] == b.scopeId;
      assert x[|a.scopeId| + 1..] == a.ledger && y[|b.scopeId| + 1..] == b.ledger;
    }
  }

  lemma {:induction false} ShiftedMeet(a: Invalidation, b: Invalidation)
    requires Shifted(a, b)
    ensures a.scopeId + ['\0'] + a.ledger == b.scopeId + ['\0'] + b.ledger
  {
    var m: string :| a.scopeId == b.scopeId + ['\0'] + m && b.ledger == m + ['\0'] + a.ledger;
    assert b.scopeId + ['\0'] + m + ['\0'] + a.ledger == b.scopeId + ['\0'] + (m + ['\0'] + a.ledger);
  }

  lemma {:induction false} KeysReduce(a: Invalidation, b: Invalidation)
    ensures Key(a) == Key(b) <==>
      a.scope == b.scope && a.scopeId + ['\0'] + a.ledger == b.scopeId + ['\0'] + b.ledger
  {
    KeyTail(a);
    KeyTail(b);
    if a.scope != b.scope {
      assert Key(a)[0] != Key(b)[0];
    } else {
      var n := |ScopeName(a.scope)| + 1;
      assert Key(a)[n..] == a.scopeId + ['\0'] + a.ledger;
      assert Key(b)[n..] == b.scopeId + ['\0'] + b.ledger;
    }
  }

  lemma {:induction false} KeyTail(i: Invalidation)
    ensures Key(i) == ScopeName(i.scope) + ['\0'] + (i.scopeId + ['\0'] + i.ledger)
  {
  }

  /** So keys tell ledgers apart, across scopes too, when no id holds a NUL. */
  lemma {:induction false} KeysAreInjectiveWithoutNul(a: Invalidation, b: Invalidation)
    requires '\0' !in a.scopeId && '\0' !in b.scopeId
    ensures Key(a) == Key(b) <==> a.scope == b.scope && a.scopeId == b.scopeId && a.ledger == b.ledger
  {
    KeysCollideExactly(a, b);
    assert forall s: string, t: string :: '\0' in s + ['\0'] + t;
  }

  /** In i's epoch, the remembered revision is the maximum over the remembered calls. */
  ghost predicate MemoryMatches(h: seq<Call>, i: Invalidation, scope: ConfirmedScope) {
    var m := AtEpoch(After(h), i).revisions;
    && (Key(i) in m <==> exists j | 0 <= j < |h| :: Remembered(h, j, i, scope))
    && (Key(i) in m ==>
          && (forall j | 0 <= j < |h| && Remembered(h, j, i, scope) :: h[j].invalidation.value.revision <= m[Key(i)])
          && (exists j | 0 <= j < |h| :: Remembered(h, j, i, scope) && h[j].invalidation.value.revision == m[Key(i)]))
  }

  /** Memory carries over one call exactly when that call keeps the epoch. */
  lemma {:induction false} RememberedExtends(h: seq<Call>, j: nat, i: Invalidation, scope: ConfirmedScope)
    requires h != [] && j < |h| - 1
    ensures Remembered(h, j, i, scope) <==>
              Remembered(h[..|h| - 1], j, i, scope) && SameEpochFrom(h, |h| - 1, i.streamEpoch)
  {
    var p := h[..|h| - 1];
    assert forall k | 0 <= k < |p| :: p[k] == h[k];
    assert SameEpochFrom(h, j, i.streamEpoch) <==>
           SameEpochFrom(p, j, i.streamEpoch) && SameEpochFrom(h, |h| - 1, i.streamEpoch);
  }

  lemma {:induction false} MemoryIsMaximum(h: seq<Call>, i: Invalidation, scope: ConfirmedScope)
    requires FixedScope(h, scope) && InScope(i, scope)
    ensures MemoryMatches(h, i, scope)
  {
    if h != [] {
      var p, call := h[..|h| - 1], h[|h| - 1];
      MemoryIsMaximum(p, i, scope);
      forall j | 0 <= j < |p|
        ensures Remembered(h, j, i, scope) <==> Remembered(p, j, i, scope) && SameEpochFrom(h, |p|, i.streamEpoch)
      {
        RememberedExtends(h, j, i, scope);
      }
      assert forall j | 0 <= j < |p| :: p[j] == h[j];
      match call
      case Reset(_) =>
        assert !SameEpochFrom(h, |p|, i.streamEpoch);
      case Observe(None, _) =>
      case Observe(Some(x), _) =>
        if x.streamEpoch == i.streamEpoch {
          if InScope(x, scope) {
            KeysTellLedgersApart(x, i, scope);
          }
          MemoryObserves(h, i, x, scope);
        } else {
          assert !SameEpochFrom(h, |p|, i.streamEpoch);
        }
    }
  }

  /** One more payload of the same epoch raises the memory of its own ledger only. */
  lemma {:induction false} MemoryObserves(h: seq<Call>, i: Invalidation, x: Invalidation, scope: ConfirmedScope)
    requires h != [] && h[|h| - 1] == Observe(Some(x), scope) && x.streamEpoch == i.streamEpoch
    requires InScope(i, scope) && (InScope(x, scope) ==> (Key(x) == Key(i) <==> SameLedger(x, i)))
    requires MemoryMatches(h[..|h| - 1], i, scope)
    requires forall j | 0 <= j < |h| - 1 :: Remembered(h, j, i, scope) <==> Remembered(h[..|h| - 1], j, i, scope)
    ensures MemoryMatches(h, i, scope)
  {
    var p := h[..|h| - 1];
    var before, after := AtEpoch(After(p), i).revisions, AtEpoch(After(h), i).revisions;
    assert Remembered(h, |p|, i, scope) <==> InScope(x, scope) && SameLedger(x, i);
    if InScope(x, scope) && SameLedger(x, i) {
      var prior := if Key(i) in before then before[Key(i)] else x.revision;
      assert Key(i) in after && after[Key(i)] == if x.revision <= prior then prior else x.revision;
    } else {
      assert Key(i) in after <==> Key(i) in before;
      assert Key(i) in before ==> after[Key(i)] == before[Key(i)];
      forall j | 0 <= j < |p| && Remembered(p, j, i, scope)
        ensures Remembered(h, j, i, scope) && h[j] == p[j]
      {
      }
      forall j | 0 <= j < |h| && Remembered(h, j, i, scope)
        ensures j < |p| && Remembered(p, j, i, scope) && h[j] == p[j]
      {
      }
    }
  }

  /** The decision against every remembered call, refreshed or not. */
  lemma {:induction false} DecisionFromMemory(h: seq<Call>, i: Invalidation, scope: ConfirmedScope)
    requires FixedScope(h, scope) && InScope(i, scope)
    ensures
      var d := Decide(After(h), Some(i), scope);
      && (d == Duplicate <==>
            exists j | 0 <= j < |h| :: Remembered(h, j, i, scope) && i.revision <= h[j].invalidation.value.revision)
      && (d != Duplicate ==> d.Refresh? && !d.malformed)
      && (d.Refresh? ==>
            (d.gap <==>
               && (exists j | 0 <= j < |h| :: Remembered(h, j, i, scope))
               && (forall j | 0 <= j < |h| && Remembered(h, j, i, scope) ::
                     h[j].invalidation.value.revision + 1 < i.revision)))
  {
    MemoryIsMaximum(h, i, scope);
  }

  /** Call j was answered with a refresh. */
  predicate Refreshed(h: seq<Call>, j: nat, scope: ConfirmedScope)
    requires j < |h|
  {
    h[j].Observe? && Decide(After(h[..j]), h[j].invalidation, scope).Refresh?
  }

  /** What is remembered is remembered of something else earlier, if it was remembered at the call in between. */
  lemma {:induction false} RememberedThrough(h: seq<Call>, j: nat, k: nat, i: Invalidation, scope: ConfirmedScope)
    requires j < k < |h| && Remembered(h, k, i, scope) && Remembered(h[..k], j, h[k].invalidation.value, scope)
    ensures Remembered(h, j, i, scope)
  {
    assert forall n | 0 <= n < k :: h[..k][n] == h[n];
  }

  /** Behind every remembered call stands a refresh of the same ledger and epoch with at least its revision. */
  lemma {:induction false} RefreshBehind(h: seq<Call>, k: nat, i: Invalidation, scope: ConfirmedScope) returns (j: nat)
    requires FixedScope(h, scope) && k < |h| && Remembered(h, k, i, scope)
    ensures j < |h| && Remembered(h, j, i, scope) && Refreshed(h, j, scope)
    ensures h[k].invalidation.value.revision <= h[j].invalidation.value.revision
    decreases k
  {
    if Refreshed(h, k, scope) {
      return k;
    }
    DecisionFromMemory(h[..k], h[k].invalidation.value, scope);
    var earlier :| 0 <= earlier < k && Remembered(h[..k], earlier, h[k].invalidation.value, scope)
      && h[k].invalidation.value.revision <= h[..k][earlier].invalidation.value.revision;
    RememberedThrough(h, earlier, k, i, scope);
    j := RefreshBehind(h, earlier, i, scope);
  }

  /** The invalidation names the confirmed scope of its kind; an empty id names none. */
  predicate Concerns(i: Invalidation, scope: ConfirmedScope) {
    && i.scopeId != ""
    && Some(i.scopeId) == if i.scope == Company then scope.companyScopeId else scope.executionSpaceId
  }

  lemma {:induction false} InScopeExactly(i: Invalidation, scope: ConfirmedScope)
    ensures InScope(i, scope) <==> Concerns(i, scope)
  {
  }

  /**
   The decision for every history and payload under one scope. A duplicate is
   an invalidation at or below one already refreshed in this epoch; a refresh has a
   gap exactly when there is a remembered one and all of them are more than one behind.
   */
  lemma {:induction false} DecisionFromHistory(h: seq<Call>, observed: Option<Invalidation>, scope: ConfirmedScope)
    requires FixedScope(h, scope)
    ensures var d := Decide(After(h), observed, scope);
            if observed.None? then d == Refresh(false, true)
            else
              var i := observed.value;
              if !Concerns(i, scope) then d == OtherScope
              else
                && (d == Duplicate <==>
                      exists j | 0 <= j < |h| ::
                        && Remembered(h, j, i, scope) && Refreshed(h, j, scope)
                        && i.revision <= h[j].invalidation.value.revision)
                && (d != Duplicate ==> d.Refresh? && !d.malformed)
                && (d.Refresh? ==>
                      (d.gap <==>
                         && (exists j | 0 <= j < |h| :: Remembered(h, j, i, scope))
                         && (forall j | 0 <= j < |h| && Remembered(h, j, i, scope) ::
                               h[j].invalidation.value.revision + 1 < i.revision)))
  {
    if observed.Some? && InScope(observed.value, scope) {
      var i := observed.value;
      DecisionFromMemory(h, i, scope);
      if Decide(After(h), observed, scope) == Duplicate {
        var k :| 0 <= k < |h| && Remembered(h, k, i, scope) && i.revision <= h[k].invalidation.value.revision;
        var j := RefreshBehind(h, k, i, scope);
      }
    }
  }

  /** Within an epoch, accepted refreshes of one ledger have strictly increasing revisions. */
  lemma {:induction false} RefreshesIncrease(h: seq<Call>, j: nat, k: nat, scope: ConfirmedScope)
    requires FixedScope(h, scope) && j < k < |h| && h[k].Observe? && h[k].invalidation.Some?
    requires Remembered(h[..k], j, h[k].invalidation.value, scope)
    requires var d := Decide(After(h[..k]), h[k].invalidation, scope); d.Refresh?
    ensures h[j].invalidation.value.revision < h[k].invalidation.value.revision
  {
    DecisionFromMemory(h[..k], h[k].invalidation.value, scope);
  }

  /** The tracker object. */
  class Tracker {
    var epoch: Option<string>
    var revisions: map<string, int>
    ghost var history: seq<Call>

    ghost predicate Valid()
      reads this
    {
      State(epoch, revisions) == After(history)
    }

    constructor ()
      ensures Valid() && history == []
    {
      epoch, revisions, history := None, map[], [];
    }

    method ResetEpoch(streamEpoch: Option<string>)
      requires Valid()
      modifies this
      ensures Valid() && history == old(history) + [Reset(streamEpoch)] && revisions == map[]
    {
      epoch, revisions := streamEpoch, map[];
      assert (history + [Reset(streamEpoch)])[..|history|] == history;
      history := history + [Reset(streamEpoch)];
    }

    /** Under one scope, a non-malformed refresh outranks everything remembered; a duplicate does not. */
    method ObserveInvalidation(observed: Option<Invalidation>, scope: ConfirmedScope) returns (decision: Decision)
      requires Valid()
      modifies this
      ensures Valid() && history == old(history) + [Observe(observed, scope)]
      ensures decision == Decide(old(State(epoch, revisions)), observed, scope)
      ensures FixedScope(old(history), scope) && observed.Some? && decision.Refresh? ==>
                forall j | 0 <= j < |old(history)| && Remembered(old(history), j, observed.value, scope) ::
                  old(history)[j].invalidation.value.revision < observed.value.revision
      ensures FixedScope(old(history), scope) && decision.Duplicate? ==>
                exists j | 0 <= j < |old(history)| ::
                  && Remembered(old(history), j, observed.value, scope) && Refreshed(old(history), j, scope)
                  && observed.value.revision <= old(history)[j].invalidation.value.revision
    {
      if FixedScope(history, scope) && observed.Some? && InScope(observed.value, scope) {
        DecisionFromHistory(history, observed, scope);
        DecisionFromMemory(history, observed.value, scope);
      }
      ghost var call := Observe(observed, scope);
      assert (history + [call])[..|history|] == history;
      ghost var before := State(epoch, revisions);
      if observed.None? {
        decision := Refresh(false, true);
      } else {
        var i := observed.value;
        if Some(i.streamEpoch) != epoch {
          epoch, revisions := Some(i.streamEpoch), map[];
        }
        var expected := if i.scope == ExecutionSpace then scope.executionSpaceId else scope.companyScopeId;
        if expected.None? || expected.value == "" || i.scopeId != expected.value {
          decision := OtherScope;
        } else {
          var key := Key(i);
          if key in revisions && i.revision <= revisions[key] {
            decision := Duplicate;
          } else {
            decision := Refresh(key in revisions && i.revision > revisions[key] + 1, false);
            revisions := revisions[key := i.revision];
          }
        }
      }
      assert State(epoch, revisions) == Step(before, call);
      history := history + [call];
    }
  }
}
