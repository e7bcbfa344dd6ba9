/** The coordinator object, proved against the histories of SnapshotProtocol. */
module SnapshotFrameBuffer {
  import opened Basics
  import opened SnapshotProtocol

  class FrameBuffer {
    var nextRequestId: nat
    var nextFrameSequence: nat
    var frames: seq<Entry>
    var pending: map<nat, Token>
    var latestReadId: nat
    var latestMutationId: nat
    var mutationGeneration: nat
    var activeMutations: set<nat>
    var live: Registry
    /** Every call made so far. */
    ghost var history: seq<Event>

    ghost function View(): State
      reads this
    {
      State(nextRequestId, nextFrameSequence, frames, pending, latestReadId, latestMutationId,
            mutationGeneration, activeMutations, live)
    }

    ghost predicate Valid()
      reads this
    {
      View() == After(history) && WellFormed(history)
    }

    /** The one call that issued this token. */
    ghost predicate IssuedAt(i: nat, token: Token)
      reads this
    {
      i < |history| && TokenAt(history, i) == Some(token)
    }

    constructor ()
      ensures Valid() && history == []
    {
      nextRequestId, nextFrameSequence, frames, pending := 0, 0, [], map[];
      latestReadId, latestMutationId, mutationGeneration := 0, 0, 0;
      activeMutations, live, history := {}, map[], [];
    }

    /** A read begins exactly when every mutation was settled and every earlier read has ended. */
    method BeginReadRequest() returns (token: Option<Token>)
      requires Valid()
      modifies this
      ensures Valid() && history == old(history) + [BeginRead]
      ensures token.Some? <==> AllSettled(old(history)) && NoneOpen(old(history))
      ensures token.Some? <==> old(activeMutations) == {} && old(latestReadId) == 0
      ensures token.Some? ==> token.value.kind == Read && IssuedAt(|old(history)|, token.value)
    {
      ghost var before := history;
      ReadBeginsExactly(before);
      token := OpenRead();
      history := history + [BeginRead];
      HistoryGrows(before, BeginRead);
    }

    /** A mutation always begins and takes away the right of any earlier read to commit. */
    method BeginMutationRequest() returns (token: Token)
      requires Valid()
      modifies this
      ensures Valid() && history == old(history) + [BeginMutation]
      ensures token.kind == Mutation && IssuedAt(|old(history)|, token)
      ensures !AllSettled(history)
    {
      ghost var before := history;
      token := OpenMutation();
      history := history + [BeginMutation];
      HistoryGrows(before, BeginMutation);
      assert history[|before|] == BeginMutation;
    }

    method FinishMutationRequest(request: Token)
      requires Valid() && Issued(history, request)
      modifies this
      ensures Valid() && history == old(history) + [FinishMutation(request)]
      ensures request.id !in activeMutations || request.kind == Read
    {
      ghost var before := history;
      CloseMutation(request);
      history := history + [FinishMutation(request)];
      HistoryGrows(before, FinishMutation(request));
    }

    method DiscardRequest(request: Token)
      requires Valid() && Issued(history, request)
      modifies this
      ensures Valid() && history == old(history) + [Discard(request)]
      ensures request.id !in pending
    {
      ghost var before := history;
      Release(request);
      history := history + [Discard(request)];
      HistoryGrows(before, Discard(request));
    }

    /** Durable frames change nothing; activity is journaled while some request is unresolved. */
    method RecordFrame(frame: Frame)
      requires Valid()
      modifies this
      ensures Valid() && history == old(history) + [Record(frame)]
      ensures frame.Durable? ==> View() == old(View())
      ensures |frames| <= 4096
    {
      ghost var before := history;
      JournalFrame(frame);
      history := history + [Record(frame)];
      HistoryGrows(before, Record(frame));
      JournalIsCapped(history);
    }

    method ReplaceLiveMemberActivity(activity: Registry)
      requires Valid()
      modifies this
      ensures Valid() && history == old(history) + [Replace(activity)] && live == activity
    {
      ghost var before := history;
      live := activity;
      history := history + [Replace(activity)];
      HistoryGrows(before, Replace(activity));
    }

    method ClearLiveMemberActivity()
      requires Valid()
      modifies this
      ensures Valid() && history == old(history) + [Clear] && live == map[]
    {
      ghost var before := history;
      live := map[];
      history := history + [Clear];
      HistoryGrows(before, Clear);
    }

    /**
     The response commits exactly when the calls since the request began allow
     it; it carries the server's durable fields and the activity of Response.
     */
    method ResolveResponse(request: Token, snapshot: Snapshot, clock: Clock, ghost issued: nat)
      returns (merged: Option<Snapshot>)
      requires Valid() && IssuedAt(issued, request)
      modifies this
      ensures Valid() && history == old(history) + [Resolve(request)]
      ensures merged == Response(old(View()), request, snapshot, clock)
      ensures request.kind == Read ==>
                (merged.Some? <==> forall j | issued < j < |old(history)| :: !EndsRead(old(history)[j], request))
      ensures request.kind == Mutation ==>
                (merged.Some? <==> forall j | issued < j < |old(history)| :: !EndsMutation(old(history)[j]))
      ensures merged.Some? ==> merged.value.durable == snapshot.durable
      ensures request.id !in pending
    {
      ghost var before := history;
      CommitsExactly(before, issued, request, snapshot, clock);
      HistoryGrows(before, Resolve(request));
      merged := Merge(request, snapshot, clock);
      assert View() == AfterResolve(After(before), request);
      history := history + [Resolve(request)];
    }

    method ResetAll()
      requires Valid()
      modifies this
      ensures Valid() && history == old(history) + [Reset]
      ensures pending == map[] && frames == [] && live == map[] && activeMutations == {}
    {
      ghost var before := history;
      ClearAll();
      history := history + [Reset];
      HistoryGrows(before, Reset);
    }

    // ---- Internal operations ------------------------------------------------

    method JournalFrame(frame: Frame)
      modifies this`live, this`nextFrameSequence, this`frames
      ensures View() == AfterRecord(old(View()), frame)
    {
      if frame.MemberActivity? {
        var a := frame.activity;
        if a.memberRunId !in live || live[a.memberRunId].revision < a.revision {
          live := live[a.memberRunId := a];
        }
      }
      if frame.MemberActivity? && |pending| != 0 {
        nextFrameSequence := nextFrameSequence + 1;
        frames := frames + [Entry(nextFrameSequence, frame)];
        if |frames| > MAX_BUFFERED_FRAMES {
          frames := frames[|frames| - MAX_BUFFERED_FRAMES..];
        }
      }
    }

    method ClearAll()
      modifies this
      ensures history == old(history) && View() == AfterReset(old(View()))
    {
      pending := map[];
      activeMutations := {};
      latestReadId, latestMutationId := 0, 0;
      mutationGeneration := mutationGeneration + 1;
      frames := [];
      live := map[];
    }

    method CloseMutation(request: Token)
      modifies this
      ensures history == old(history) && View() == AfterFinish(old(View()), request)
    {
      if request.kind == Mutation {
        activeMutations := activeMutations - {request.id};
        ReleasePending(request.id);
      }
    }

    method Release(request: Token)
      modifies this`latestReadId, this`pending, this`frames
      ensures View() == AfterDiscard(old(View()), request)
    {
      if request.kind == Read && request.id == latestReadId {
        latestReadId := 0;
      }
      ReleasePending(request.id);
    }

    /** Answer a response and release its request, whether or not it is current. */
    method Merge(request: Token, snapshot: Snapshot, clock: Clock) returns (merged: Option<Snapshot>)
      modifies this`latestReadId, this`pending, this`frames
      ensures View() == AfterResolve(old(View()), request)
      ensures merged == Response(old(View()), request, snapshot, clock) && request.id !in pending
    {
      var isCurrentRead := request.kind == Read && |activeMutations| == 0 && request.id == latestReadId
                           && request.generation == mutationGeneration;
      var isCurrentMutation := request.kind == Mutation && request.id == latestMutationId;
      assert |activeMutations| == 0 <==> activeMutations == {};
      assert IsCurrent(View(), request) <==> isCurrentRead || isCurrentMutation;
      if !isCurrentRead && !isCurrentMutation {
        ReleasePending(request.id);
        merged := None;
      } else {
        var result := ReplayFrames(snapshot.(live := None), request.frameSequence, clock);
        if |live| > 0 {
          result := result.(live := Some(live));
        }
        merged := Some(result);
        Release(request);
      }
    }

    method ReplayFrames(snapshot: Snapshot, since: nat, clock: Clock) returns (merged: Snapshot)
      ensures merged == Replay(snapshot, frames, since, clock)
    {
      merged := snapshot;
      for i := 0 to |frames|
        invariant merged == Replay(snapshot, frames[..i], since, clock)
      {
        assert frames[..i + 1][..i] == frames[..i];
        if frames[i].sequence > since {
          merged := ApplyFrame(merged, frames[i].frame, clock(frames[i].sequence));
        }
      }
      assert frames[..|frames|] == frames;
    }

    method OpenRead() returns (token: Option<Token>)
      modifies this
      ensures history == old(history) && View() == AfterBeginRead(old(View()))
      ensures token == TokenOf(old(View()), BeginRead)
    {
      if activeMutations != {} || latestReadId != 0 {
        token := None;
      } else {
        var request := BeginRequest(Read);
        latestReadId := request.id;
        token := Some(request);
      }
    }

    method OpenMutation() returns (token: Token)
      modifies this
      ensures history == old(history) && View() == AfterBeginMutation(old(View()))
      ensures Some(token) == TokenOf(old(View()), BeginMutation)
    {
      if latestReadId != 0 {
        ReleasePending(latestReadId);
      }
      latestReadId := 0;
      var request := BeginRequest(Mutation);
      latestMutationId := request.id;
      activeMutations := activeMutations + {request.id};
      mutationGeneration := mutationGeneration + 1;
      token := request.(generation := mutationGeneration);
    }

    method BeginRequest(kind: RequestKind) returns (token: Token)
      modifies this`nextRequestId, this`pending, this`frames
      ensures token == NextToken(old(View()), kind) && View() == Begin(old(View()), kind)
    {
      nextRequestId := nextRequestId + 1;
      token := Token(nextRequestId, nextFrameSequence, kind, mutationGeneration);
      pending := pending[token.id := token];
      PruneFrames();
    }

    method ReleasePending(id: nat)
      modifies this`pending, this`frames
      ensures View() == DropPending(old(View()), id)
    {
      pending := pending - {id};
      PruneFrames();
    }

    /** Keeping what follows the earliest pending request is keeping what some request needs. */
    method PruneFrames()
      modifies this`frames
      ensures frames == Retained(old(frames), pending)
    {
      if |pending| == 0 {
        NothingPendingNothingRetained(frames);
        frames := [];
        return;
      }
      var earliest: Option<nat> := None;
      var ids := pending.Keys;
      while ids != {}
        invariant ids <= pending.Keys
        invariant earliest.None? ==> ids == pending.Keys
        invariant earliest.Some? ==>
                    exists id | id in pending.Keys - ids :: pending[id].frameSequence == earliest.value
        invariant earliest.Some? ==>
                    forall id | id in pending.Keys - ids :: earliest.value <= pending[id].frameSequence
      {
        var id :| id in ids;
        var sequence := pending[id].frameSequence;
        earliest := if earliest.Some? && earliest.value <= sequence then earliest else Some(sequence);
        ids := ids - {id};
      }
      assert forall k: int :: Needed(pending, k) <==> earliest.value < k;
      var kept: seq<Entry> := [];
      ghost var original := frames;
      for i := 0 to |frames|
        invariant frames == original
        invariant kept + Retained(original[i..], pending) == Retained(original, pending)
      {
        assert original[i..][1..] == original[i + 1..];
        if frames[i].sequence > earliest.value {
          kept := kept + [frames[i]];
        }
      }
      frames := kept;
    }
  }

  /** When a response commits, and that its durable part is the server's. */
  lemma {:induction false} CommitsExactly(h: seq<Event>, issued: nat, t: Token, snapshot: Snapshot, clock: Clock)
    requires WellFormed(h) && issued < |h| && TokenAt(h, issued) == Some(t)
    ensures var r := Response(After(h), t, snapshot, clock);
      && (t.kind == Read ==> (r.Some? <==> forall j | issued < j < |h| :: !EndsRead(h[j], t)))
      && (t.kind == Mutation ==> (r.Some? <==> forall j | issued < j < |h| :: !EndsMutation(h[j])))
      && (r.Some? ==> r.value.durable == snapshot.durable)
    ensures Issued(h, t)
  {
    if t.kind == Read {
      ReadCommitsExactly(h, issued, snapshot, clock);
    } else {
      MutationCommitsExactly(h, issued, snapshot, clock);
    }
    if IsCurrent(After(h), t) {
      ResponseActivity(h, t, snapshot, clock);
    }
  }

  /** Appending one call to a well-formed history. */
  lemma {:induction false} HistoryGrows(h: seq<Event>, e: Event)
    requires WellFormed(h) && (UsesToken(e) ==> Issued(h, e.token))
    ensures WellFormed(h + [e]) && After(h + [e]) == Step(After(h), e)
    ensures TokenAt(h + [e], |h|) == TokenOf(After(h), e)
  {
    var g := h + [e];
    assert g[..|h|] == h;
    forall i | 0 <= i < |g| && UsesToken(g[i])
      ensures Issued(g[..i], g[i].token)
    {
      if i < |h| {
        assert g[..i] == h[..i];
      }
    }
  }
}
