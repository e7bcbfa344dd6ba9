/**
 The browser-side coordinator of full snapshot responses and the live event
 stream, as a state machine over histories of calls. Reads, mutations, resets
 and stream frames interleave in any order; the lemmas speak of every history
 in which callers only pass tokens the coordinator issued.
 */
module SnapshotProtocol {
  import opened Basics

  datatype Activity = Activity(memberRunId: string, revision: int, preview: string)

  type Registry = map<string, Activity>

  /** Frames whose rows are durable: freshness signals, never applied. */
  datatype DurableKind =
    | SnapshotMarker | ProjectionInvalidated | AgentEvent | Message | TeamRunEvent | Mission
    | AgentTeamRun | MemberRun | TeamMessage | TeamSupervisorLease | TeamMemberCloseRequest | MemberAction

  datatype Frame = Durable(kind: DurableKind) | MemberActivity(activity: Activity)

  /** `durable` stands for every field other than the two named ones. */
  datatype Snapshot = Snapshot(durable: string, generatedAt: string, live: Option<Registry>)

  datatype RequestKind = Read | Mutation

  datatype Token = Token(id: nat, frameSequence: nat, kind: RequestKind, generation: nat)

  datatype Entry = Entry(sequence: nat, frame: Frame)

  datatype State = State(
    nextRequestId: nat,
    nextFrameSequence: nat,
    frames: seq<Entry>,
    pending: map<nat, Token>,
    latestReadId: nat,
    latestMutationId: nat,
    mutationGeneration: nat,
    activeMutations: set<nat>,
    live: Registry)

  /** Clock readings taken while journal entries are replayed, by sequence number. */
  type Clock = nat -> string

  datatype Event =
    | BeginRead
    | BeginMutation
    | FinishMutation(token: Token)
    | Discard(token: Token)
    | Record(frame: Frame)
    | Replace(activity: Registry)
    | Clear
    | Resolve(token: Token)
    | Reset

  const MAX_BUFFERED_FRAMES: nat := 4096

  const INITIAL := State(0, 0, [], map[], 0, 0, 0, {}, map[])

  // ---- Frames -------------------------------------------------------------

  /** Only ephemeral activity may change a snapshot, and only to a newer revision. */
  function ApplyFrame(snapshot: Snapshot, frame: Frame, now: string): Snapshot {
    match frame
    case Durable(_) => snapshot
    case MemberActivity(a) =>
      var current := if snapshot.live.Some? then snapshot.live.value else map[];
      if a.memberRunId in current && current[a.memberRunId].revision >= a.revision then snapshot
      else snapshot.(live := Some(current[a.memberRunId := a]), generatedAt := now)
  }

  /** Replay of the journal entries that arrived after `since`. */
  function Replay(snapshot: Snapshot, frames: seq<Entry>, since: nat, clock: Clock): Snapshot {
    if frames == [] then snapshot
    else
      var last := frames[|frames| - 1];
      var before := Replay(snapshot, frames[..|frames| - 1], since, clock);
      if last.sequence > since then ApplyFrame(before, last.frame, clock(last.sequence)) else before
  }

  /** Some unresolved request began before frame `sequence`. */
  ghost predicate Needed(pending: map<nat, Token>, sequence: int) {
    exists id | id in pending :: pending[id].frameSequence < sequence
  }

  /** The journal entries some unresolved response still needs. */
  ghost function Retained(frames: seq<Entry>, pending: map<nat, Token>): seq<Entry> {
    if frames == [] then []
    else (if Needed(pending, frames[0].sequence) then [frames[0]] else []) + Retained(frames[1..], pending)
  }

  function Capped(frames: seq<Entry>): seq<Entry> {
    if |frames| > MAX_BUFFERED_FRAMES then frames[|frames| - MAX_BUFFERED_FRAMES..] else frames
  }

  function Recorded(live: Registry, frame: Frame): Registry {
    match frame
    case Durable(_) => live
    case MemberActivity(a) =>
      if a.memberRunId !in live || live[a.memberRunId].revision < a.revision then live[a.memberRunId := a] else live
  }

  // ---- Steps --------------------------------------------------------------

  ghost function DropPending(s: State, id: nat): State {
    var pending := s.pending - {id};
    s.(pending := pending, frames := Retained(s.frames, pending))
  }

  function NextToken(s: State, kind: RequestKind): Token {
    Token(s.nextRequestId + 1, s.nextFrameSequence, kind, s.mutationGeneration)
  }

  ghost function Begin(s: State, kind: RequestKind): State {
    var token := NextToken(s, kind);
    var pending := s.pending[token.id := token];
    s.(nextRequestId := token.id, pending := pending, frames := Retained(s.frames, pending))
  }

  predicate MayRead(s: State) {
    s.activeMutations == {} && s.latestReadId == 0
  }

  ghost function AfterBeginRead(s: State): State {
    if MayRead(s) then Begin(s, Read).(latestReadId := s.nextRequestId + 1) else s
  }

  ghost function AfterBeginMutation(s: State): State {
    var released := if s.latestReadId != 0 then DropPending(s, s.latestReadId) else s;
    var begun := Begin(released.(latestReadId := 0), Mutation);
    begun.(latestMutationId := begun.nextRequestId,
           activeMutations := begun.activeMutations + {begun.nextRequestId},
           mutationGeneration := begun.mutationGeneration + 1)
  }

  ghost function AfterFinish(s: State, token: Token): State {
    if token.kind != Mutation then s
    else DropPending(s.(activeMutations := s.activeMutations - {token.id}), token.id)
  }

  ghost function AfterDiscard(s: State, token: Token): State {
    var released := if token.kind == Read && token.id == s.latestReadId then s.(latestReadId := 0) else s;
    DropPending(released, token.id)
  }

  ghost function AfterRecord(s: State, frame: Frame): State {
    var s' := s.(live := Recorded(s.live, frame));
    if frame.Durable? || s.pending == map[] then s'
    else s'.(nextFrameSequence := s.nextFrameSequence + 1,
             frames := Capped(s.frames + [Entry(s.nextFrameSequence + 1, frame)]))
  }

  predicate IsCurrent(s: State, token: Token) {
    || (token.kind == Read && s.activeMutations == {} && token.id == s.latestReadId
        && token.generation == s.mutationGeneration)
    || (token.kind == Mutation && token.id == s.latestMutationId)
  }

  ghost function AfterResolve(s: State, token: Token): State {
    if !IsCurrent(s, token) then DropPending(s, token.id) else AfterDiscard(s, token)
  }

  ghost function AfterReset(s: State): State {
    s.(pending := map[], activeMutations := {}, latestReadId := 0, latestMutationId := 0,
       mutationGeneration := s.mutationGeneration + 1, frames := [], live := map[])
  }

  ghost function Step(s: State, e: Event): State {
    match e
    case BeginRead => AfterBeginRead(s)
    case BeginMutation => AfterBeginMutation(s)
    case FinishMutation(token) => AfterFinish(s, token)
    case Discard(token) => AfterDiscard(s, token)
    case Record(frame) => AfterRecord(s, frame)
    case Replace(activity) => s.(live := activity)
    case Clear => s.(live := map[])
    case Resolve(token) => AfterResolve(s, token)
    case Reset => AfterReset(s)
  }

  /** The token a call hands out: a mutation's token carries the generation it opened. */
  function TokenOf(s: State, e: Event): Option<Token> {
    match e
    case BeginRead => if MayRead(s) then Some(NextToken(s, Read)) else None
    case BeginMutation => Some(NextToken(s, Mutation).(generation := s.mutationGeneration + 1))
    case _ => None
  }

  /** The registry as the optional snapshot field. */
  function AsField(live: Registry): Option<Registry> {
    if live == map[] then None else Some(live)
  }

  /** What resolving `token` with a server snapshot returns. */
  function Response(s: State, token: Token, snapshot: Snapshot, clock: Clock): Option<Snapshot> {
    if !IsCurrent(s, token) then None
    else
      var merged := Replay(snapshot.(live := None), s.frames, token.frameSequence, clock);
      Some(if s.live == map[] then merged else merged.(live := Some(s.live)))
  }

  // ---- Histories ----------------------------------------------------------

  ghost function After(h: seq<Event>): State {
    if h == [] then INITIAL else Step(After(h[..|h| - 1]), h[|h| - 1])
  }

  ghost function TokenAt(h: seq<Event>, i: nat): Option<Token>
    requires i < |h|
  {
    TokenOf(After(h[..i]), h[i])
  }

  ghost predicate Issued(h: seq<Event>, token: Token) {
    exists i | 0 <= i < |h| :: TokenAt(h, i) == Some(token)
  }

  predicate UsesToken(e: Event) {
    e.FinishMutation? || e.Discard? || e.Resolve?
  }

  /** Every token a caller passed had been issued before that call. */
  ghost predicate WellFormed(h: seq<Event>) {
    forall i | 0 <= i < |h| && UsesToken(h[i]) :: Issued(h[..i], h[i].token)
  }

  /** Events that end a read's right to commit. */
  predicate EndsRead(e: Event, token: Token) {
    e.BeginMutation? || e.Reset? || e == Discard(token) || e == Resolve(token)
  }

  predicate EndsMutation(e: Event) {
    e.BeginMutation? || e.Reset?
  }

  /** Events after which the activity registry no longer extends what it was. */
  predicate RebasesRegistry(e: Event) {
    e.Replace? || e.Clear? || e.Reset?
  }

  predicate RecordsActivity(e: Event) {
    e.Record? && e.frame.MemberActivity?
  }

  // ---- Prefix lemmas ------------------------------------------------------

  lemma {:induction false} PrefixFacts(h: seq<Event>)
    requires h != []
    ensures After(h) == Step(After(h[..|h| - 1]), h[|h| - 1])
    ensures forall i | 0 <= i < |h| - 1 :: TokenAt(h[..|h| - 1], i) == TokenAt(h, i)
    ensures WellFormed(h) ==> WellFormed(h[..|h| - 1])
  {
    var p := h[..|h| - 1];
    forall i | 0 <= i <= |p|
      ensures p[..i] == h[..i]
    {
    }
    if WellFormed(h) {
      forall i | 0 <= i < |p| && UsesToken(p[i])
        ensures Issued(p[..i], p[i].token)
      {
        assert p[..i] == h[..i] && p[i] == h[i];
      }
    }
  }

  lemma {:induction false} StepIds(s: State, e: Event)
    ensures s.nextRequestId <= Step(s, e).nextRequestId
    ensures TokenOf(s, e).Some? ==> TokenOf(s, e).value.id == s.nextRequestId + 1 == Step(s, e).nextRequestId
  {
  }

  lemma {:induction false} RequestIdsGrow(h: seq<Event>, i: nat)
    requires i <= |h|
    ensures After(h[..i]).nextRequestId <= After(h).nextRequestId
    decreases |h|
  {
    if i < |h| {
      var p := h[..|h| - 1];
      StepIds(After(p), h[|h| - 1]);
      RequestIdsGrow(p, i);
      assert p[..i] == h[..i];
    } else {
      assert h[..i] == h;
    }
  }

  /** A token's identifier names one call of the history. */
  lemma {:induction false} TokenIdBounds(h: seq<Event>, i: nat)
    requires i < |h| && TokenAt(h, i).Some?
    ensures TokenAt(h, i).value.id == After(h[..i]).nextRequestId + 1
    ensures TokenAt(h, i).value.id == After(h[..i + 1]).nextRequestId
    ensures TokenAt(h, i).value.id <= After(h).nextRequestId
  {
    var p := h[..i + 1];
    assert p[..i] == h[..i] && p[i] == h[i] && p[..|p| - 1] == h[..i];
    StepIds(After(h[..i]), h[i]);
    RequestIdsGrow(h, i + 1);
  }

  lemma {:induction false} LaterIdIsGreater(h: seq<Event>, i: nat, j: nat)
    requires i < j < |h| && TokenAt(h, i).Some? && TokenAt(h, j).Some?
    ensures TokenAt(h, i).value.id < TokenAt(h, j).value.id
  {
    TokenIdBounds(h, i);
    TokenIdBounds(h, j);
    assert h[..j][..i + 1] == h[..i + 1];
    RequestIdsGrow(h[..j], i + 1);
  }

  lemma {:induction false} IssuedOnce(h: seq<Event>, a: Token, b: Token)
    requires Issued(h, a) && Issued(h, b) && a.id == b.id
    ensures a == b
  {
    var i :| 0 <= i < |h| && TokenAt(h, i) == Some(a);
    var j :| 0 <= j < |h| && TokenAt(h, j) == Some(b);
    if i < j {
      LaterIdIsGreater(h, i, j);
    } else if j < i {
      LaterIdIsGreater(h, j, i);
    }
  }

  lemma {:induction false} IssuedInPrefix(h: seq<Event>, i: nat)
    requires h != [] && i < |h| - 1 && TokenAt(h, i).Some?
    ensures Issued(h[..|h| - 1], TokenAt(h, i).value)
  {
    PrefixFacts(h);
    assert TokenAt(h[..|h| - 1], i) == TokenAt(h, i);
  }

  /** How many mutations and resets the history holds. */
  function Boundaries(h: seq<Event>): nat {
    if h == [] then 0 else Boundaries(h[..|h| - 1]) + if h[|h| - 1] in {BeginMutation, Reset} then 1 else 0
  }

  lemma {:induction false} GenerationCounts(h: seq<Event>)
    ensures After(h).mutationGeneration == Boundaries(h)
  {
    if h != [] {
      GenerationCounts(h[..|h| - 1]);
      GenerationStep(After(h[..|h| - 1]), h[|h| - 1]);
    }
  }

  lemma {:induction false} GenerationStep(s: State, e: Event)
    ensures Step(s, e).mutationGeneration == s.mutationGeneration + if e in {BeginMutation, Reset} then 1 else 0
  {
  }

  /** A token carries the number of mutations and resets up to its own call, which a mutation counts as well. */
  lemma {:induction false} TokenGeneration(h: seq<Event>, i: nat)
    requires i < |h| && TokenAt(h, i).Some?
    ensures TokenAt(h, i).value.generation == Boundaries(h[..i + 1])
    ensures TokenAt(h, i).value.kind == (if h[i] == BeginRead then Read else Mutation)
  {
    GenerationCounts(h[..i]);
    assert h[..i + 1][..i] == h[..i];
  }

  // ---- The journal --------------------------------------------------------

  /** Everything ever journaled: frame number k is `Journal(h)[k - 1]`. */
  ghost function Journal(h: seq<Event>): seq<Frame> {
    if h == [] then []
    else
      var before, e := Journal(h[..|h| - 1]), h[|h| - 1];
      if RecordsActivity(e) && After(h[..|h| - 1]).pending != map[] then before + [e.frame] else before
  }

  /**
   The buffer is exactly the run of consecutive sequence numbers, ending at the
   newest, that are among the newest 4096 and needed by an unresolved request.
   */
  ghost predicate ExactJournal(frames: seq<Entry>, pending: map<nat, Token>, next: nat) {
    && |frames| <= next
    && (forall i | 0 <= i < |frames| :: frames[i].sequence == next - |frames| + 1 + i)
    && (forall k: int | 1 <= k <= next :: KeptAsNeeded(|frames|, pending, next, k))
    && (pending == map[] ==> frames == [])
  }

  /** Frame k is among the newest `length` exactly when it is recent and needed. */
  ghost predicate KeptAsNeeded(length: nat, pending: map<nat, Token>, next: nat, k: int) {
    k > next - length <==> k > next - MAX_BUFFERED_FRAMES && Needed(pending, k)
  }

  ghost predicate JournalIsExact(s: State) {
    ExactJournal(s.frames, s.pending, s.nextFrameSequence)
  }

  ghost predicate KnownPending(pending: map<nat, Token>, next: nat) {
    forall id | id in pending :: pending[id].frameSequence <= next
  }

  ghost predicate PendingIsKnown(s: State) {
    KnownPending(s.pending, s.nextFrameSequence)
  }

  /** On increasing sequence numbers, pruning keeps a suffix. */
  lemma {:induction false} RetainedIsSuffix(frames: seq<Entry>, pending: map<nat, Token>) returns (cut: nat)
    requires forall i, j | 0 <= i < j < |frames| :: frames[i].sequence < frames[j].sequence
    ensures cut <= |frames| && Retained(frames, pending) == frames[cut..]
    ensures forall i | 0 <= i < |frames| :: i >= cut <==> Needed(pending, frames[i].sequence)
  {
    if frames == [] {
      cut := 0;
    } else {
      var rest := frames[1..];
      var c := RetainedIsSuffix(rest, pending);
      if Needed(pending, frames[0].sequence) {
        forall i | 0 <= i < |frames|
          ensures Needed(pending, frames[i].sequence)
        {
          var id :| id in pending && pending[id].frameSequence < frames[0].sequence;
          assert pending[id].frameSequence < frames[i].sequence;
        }
        if |rest| > 0 {
          assert rest[0] == frames[1] && Needed(pending, rest[0].sequence);
        }
        assert c == 0;
        cut := 0;
        assert Retained(frames, pending) == [frames[0]] + rest;
      } else {
        cut := c + 1;
        assert frames[c + 1..] == rest[c..];
        forall i | 0 <= i < |frames|
          ensures i >= cut <==> Needed(pending, frames[i].sequence)
        {
          if i > 0 { assert frames[i] == rest[i - 1]; }
        }
      }
    }
  }

  lemma {:induction false} NothingPendingNothingRetained(frames: seq<Entry>)
    ensures Retained(frames, map[]) == []
  {
    if frames != [] {
      NothingPendingNothingRetained(frames[1..]);
    }
  }

  /** Pruning after releasing or adding a claim keeps the buffer exact. */
  lemma {:induction false} PruningKeepsExact(s: State, pending: map<nat, Token>)
    requires JournalIsExact(s) && PendingIsKnown(s)
    requires forall k: int | k <= s.nextFrameSequence :: Needed(pending, k) ==> Needed(s.pending, k)
    ensures JournalIsExact(s.(pending := pending, frames := Retained(s.frames, pending)))
    ensures |Retained(s.frames, pending)| <= |s.frames|
    ensures Retained(s.frames, pending) == s.frames[|s.frames| - |Retained(s.frames, pending)|..]
  {
    var cut := ExactSuffix(s, pending);
    SuffixIsExact(s, pending, cut);
  }

  /** What pruning an exact journal keeps. */
  lemma {:induction false} ExactSuffix(s: State, pending: map<nat, Token>) returns (cut: nat)
    requires JournalIsExact(s)
    ensures cut <= |s.frames| && Retained(s.frames, pending) == s.frames[cut..]
    ensures forall i | 0 <= i < |s.frames| :: i >= cut <==> Needed(pending, s.frames[i].sequence)
    ensures pending == map[] ==> s.frames[cut..] == []
  {
    cut := RetainedIsSuffix(s.frames, pending);
    if pending == map[] {
      NothingPendingNothingRetained(s.frames);
    }
  }

  lemma {:induction false} SuffixAt(frames: seq<Entry>, was: map<nat, Token>, pending: map<nat, Token>, next: nat, cut: nat, k: int)
    requires ExactJournal(frames, was, next) && cut <= |frames| && 1 <= k <= next
    requires Needed(pending, k) ==> Needed(was, k)
    requires var i := k - (next - |frames| + 1); 0 <= i ==> (i >= cut <==> Needed(pending, frames[i].sequence))
    ensures KeptAsNeeded(|frames| - cut, pending, next, k)
  {
    assert KeptAsNeeded(|frames|, was, next, k);
    var i := k - (next - |frames| + 1);
    if 0 <= i {
      assert frames[i].sequence == k;
    }
  }

  lemma {:induction false} SuffixIsExact(s: State, pending: map<nat, Token>, cut: nat)
    requires JournalIsExact(s) && cut <= |s.frames|
    requires forall k: int | k <= s.nextFrameSequence :: Needed(pending, k) ==> Needed(s.pending, k)
    requires forall i | 0 <= i < |s.frames| :: i >= cut <==> Needed(pending, s.frames[i].sequence)
    requires pending == map[] ==> s.frames[cut..] == []
    ensures ExactJournal(s.frames[cut..], pending, s.nextFrameSequence)
  {
    var kept, next := s.frames[cut..], s.nextFrameSequence;
    forall i | 0 <= i < |kept|
      ensures kept[i].sequence == next - |kept| + 1 + i
    {
      assert kept[i] == s.frames[cut + i];
    }
    forall k: int | 1 <= k <= next
      ensures KeptAsNeeded(|kept|, pending, next, k)
    {
      SuffixAt(s.frames, s.pending, pending, next, cut, k);
    }
  }

  lemma {:induction false} BeginKeepsExact(s: State, kind: RequestKind)
    requires JournalIsExact(s) && PendingIsKnown(s)
    ensures JournalIsExact(Begin(s, kind)) && PendingIsKnown(Begin(s, kind))
  {
    var pending := s.pending[NextToken(s, kind).id := NextToken(s, kind)];
    forall k: int | k <= s.nextFrameSequence && Needed(pending, k)
      ensures Needed(s.pending, k)
    {
      var id :| id in pending && pending[id].frameSequence < k;
      assert id in s.pending;
    }
    PruningKeepsExact(s, pending);
  }

  lemma {:induction false} DropKeepsExact(s: State, id: nat)
    requires JournalIsExact(s) && PendingIsKnown(s)
    ensures JournalIsExact(DropPending(s, id)) && PendingIsKnown(DropPending(s, id))
  {
    var pending := s.pending - {id};
    forall k: int | k <= s.nextFrameSequence && Needed(pending, k)
      ensures Needed(s.pending, k)
    {
      var other :| other in pending && pending[other].frameSequence < k;
      assert other in s.pending;
    }
    PruningKeepsExact(s, pending);
  }

  lemma {:induction false} RecordKeepsExact(s: State, frame: Frame)
    requires JournalIsExact(s) && PendingIsKnown(s)
    ensures JournalIsExact(AfterRecord(s, frame)) && PendingIsKnown(AfterRecord(s, frame))
  {
    if frame.MemberActivity? && s.pending != map[] {
      var next := s.nextFrameSequence + 1;
      var id :| id in s.pending;
      assert Needed(s.pending, next);
      var s' := AfterRecord(s, frame);
      forall k: int | 1 <= k <= next
        ensures KeptAsNeeded(|s'.frames|, s.pending, next, k)
      {
        if k < next { assert KeptAsNeeded(|s.frames|, s.pending, s.nextFrameSequence, k); }
      }
    }
  }

  lemma {:induction false} FinishKeepsExact(s: State, token: Token)
    requires JournalIsExact(s) && PendingIsKnown(s)
    ensures JournalIsExact(AfterFinish(s, token)) && PendingIsKnown(AfterFinish(s, token))
  {
    DropKeepsExact(s, token.id);
    var dropped, finished := DropPending(s, token.id), AfterFinish(s, token);
    if token.kind == Mutation {
      assert finished.frames == dropped.frames && finished.pending == dropped.pending;
      assert finished.nextFrameSequence == dropped.nextFrameSequence;
    }
  }

  lemma {:induction false} DiscardKeepsExact(s: State, token: Token)
    requires JournalIsExact(s) && PendingIsKnown(s)
    ensures JournalIsExact(AfterDiscard(s, token)) && PendingIsKnown(AfterDiscard(s, token))
  {
    DropKeepsExact(if token.kind == Read && token.id == s.latestReadId then s.(latestReadId := 0) else s, token.id);
  }

  lemma {:induction false} BeginMutationKeepsExact(s: State)
    requires JournalIsExact(s) && PendingIsKnown(s)
    ensures JournalIsExact(AfterBeginMutation(s)) && PendingIsKnown(AfterBeginMutation(s))
  {
    var released := if s.latestReadId != 0 then DropPending(s, s.latestReadId) else s;
    DropKeepsExact(s, s.latestReadId);
    BeginKeepsExact(released.(latestReadId := 0), Mutation);
  }

  lemma {:induction false} StepKeepsExact(s: State, e: Event)
    requires JournalIsExact(s) && PendingIsKnown(s)
    ensures JournalIsExact(Step(s, e)) && PendingIsKnown(Step(s, e))
  {
    match e
    case BeginRead => BeginKeepsExact(s, Read);
    case BeginMutation => BeginMutationKeepsExact(s);
    case FinishMutation(token) => FinishKeepsExact(s, token);
    case Discard(token) => DiscardKeepsExact(s, token);
    case Record(frame) => RecordKeepsExact(s, frame);
    case Replace(_) =>
    case Clear =>
    case Resolve(token) =>
      if IsCurrent(s, token) {
        DiscardKeepsExact(s, token);
      } else {
        DropKeepsExact(s, token.id);
      }
    case Reset =>
  }

  /** In every reachable state the journal is exact and holds the recorded frames. */
  lemma {:induction false} JournalInvariant(h: seq<Event>)
    ensures JournalIsExact(After(h)) && PendingIsKnown(After(h))
    ensures |Journal(h)| == After(h).nextFrameSequence
    ensures forall entry | entry in After(h).frames ::
              1 <= entry.sequence <= |Journal(h)| && entry.frame == Journal(h)[entry.sequence - 1]
  {
    if h != [] {
      var p, e := h[..|h| - 1], h[|h| - 1];
      JournalInvariant(p);
      StepKeepsExact(After(p), e);
      StepKeepsEntries(After(p), e);
    }
  }

  /** In every reachable state the buffer holds at most the capped number of frames. */
  lemma {:induction false} JournalIsCapped(h: seq<Event>)
    ensures |After(h).frames| <= 4096
  {
    JournalInvariant(h);
    var s := After(h);
    if |s.frames| > 0 {
      assert KeptAsNeeded(|s.frames|, s.pending, s.nextFrameSequence, s.nextFrameSequence - |s.frames| + 1);
    }
  }

  /** A step only drops journal entries, except that recording may append one. */
  lemma {:induction false} StepKeepsEntries(s: State, e: Event)
    requires JournalIsExact(s) && PendingIsKnown(s)
    ensures forall entry | entry in Step(s, e).frames ::
              entry in s.frames
              || (RecordsActivity(e) && s.pending != map[] && entry == Entry(s.nextFrameSequence + 1, e.frame))
    ensures Step(s, e).nextFrameSequence
         == s.nextFrameSequence + if RecordsActivity(e) && s.pending != map[] then 1 else 0
  {
    match e
    case BeginRead => RetainedIsSubset(s.frames, Begin(s, Read).pending);
    case BeginMutation =>
      var released := if s.latestReadId != 0 then DropPending(s, s.latestReadId) else s;
      RetainedIsSubset(s.frames, released.pending);
      RetainedIsSubset(released.frames, Begin(released.(latestReadId := 0), Mutation).pending);
    case FinishMutation(token) => RetainedIsSubset(s.frames, s.pending - {token.id});
    case Discard(token) => RetainedIsSubset(s.frames, s.pending - {token.id});
    case Record(frame) =>
    case Replace(_) =>
    case Clear =>
    case Resolve(token) => RetainedIsSubset(s.frames, s.pending - {token.id});
    case Reset =>
  }

  lemma {:induction false} RetainedIsSubset(frames: seq<Entry>, pending: map<nat, Token>)
    ensures forall entry | entry in Retained(frames, pending) :: entry in frames
  {
    if frames != [] {
      RetainedIsSubset(frames[1..], pending);
    }
  }

  // ---- Who may commit -----------------------------------------------------

  ghost predicate ControlInvariant(s: State) {
    s.latestReadId != 0 ==> s.activeMutations == {}
  }

  lemma {:induction false} ControlInvariantHolds(h: seq<Event>)
    ensures ControlInvariant(After(h))
  {
    if h != [] {
      ControlInvariantHolds(h[..|h| - 1]);
    }
  }

  /** One step keeps a read current unless the step ends that read. */
  lemma {:induction false} ReadStep(s: State, e: Event, t: Token)
    requires ControlInvariant(s) && t.kind == Read && 1 <= t.id <= s.nextRequestId
    requires UsesToken(e) && e.token.id == t.id ==> e.token == t
    requires s.latestReadId == t.id ==> s.mutationGeneration == t.generation
    ensures Step(s, e).latestReadId == t.id <==> s.latestReadId == t.id && !EndsRead(e, t)
    ensures Step(s, e).latestReadId == t.id ==>
              && Step(s, e).mutationGeneration == s.mutationGeneration
              && (t.id in s.pending ==>
                    t.id in Step(s, e).pending && Step(s, e).pending[t.id] == s.pending[t.id])
  {
  }

  lemma {:induction false} MutationStep(s: State, e: Event, id: nat)
    requires 1 <= id
    ensures e.BeginMutation? ==> TokenOf(s, e).value.id == Step(s, e).latestMutationId
    ensures id <= s.nextRequestId ==>
              (Step(s, e).latestMutationId == id <==> s.latestMutationId == id && !EndsMutation(e))
  {
  }

  /** Nothing after call i ended the read that holds `token`. */
  ghost predicate StillOpen(h: seq<Event>, i: nat, token: Token) {
    forall j | i < j < |h| :: !EndsRead(h[j], token)
  }

  lemma {:induction false} StillOpenStep(h: seq<Event>, i: nat, token: Token)
    requires i < |h| - 1
    ensures StillOpen(h, i, token) <==> StillOpen(h[..|h| - 1], i, token) && !EndsRead(h[|h| - 1], token)
  {
    assert forall j | 0 <= j < |h| - 1 :: h[..|h| - 1][j] == h[j];
  }

  /** The state in which the read is the one that may commit. */
  predicate HoldsRead(s: State, t: Token) {
    s.latestReadId == t.id ==> s.mutationGeneration == t.generation && t.id in s.pending && s.pending[t.id] == t
  }

  lemma {:induction false} BeginReadStep(s: State)
    requires MayRead(s)
    ensures Step(s, BeginRead).latestReadId == NextToken(s, Read).id
    ensures HoldsRead(Step(s, BeginRead), NextToken(s, Read))
  {
  }

  /** No call confuses the token of call i with another one. */
  lemma {:induction false} TokenIsIts(h: seq<Event>, i: nat)
    requires WellFormed(h) && i < |h| - 1 && TokenAt(h, i).Some?
    ensures var e := h[|h| - 1]; UsesToken(e) && e.token.id == TokenAt(h, i).value.id ==> e.token == TokenAt(h, i).value
  {
    var e := h[|h| - 1];
    if UsesToken(e) && e.token.id == TokenAt(h, i).value.id {
      IssuedInPrefix(h, i);
      IssuedOnce(h[..|h| - 1], e.token, TokenAt(h, i).value);
    }
  }

  /** The read issued by call i is the latest read exactly while nothing ended it. */
  lemma {:induction false} ReadFate(h: seq<Event>, i: nat)
    requires WellFormed(h) && i < |h| && h[i] == BeginRead && TokenAt(h, i).Some?
    ensures var t := TokenAt(h, i).value;
            (After(h).latestReadId == t.id <==> StillOpen(h, i, t)) && HoldsRead(After(h), t)
    decreases |h|
  {
    var t := TokenAt(h, i).value;
    var p, e := h[..|h| - 1], h[|h| - 1];
    PrefixFacts(h);
    if i < |p| {
      ReadFate(p, i);
      ControlInvariantHolds(p);
      TokenIdBounds(p, i);
      TokenIsIts(h, i);
      ReadStep(After(p), e, t);
      StillOpenStep(h, i, t);
    } else {
      assert h[..i] == p;
      BeginReadStep(After(p));
    }
  }

  lemma {:induction false} MutationFate(h: seq<Event>, i: nat)
    requires i < |h| && h[i] == BeginMutation
    ensures var t := TokenAt(h, i).value;
            After(h).latestMutationId == t.id <==> forall j | i < j < |h| :: !EndsMutation(h[j])
    decreases |h|
  {
    var t := TokenAt(h, i).value;
    var p, e := h[..|h| - 1], h[|h| - 1];
    assert After(h) == Step(After(p), e);
    MutationStep(After(p), e, t.id);
    if i < |p| {
      assert TokenAt(p, i) == TokenAt(h, i) by { PrefixFacts(h); }
      MutationFate(p, i);
      assert t.id <= After(p).nextRequestId by { TokenIdBounds(p, i); }
      assert forall j | i < j < |p| :: p[j] == h[j];
    }
  }

  /**
   A read response commits exactly when, since the read began, no mutation has
   begun, no reset has happened, and the read was neither discarded nor resolved.
   */
  lemma {:induction false} ReadCommitsExactly(h: seq<Event>, i: nat, snapshot: Snapshot, clock: Clock)
    requires WellFormed(h) && i < |h| && h[i] == BeginRead && TokenAt(h, i).Some?
    ensures var t := TokenAt(h, i).value;
            Response(After(h), t, snapshot, clock).Some? <==> forall j | i < j < |h| :: !EndsRead(h[j], t)
  {
    ReadFate(h, i);
    ControlInvariantHolds(h);
    TokenIdBounds(h, i);
  }

  /** A mutation response commits exactly when no newer mutation and no reset followed it. */
  lemma {:induction false} MutationCommitsExactly(h: seq<Event>, i: nat, snapshot: Snapshot, clock: Clock)
    requires i < |h| && h[i] == BeginMutation
    ensures var t := TokenAt(h, i).value;
            Response(After(h), t, snapshot, clock).Some? <==> forall j | i < j < |h| :: !EndsMutation(h[j])
  {
    MutationFate(h, i);
  }

  // ---- When a read may begin ----------------------------------------------

  /** The call that settles a mutation. */
  predicate Settles(e: Event, token: Token) {
    e == FinishMutation(token) || e.Reset?
  }

  /** The mutation issued by call i was not settled. */
  ghost predicate InFlight(h: seq<Event>, i: nat, token: Token) {
    forall j | i < j < |h| :: !Settles(h[j], token)
  }

  lemma {:induction false} ActiveStep(s: State, e: Event, t: Token)
    requires t.kind == Mutation && 1 <= t.id <= s.nextRequestId
    requires UsesToken(e) && e.token.id == t.id ==> e.token == t
    ensures t.id in Step(s, e).activeMutations <==> t.id in s.activeMutations && !Settles(e, t)
  {
  }

  lemma {:induction false} BegunIsActive(s: State)
    ensures TokenOf(s, BeginMutation).value.id in Step(s, BeginMutation).activeMutations
    ensures TokenOf(s, BeginMutation).value.kind == Mutation
  {
  }

  /** The mutation issued by call i is active exactly until it is settled. */
  lemma {:induction false} ActiveFate(h: seq<Event>, i: nat)
    requires WellFormed(h) && i < |h| && h[i] == BeginMutation
    ensures var t := TokenAt(h, i).value; t.id in After(h).activeMutations <==> InFlight(h, i, t)
    decreases |h|
  {
    var t := TokenAt(h, i).value;
    var p, e := h[..|h| - 1], h[|h| - 1];
    PrefixFacts(h);
    if i < |p| {
      ActiveFate(p, i);
      TokenIdBounds(p, i);
      TokenIsIts(h, i);
      ActiveStep(After(p), e, t);
      InFlightStep(h, i, t);
      BegunIsActive(After(h[..i]));
    } else {
      assert h[..i] == p;
      BegunIsActive(After(p));
    }
  }

  lemma {:induction false} InFlightStep(h: seq<Event>, i: nat, token: Token)
    requires i < |h| - 1
    ensures InFlight(h, i, token) <==> InFlight(h[..|h| - 1], i, token) && !Settles(h[|h| - 1], token)
  {
    assert forall j | 0 <= j < |h| - 1 :: h[..|h| - 1][j] == h[j];
  }

  /** Where an active mutation or the latest read of a state comes from. */
  lemma {:induction false} NewlyActive(s: State, e: Event)
    ensures forall id | id in Step(s, e).activeMutations ::
              id in s.activeMutations || (e == BeginMutation && TokenOf(s, e).value.id == id)
    ensures Step(s, e).latestReadId in {0, s.latestReadId}
            || (e == BeginRead && TokenOf(s, e).Some? && TokenOf(s, e).value.id == Step(s, e).latestReadId)
  {
  }

  /** Call i handed out a token of this id, to a request of this kind. */
  ghost predicate HandedOut(h: seq<Event>, i: nat, e: Event, id: nat)
    requires i < |h|
  {
    h[i] == e && TokenAt(h, i).Some? && TokenAt(h, i).value.id == id
  }

  /** Whatever is active was issued to a mutation. */
  lemma {:induction false} ActiveWasIssued(h: seq<Event>, id: nat) returns (i: nat)
    requires id in After(h).activeMutations
    ensures i < |h| && HandedOut(h, i, BeginMutation, id)
  {
    var p, e := h[..|h| - 1], h[|h| - 1];
    PrefixFacts(h);
    NewlyActive(After(p), e);
    if id in After(p).activeMutations {
      i := ActiveWasIssued(p, id);
    } else {
      i := |p|;
    }
  }

  /** The latest read was issued to a read. */
  lemma {:induction false} LatestWasIssued(h: seq<Event>) returns (i: nat)
    requires After(h).latestReadId != 0
    ensures i < |h| && HandedOut(h, i, BeginRead, After(h).latestReadId)
  {
    var p, e := h[..|h| - 1], h[|h| - 1];
    PrefixFacts(h);
    NewlyActive(After(p), e);
    if After(h).latestReadId == After(p).latestReadId {
      i := LatestWasIssued(p);
    } else {
      i := |p|;
    }
  }

  /** Every mutation begun so far was settled. */
  ghost predicate AllSettled(h: seq<Event>) {
    forall m | 0 <= m < |h| && h[m] == BeginMutation ::
      exists j | m < j < |h| :: Settles(h[j], TokenAt(h, m).value)
  }

  /** Every read handed out so far has ended. */
  ghost predicate NoneOpen(h: seq<Event>) {
    forall r | 0 <= r < |h| && h[r] == BeginRead && TokenAt(h, r).Some? ::
      exists j | r < j < |h| :: EndsRead(h[j], TokenAt(h, r).value)
  }

  /** A read is handed out exactly when every mutation was settled and every earlier read has ended. */
  lemma {:induction false} ReadBeginsExactly(h: seq<Event>)
    requires WellFormed(h)
    ensures TokenOf(After(h), BeginRead).Some? <==> AllSettled(h) && NoneOpen(h)
  {
    var s := After(h);
    MutationsSettledExactly(h);
    if s.latestReadId != 0 {
      var r := LatestWasIssued(h);
      ReadFate(h, r);
      assert !exists j | r < j < |h| :: EndsRead(h[j], TokenAt(h, r).value);
    } else {
      forall r | 0 <= r < |h| && h[r] == BeginRead && TokenAt(h, r).Some?
        ensures exists j | r < j < |h| :: EndsRead(h[j], TokenAt(h, r).value)
      {
        ReadFate(h, r);
        TokenIdBounds(h, r);
      }
    }
  }

  lemma {:induction false} MutationsSettledExactly(h: seq<Event>)
    requires WellFormed(h)
    ensures After(h).activeMutations == {} <==> AllSettled(h)
  {
    var s := After(h);
    if s.activeMutations != {} {
      var id :| id in s.activeMutations;
      var m := ActiveWasIssued(h, id);
      ActiveFate(h, m);
      assert !exists j | m < j < |h| :: Settles(h[j], TokenAt(h, m).value);
    } else {
      forall m | 0 <= m < |h| && h[m] == BeginMutation
        ensures exists j | m < j < |h| :: Settles(h[j], TokenAt(h, m).value)
      {
        ActiveFate(h, m);
      }
    }
  }

  /** The same of any read request in a history. */
  lemma {:induction false} ReadIsHandedOutExactly(h: seq<Event>, i: nat)
    requires WellFormed(h) && i < |h| && h[i] == BeginRead
    ensures TokenAt(h, i).Some? <==> AllSettled(h[..i]) && NoneOpen(h[..i])
  {
    assert WellFormed(h[..i]) by {
      forall k | 0 <= k < i && UsesToken(h[..i][k])
        ensures Issued(h[..i][..k], h[..i][k].token)
      {
        assert h[..i][..k] == h[..k] && h[..i][k] == h[k];
      }
    }
    ReadBeginsExactly(h[..i]);
  }

  // ---- Which activity a response carries ----------------------------------

  /** Replaying touches only the activity field and the generation stamp. */
  lemma {:induction false} ReplayShape(snapshot: Snapshot, frames: seq<Entry>, since: nat, clock: Clock)
    requires snapshot.live == None
    requires forall entry | entry in frames :: entry.frame.MemberActivity?
    ensures var r := Replay(snapshot, frames, since, clock);
            && r.durable == snapshot.durable
            && (r.live.Some? <==> exists entry | entry in frames :: entry.sequence > since)
            && (r.live.Some? ==> r.live.value != map[])
            && (r.live.None? ==> r == snapshot)
  {
    if frames != [] {
      var front, last := frames[..|frames| - 1], frames[|frames| - 1];
      assert frames == front + [last];
      ReplayShape(snapshot, front, since, clock);
      if last.sequence > since {
        var before := Replay(snapshot, front, since, clock);
        var current := if before.live.Some? then before.live.value else map[];
        assert last.frame.activity.memberRunId in current[last.frame.activity.memberRunId := last.frame.activity];
        assert last in frames;
      }
    }
  }

  /**
   For every state of a history: a committed response keeps the server's
   durable fields, ignores any activity the server sent, and carries the
   registry, unless the registry is empty while the journal still holds newer
   activity.
   */
  lemma {:induction false} ResponseActivity(h: seq<Event>, t: Token, snapshot: Snapshot, clock: Clock)
    requires IsCurrent(After(h), t)
    ensures var s, r := After(h), Response(After(h), t, snapshot, clock).value;
            && r.durable == snapshot.durable
            && (r.live == AsField(s.live) <==>
                  s.live != map[] || forall entry | entry in s.frames :: entry.sequence <= t.frameSequence)
            && (forall other: Snapshot ::
                  other.durable == snapshot.durable && other.generatedAt == snapshot.generatedAt ==>
                  Response(s, t, other, clock) == Response(s, t, snapshot, clock))
  {
    JournalInvariant(h);
    JournalHoldsActivity(h);
    ReplayShape(snapshot.(live := None), After(h).frames, t.frameSequence, clock);
  }

  lemma {:induction false} JournalHoldsActivity(h: seq<Event>)
    ensures forall f | f in Journal(h) :: f.MemberActivity?
    ensures forall entry | entry in After(h).frames :: entry.frame.MemberActivity?
  {
    JournalInvariant(h);
    if h != [] {
      JournalHoldsActivity(h[..|h| - 1]);
    }
  }

  lemma {:induction false} StepFillsRegistry(s: State, e: Event)
    requires !RebasesRegistry(e)
    ensures s.live != map[] || RecordsActivity(e) ==> Step(s, e).live != map[]
  {
    if RecordsActivity(e) {
      assert e.frame.activity.memberRunId in Step(s, e).live;
    } else if s.live != map[] {
      var m :| m in s.live;
      assert m in Step(s, e).live;
    }
  }

  /** While the registry is not rebased, recorded activity stays in it. */
  lemma {:induction false} EmptyRegistryMeansNoFrames(h: seq<Event>, i: nat)
    requires i <= |h|
    requires forall j | i <= j < |h| :: !RebasesRegistry(h[j])
    requires After(h).live == map[]
    ensures After(h).nextFrameSequence == After(h[..i]).nextFrameSequence
    decreases |h|
  {
    if i < |h| {
      var p, e := h[..|h| - 1], h[|h| - 1];
      assert p[..i] == h[..i];
      JournalInvariant(p);
      StepKeepsEntries(After(p), e);
      StepFillsRegistry(After(p), e);
      EmptyRegistryMeansNoFrames(p, i);
    } else {
      assert h[..i] == h;
    }
  }

  /**
   If the registry was not replaced, cleared or reset since the request began,
   the response carries exactly the registry, whatever was pruned or capped.
   */
  lemma {:induction false} UnrebasedResponseCarriesRegistry(h: seq<Event>, i: nat, snapshot: Snapshot, clock: Clock)
    requires i < |h| && TokenAt(h, i).Some? && IsCurrent(After(h), TokenAt(h, i).value)
    requires forall j | i < j < |h| :: !RebasesRegistry(h[j])
    ensures Response(After(h), TokenAt(h, i).value, snapshot, clock).value.live == AsField(After(h).live)
  {
    var t := TokenAt(h, i).value;
    ResponseActivity(h, t, snapshot, clock);
    if After(h).live == map[] {
      EmptyRegistryMeansNoFrames(h, i + 1);
      JournalInvariant(h);
      assert h[..i + 1][..i] == h[..i];
      PrefixFacts(h[..i + 1]);
      JournalInvariant(h[..i]);
      StepKeepsEntries(After(h[..i]), h[i]);
    }
  }

  /** While a read is unresolved, every activity frame is journaled. */
  lemma {:induction false} PendingReadJournalsAll(h: seq<Event>, i: nat)
    requires WellFormed(h) && i < |h| && h[i] == BeginRead && TokenAt(h, i).Some?
    requires forall j | i < j < |h| :: !EndsRead(h[j], TokenAt(h, i).value)
    ensures var t := TokenAt(h, i).value;
            && t.frameSequence <= After(h).nextFrameSequence
            && (After(h).nextFrameSequence > t.frameSequence <==> exists j | i < j < |h| :: RecordsActivity(h[j]))
    decreases |h|
  {
    var t := TokenAt(h, i).value;
    var p, e := h[..|h| - 1], h[|h| - 1];
    PrefixFacts(h);
    JournalInvariant(p);
    StepKeepsEntries(After(p), e);
    if i < |p| {
      PendingReadJournalsAll(p, i);
      ReadFate(p, i);
      assert (exists j | i < j < |h| :: RecordsActivity(h[j])) <==>
             (exists j | i < j < |p| :: RecordsActivity(p[j])) || RecordsActivity(e);
    }
  }

  /**
   Exactly when a committed read carries the registry: it is non-empty, or no
   activity frame arrived while the read was in flight. Otherwise the journal
   brings back activity that a replace or clear had removed.
   */
  lemma {:induction false} ReadCarriesRegistryExactly(h: seq<Event>, i: nat, snapshot: Snapshot, clock: Clock)
    requires WellFormed(h) && i < |h| && h[i] == BeginRead && TokenAt(h, i).Some?
    requires forall j | i < j < |h| :: !EndsRead(h[j], TokenAt(h, i).value)
    ensures var s, t := After(h), TokenAt(h, i).value;
            && Response(s, t, snapshot, clock).Some?
            && (Response(s, t, snapshot, clock).value.live == AsField(s.live) <==>
                  s.live != map[] || forall j | i < j < |h| :: !RecordsActivity(h[j]))
  {
    var s, t := After(h), TokenAt(h, i).value;
    ReadCommitsExactly(h, i, snapshot, clock);
    ResponseActivity(h, t, snapshot, clock);
    PendingReadJournalsAll(h, i);
    JournalInvariant(h);
    ReadFate(h, i);
    if s.nextFrameSequence > t.frameSequence {
      assert Needed(s.pending, s.nextFrameSequence);
      assert KeptAsNeeded(|s.frames|, s.pending, s.nextFrameSequence, s.nextFrameSequence);
      assert s.frames[|s.frames| - 1].sequence == s.nextFrameSequence;
    }
  }

  /** The exception is reachable: activity cleared mid-read returns with the response. */
  lemma {:induction false} ClearedActivityReturns()
    ensures var a := Activity("m", 1, "thinking");
            var h := [BeginRead, Record(MemberActivity(a)), Clear];
            var t := Token(1, 0, Read, 0);
            && WellFormed(h) && TokenAt(h, 0) == Some(t) && After(h).live == map[]
            && forall snapshot, clock ::
                 && Response(After(h), t, snapshot, clock).Some?
                 && Response(After(h), t, snapshot, clock).value.live.Some?
  {
    var a := Activity("m", 1, "thinking");
    var h := [BeginRead, Record(MemberActivity(a)), Clear];
    assert h[..2] == [BeginRead, Record(MemberActivity(a))] && h[..2][..1] == [BeginRead] && h[..1] == [BeginRead];
    assert [BeginRead][..0] == [] && h[..0] == [];
    assert TokenAt(h, 0) == Some(Token(1, 0, Read, 0));
    assert RecordsActivity(h[1]);
    assert After(h[..2]).live == map["m" := a];
    PrefixFacts(h);
    forall snapshot, clock
      ensures Response(After(h), Token(1, 0, Read, 0), snapshot, clock).Some?
      ensures Response(After(h), Token(1, 0, Read, 0), snapshot, clock).value.live.Some?
    {
      ReadCarriesRegistryExactly(h, 0, snapshot, clock);
    }
  }

  // ---- The registry keeps the highest revision ----------------------------

  /** What was offered for member m from position k on: the base entry, then the records. */
  ghost function Offers(h: seq<Event>, k: nat, m: string): seq<Activity>
    requires k <= |h|
    decreases |h|
  {
    if |h| == k then
      (if m in After(h).live then [After(h).live[m]] else [])
    else
      var e := h[|h| - 1];
      Offers(h[..|h| - 1], k, m)
      + if RecordsActivity(e) && e.frame.activity.memberRunId == m then [e.frame.activity] else []
  }

  /** a is the first of the offers with the highest revision. */
  ghost predicate FirstHighest(offers: seq<Activity>, a: Activity) {
    exists p | 0 <= p < |offers| ::
      && offers[p] == a
      && (forall q | 0 <= q < p :: offers[q].revision < a.revision)
      && (forall q | p < q < |offers| :: offers[q].revision <= a.revision)
  }

  /** Offering one more activity and recording it keeps the first highest. */
  lemma {:induction false} RecordKeepsHighest(offers: seq<Activity>, live: Registry, a: Activity)
    requires a.memberRunId in live ==> FirstHighest(offers, live[a.memberRunId])
    requires a.memberRunId !in live ==> offers == []
    ensures FirstHighest(offers + [a], Recorded(live, MemberActivity(a))[a.memberRunId])
  {
    var all := offers + [a];
    if a.memberRunId !in live {
      assert all[0] == a;
    } else {
      var b := live[a.memberRunId];
      var w :| 0 <= w < |offers| && offers[w] == b
               && (forall q | 0 <= q < w :: offers[q].revision < b.revision)
               && (forall q | w < q < |offers| :: offers[q].revision <= b.revision);
      assert all[w] == b && all[|offers|] == a;
    }
  }

  /** Since the registry was last rebased, it holds each member at its highest revision. */
  lemma {:induction false} RegistryIsHighestRevision(h: seq<Event>, k: nat, m: string)
    requires k <= |h|
    requires forall j | k <= j < |h| :: !RebasesRegistry(h[j])
    ensures m in After(h).live <==> Offers(h, k, m) != []
    ensures m in After(h).live ==> FirstHighest(Offers(h, k, m), After(h).live[m])
    decreases |h|
  {
    if |h| == k {
      if m in After(h).live {
        assert Offers(h, k, m)[0] == After(h).live[m];
      }
    } else {
      var p, e := h[..|h| - 1], h[|h| - 1];
      RegistryIsHighestRevision(p, k, m);
      RegistryStep(After(p), e);
      if RecordsActivity(e) && e.frame.activity.memberRunId == m {
        RecordKeepsHighest(Offers(p, k, m), After(p).live, e.frame.activity);
      } else {
        assert Offers(h, k, m) == Offers(p, k, m);
        if RecordsActivity(e) {
          assert m in After(h).live <==> m in After(p).live;
        }
      }
    }
  }

  /** A rebased registry is what it was replaced with, or empty. */
  lemma {:induction false} RegistryIsRebased(h: seq<Event>)
    requires h != [] && RebasesRegistry(h[|h| - 1])
    ensures After(h).live == if h[|h| - 1].Replace? then h[|h| - 1].activity else map[]
  {
  }

  lemma {:induction false} RegistryStep(s: State, e: Event)
    requires !RebasesRegistry(e)
    ensures Step(s, e).live == if e.Record? then Recorded(s.live, e.frame) else s.live
  {
  }
}
