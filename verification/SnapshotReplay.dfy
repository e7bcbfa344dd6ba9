/** What a committed read shows of the activity that arrived while it was in flight. */
module SnapshotReplay {
  import opened Basics
  import opened SnapshotProtocol

  /** The activities recorded after call i, in order. */
  ghost function ActivitiesSince(h: seq<Event>, i: nat): seq<Activity> {
    if |h| <= i + 1 then []
    else
      var e := h[|h| - 1];
      ActivitiesSince(h[..|h| - 1], i) + if RecordsActivity(e) then [e.frame.activity] else []
  }

  /** The newest 4096 of them, which is what the buffer holds. */
  function Newest(activities: seq<Activity>): seq<Activity> {
    if |activities| <= 4096 then activities else activities[|activities| - 4096..]
  }

  /** Every earlier activity of the same member has a lower revision. */
  predicate Raises(activities: seq<Activity>, k: nat)
    requires k < |activities|
  {
    forall q | 0 <= q < k && activities[q].memberRunId == activities[k].memberRunId ::
      activities[q].revision < activities[k].revision
  }

  predicate IsLastRaise(activities: seq<Activity>, k: nat)
    requires k < |activities|
  {
    Raises(activities, k) && forall q | k < q < |activities| :: !Raises(activities, q)
  }

  function Live(snapshot: Snapshot): Registry {
    if snapshot.live.Some? then snapshot.live.value else map[]
  }

  /** No activity of the same member has a higher revision, and none before it the same. */
  predicate IsFirstHighest(activities: seq<Activity>, k: nat)
    requires k < |activities|
  {
    && Raises(activities, k)
    && forall q | k < q < |activities| && activities[q].memberRunId == activities[k].memberRunId ::
         activities[q].revision <= activities[k].revision
  }

  /** The member's activity is the first of its activities with the highest revision. */
  predicate IsHighestOf(a: Activity, m: string, activities: seq<Activity>) {
    exists k | 0 <= k < |activities| :: activities[k] == a && a.memberRunId == m && IsFirstHighest(activities, k)
  }

  /** The registry holds exactly the members that were active, each at its first highest revision. */
  predicate HoldsHighest(live: Registry, activities: seq<Activity>) {
    && (forall q | 0 <= q < |activities| :: activities[q].memberRunId in live)
    && (forall m | m in live :: IsHighestOf(live[m], m, activities))
  }

  /** The stamp is that of the last raise, where activity k has number `first + k`. */
  ghost predicate StampedByLastRaise(generatedAt: string, was: string, activities: seq<Activity>, first: int, clock: Clock) {
    && (activities == [] ==> generatedAt == was)
    && (activities != [] ==>
          exists k | 0 <= k < |activities| ::
            IsLastRaise(activities, k) && first + k >= 0 && generatedAt == clock(first + k))
  }

  /** The buffered entries are these activities, numbered from `first` on. */
  predicate Numbered(entries: seq<Entry>, activities: seq<Activity>, first: int) {
    && |entries| == |activities|
    && forall k | 0 <= k < |entries| :: entries[k].sequence == first + k && entries[k].frame == MemberActivity(activities[k])
  }

  /** An activity raises exactly when the registry so far does not hold one of at least its revision. */
  lemma {:induction false} RaisesExactly(live: Registry, activities: seq<Activity>, a: Activity)
    requires HoldsHighest(live, activities)
    ensures Raises(activities + [a], |activities|) <==> !(a.memberRunId in live && live[a.memberRunId].revision >= a.revision)
  {
    var m, all := a.memberRunId, activities + [a];
    if m in live {
      assert IsHighestOf(live[m], m, activities);
      var k :| 0 <= k < |activities| && activities[k] == live[m] && IsFirstHighest(activities, k);
      assert all[k] == live[m];
    }
  }

  /** What was highest stays so unless the new activity raises its member. */
  lemma {:induction false} HighestStep(live: Registry, activities: seq<Activity>, a: Activity, m: string)
    requires HoldsHighest(live, activities) && m in Recorded(live, MemberActivity(a))
    ensures IsHighestOf(Recorded(live, MemberActivity(a))[m], m, activities + [a])
  {
    var all := activities + [a];
    RaisesExactly(live, activities, a);
    if m == a.memberRunId && Raises(all, |activities|) {
      assert all[|activities|] == a && IsFirstHighest(all, |activities|);
    } else {
      assert IsHighestOf(live[m], m, activities);
      var k :| 0 <= k < |activities| && activities[k] == live[m] && live[m].memberRunId == m && IsFirstHighest(activities, k);
      RaisesEarlier(activities, a, k);
      assert all[k] == live[m] && IsFirstHighest(all, k);
    }
  }

  lemma {:induction false} HoldsHighestStep(live: Registry, activities: seq<Activity>, a: Activity)
    requires HoldsHighest(live, activities)
    ensures HoldsHighest(Recorded(live, MemberActivity(a)), activities + [a])
  {
    forall m | m in Recorded(live, MemberActivity(a))
      ensures IsHighestOf(Recorded(live, MemberActivity(a))[m], m, activities + [a])
    {
      HighestStep(live, activities, a, m);
    }
  }

  lemma {:induction false} RaisesEarlier(activities: seq<Activity>, a: Activity, q: nat)
    requires q < |activities|
    ensures Raises(activities + [a], q) <==> Raises(activities, q)
  {
    assert forall k | 0 <= k <= q :: (activities + [a])[k] == activities[k];
  }

  lemma {:induction false} StampStep(
    before: Snapshot, was: string, activities: seq<Activity>, a: Activity, first: int, number: nat, clock: Clock)
    requires HoldsHighest(Live(before), activities) && number == first + |activities|
    requires StampedByLastRaise(before.generatedAt, was, activities, first, clock)
    ensures StampedByLastRaise(
      ApplyFrame(before, MemberActivity(a), clock(number)).generatedAt, was, activities + [a], first, clock)
  {
    var all := activities + [a];
    RaisesExactly(Live(before), activities, a);
    assert forall q | 0 <= q < |activities| :: all[q] == activities[q];
    forall q | 0 <= q < |activities|
      ensures Raises(all, q) <==> Raises(activities, q)
    {
      RaisesEarlier(activities, a, q);
    }
    if Raises(all, |activities|) {
      assert IsLastRaise(all, |activities|);
    } else {
      var k :| 0 <= k < |activities| && IsLastRaise(activities, k) && first + k >= 0 && before.generatedAt == clock(first + k);
      assert IsLastRaise(all, k);
    }
  }

  /** What replaying these activities makes of a snapshot without any. */
  ghost predicate Shows(r: Snapshot, was: string, activities: seq<Activity>, first: int, clock: Clock) {
    HoldsHighest(Live(r), activities) && StampedByLastRaise(r.generatedAt, was, activities, first, clock)
  }

  lemma {:induction false} ShowsStep(
    before: Snapshot, was: string, front: seq<Activity>, a: Activity, first: int, number: nat, clock: Clock,
    r: Snapshot, activities: seq<Activity>)
    requires Shows(before, was, front, first, clock) && number == first + |front|
    requires r == ApplyFrame(before, MemberActivity(a), clock(number)) && activities == front + [a]
    ensures Shows(r, was, activities, first, clock)
  {
    HoldsHighestStep(Live(before), front, a);
    StampStep(before, was, front, a, first, number, clock);
    assert Live(r) == Recorded(Live(before), MemberActivity(a));
  }

  lemma {:induction false} ReplayMeaning(
    base: Snapshot, was: string, entries: seq<Entry>, activities: seq<Activity>, first: int, since: nat, clock: Clock)
    returns (r: Snapshot)
    requires base.live == None && base.generatedAt == was && Numbered(entries, activities, first) && first > since
    ensures r == Replay(base, entries, since, clock)
    ensures Shows(r, was, activities, first, clock)
  {
    if entries == [] {
      r := base;
      ShowsNothing(r, was, activities, first, clock);
    } else {
      var n := |entries| - 1;
      var front, acts, a, number := entries[..n], activities[..n], activities[n], entries[n].sequence;
      var before := ReplayMeaning(base, was, front, acts, first, since, clock);
      r := ReplayLast(base, entries, since, clock, before);
      assert activities == acts + [a];
      ShowsStep(before, was, acts, a, first, number, clock, r, activities);
    }
  }

  lemma {:induction false} ShowsNothing(r: Snapshot, was: string, activities: seq<Activity>, first: int, clock: Clock)
    requires r.live == None && r.generatedAt == was && activities == []
    ensures Shows(r, was, activities, first, clock)
  {
  }

  lemma {:induction false} ReplayLast(base: Snapshot, entries: seq<Entry>, since: nat, clock: Clock, before: Snapshot)
    returns (r: Snapshot)
    requires entries != [] && entries[|entries| - 1].sequence > since
    requires before == Replay(base, entries[..|entries| - 1], since, clock)
    ensures r == Replay(base, entries, since, clock)
    ensures r == ApplyFrame(before, entries[|entries| - 1].frame, clock(entries[|entries| - 1].sequence))
  {
    r := Replay(base, entries, since, clock);
  }

  /** Entries that are not newer than `since` play no part. */
  lemma {:induction false} ReplaySkips(base: Snapshot, frames: seq<Entry>, cut: nat, since: nat, clock: Clock)
    requires cut <= |frames| && forall k | 0 <= k < cut :: frames[k].sequence <= since
    ensures Replay(base, frames, since, clock) == Replay(base, frames[cut..], since, clock)
  {
    if frames != [] {
      var front := frames[..|frames| - 1];
      if cut < |frames| {
        ReplaySkips(base, front, cut, since, clock);
        assert frames[cut..][..|frames| - cut - 1] == front[cut..];
      } else {
        ReplaySkips(base, front, cut - 1, since, clock);
        assert front[cut - 1..] == [] && frames[cut..] == [];
      }
    }
  }

  /** One more call in the journal. */
  lemma {:induction false} JournalStep(h: seq<Event>)
    requires h != []
    ensures var p, e := h[..|h| - 1], h[|h| - 1];
            Journal(h) == Journal(p) + if RecordsActivity(e) && After(p).pending != map[] then [e.frame] else []
  {
  }

  lemma {:induction false} JournalIsCounted(h: seq<Event>)
    ensures |Journal(h)| == After(h).nextFrameSequence
  {
    JournalInvariant(h);
  }

  /** The journal after `from` holds these activities. */
  predicate Continues(journal: seq<Frame>, from: nat, activities: seq<Activity>) {
    && |journal| == from + |activities|
    && forall k | 0 <= k < |activities| :: journal[from + k] == MemberActivity(activities[k])
  }

  /** While the read is open, what is journaled after it is what was recorded after it. */
  lemma {:induction false} JournalSince(h: seq<Event>, i: nat)
    requires WellFormed(h) && i < |h| && h[i] == BeginRead && TokenAt(h, i).Some?
    requires StillOpen(h, i, TokenAt(h, i).value)
    ensures Continues(Journal(h), TokenAt(h, i).value.frameSequence, ActivitiesSince(h, i))
    decreases |h|
  {
    var t := TokenAt(h, i).value;
    var p := h[..|h| - 1];
    PrefixFacts(h);
    JournalStep(h);
    if i < |p| {
      StillOpenStep(h, i, t);
      JournalSince(p, i);
      ReadFate(p, i);
    } else {
      assert h[..i] == p;
      JournalIsCounted(p);
    }
  }

  /** Which part of an exact journal is newer than a pending request. */
  lemma {:induction false} NewerPart(frames: seq<Entry>, pending: map<nat, Token>, next: nat, t: Token, n: nat)
    requires ExactJournal(frames, pending, next) && |frames| <= MAX_BUFFERED_FRAMES
    requires t.id in pending && pending[t.id] == t && t.frameSequence + n <= next && n <= MAX_BUFFERED_FRAMES
    requires n < MAX_BUFFERED_FRAMES ==> t.frameSequence + n == next
    ensures n <= |frames|
    ensures forall k | 0 <= k < |frames| - n :: frames[k].sequence <= t.frameSequence
    ensures forall k | |frames| - n <= k < |frames| :: frames[k].sequence == next - |frames| + 1 + k
  {
    if n > 0 {
      assert Needed(pending, next - n + 1);
      assert KeptAsNeeded(|frames|, pending, next, next - n + 1);
    }
  }

  /** The buffer ends with the newest of them, and holds nothing else that is newer than the read. */
  lemma {:induction false} BufferSince(h: seq<Event>, i: nat) returns (cut: nat)
    requires WellFormed(h) && i < |h| && h[i] == BeginRead && TokenAt(h, i).Some?
    requires StillOpen(h, i, TokenAt(h, i).value)
    ensures var s, t, newest := After(h), TokenAt(h, i).value, Newest(ActivitiesSince(h, i));
            && cut <= |s.frames| && (forall k | 0 <= k < cut :: s.frames[k].sequence <= t.frameSequence)
            && Numbered(s.frames[cut..], newest, s.nextFrameSequence - |newest| + 1)
            && s.nextFrameSequence - |newest| >= t.frameSequence
  {
    var s, t, all := After(h), TokenAt(h, i).value, ActivitiesSince(h, i);
    var newest := Newest(all);
    JournalInvariant(h);
    JournalIsCapped(h);
    JournalSince(h, i);
    ReadFate(h, i);
    NewerPart(s.frames, s.pending, s.nextFrameSequence, t, |newest|);
    cut := |s.frames| - |newest|;
    BufferedAre(s.frames, s.nextFrameSequence, Journal(h), t.frameSequence, all, cut);
  }

  lemma {:induction false} BufferedAre(
    frames: seq<Entry>, next: nat, journal: seq<Frame>, from: nat, all: seq<Activity>, cut: nat)
    requires Continues(journal, from, all) && |journal| == next && cut + |Newest(all)| == |frames|
    requires forall k | cut <= k < |frames| :: frames[k].sequence == next - |frames| + 1 + k
    requires forall entry | entry in frames ::
               1 <= entry.sequence <= |journal| && entry.frame == journal[entry.sequence - 1]
    ensures Numbered(frames[cut..], Newest(all), next - |Newest(all)| + 1)
  {
    var newest := Newest(all);
    forall k | 0 <= k < |newest|
      ensures frames[cut..][k].sequence == next - |newest| + 1 + k && frames[cut..][k].frame == MemberActivity(newest[k])
    {
      assert frames[cut + k] in frames;
      assert newest[k] == all[|all| - |newest| + k];
    }
  }

  /**
   The snapshot a committed read returns, whatever was cleared meanwhile: its stamp is
   that of the last activity since the request that raised its member's revision, and if
   the registry is empty its activity is, for each member, the first of the highest
   revision among the newest 4096 activities recorded since the request.
   */
  lemma {:induction false} ReplayedActivityIsHighest(h: seq<Event>, i: nat, snapshot: Snapshot, clock: Clock)
    requires WellFormed(h) && i < |h| && h[i] == BeginRead && TokenAt(h, i).Some?
    requires StillOpen(h, i, TokenAt(h, i).value)
    ensures var s, newest, r := After(h), Newest(ActivitiesSince(h, i)), Response(After(h), TokenAt(h, i).value, snapshot, clock);
            && r.Some?
            && (s.live == map[] ==> HoldsHighest(Live(r.value), newest))
            && StampedByLastRaise(
                 r.value.generatedAt, snapshot.generatedAt, newest, s.nextFrameSequence - |newest| + 1, clock)
  {
    ReadCommitsExactly(h, i, snapshot, clock);
    var newest := Newest(ActivitiesSince(h, i));
    var first := After(h).nextFrameSequence - |newest| + 1;
    var r := OpenReadShows(h, i, snapshot, clock, newest, first);
    Overlaid(After(h), TokenAt(h, i).value, snapshot, clock, r, newest, first);
  }

  /** A non-empty registry replaces the replayed activity and nothing else. */
  lemma {:induction false} Overlaid(
    s: State, t: Token, snapshot: Snapshot, clock: Clock, r: Snapshot, activities: seq<Activity>, first: int)
    requires IsCurrent(s, t) && r == Replay(snapshot.(live := None), s.frames, t.frameSequence, clock)
    requires Shows(r, snapshot.generatedAt, activities, first, clock)
    ensures var response := Response(s, t, snapshot, clock).value;
            && (s.live == map[] ==> HoldsHighest(Live(response), activities))
            && StampedByLastRaise(response.generatedAt, snapshot.generatedAt, activities, first, clock)
  {
  }

  lemma {:induction false} OpenReadShows(
    h: seq<Event>, i: nat, snapshot: Snapshot, clock: Clock, newest: seq<Activity>, first: int) returns (r: Snapshot)
    requires WellFormed(h) && i < |h| && h[i] == BeginRead && TokenAt(h, i).Some?
    requires StillOpen(h, i, TokenAt(h, i).value)
    requires newest == Newest(ActivitiesSince(h, i)) && first == After(h).nextFrameSequence - |newest| + 1
    ensures r == Replay(snapshot.(live := None), After(h).frames, TokenAt(h, i).value.frameSequence, clock)
    ensures Shows(r, snapshot.generatedAt, newest, first, clock)
  {
    var frames, since := After(h).frames, TokenAt(h, i).value.frameSequence;
    var cut := BufferSince(h, i);
    ReplaySkips(snapshot.(live := None), frames, cut, since, clock);
    r := ReplayMeaning(snapshot.(live := None), snapshot.generatedAt, frames[cut..], newest, first, since, clock);
  }
}
