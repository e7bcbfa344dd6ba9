/**
 * The bounded observation after an ambiguous team-run start: poll the status lane
 * until the postcondition is proved, the evidence fails or the deadline passes.
 *
 * Clock readings, status replies and proofs come from the environment, one `Round`
 * per turn of the loop. A finite script of rounds is a prefix of an execution, so a
 * run may also be caught `Waiting` for a round the script does not hold. Times are
 * in the clock's smallest unit.
 */
module StartObservation {
  import opened Basics

  /**
   * One turn: the clock before fetching, the reply, whether its envelope is well
   * formed and names this node, what the proof attempt yields, the clock after it.
   */
  datatype Round<P> = Round(before: nat, reply: bool, trusted: bool, proof: Option<P>, after: nat)

  datatype Action = Fetch(at: int, budget: int) | Sleep(at: int, duration: int)

  datatype Outcome<P> = Unknown | Proved(proof: P) | Waiting

  function Min(a: int, b: int): int {
    if a <= b then a else b
  }

  predicate Evidence<P>(r: Round<P>, deadline: int) {
    r.before < deadline && r.reply && r.trusted
  }

  /** The turn ends in a sleep and the loop goes on. */
  predicate Continues<P>(r: Round<P>, deadline: int) {
    Evidence(r, deadline) && r.proof.None? && r.after < deadline
  }

  /** What a turn that ends the loop answers. */
  function Verdict<P>(r: Round<P>, deadline: int): Outcome<P> {
    if Evidence(r, deadline) && r.proof.Some? then Proved(r.proof.value) else Unknown
  }

  /** The actions of the first `k` turns when all of them continue. */
  function Turns<P>(rounds: seq<Round<P>>, deadline: int, interval: nat, k: nat): seq<Action>
    requires k <= |rounds|
  {
    if k == 0 then []
    else
      var r := rounds[k - 1];
      Turns(rounds, deadline, interval, k - 1)
      + [Fetch(r.before, deadline - r.before), Sleep(r.after, Min(deadline - r.after, interval))]
  }

  /** A complete account of one observation: which turns continued, and how it ended. */
  ghost predicate IsRun<P>(
    rounds: seq<Round<P>>, deadline: int, interval: nat, done: nat, outcome: Outcome<P>, trace: seq<Action>)
  {
    && done <= |rounds|
    && (forall i | 0 <= i < done :: Continues(rounds[i], deadline))
    && (done == |rounds| ==> outcome == Waiting && trace == Turns(rounds, deadline, interval, done))
    && (done < |rounds| ==>
          && !Continues(rounds[done], deadline)
          && outcome == Verdict(rounds[done], deadline)
          && trace == Turns(rounds, deadline, interval, done) + LastFetch(rounds[done], deadline))
  }

  function LastFetch<P>(r: Round<P>, deadline: int): seq<Action> {
    if r.before < deadline then [Fetch(r.before, deadline - r.before)] else []
  }

  /** `reconcile_team_run_start_with_observation`; `latest` is the last representable instant. */
  method Observe<P>(began: nat, budget: nat, interval: nat, latest: nat, rounds: seq<Round<P>>)
    returns (outcome: Outcome<P>, trace: seq<Action>, done: nat)
    ensures began + budget > latest ==> outcome == Unknown && trace == []
    ensures began + budget <= latest ==> IsRun(rounds, began + budget, interval, done, outcome, trace)
  {
    outcome, trace, done := Unknown, [], 0;
    if began + budget > latest {
      return;
    }
    var deadline := began + budget;
    while done < |rounds|
      invariant done <= |rounds|
      invariant outcome == Unknown
      invariant forall i | 0 <= i < done :: Continues(rounds[i], deadline)
      invariant trace == Turns(rounds, deadline, interval, done)
    {
      var r := rounds[done];
      if r.before >= deadline {
        return;
      }
      var remaining := deadline - r.before;
      trace := trace + [Fetch(r.before, remaining)];
      if !r.reply || !r.trusted {
        return;
      }
      if r.proof.Some? {
        outcome := Proved(r.proof.value);
        return;
      }
      if r.after >= deadline {
        return;
      }
      remaining := deadline - r.after;
      trace := trace + [Sleep(r.after, Min(remaining, interval))];
      done := done + 1;
    }
    outcome := Waiting;
  }

  // ---- What every run satisfies ----

  /** A fetch starts before the deadline with exactly the time left; a sleep takes the interval or what is left, if less. */
  predicate Bounded(a: Action, deadline: int, interval: nat) {
    match a
    case Fetch(at, budget) => at < deadline && 0 < budget == deadline - at
    case Sleep(at, duration) =>
      && at < deadline && 0 <= duration <= interval && duration <= deadline - at
      && (duration == interval || duration == deadline - at)
  }

  lemma {:induction false} TurnsAreBounded<P>(rounds: seq<Round<P>>, deadline: int, interval: nat, k: nat)
    requires k <= |rounds| && forall i | 0 <= i < k :: Continues(rounds[i], deadline)
    ensures forall a | a in Turns(rounds, deadline, interval, k) :: Bounded(a, deadline, interval)
  {
    if k > 0 {
      TurnsAreBounded(rounds, deadline, interval, k - 1);
      assert Continues(rounds[k - 1], deadline);
    }
  }

  lemma {:induction false} EveryActionIsBounded<P>(
    rounds: seq<Round<P>>, deadline: int, interval: nat, done: nat, outcome: Outcome<P>, trace: seq<Action>)
    requires IsRun(rounds, deadline, interval, done, outcome, trace)
    ensures forall a | a in trace :: Bounded(a, deadline, interval)
  {
    TurnsAreBounded(rounds, deadline, interval, done);
  }

  /** Status fetches in a trace. */
  function Polls(trace: seq<Action>): nat {
    if trace == [] then 0
    else Polls(trace[..|trace| - 1]) + if trace[|trace| - 1].Fetch? then 1 else 0
  }

  lemma {:induction false} PollsOfTurns<P>(rounds: seq<Round<P>>, deadline: int, interval: nat, k: nat)
    requires k <= |rounds|
    ensures Polls(Turns(rounds, deadline, interval, k)) == k
  {
    if k > 0 {
      PollsOfTurns(rounds, deadline, interval, k - 1);
      var earlier, r := Turns(rounds, deadline, interval, k - 1), rounds[k - 1];
      var fetch, sleep := Fetch(r.before, deadline - r.before), Sleep(r.after, Min(deadline - r.after, interval));
      var all := Turns(rounds, deadline, interval, k);
      assert all == earlier + [fetch, sleep];
      assert all[..|all| - 1] == earlier + [fetch];
      assert (earlier + [fetch])[..|earlier|] == earlier;
    }
  }

  /** The number of polls is the number of turns that began before the deadline. */
  lemma {:induction false} PollsOfRun<P>(
    rounds: seq<Round<P>>, deadline: int, interval: nat, done: nat, outcome: Outcome<P>, trace: seq<Action>)
    requires IsRun(rounds, deadline, interval, done, outcome, trace)
    ensures Polls(trace) == if done < |rounds| && rounds[done].before < deadline then done + 1 else done
  {
    PollsOfTurns(rounds, deadline, interval, done);
    var turns := Turns(rounds, deadline, interval, done);
    if done < |rounds| && rounds[done].before < deadline {
      assert trace[..|trace| - 1] == turns;
    } else {
      assert trace == turns;
    }
  }

  /**
   * A proof produced by a polled turn is the answer, whatever the clock says afterwards,
   * and there is no other way to a proved answer.
   */
  lemma {:induction false} ProofIsReturned<P>(
    rounds: seq<Round<P>>, deadline: int, interval: nat, done: nat, outcome: Outcome<P>, trace: seq<Action>, p: P)
    requires IsRun(rounds, deadline, interval, done, outcome, trace)
    ensures outcome == Proved(p)
       <==> exists i | 0 <= i < |rounds| && i < Polls(trace) ::
              rounds[i].reply && rounds[i].trusted && rounds[i].proof == Some(p)
  {
    PollsOfRun(rounds, deadline, interval, done, outcome, trace);
    if outcome == Proved(p) {
      assert rounds[done].proof == Some(p);
    }
    forall i | 0 <= i < |rounds| && i < Polls(trace)
      && rounds[i].reply && rounds[i].trusted && rounds[i].proof == Some(p)
      ensures outcome == Proved(p)
    {
      assert i == done;
    }
  }

  // ---- How often it polls ----

  /** The clock never goes back, and every sleep of the trace lasts at least as long as it says. */
  ghost predicate HonestClock<P>(rounds: seq<Round<P>>, began: nat, trace: seq<Action>) {
    && (|rounds| > 0 ==> began <= rounds[0].before)
    && (forall i | 0 <= i < |rounds| :: rounds[i].before <= rounds[i].after)
    && (forall i | 0 <= i < |rounds| - 1 && 2 * i + 1 < |trace| && trace[2 * i + 1].Sleep? ::
          trace[2 * i + 1].at + trace[2 * i + 1].duration <= rounds[i + 1].before)
  }

  /** The second action of a turn is its sleep. */
  lemma {:induction false} SleepOfTurn<P>(rounds: seq<Round<P>>, deadline: int, interval: nat, k: nat, i: nat)
    requires i < k <= |rounds|
    ensures |Turns(rounds, deadline, interval, k)| == 2 * k
    ensures Turns(rounds, deadline, interval, k)[2 * i + 1] == Sleep(rounds[i].after, Min(deadline - rounds[i].after, interval))
  {
    if i < k - 1 {
      SleepOfTurn(rounds, deadline, interval, k - 1, i);
    } else if k > 1 {
      SleepOfTurn(rounds, deadline, interval, k - 1, 0);
    }
  }

  /** Each turn that begins before the deadline begins an interval later than the one before. */
  lemma {:induction false} TurnsAreSpaced<P>(
    rounds: seq<Round<P>>, began: nat, deadline: int, interval: nat, done: nat, outcome: Outcome<P>, trace: seq<Action>, i: nat)
    requires IsRun(rounds, deadline, interval, done, outcome, trace) && HonestClock(rounds, began, trace)
    requires i < |rounds| && i <= done
    ensures rounds[i].before < deadline ==> began + i * interval <= rounds[i].before
  {
    if i > 0 {
      TurnsAreSpaced(rounds, began, deadline, interval, done, outcome, trace, i - 1);
      assert Continues(rounds[i - 1], deadline);
      SleepOfTurn(rounds, deadline, interval, done, i - 1);
      assert trace[2 * (i - 1) + 1] == Turns(rounds, deadline, interval, done)[2 * (i - 1) + 1];
      assert i * interval == (i - 1) * interval + interval;
    }
  }

  /** budget / interval, rounded up. */
  function Ceiling(budget: nat, interval: nat): nat
    requires interval > 0
  {
    (budget + interval - 1) / interval
  }

  lemma {:induction false} CeilingMeaning(budget: nat, interval: nat, n: nat)
    requires interval > 0
    ensures n < Ceiling(budget, interval) <==> n * interval < budget
  {
    var c := Ceiling(budget, interval);
    var rest := (budget + interval - 1) % interval;
    assert budget + interval - 1 == c * interval + rest;
    if n < c {
      assert n * interval <= (c - 1) * interval;
      assert (c - 1) * interval == c * interval - interval;
    } else {
      assert n * interval >= c * interval;
    }
  }

  /** With an honest clock the loop polls at most budget / interval times, rounded up, and then ends. */
  lemma {:induction false} PollBound<P>(
    rounds: seq<Round<P>>, began: nat, budget: nat, interval: nat, done: nat, outcome: Outcome<P>, trace: seq<Action>)
    requires interval > 0 && HonestClock(rounds, began, trace)
    requires IsRun(rounds, began + budget, interval, done, outcome, trace)
    ensures Polls(trace) <= Ceiling(budget, interval)
    ensures |rounds| > Ceiling(budget, interval) ==> outcome != Waiting
  {
    var deadline := began + budget;
    PollsOfRun(rounds, deadline, interval, done, outcome, trace);
    var polls := Polls(trace);
    if polls > 0 {
      TurnsAreSpaced(rounds, began, deadline, interval, done, outcome, trace, polls - 1);
      assert rounds[polls - 1].before < deadline;
      CeilingMeaning(budget, interval, polls - 1);
    }
  }

  /** Rounds that see nothing yet, on a clock that moves by exactly the sleeps. */
  function Punctual<P>(began: nat, interval: nat, n: nat): (rounds: seq<Round<P>>)
    ensures |rounds| == n
    ensures forall i | 0 <= i < n :: rounds[i] == Round(began + i * interval, true, true, None, began + i * interval)
  {
    if n == 0 then []
    else Punctual(began, interval, n - 1)
         + [Round(began + (n - 1) * interval, true, true, None, began + (n - 1) * interval)]
  }

  /** The bound is reached: on a punctual clock with nothing to see, the loop polls exactly that often. */
  lemma {:induction false} PollBoundIsReached<P>(began: nat, budget: nat, interval: nat)
    requires interval > 0
    ensures
      var n := Ceiling(budget, interval);
      var rounds := Punctual<P>(began, interval, n);
      var trace := Turns(rounds, began + budget, interval, n);
      && IsRun(rounds, began + budget, interval, n, Waiting, trace) && Polls(trace) == n
      && HonestClock(rounds, began, trace)
  {
    var n := Ceiling(budget, interval);
    var rounds := Punctual<P>(began, interval, n);
    var deadline := began + budget;
    PollsOfTurns(rounds, deadline, interval, n);
    forall i | 0 <= i < n
      ensures Continues(rounds[i], deadline)
    {
      CeilingMeaning(budget, interval, i);
    }
    PunctualIsHonest<P>(began, deadline, interval, n);
  }

  lemma {:induction false} PunctualIsHonest<P>(began: nat, deadline: int, interval: nat, n: nat)
    ensures
      var rounds := Punctual<P>(began, interval, n);
      HonestClock(rounds, began, Turns(rounds, deadline, interval, n))
  {
    var rounds := Punctual<P>(began, interval, n);
    var trace := Turns(rounds, deadline, interval, n);
    forall i | 0 <= i < n - 1 && 2 * i + 1 < |trace|
      ensures trace[2 * i + 1].Sleep? && trace[2 * i + 1].at + trace[2 * i + 1].duration <= rounds[i + 1].before
    {
      SleepOfTurn(rounds, deadline, interval, n, i);
      assert (i + 1) * interval == i * interval + interval;
    }
  }
}
