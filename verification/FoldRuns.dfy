/** Runs of an append-only projection fold, for any row type and fold rule. */
module FoldRuns {
  import opened Basics

  datatype Decision = Insert | Replay | Advance

  datatype Violation =
    | InvalidSnapshot | ImmutableIdentityConflict | VersionRegression | VersionGap
    | SameVersionConflict | InvalidLifecycleTransition

  type Verdict = Result<Decision, Violation>

  type Rule<!Row> = (Option<Row>, Row) -> Verdict

  /** The projection after one offered row: a rejected row leaves it alone. */
  function Apply<Row>(rule: Rule<Row>, current: Option<Row>, next: Row): Option<Row> {
    if rule(current, next) in {Ok(Insert), Ok(Advance)} then Some(next) else current
  }

  function Fold<Row>(rule: Rule<Row>, rows: seq<Row>): Option<Row> {
    if rows == [] then None else Apply(rule, Fold(rule, rows[..|rows| - 1]), rows[|rows| - 1])
  }

  function VerdictAt<Row>(rule: Rule<Row>, rows: seq<Row>, i: nat): Verdict
    requires i < |rows|
  {
    rule(Fold(rule, rows[..i]), rows[i])
  }

  function Advances<Row>(rule: Rule<Row>, rows: seq<Row>): nat {
    if rows == [] then 0
    else Advances(rule, rows[..|rows| - 1])
         + if VerdictAt(rule, rows, |rows| - 1) == Ok(Advance) then 1 else 0
  }

  /** The successive values of the projection: the rows inserted or advanced to, in order. */
  function Chain<Row>(rule: Rule<Row>, rows: seq<Row>): seq<Row> {
    if rows == [] then []
    else Chain(rule, rows[..|rows| - 1])
         + if VerdictAt(rule, rows, |rows| - 1) in {Ok(Insert), Ok(Advance)} then [rows[|rows| - 1]] else []
  }

  /** Offering one more row. */
  lemma {:induction false} FoldAppend<Row>(rule: Rule<Row>, rows: seq<Row>, next: Row)
    ensures Fold(rule, rows + [next]) == Apply(rule, Fold(rule, rows), next)
  {
    assert (rows + [next])[..|rows|] == rows;
  }

  /** Insertion only into nothing, replay only of the current row, advance only from a row. */
  ghost predicate Sound<Row(!new)>(rule: Rule<Row>) {
    && (forall next :: rule(None, next).Ok? ==> rule(None, next) == Ok(Insert))
    && (forall current, next :: rule(Some(current), next).Ok? ==>
          || rule(Some(current), next) == Ok(Advance)
          || (rule(Some(current), next) == Ok(Replay) && next == current))
  }

  ghost predicate IsChain<Row>(rule: Rule<Row>, c: seq<Row>) {
    && (c != [] ==> rule(None, c[0]) == Ok(Insert))
    && (forall k | 0 < k < |c| :: rule(Some(c[k - 1]), c[k]) == Ok(Advance))
  }

  /** Every run's chain is a chain of the rule, and its last row is the projection. */
  lemma {:induction false} RunIsChain<Row(!new)>(rule: Rule<Row>, rows: seq<Row>)
    requires Sound(rule)
    ensures var c := Chain(rule, rows);
            && IsChain(rule, c)
            && Fold(rule, rows) == (if c == [] then None else Some(c[|c| - 1]))
            && |c| == (if c == [] then 0 else 1) + Advances(rule, rows)
  {
    if rows != [] {
      RunIsChain(rule, rows[..|rows| - 1]);
    }
  }

  lemma {:induction false} ChainGrows<Row>(rule: Rule<Row>, rows: seq<Row>, i: nat)
    requires i <= |rows|
    ensures Chain(rule, rows[..i]) <= Chain(rule, rows)
    decreases |rows|
  {
    if i < |rows| {
      assert rows[..|rows| - 1][..i] == rows[..i];
      ChainGrows(rule, rows[..|rows| - 1], i);
    } else {
      assert rows[..i] == rows;
    }
  }

  /** A row accepted at position i is the projection then, so it is on the chain. */
  lemma {:induction false} AcceptedIsOnChain<Row(!new)>(rule: Rule<Row>, rows: seq<Row>, i: nat) returns (k: nat)
    requires Sound(rule) && i < |rows| && VerdictAt(rule, rows, i).Ok?
    ensures k < |Chain(rule, rows)| && Chain(rule, rows)[k] == rows[i]
    ensures k == |Chain(rule, rows[..i + 1])| - 1
    ensures VerdictAt(rule, rows, i) == Ok(Advance) ==> k == |Chain(rule, rows[..i])|
  {
    var upTo := rows[..i + 1];
    assert upTo[..i] == rows[..i];
    RunIsChain(rule, rows[..i]);
    RunIsChain(rule, upTo);
    ChainGrows(rule, rows, i + 1);
    k := |Chain(rule, upTo)| - 1;
  }

  /** Two accepted rows stand on the chain in the order they were offered. */
  lemma {:induction false} AcceptedInOrder<Row(!new)>(rule: Rule<Row>, rows: seq<Row>, i: nat, j: nat) returns (k: nat, l: nat)
    requires Sound(rule) && i <= j < |rows| && VerdictAt(rule, rows, i).Ok? && VerdictAt(rule, rows, j).Ok?
    ensures k <= l < |Chain(rule, rows)| && Chain(rule, rows)[k] == rows[i] && Chain(rule, rows)[l] == rows[j]
    ensures i < j && VerdictAt(rule, rows, j) == Ok(Advance) ==> k < l
    ensures IsChain(rule, Chain(rule, rows))
  {
    RunIsChain(rule, rows);
    k := AcceptedIsOnChain(rule, rows, i);
    l := AcceptedIsOnChain(rule, rows, j);
    assert rows[..j + 1][..i + 1] == rows[..i + 1];
    ChainGrows(rule, rows[..j + 1], i + 1);
    if i < j {
      assert rows[..j][..i + 1] == rows[..i + 1];
      ChainGrows(rule, rows[..j], i + 1);
    }
  }

  /** If no chain repeats a row, no run accepts an earlier accepted row again as an advance. */
  lemma {:induction false} NoRowIsReapplied<Row(!new)>(rule: Rule<Row>, rows: seq<Row>, i: nat, j: nat)
    requires Sound(rule) && i < j < |rows|
    requires VerdictAt(rule, rows, i).Ok? && VerdictAt(rule, rows, j) == Ok(Advance)
    requires var c := Chain(rule, rows); forall k, l | 0 <= k < l < |c| :: c[k] != c[l]
    ensures rows[i] != rows[j]
  {
    var k, l := AcceptedInOrder(rule, rows, i, j);
  }
}
