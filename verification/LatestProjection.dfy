/** The last-writer-wins projection of a ledger. */
module LatestProjection {
  import opened Basics
  import opened Json
  import opened JsonlLedger

  /** The stand-in key of a row without identity. */
  function LineKey(line: nat): string {
    "__line_" + Decimal(line)
  }

  function KeyOf(r: Record): string {
    var id := RecordIdentity(r.value);
    if id.Some? then id.value else LineKey(r.line)
  }

  /** No later record has the same key. */
  predicate IsLatest(rs: seq<Record>, i: nat)
    requires i < |rs|
  {
    forall j | i < j < |rs| :: KeyOf(rs[j]) != KeyOf(rs[i])
  }

  function LatestIndices(rs: seq<Record>): set<int> {
    set i: int | 0 <= i < |rs| && IsLatest(rs, i)
  }

  ghost function LatestRows(rs: seq<Record>): seq<Record> {
    Picked(rs, LatestIndices(rs), |rs|)
  }

  /** Which index the ordered map holds for each key after the first n records. */
  ghost predicate HoldsLatest(records: seq<Record>, latest: map<string, (nat, Bytes)>, n: nat)
    requires n <= |records|
  {
    && (forall key | key in latest ::
          && latest[key].0 < n && KeyOf(records[latest[key].0]) == key
          && latest[key].1 == records[latest[key].0].raw)
    && (forall j | 0 <= j < n :: KeyOf(records[j]) in latest && j <= latest[KeyOf(records[j])].0)
  }

  lemma {:induction false} HeldIsLatest(records: seq<Record>, latest: map<string, (nat, Bytes)>, i: nat)
    requires HoldsLatest(records, latest, |records|) && i < |records|
    ensures latest[KeyOf(records[i])].0 == i <==> i in LatestIndices(records)
  {
    var held := latest[KeyOf(records[i])].0;
    if i < held {
      assert KeyOf(records[held]) == KeyOf(records[i]);
    }
  }

  method ProjectLatest(bytes: Bytes, parse: Parser) returns (output: Result<Bytes, nat>)
    ensures output == match Records(bytes, parse)
                      case Err(line) => Err(line)
                      case Ok(rs) => Ok(Written(LatestRows(rs)))
  {
    var parsed := JsonlRecords(bytes, parse);
    if parsed.Err? {
      return Err(parsed.error);
    }
    var latest := IndexLatest(parsed.value);
    var rows := EmitHeld(parsed.value, latest);
    output := Ok(rows);
  }

  /** Later records overwrite earlier ones with the same key. */
  method IndexLatest(records: seq<Record>) returns (latest: map<string, (nat, Bytes)>)
    ensures HoldsLatest(records, latest, |records|)
  {
    latest := map[];
    for i := 0 to |records|
      invariant HoldsLatest(records, latest, i)
    {
      latest := latest[KeyOf(records[i]) := (i, records[i].raw)];
    }
  }

  /** Emitting the held rows in increasing order of their record index. */
  method EmitHeld(records: seq<Record>, latest: map<string, (nat, Bytes)>) returns (rows: Bytes)
    requires HoldsLatest(records, latest, |records|)
    ensures rows == Written(LatestRows(records))
  {
    ghost var keep := LatestIndices(records);
    rows := [];
    for i := 0 to |records|
      invariant rows == Written(Picked(records, keep, i))
    {
      HeldIsLatest(records, latest, i);
      var held := latest[KeyOf(records[i])];
      if held.0 == i {
        WrittenAppend(Picked(records, keep, i), records[i]);
        rows := rows + held.1;
      }
    }
  }

  /** The projection re-parses to exactly the last record of each key, in source order. */
  lemma {:induction false} ProjectionReparses(bytes: Bytes, parse: Parser)
    requires Records(bytes, parse).Ok?
    ensures var rs := Records(bytes, parse).value;
            var p := LatestRows(rs);
            && Records(Written(p), parse) == Ok(Renumbered(p))
            && Ordered(p)
            && (forall r | r in p :: r in rs && r.raw != [])
            && (forall r | r in rs ::
                  r in p <==> forall later | later in rs && later.line > r.line :: KeyOf(later) != KeyOf(r))
  {
    var rs := Records(bytes, parse).value;
    KeptRowsReparse(bytes, parse, LatestIndices(rs));
    PickedFrom(rs, LatestIndices(rs), |rs|);
    forall i | 0 <= i < |rs|
      ensures rs[i] in LatestRows(rs) <==>
              forall later | later in rs && later.line > rs[i].line :: KeyOf(later) != KeyOf(rs[i])
    {
      LatestByLine(rs, i);
    }
  }

  lemma {:induction false} LatestByLine(rs: seq<Record>, i: nat)
    requires Ordered(rs) && i < |rs|
    ensures rs[i] in LatestRows(rs) <==>
            forall later | later in rs && later.line > rs[i].line :: KeyOf(later) != KeyOf(rs[i])
  {
    PickedFrom(rs, LatestIndices(rs), |rs|);
    if rs[i] in LatestRows(rs) {
      var j :| 0 <= j < |rs| && j in LatestIndices(rs) && rs[i] == rs[j];
      assert rs[i].line == rs[j].line && i == j;
    }
    if IsLatest(rs, i) {
      assert i in LatestIndices(rs);
    } else {
      var j :| i < j < |rs| && KeyOf(rs[j]) == KeyOf(rs[i]);
      assert rs[j] in rs && rs[j].line > rs[i].line;
    }
  }

  // ---- The last record of each identity ----

  /** A row without identity stands for itself; any other needs no later row of its identity. */
  predicate IsLastOfIdentity(rs: seq<Record>, i: nat)
    requires i < |rs|
  {
    RecordIdentity(rs[i].value).Some? ==>
      forall j | i < j < |rs| :: RecordIdentity(rs[j].value) != RecordIdentity(rs[i].value)
  }

  function LastIndices(rs: seq<Record>): set<int> {
    set i: int | 0 <= i < |rs| && IsLastOfIdentity(rs, i)
  }

  /** What the projection is for: the last record of each identity, and every row without one. */
  ghost function LastRows(rs: seq<Record>): seq<Record> {
    Picked(rs, LastIndices(rs), |rs|)
  }

  /** A row without identity at line n meets a row whose real id is the stand-in key of n. */
  predicate StandInClash(rs: seq<Record>) {
    exists i, j | 0 <= i < |rs| && 0 <= j < |rs| ::
      RecordIdentity(rs[i].value).None? && RecordIdentity(rs[j].value) == Some(LineKey(rs[i].line))
  }

  lemma {:induction false} LatestIsLast(rs: seq<Record>, i: nat)
    requires i < |rs| && IsLatest(rs, i)
    ensures IsLastOfIdentity(rs, i)
  {
    forall j | i < j < |rs| && RecordIdentity(rs[i].value).Some?
      ensures RecordIdentity(rs[j].value) != RecordIdentity(rs[i].value)
    {
      assert KeyOf(rs[j]) != KeyOf(rs[i]);
    }
  }

  lemma {:induction false} LastIsLatest(rs: seq<Record>, i: nat)
    requires Ordered(rs) && !StandInClash(rs) && i < |rs| && IsLastOfIdentity(rs, i)
    ensures IsLatest(rs, i)
  {
    forall j | i < j < |rs|
      ensures KeyOf(rs[j]) != KeyOf(rs[i])
    {
      var a, b := RecordIdentity(rs[i].value), RecordIdentity(rs[j].value);
      if a.None? && b.None? && LineKey(rs[i].line) == LineKey(rs[j].line) {
        LineKeysDiffer(rs[i].line, rs[j].line);
      }
    }
  }

  /** The last row of the identity that row j has. */
  lemma {:induction false} LastWithIdentity(rs: seq<Record>, j: nat) returns (k: nat)
    requires j < |rs| && RecordIdentity(rs[j].value).Some?
    ensures j <= k < |rs| && RecordIdentity(rs[k].value) == RecordIdentity(rs[j].value) && IsLastOfIdentity(rs, k)
    decreases |rs| - j
  {
    if IsLastOfIdentity(rs, j) {
      k := j;
    } else {
      var n :| j < n < |rs| && RecordIdentity(rs[n].value) == RecordIdentity(rs[j].value);
      k := LastWithIdentity(rs, n);
    }
  }

  /** On a clash the later of the two rows displaces one that should stay. */
  lemma {:induction false} StandInClashLosesRow(rs: seq<Record>) returns (k: nat)
    requires StandInClash(rs)
    ensures k < |rs| && IsLastOfIdentity(rs, k) && !IsLatest(rs, k)
  {
    var i, j :| 0 <= i < |rs| && 0 <= j < |rs|
                && RecordIdentity(rs[i].value).None? && RecordIdentity(rs[j].value) == Some(LineKey(rs[i].line));
    var last := LastWithIdentity(rs, j);
    assert KeyOf(rs[last]) == KeyOf(rs[i]);
    k := if i < last then i else last;
  }

  /**
   * The projection keeps the last record of each identity and every row without one
   * exactly when no row without identity at line n meets a real id `__line_n`; on a
   * clash it loses at least one of those rows and its bytes.
   */
  lemma {:induction false} ProjectionKeepsLastExactly(bytes: Bytes, parse: Parser)
    requires Records(bytes, parse).Ok?
    ensures
      var rs := Records(bytes, parse).value;
      && LatestIndices(rs) <= LastIndices(rs)
      && (LatestRows(rs) == LastRows(rs) <==> !StandInClash(rs))
      && (Written(LatestRows(rs)) == Written(LastRows(rs)) <==> !StandInClash(rs))
  {
    var rs := Records(bytes, parse).value;
    KeptRowsReparse(bytes, parse, LastIndices(rs));
    forall i | i in LatestIndices(rs)
      ensures i in LastIndices(rs)
    {
      LatestIsLast(rs, i);
    }
    if StandInClash(rs) {
      var k := StandInClashLosesRow(rs);
      assert k in LastIndices(rs) && k !in LatestIndices(rs);
      LastRowsHaveBytes(rs);
      PickingFewerShortens(rs, LatestIndices(rs), LastIndices(rs), |rs|);
    } else {
      forall i | i in LastIndices(rs)
        ensures i in LatestIndices(rs)
      {
        LastIsLatest(rs, i);
      }
      assert LatestIndices(rs) == LastIndices(rs);
    }
  }

  lemma {:induction false} LastRowsHaveBytes(rs: seq<Record>)
    requires Ordered(rs)
    requires var p := LastRows(rs); forall i | 0 <= i < |p| :: p[i].raw != []
    ensures forall i | 0 <= i < |rs| && i in LastIndices(rs) :: rs[i].raw != []
  {
    PickedFrom(rs, LastIndices(rs), |rs|);
    forall i | 0 <= i < |rs| && i in LastIndices(rs)
      ensures rs[i].raw != []
    {
      assert rs[i] in LastRows(rs);
    }
  }

  // ---- Projecting twice ---------------------------------------------------

  /** Some projected row lacks an id while another row's real id is the key of its line. */
  predicate LineKeyClash(p: seq<Record>) {
    exists j, k | 0 <= j < |p| && 0 <= k < |p| ::
      RecordIdentity(p[j].value).None? && RecordIdentity(p[k].value) == Some(LineKey(j + 1))
  }

  lemma {:induction false} LineKeysDiffer(a: nat, b: nat)
    requires LineKey(a) == LineKey(b)
    ensures a == b
  {
    assert LineKey(a)[7..] == Decimal(a) && LineKey(b)[7..] == Decimal(b);
    DecimalRoundTrip(a);
    DecimalRoundTrip(b);
  }

  /** Two projected rows never share a real identity. */
  lemma {:induction false} ProjectedIdsDiffer(bytes: Bytes, parse: Parser, j: nat, k: nat)
    requires Records(bytes, parse).Ok?
    requires var p := LatestRows(Records(bytes, parse).value);
             j < k < |p| && RecordIdentity(p[j].value).Some?
    ensures var p := LatestRows(Records(bytes, parse).value);
            RecordIdentity(p[j].value) != RecordIdentity(p[k].value)
  {
    ProjectionReparses(bytes, parse);
    var p := LatestRows(Records(bytes, parse).value);
    assert p[j] in p && p[k] in p && p[j].line < p[k].line;
    assert KeyOf(p[k]) != KeyOf(p[j]);
  }

  lemma {:induction false} ClashingKeysMeet(p: seq<Record>, j: nat, k: nat)
    requires j < |p| && k < |p|
    requires RecordIdentity(p[j].value).None? && RecordIdentity(p[k].value) == Some(LineKey(j + 1))
    ensures j != k && KeyOf(Renumbered(p)[j]) == KeyOf(Renumbered(p)[k])
  {
  }

  lemma {:induction false} ClashDropsRow(p: seq<Record>) returns (i: nat)
    requires LineKeyClash(p)
    ensures i < |p| && !IsLatest(Renumbered(p), i)
  {
    var again := Renumbered(p);
    var j, k :| 0 <= j < |p| && 0 <= k < |p|
                && RecordIdentity(p[j].value).None? && RecordIdentity(p[k].value) == Some(LineKey(j + 1));
    ClashingKeysMeet(p, j, k);
    i := if j < k then j else k;
  }

  lemma {:induction false} NoClashKeepsRow(bytes: Bytes, parse: Parser, i: nat)
    requires Records(bytes, parse).Ok?
    requires var p := LatestRows(Records(bytes, parse).value); !LineKeyClash(p) && i < |p|
    ensures IsLatest(Renumbered(LatestRows(Records(bytes, parse).value)), i)
  {
    var p := LatestRows(Records(bytes, parse).value);
    var again := Renumbered(p);
    forall j | i < j < |again|
      ensures KeyOf(again[j]) != KeyOf(again[i])
    {
      var a, b := RecordIdentity(p[i].value), RecordIdentity(p[j].value);
      if a.Some? && b.Some? {
        ProjectedIdsDiffer(bytes, parse, i, j);
      } else if a.None? && b.None? && LineKey(i + 1) == LineKey(j + 1) {
        LineKeysDiffer(i + 1, j + 1);
      }
    }
  }

  /** On a clash the second projection is shorter. */
  lemma {:induction false} ClashShortens(p: seq<Record>)
    requires LineKeyClash(p) && forall r | r in p :: r.raw != []
    ensures |Written(LatestRows(Renumbered(p)))| < |Written(p)|
  {
    var i := ClashDropsRow(p);
    RenumberedBytes(p);
    DroppedRowShortens(Renumbered(p), i);
  }

  lemma {:induction false} RenumberedBytes(p: seq<Record>)
    ensures Written(Renumbered(p)) == Written(p) && |Renumbered(p)| == |p|
    ensures (forall r | r in p :: r.raw != []) ==> forall k | 0 <= k < |p| :: Renumbered(p)[k].raw != []
  {
    assert Raws(Renumbered(p)) == Raws(p);
    assert forall k | 0 <= k < |p| :: Renumbered(p)[k].raw == p[k].raw && p[k] in p;
  }

  lemma {:induction false} DroppedRowShortens(rs: seq<Record>, i: nat)
    requires i < |rs| && !IsLatest(rs, i) && forall k | 0 <= k < |rs| :: rs[k].raw != []
    ensures |Written(LatestRows(rs))| < |Written(rs)|
  {
    var all := UpTo(|rs|);
    assert i in all && i !in LatestIndices(rs) && LatestIndices(rs) <= all;
    PickingAll(rs, all, |rs|);
    assert rs[..|rs|] == rs;
    PickingFewerShortens(rs, LatestIndices(rs), all, |rs|);
  }

  /** Projecting the renumbered rows again keeps them all exactly when there is no clash. */
  lemma {:induction false} SecondProjection(bytes: Bytes, parse: Parser)
    requires Records(bytes, parse).Ok?
    requires forall r | r in LatestRows(Records(bytes, parse).value) :: r.raw != []
    ensures var p := LatestRows(Records(bytes, parse).value);
            Written(LatestRows(Renumbered(p))) == Written(p) <==> !LineKeyClash(p)
  {
    var p := LatestRows(Records(bytes, parse).value);
    var again := Renumbered(p);
    assert Raws(again) == Raws(p) && again[..|again|] == again;
    if LineKeyClash(p) {
      ClashShortens(p);
    } else {
      forall i | 0 <= i < |again|
        ensures i in LatestIndices(again)
      {
        NoClashKeepsRow(bytes, parse, i);
      }
      PickingAll(again, LatestIndices(again), |again|);
    }
  }

  /** Projecting twice equals projecting once exactly when the projection has no line-key clash. */
  lemma {:induction false} ProjectionIsIdempotentExactly(bytes: Bytes, parse: Parser)
    requires Records(bytes, parse).Ok?
    ensures var p := LatestRows(Records(bytes, parse).value);
            && Records(Written(p), parse) == Ok(Renumbered(p))
            && (Written(LatestRows(Renumbered(p))) == Written(p) <==> !LineKeyClash(p))
  {
    ProjectionReparses(bytes, parse);
    SecondProjection(bytes, parse);
  }

  /** In particular when no row of the source has an id of the reserved form. */
  lemma {:induction false} IdempotentWithoutReservedIds(bytes: Bytes, parse: Parser)
    requires Records(bytes, parse).Ok?
    requires forall r, n: nat | r in Records(bytes, parse).value :: RecordIdentity(r.value) != Some(LineKey(n))
    ensures var p := LatestRows(Records(bytes, parse).value);
            Written(LatestRows(Renumbered(p))) == Written(p)
  {
    ProjectionIsIdempotentExactly(bytes, parse);
    ProjectionReparses(bytes, parse);
    var p := LatestRows(Records(bytes, parse).value);
    assert forall k | 0 <= k < |p| :: p[k] in p;
  }

  // ---- Two ledgers on which the projection loses a row ----

  /** `{}` */
  const BARE_ROW: Bytes := [123, 125]

  /** `{"id":"__line_1"}` */
  const RESERVED_ROW: Bytes := [123, 34, 105, 100, 34, 58, 34, 95, 95, 108, 105, 110, 101, 95, 49, 34, 125]

  /** A parser that reads those two rows as JSON does. */
  predicate ReadsRows(parse: Parser) {
    && parse(BARE_ROW) == Some(JObject(map[]))
    && parse(RESERVED_ROW) == Some(JObject(map["id" := JString("__line_1")]))
  }

  function Line(content: Bytes): Bytes {
    content + [NEWLINE]
  }

  function BareRecord(line: nat): Record {
    Record(line, Line(BARE_ROW), JObject(map[]))
  }

  function ReservedRecord(line: nat): Record {
    Record(line, Line(RESERVED_ROW), JObject(map["id" := JString("__line_1")]))
  }

  lemma {:induction false} RowIsLine(content: Bytes)
    requires NEWLINE !in content && content != [] && !IsAsciiWhitespace(content[0])
    ensures IsLine(Line(content)) && Terminated(Line(content))
    ensures Content(Line(content)) == content && !IsBlankLine(Line(content))
  {
  }

  lemma {:induction false} LedgerLines(first: Bytes, second: Bytes)
    requires IsLine(first) && IsLine(second) && Terminated(first) && Terminated(second)
    ensures Lines(first + second) == [first, second]
    ensures Lines([NEWLINE] + first + second) == [[NEWLINE], first, second]
  {
    var two, three: seq<Bytes> := [first, second], [[NEWLINE], first, second];
    LinesOfFlatten(two);
    LinesOfFlatten(three);
    assert two[1..] == [second] && three[1..] == two && [second][1..] == [];
    assert Flatten([second]) == second;
    assert Flatten(two) == first + second;
    assert Flatten(three) == [NEWLINE] + (first + second) == [NEWLINE] + first + second;
  }

  /** How the two ledgers parse, with and without a blank first line. */
  lemma {:induction false} LedgersParse(parse: Parser)
    requires ReadsRows(parse)
    ensures Records(Line(BARE_ROW) + Line(RESERVED_ROW), parse) == Ok([BareRecord(1), ReservedRecord(2)])
    ensures Records([NEWLINE] + Line(BARE_ROW) + Line(RESERVED_ROW), parse) == Ok([BareRecord(2), ReservedRecord(3)])
  {
    TwoRowLedgers(BARE_ROW, RESERVED_ROW, JObject(map[]), JObject(map["id" := JString("__line_1")]), parse);
  }

  lemma {:induction false} TwoRowLedgers(a: Bytes, b: Bytes, v: Json, w: Json, parse: Parser)
    requires NEWLINE !in a && a != [] && !IsAsciiWhitespace(a[0]) && parse(a) == Some(v)
    requires NEWLINE !in b && b != [] && !IsAsciiWhitespace(b[0]) && parse(b) == Some(w)
    ensures Records(Line(a) + Line(b), parse) == Ok([Record(1, Line(a), v), Record(2, Line(b), w)])
    ensures Records([NEWLINE] + Line(a) + Line(b), parse) == Ok([Record(2, Line(a), v), Record(3, Line(b), w)])
  {
    var blank: Bytes := [NEWLINE];
    RowIsLine(a);
    RowIsLine(b);
    LedgerLines(Line(a), Line(b));
    TwoRows(a, b, v, w, parse, 1);
    TwoRows(a, b, v, w, parse, 2);
    assert Content(blank) == [];
    RecordsCons(blank, [Line(a), Line(b)], parse, 1);
    assert [blank] + [Line(a), Line(b)] == [blank, Line(a), Line(b)];
  }

  lemma {:induction false} TwoRows(a: Bytes, b: Bytes, v: Json, w: Json, parse: Parser, n: nat)
    requires Content(Line(a)) == a && !IsBlankLine(Line(a)) && parse(a) == Some(v)
    requires Content(Line(b)) == b && !IsBlankLine(Line(b)) && parse(b) == Some(w)
    ensures RecordsFrom([Line(a), Line(b)], parse, n) == Ok([Record(n, Line(a), v), Record(n + 1, Line(b), w)])
  {
    var none: seq<Bytes> := [];
    RecordsCons(Line(b), none, parse, n + 1);
    RecordsCons(Line(a), [Line(b)], parse, n);
    assert [Line(b)] + none == [Line(b)] && [Line(a)] + [Line(b)] == [Line(a), Line(b)];
    var first, second := Record(n, Line(a), v), Record(n + 1, Line(b), w);
    var empty: seq<Record> := [];
    assert [second] + empty == [second] && [first] + [second] == [first, second];
  }

  lemma {:induction false} ReservedKey()
    ensures LineKey(1) == "__line_1"
  {
    assert Decimal(1) == [Digit(1)] == "1";
  }

  /**
   * `{}` followed by `{"id":"__line_1"}`: the projection drops the row without an id,
   * although no later row has its identity.
   */
  lemma {:induction false} FirstProjectionLosesRow(parse: Parser)
    requires ReadsRows(parse)
    ensures
      var parsed := Records(Line(BARE_ROW) + Line(RESERVED_ROW), parse);
      && parsed == Ok([BareRecord(1), ReservedRecord(2)])
      && LastRows(parsed.value) == [BareRecord(1), ReservedRecord(2)]
      && LatestRows(parsed.value) == [ReservedRecord(2)]
  {
    LedgersParse(parse);
    ReservedKey();
    var rs := [BareRecord(1), ReservedRecord(2)];
    assert RecordIdentity(rs[0].value).None? && RecordIdentity(rs[1].value) == Some("__line_1");
    assert IsLastOfIdentity(rs, 0) && IsLastOfIdentity(rs, 1);
    PickingAll(rs, LastIndices(rs), 2);
    assert rs[..2] == rs;
    assert KeyOf(rs[0]) == KeyOf(rs[1]) && !IsLatest(rs, 0) && IsLatest(rs, 1);
    assert 0 !in LatestIndices(rs) && 1 in LatestIndices(rs);
    assert Picked(rs, LatestIndices(rs), 1) == Picked(rs, LatestIndices(rs), 0) == [];
  }

  /**
   * With a blank line before them both rows survive the first projection. It shifts
   * them up by one line, and the second projection loses the row without an id.
   */
  lemma {:induction false} ProjectionIsNotAlwaysIdempotent(parse: Parser)
    requires ReadsRows(parse)
    ensures
      var parsed := Records([NEWLINE] + Line(BARE_ROW) + Line(RESERVED_ROW), parse);
      && parsed == Ok([BareRecord(2), ReservedRecord(3)])
      && LatestRows(parsed.value) == parsed.value
      && LatestRows(Renumbered(LatestRows(parsed.value))) == [ReservedRecord(2)]
  {
    LedgersParse(parse);
    ReservedKey();
    var rs := [BareRecord(2), ReservedRecord(3)];
    assert RecordIdentity(rs[0].value).None? && RecordIdentity(rs[1].value) == Some("__line_1");
    if LineKey(2) == LineKey(1) {
      LineKeysDiffer(2, 1);
    }
    assert IsLatest(rs, 0) && IsLatest(rs, 1);
    PickingAll(rs, LatestIndices(rs), 2);
    assert rs[..2] == rs;
    assert Renumbered(rs) == [BareRecord(1), ReservedRecord(2)];
    FirstProjectionLosesRow(parse);
  }
}
