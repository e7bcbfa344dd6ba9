/**
 * Codex rollouts: a JSONL file is accepted for a session when exactly one of its complete
 * rows is session metadata and names that session. Each row arrives in reads whose ends
 * depend on the chunks of the file, and a row that is not delivered within its budget is
 * as good as malformed.
 */
module Rollout {
  import opened Basics
  import opened RowReader
  import opened ReadBudget

  /** How the decoder classifies one row; Incomplete is an unexpected end of the row. */
  datatype RowClass = SessionMeta(id: string) | Other | Incomplete | Malformed

  /** Both parts are given the row and whether oversized events are already allowed. */
  datatype Decoder = Decoder(kind: (Bytes, bool) -> RowClass, schedule: Schedule)

  /** A row and where its reads end. */
  datatype Arrival = Arrival(row: Bytes, ends: seq<nat>)

  predicate Arrives(arrival: Arrival, changes: seq<Change>) {
    Passes(arrival.ends, 0, Some(MAX_DISCOVERY_HEADER_BYTES), changes)
  }

  /** What becomes of a row. */
  function Verdict(decoder: Decoder, arrival: Arrival, oversized: bool): RowClass {
    if Arrives(arrival, decoder.schedule(arrival.row, oversized)) then decoder.kind(arrival.row, oversized) else Malformed
  }

  /**
   A rollout names a session: one complete row is its only session metadata,
   every other complete row is an ordinary event (no oversized one before the
   metadata), and the unterminated tail, if any, is not malformed.
   */
  ghost predicate NamesSession(rows: seq<Arrival>, tail: Arrival, decoder: Decoder, sessionId: string) {
    exists m | 0 <= m < |rows| ::
      && Verdict(decoder, rows[m], false) == SessionMeta(sessionId)
      && (forall k | 0 <= k < m :: Verdict(decoder, rows[k], false) == Other && |rows[k].row| <= MAX_DISCOVERY_LINE_BYTES)
      && (forall k | m < k < |rows| :: Verdict(decoder, rows[k], true) == Other)
      && (tail.row != [] ==> Verdict(decoder, tail, true) != Malformed)
  }

  /** Before any metadata row: only ordinary rows of admissible size. */
  ghost predicate OnlyEvents(rows: seq<Arrival>, decoder: Decoder) {
    forall k | 0 <= k < |rows| :: Verdict(decoder, rows[k], false) == Other && |rows[k].row| <= MAX_DISCOVERY_LINE_BYTES
  }

  /** Up to the first row that is not an ordinary event nothing can be decided. */
  lemma {:induction false} MetadataIsFirst(rows: seq<Arrival>, tail: Arrival, decoder: Decoder, sessionId: string, i: nat)
    requires i < |rows| && OnlyEvents(rows[..i], decoder)
    requires !(Verdict(decoder, rows[i], false) == Other && |rows[i].row| <= MAX_DISCOVERY_LINE_BYTES)
    ensures NamesSession(rows, tail, decoder, sessionId) <==>
              && Verdict(decoder, rows[i], false) == SessionMeta(sessionId)
              && (forall k | i < k < |rows| :: Verdict(decoder, rows[k], true) == Other)
              && (tail.row != [] ==> Verdict(decoder, tail, true) != Malformed)
  {
    assert forall k | 0 <= k < i :: rows[k] == rows[..i][k];
    if NamesSession(rows, tail, decoder, sessionId) {
      var m :| && 0 <= m < |rows|
               && Verdict(decoder, rows[m], false) == SessionMeta(sessionId)
               && (forall k | 0 <= k < m :: Verdict(decoder, rows[k], false) == Other && |rows[k].row| <= MAX_DISCOVERY_LINE_BYTES)
               && (forall k | m < k < |rows| :: Verdict(decoder, rows[k], true) == Other)
               && (tail.row != [] ==> Verdict(decoder, tail, true) != Malformed);
      assert m == i;
    }
  }

  /** The outcome of one more row after `found`: the new state, or a rejection. */
  function AfterRow(found: Option<string>, row: RowClass, length: nat): (next: Option<Option<string>>) {
    match row
    case Malformed => None
    case Incomplete => None
    case SessionMeta(id) => if found.Some? then None else Some(Some(id))
    case Other => if length > MAX_DISCOVERY_LINE_BYTES && found.None? then None else Some(found)
  }

  /** Where the validation stands after the first i rows. */
  ghost predicate Progress(rows: seq<Arrival>, i: nat, decoder: Decoder, found: Option<string>, meta: nat)
    requires i <= |rows|
  {
    match found
    case None => OnlyEvents(rows[..i], decoder)
    case Some(id) =>
      && meta < i && OnlyEvents(rows[..meta], decoder)
      && Verdict(decoder, rows[meta], false) == SessionMeta(id)
      && (forall k | meta < k < i :: Verdict(decoder, rows[k], true) == Other)
  }

  lemma {:induction false} RowProgress(
    rows: seq<Arrival>, tail: Arrival, i: nat, decoder: Decoder, sessionId: string, found: Option<string>, meta: nat)
    requires i < |rows| && Progress(rows, i, decoder, found, meta)
    ensures
      match AfterRow(found, Verdict(decoder, rows[i], found.Some?), |rows[i].row|)
      case None => !NamesSession(rows, tail, decoder, sessionId)
      case Some(next) => Progress(rows, i + 1, decoder, next, if found.None? && next.Some? then i else meta)
  {
    if found.None? {
      if !(Verdict(decoder, rows[i], false) == Other && |rows[i].row| <= MAX_DISCOVERY_LINE_BYTES) {
        MetadataIsFirst(rows, tail, decoder, sessionId, i);
      }
      assert rows[..i + 1] == rows[..i] + [rows[i]];
    } else {
      MetadataIsFirst(rows, tail, decoder, sessionId, meta);
    }
  }

  lemma {:induction false} FinalProgress(
    rows: seq<Arrival>, tail: Arrival, decoder: Decoder, sessionId: string, found: Option<string>, meta: nat)
    requires Progress(rows, |rows|, decoder, found, meta)
    ensures NamesSession(rows, tail, decoder, sessionId) <==>
      found == Some(sessionId) && (tail.row != [] ==> Verdict(decoder, tail, found.Some?) != Malformed)
  {
    if found.Some? {
      MetadataIsFirst(rows, tail, decoder, sessionId, meta);
    } else {
      assert rows[..|rows|] == rows;
    }
  }

  /** The verdict on the rows still to come, one after the other. */
  predicate Accepts(rows: seq<Arrival>, tail: Arrival, decoder: Decoder, sessionId: string, found: Option<string>) {
    if rows == [] then
      found == Some(sessionId) && (tail.row != [] ==> Verdict(decoder, tail, found.Some?) != Malformed)
    else match AfterRow(found, Verdict(decoder, rows[0], found.Some?), |rows[0].row|)
      case None => false
      case Some(next) => Accepts(rows[1..], tail, decoder, sessionId, next)
  }

  lemma {:induction false} AcceptsFrom(
    rows: seq<Arrival>, tail: Arrival, i: nat, decoder: Decoder, sessionId: string, found: Option<string>, meta: nat)
    requires i <= |rows| && Progress(rows, i, decoder, found, meta)
    ensures Accepts(rows[i..], tail, decoder, sessionId, found) <==> NamesSession(rows, tail, decoder, sessionId)
    decreases |rows| - i
  {
    if i < |rows| {
      assert rows[i..][1..] == rows[i + 1..];
      RowProgress(rows, tail, i, decoder, sessionId, found, meta);
      match AfterRow(found, Verdict(decoder, rows[i], found.Some?), |rows[i].row|)
      case None =>
      case Some(next) =>
        AcceptsFrom(rows, tail, i + 1, decoder, sessionId, next, if found.None? && next.Some? then i else meta);
    } else {
      FinalProgress(rows, tail, decoder, sessionId, found, meta);
    }
  }

  /** The rows name the session exactly when the row-by-row verdict accepts them. */
  lemma {:induction false} AcceptsExactly(rows: seq<Arrival>, tail: Arrival, decoder: Decoder, sessionId: string)
    ensures Accepts(rows, tail, decoder, sessionId, None) <==> NamesSession(rows, tail, decoder, sessionId)
  {
    assert rows[0..] == rows && rows[..0] == [];
    AcceptsFrom(rows, tail, 0, decoder, sessionId, None, 0);
  }

  // ---- The rows of a file as they arrive ----

  datatype Arrivals = Arrivals(rows: seq<Arrival>, tail: Arrival)

  /** The chunks behind the first row and its newline. */
  function Behind(chunks: seq<Bytes>): (rest: seq<Bytes>)
    requires NonEmpty(chunks) && HasNewline(Flatten(chunks))
    ensures NonEmpty(rest) && |Flatten(rest)| < |Flatten(chunks)|
    ensures Flatten(rest) == Flatten(chunks)[RowLength(Flatten(chunks)) + 1..]
  {
    Skip(chunks, RowLength(Flatten(chunks)) + 1)
  }

  lemma {:induction false} BehindIs(chunks: seq<Bytes>, n: nat, middle: seq<Bytes>, rest: seq<Bytes>)
    requires NonEmpty(chunks) && HasNewline(Flatten(chunks)) && n == RowLength(Flatten(chunks))
    requires middle == Skip(chunks, n) && rest == Skip(middle, 1)
    ensures rest == Behind(chunks)
  {
    SkipTwice(chunks, n, 1);
  }

  function Arriving(chunks: seq<Bytes>, sizes: nat -> nat): Arrivals
    requires NonEmpty(chunks)
    decreases |Flatten(chunks)|
  {
    var bytes := Flatten(chunks);
    var next := Arrival(Row(bytes), Reads(chunks, sizes));
    if !HasNewline(bytes) then Arrivals([], next)
    else
      var later := Arriving(Behind(chunks), sizes);
      Arrivals([next] + later.rows, later.tail)
  }

  /** However they arrive, they are the rows and the tail of the file. */
  lemma {:induction false} ArrivalsAreRows(chunks: seq<Bytes>, sizes: nat -> nat)
    requires NonEmpty(chunks)
    ensures
      var file, rows := Arriving(chunks, sizes), CompleteRows(Flatten(chunks));
      && |file.rows| == |rows| && (forall i | 0 <= i < |rows| :: file.rows[i].row == rows[i])
      && file.tail.row == OpenTail(Flatten(chunks))
    decreases |Flatten(chunks)|
  {
    var bytes := Flatten(chunks);
    if HasNewline(bytes) {
      ArrivalsAreRows(Behind(chunks), sizes);
    }
  }

  /** ... and each of them takes as many bytes as its reads deliver. */
  predicate Lands(arrival: Arrival) {
    Steps(arrival.ends, 0, |arrival.row|) && Last(arrival.ends, 0) == |arrival.row|
  }

  lemma {:induction false} ArrivalsLand(chunks: seq<Bytes>, sizes: nat -> nat)
    requires NonEmpty(chunks) && forall k :: sizes(k) > 0
    ensures Lands(Arriving(chunks, sizes).tail)
    ensures forall i | 0 <= i < |Arriving(chunks, sizes).rows| :: Lands(Arriving(chunks, sizes).rows[i])
    decreases |Flatten(chunks)|
  {
    var bytes := Flatten(chunks);
    ReadsMeaning(chunks, sizes, RowLength(bytes));
    if HasNewline(bytes) {
      ArrivalsLand(Behind(chunks), sizes);
    }
  }

  // ---- Files whose chunking does not matter ----

  /** At most 64 KiB, or no sign of its type within them. */
  predicate Settled(row: Bytes, decoder: Decoder, oversized: bool) {
    || |row| <= MAX_DISCOVERY_HEADER_BYTES
    || (var changes := decoder.schedule(row, oversized); changes == [] || changes[0].point > MAX_DISCOVERY_HEADER_BYTES)
  }

  lemma {:induction false} SettledVerdict(decoder: Decoder, arrival: Arrival, oversized: bool)
    requires Lands(arrival) && Settled(arrival.row, decoder, oversized)
    ensures Verdict(decoder, arrival, oversized)
         == if |arrival.row| <= MAX_DISCOVERY_HEADER_BYTES then decoder.kind(arrival.row, oversized) else Malformed
  {
    var changes, most := decoder.schedule(arrival.row, oversized), |arrival.row|;
    if |arrival.row| <= MAX_DISCOVERY_HEADER_BYTES {
      ShortPasses(arrival.ends, 0, Some(MAX_DISCOVERY_HEADER_BYTES), changes, most);
    } else {
      UnliftedFails(arrival.ends, 0, changes, most);
    }
  }

  predicate SettledArrivals(file: Arrivals, decoder: Decoder, oversized: bool) {
    && Settled(file.tail.row, decoder, oversized)
    && (forall i | 0 <= i < |file.rows| :: Settled(file.rows[i].row, decoder, oversized))
  }

  predicate Alike(a: Arrivals, b: Arrivals, decoder: Decoder) {
    && |a.rows| == |b.rows| && (forall i | 0 <= i < |a.rows| :: a.rows[i].row == b.rows[i].row)
    && a.tail.row == b.tail.row
    && (forall i, oversized | 0 <= i < |a.rows| ::
          Verdict(decoder, a.rows[i], oversized) == Verdict(decoder, b.rows[i], oversized))
    && (forall oversized :: Verdict(decoder, a.tail, oversized) == Verdict(decoder, b.tail, oversized))
  }

  lemma {:induction false} AlikeNames(a: Arrivals, b: Arrivals, decoder: Decoder, sessionId: string)
    requires Alike(a, b, decoder) && NamesSession(a.rows, a.tail, decoder, sessionId)
    ensures NamesSession(b.rows, b.tail, decoder, sessionId)
  {
  }

  /** Two chunkings of one file whose rows are all settled have the same verdict. */
  lemma {:induction false} SettledFilesAgree(
    left: seq<Bytes>, right: seq<Bytes>, sizes: nat -> nat, others: nat -> nat, decoder: Decoder, sessionId: string)
    requires NonEmpty(left) && NonEmpty(right) && Flatten(left) == Flatten(right)
    requires forall k :: sizes(k) > 0 && others(k) > 0
    requires forall oversized :: SettledArrivals(Arriving(left, sizes), decoder, oversized)
    ensures
      var a, b := Arriving(left, sizes), Arriving(right, others);
      NamesSession(a.rows, a.tail, decoder, sessionId) <==> NamesSession(b.rows, b.tail, decoder, sessionId)
  {
    var a, b := Arriving(left, sizes), Arriving(right, others);
    ArrivalsAreRows(left, sizes);
    ArrivalsAreRows(right, others);
    ArrivalsLand(left, sizes);
    ArrivalsLand(right, others);
    forall oversized
      ensures Verdict(decoder, a.tail, oversized) == Verdict(decoder, b.tail, oversized)
    {
      assert SettledArrivals(a, decoder, oversized);
      SettledVerdict(decoder, a.tail, oversized);
      SettledVerdict(decoder, b.tail, oversized);
    }
    forall i, oversized | 0 <= i < |a.rows|
      ensures Verdict(decoder, a.rows[i], oversized) == Verdict(decoder, b.rows[i], oversized)
    {
      assert SettledArrivals(a, decoder, oversized);
      SettledVerdict(decoder, a.rows[i], oversized);
      SettledVerdict(decoder, b.rows[i], oversized);
    }
    if NamesSession(a.rows, a.tail, decoder, sessionId) { AlikeNames(a, b, decoder, sessionId); }
    if NamesSession(b.rows, b.tail, decoder, sessionId) { AlikeNames(b, a, decoder, sessionId); }
  }

  // ---- Validation ----

  /** Accepts exactly the files whose rows, as they arrive in these chunks, name the requested session. */
  method ValidateRollout(input: BufferedInput, decoder: Decoder, sessionId: string, sizes: nat -> nat)
    returns (accepted: bool)
    requires input.Valid() && (forall k :: sizes(k) > 0) && Causal(decoder.schedule)
    modifies input
    ensures
      var file := Arriving(old(input.chunks), sizes);
      accepted <==> NamesSession(file.rows, file.tail, decoder, sessionId)
  {
    ghost var file := Arriving(input.chunks, sizes);
    AcceptsExactly(file.rows, file.tail, decoder, sessionId);
    accepted := RunRows(input, decoder, sessionId, sizes, file);
  }

  /** These rows are still to come, and with what was found they decide the same. */
  ghost predicate Leads(
    verdict: bool, file: Arrivals, chunks: seq<Bytes>, sizes: nat -> nat, decoder: Decoder, sessionId: string, found: Option<string>)
    requires NonEmpty(chunks)
  {
    file == Arriving(chunks, sizes) && verdict == Accepts(file.rows, file.tail, decoder, sessionId, found)
  }

  /** What becomes of the row these chunks begin with. */
  function NextVerdict(chunks: seq<Bytes>, sizes: nat -> nat, decoder: Decoder, oversized: bool): RowClass {
    var row := Row(Flatten(chunks));
    if Delivers(chunks, sizes, decoder.schedule(row, oversized)) then decoder.kind(row, oversized) else Malformed
  }

  /** The last row decides. */
  lemma {:induction false} LeadsToEnd(
    verdict: bool, file: Arrivals, chunks: seq<Bytes>, sizes: nat -> nat, decoder: Decoder, sessionId: string, found: Option<string>)
    requires NonEmpty(chunks) && Leads(verdict, file, chunks, sizes, decoder, sessionId, found) && !HasNewline(Flatten(chunks))
    ensures verdict <==>
      found == Some(sessionId) && (Flatten(chunks) != [] ==> NextVerdict(chunks, sizes, decoder, found.Some?) != Malformed)
  {
    assert Row(Flatten(chunks)) == Flatten(chunks);
  }

  /** A complete row ends it, or leaves the rest to decide. */
  lemma {:induction false} LeadsOn(
    verdict: bool, file: Arrivals, chunks: seq<Bytes>, sizes: nat -> nat, decoder: Decoder, sessionId: string, found: Option<string>,
    rest: seq<Bytes>) returns (later: Arrivals)
    requires NonEmpty(chunks) && Leads(verdict, file, chunks, sizes, decoder, sessionId, found) && HasNewline(Flatten(chunks))
    requires rest == Behind(chunks)
    ensures
      var row := Row(Flatten(chunks));
      var next := AfterRow(found, NextVerdict(chunks, sizes, decoder, found.Some?), |row|);
      && (next.None? ==> !verdict)
      && (next.Some? ==> Leads(verdict, later, rest, sizes, decoder, sessionId, next.value))
  {
    later := Arriving(rest, sizes);
    assert file.rows[1..] == later.rows;
  }

  method RunRows(input: BufferedInput, decoder: Decoder, sessionId: string, sizes: nat -> nat, ghost all: Arrivals)
    returns (accepted: bool)
    requires input.Valid() && (forall k :: sizes(k) > 0) && Causal(decoder.schedule)
    requires all == Arriving(input.chunks, sizes)
    modifies input
    ensures accepted <==> Accepts(all.rows, all.tail, decoder, sessionId, None)
  {
    var found: Option<string> := None;
    ghost var file, verdict := all, Accepts(all.rows, all.tail, decoder, sessionId, None);
    while true
      invariant input.Valid()
      invariant Leads(verdict, file, input.chunks, sizes, decoder, sessionId, found)
      decreases |input.Remaining()|
    {
      ghost var chunks := input.chunks;
      ghost var later := file;
      if HasNewline(Flatten(chunks)) {
        later := LeadsOn(verdict, file, chunks, sizes, decoder, sessionId, found, Behind(chunks));
      } else {
        LeadsToEnd(verdict, file, chunks, sizes, decoder, sessionId, found);
      }
      var available := input.FillBuf();
      if available == [] {
        return found == Some(sessionId);
      }
      var row, terminated := ReadWholeRow(input, decoder.schedule, found.Some?, sizes);
      if row.None? {
        return false;
      }
      var kind := decoder.kind(row.value, found.Some?);
      assert kind == NextVerdict(chunks, sizes, decoder, found.Some?);
      if !terminated {
        // The provider may still be appending the last row.
        return kind != Malformed && found == Some(sessionId);
      }
      var next := AfterRow(found, kind, |row.value|);
      if next.None? {
        return false;
      }
      found, file := next.value, later;
    }
  }

  /** One row through a fresh row reader, and the newline behind it. */
  method ReadWholeRow(input: BufferedInput, schedule: Schedule, oversized: bool, sizes: nat -> nat)
    returns (row: Option<Bytes>, terminated: bool)
    requires input.Valid() && (forall k :: sizes(k) > 0) && Causal(schedule)
    modifies input
    ensures input.Valid()
    ensures
      var chunks, bytes := old(input.chunks), old(input.Remaining());
      && (row.Some? <==> Delivers(chunks, sizes, schedule(Row(bytes), oversized)))
      && (row.Some? ==> row.value == Row(bytes) && (terminated <==> HasNewline(bytes)))
      && (row.Some? && terminated ==> input.chunks == Behind(chunks))
  {
    ghost var chunks := input.chunks;
    var reader := new JsonlRowReader(input);
    row := reader.ReadDecoded(schedule, oversized, sizes);
    terminated := reader.terminated;
    if row.Some? && terminated {
      ghost var n, middle := |row.value|, input.chunks;
      SkipNewline(input);
      BehindIs(chunks, n, middle, input.chunks);
    }
  }

  method SkipNewline(input: BufferedInput)
    requires input.Valid() && input.Remaining() != []
    modifies input
    ensures input.Valid() && input.chunks == Skip(old(input.chunks), 1)
  {
    input.Consume(1);
  }
}
