/**
 * When a row gets past its budget. A read is held against the budget as it stood when the
 * read was asked for, so that a row which outgrows 64 KiB depends on where its reads fall:
 * the read that delivers the point at which the decoder learns the row's type must itself
 * end within 64 KiB.
 */
module ReadBudget {
  import opened Basics
  import opened RowReader

  /** The capacity of the buffer between the decoder and the row reader. */
  const BUFFER_BYTES: nat := 8 * 1024

  // ---- Where reads end ----

  /** Reads from `from` on, each of at least one byte and at most `most`. */
  predicate Steps(ends: seq<nat>, from: nat, most: nat) {
    ends == [] || (from < ends[0] <= from + most && Steps(ends[1..], ends[0], most))
  }

  function Last(ends: seq<nat>, from: nat): nat {
    if ends == [] then from else Last(ends[1..], ends[0])
  }

  /** Where the read that delivers the byte before `point` ends, or the last read if none does. */
  function EndAt(ends: seq<nat>, from: nat, point: nat): nat {
    if ends == [] || point <= from then from else EndAt(ends[1..], ends[0], point)
  }

  lemma {:induction false} EndAtBounds(ends: seq<nat>, from: nat, point: nat, most: nat)
    requires Steps(ends, from, most)
    ensures from <= EndAt(ends, from, point) <= Last(ends, from)
    ensures point <= EndAt(ends, from, point) || EndAt(ends, from, point) == Last(ends, from)
    ensures from < point ==> EndAt(ends, from, point) < point + most
  {
    if ends != [] { EndAtBounds(ends[1..], ends[0], point, most); }
  }

  /** One read and those behind it. */
  lemma {:induction false} FirstRead(end: nat, rest: seq<nat>, from: nat, most: nat, point: nat)
    ensures Steps([end] + rest, from, most) <==> from < end <= from + most && Steps(rest, end, most)
    ensures Last([end] + rest, from) == Last(rest, end)
    ensures point > from ==> EndAt([end] + rest, from, point) == EndAt(rest, end, point)
  {
    assert ([end] + rest)[1..] == rest;
  }

  predicate Positive(pieces: seq<nat>) {
    forall i | 0 <= i < |pieces| :: pieces[i] > 0
  }

  function Sum(pieces: seq<nat>): nat {
    if pieces == [] then 0 else pieces[0] + Sum(pieces[1..])
  }

  /** The pieces make up the row. */
  lemma {:induction false} PiecesMeaning(chunks: seq<Bytes>)
    requires NonEmpty(chunks)
    ensures Positive(Pieces(chunks)) && Sum(Pieces(chunks)) == RowLength(Flatten(chunks))
  {
    if chunks != [] {
      var head, tail := chunks[0], chunks[1..];
      PrefixRow(head, Flatten(tail));
      if RowLength(head) == |head| {
        RowAfter(head, Flatten(tail));
        PiecesMeaning(tail);
        assert ([RowLength(head)] + Pieces(tail))[1..] == Pieces(tail);
      }
    }
  }

  lemma {:induction false} RestMeaning(pieces: seq<nat>, n: nat)
    requires pieces != [] && n <= pieces[0] && Positive(pieces)
    ensures Positive(Rest(pieces, n)) && Sum(pieces) == n + Sum(Rest(pieces, n))
  {
    if n < pieces[0] {
      assert Rest(pieces, n)[1..] == pieces[1..];
    }
  }

  /** For every chunking the reads of a row step through it to its end. */
  lemma {:induction false} EndsMeaning(pieces: seq<nat>, sizes: nat -> nat, k: nat, from: nat, most: nat)
    requires Positive(pieces) && (forall j :: sizes(j) > 0)
    requires Sum(pieces) <= most || forall j :: sizes(j) <= most
    ensures Steps(Ends(pieces, sizes, k, from), from, most)
    ensures Last(Ends(pieces, sizes, k, from), from) == from + Sum(pieces)
    decreases |pieces|, if pieces == [] then 0 else pieces[0]
  {
    if pieces != [] {
      var n := Bite(pieces, sizes(k));
      var now, rest := from + n, Rest(pieces, n);
      RestMeaning(pieces, n);
      EndsMeaning(rest, sizes, k + 1, now, most);
      FirstRead(now, Ends(rest, sizes, k + 1, now), from, most, from);
    }
  }

  /** The reads of a row that arrives in these chunks. */
  function Reads(chunks: seq<Bytes>, sizes: nat -> nat): seq<nat> {
    Ends(Pieces(chunks), sizes, 0, 0)
  }

  lemma {:induction false} ReadsMeaning(chunks: seq<Bytes>, sizes: nat -> nat, most: nat)
    requires NonEmpty(chunks) && (forall j :: sizes(j) > 0)
    requires RowLength(Flatten(chunks)) <= most || forall j :: sizes(j) <= most
    ensures Steps(Reads(chunks, sizes), 0, most) && Last(Reads(chunks, sizes), 0) == RowLength(Flatten(chunks))
  {
    PiecesMeaning(chunks);
    EndsMeaning(Pieces(chunks), sizes, 0, 0, most);
  }

  // ---- The exact condition ----

  /**
   * Every change is reached within the budget before it, and the end of the row within
   * the last one.
   */
  predicate Within(ends: seq<nat>, from: nat, budget: Option<nat>, changes: seq<Change>)
    decreases |changes|
  {
    if changes == [] then Fits(Last(ends, from), budget)
    else
      var end := EndAt(ends, from, changes[0].point);
      Fits(end, budget) && Within(ends, from, Allowed(changes[0].allowance, end), changes[1..])
  }

  /** Changes come in the order of their points, and the type of a row is learnt first and once. */
  predicate Orderly(changes: seq<Change>) {
    && (forall i, j | 0 <= i < j < |changes| :: changes[i].point <= changes[j].point)
    && (forall i | 0 < i < |changes| :: changes[i].allowance != Line)
  }

  /** Once all of the row was read no change to come matters. */
  lemma {:induction false} WithinAtEnd(from: nat, budget: Option<nat>, changes: seq<Change>)
    requires Fits(from, budget) && Orderly(changes)
    requires changes != [] && changes[0].allowance == Line ==> from <= MAX_DISCOVERY_LINE_BYTES
    ensures Within([], from, budget, changes)
    decreases |changes|
  {
    if changes != [] {
      OrderlyRest(changes);
      WithinAtEnd(from, Allowed(changes[0].allowance, from), changes[1..]);
    }
  }

  lemma {:induction false} OrderlyRest(changes: seq<Change>)
    requires Orderly(changes) && changes != []
    ensures Orderly(changes[1..]) && (changes[1..] != [] ==> changes[1..][0].allowance != Line)
  {
    assert forall i | 0 <= i < |changes[1..]| :: changes[1..][i] == changes[i + 1];
  }

  /** A read that ends before every point to come leaves the condition as it is. */
  lemma {:induction false} WithinStep(ends: seq<nat>, from: nat, budget: Option<nat>, changes: seq<Change>)
    requires ends != [] && forall i | 0 <= i < |changes| :: from < changes[i].point
    ensures Within(ends, from, budget, changes) == Within(ends[1..], ends[0], budget, changes)
    decreases |changes|
  {
    if changes != [] {
      var end := EndAt(ends, from, changes[0].point);
      WithinStep(ends, from, Allowed(changes[0].allowance, end), changes[1..]);
    }
  }

  /** A read beyond the budget ends the matter. */
  lemma {:induction false} NotWithin(ends: seq<nat>, from: nat, budget: Option<nat>, changes: seq<Change>, most: nat)
    requires ends != [] && Steps(ends, from, most) && !Fits(ends[0], budget)
    requires changes != [] ==> from < changes[0].point
    ensures !Within(ends, from, budget, changes)
  {
    if changes != [] {
      EndAtBounds(ends[1..], ends[0], changes[0].point, most);
    } else {
      EndAtBounds(ends[1..], ends[0], ends[0], most);
    }
  }

  lemma {:induction false} PassesFrom(ends: seq<nat>, from: nat, budget: Option<nat>, changes: seq<Change>, most: nat)
    requires Steps(ends, from, most) && Fits(from, budget) && Orderly(changes)
    requires changes != [] && changes[0].allowance == Line ==> budget == Some(MAX_DISCOVERY_HEADER_BYTES)
    ensures Passes(ends, from, budget, changes) <==> Within(ends, from, budget, changes)
    decreases |ends| + |changes|
  {
    if changes != [] && changes[0].point <= from {
      OrderlyRest(changes);
      PassesFrom(ends, from, Allowed(changes[0].allowance, from), changes[1..], most);
    } else if ends == [] {
      WithinAtEnd(from, budget, changes);
    } else if !Fits(ends[0], budget) {
      NotWithin(ends, from, budget, changes, most);
    } else {
      PassesFrom(ends[1..], ends[0], budget, changes, most);
      WithinStep(ends, from, budget, changes);
    }
  }

  /**
   * For every chunking: the row is delivered exactly when each point at which the decoder
   * changes the budget is delivered by a read within the budget before it, and the row
   * ends within the last budget.
   */
  lemma {:induction false} DeliversExactly(chunks: seq<Bytes>, sizes: nat -> nat, changes: seq<Change>)
    requires NonEmpty(chunks) && (forall k :: sizes(k) > 0) && Orderly(changes)
    ensures Delivers(chunks, sizes, changes)
       <==> Within(Reads(chunks, sizes), 0, Some(MAX_DISCOVERY_HEADER_BYTES), changes)
  {
    var ends := Reads(chunks, sizes);
    ReadsMeaning(chunks, sizes, |Flatten(chunks)|);
    PassesFrom(ends, 0, Some(MAX_DISCOVERY_HEADER_BYTES), changes, |Flatten(chunks)|);
  }

  // ---- Rows whose fate does not depend on the chunking ----

  lemma {:induction false} ShortPasses(ends: seq<nat>, from: nat, budget: Option<nat>, changes: seq<Change>, most: nat)
    requires Steps(ends, from, most) && Last(ends, from) <= MAX_DISCOVERY_HEADER_BYTES
    requires budget.Some? ==> budget.value >= MAX_DISCOVERY_HEADER_BYTES
    ensures Passes(ends, from, budget, changes)
    decreases |ends| + |changes|
  {
    if changes != [] && changes[0].point <= from {
      ShortPasses(ends, from, Allowed(changes[0].allowance, from), changes[1..], most);
    } else if ends != [] {
      EndAtBounds(ends[1..], ends[0], ends[0], most);
      ShortPasses(ends[1..], ends[0], budget, changes, most);
    }
  }

  /** A row of at most 64 KiB is delivered for every chunking, whatever the decoder does. */
  lemma {:induction false} ShortRowIsDelivered(chunks: seq<Bytes>, sizes: nat -> nat, changes: seq<Change>)
    requires NonEmpty(chunks) && (forall k :: sizes(k) > 0)
    requires RowLength(Flatten(chunks)) <= 65536
    ensures Delivers(chunks, sizes, changes)
  {
    var ends := Reads(chunks, sizes);
    ReadsMeaning(chunks, sizes, |Flatten(chunks)|);
    ShortPasses(ends, 0, Some(MAX_DISCOVERY_HEADER_BYTES), changes, |Flatten(chunks)|);
  }

  lemma {:induction false} UnliftedFails(ends: seq<nat>, from: nat, changes: seq<Change>, most: nat)
    requires Steps(ends, from, most) && from <= MAX_DISCOVERY_HEADER_BYTES < Last(ends, from)
    requires changes != [] ==> changes[0].point > MAX_DISCOVERY_HEADER_BYTES
    ensures !Passes(ends, from, Some(MAX_DISCOVERY_HEADER_BYTES), changes)
  {
    if ends[0] <= MAX_DISCOVERY_HEADER_BYTES {
      UnliftedFails(ends[1..], ends[0], changes, most);
    }
  }

  /** A longer row whose type does not show within 64 KiB is refused for every chunking. */
  lemma {:induction false} LateTypeIsRefused(chunks: seq<Bytes>, sizes: nat -> nat, changes: seq<Change>)
    requires NonEmpty(chunks) && (forall k :: sizes(k) > 0)
    requires RowLength(Flatten(chunks)) > MAX_DISCOVERY_HEADER_BYTES
    requires changes != [] ==> changes[0].point > MAX_DISCOVERY_HEADER_BYTES
    ensures !Delivers(chunks, sizes, changes)
  {
    var ends := Reads(chunks, sizes);
    ReadsMeaning(chunks, sizes, |Flatten(chunks)|);
    UnliftedFails(ends, 0, changes, |Flatten(chunks)|);
  }

  // ---- Rows before the metadata, and the metadata itself ----

  /** One change, to 1 MiB: the read that delivers the type ends within 64 KiB and the row within 1 MiB. */
  lemma {:induction false} TypedRowExactly(chunks: seq<Bytes>, sizes: nat -> nat, lift: nat)
    requires NonEmpty(chunks) && forall k :: sizes(k) > 0
    ensures Delivers(chunks, sizes, [Change(lift, Line)]) <==>
      EndAt(Reads(chunks, sizes), 0, lift) <= 65536 && RowLength(Flatten(chunks)) <= 1048576
  {
    var changes := [Change(lift, Line)];
    var ends := Reads(chunks, sizes);
    ReadsMeaning(chunks, sizes, |Flatten(chunks)|);
    DeliversExactly(chunks, sizes, changes);
    assert changes[1..] == [];
    assert Within(ends, 0, Some(MAX_DISCOVERY_LINE_BYTES), []) == Fits(Last(ends, 0), Some(MAX_DISCOVERY_LINE_BYTES));
  }

  // ---- Rows after the metadata ----

  /**
   * An event whose payload may be of any size: type, payload and row must each end within
   * 64 KiB of where the read that delivered the start, the type and the payload ended.
   */
  lemma {:induction false} EventExactly(chunks: seq<Bytes>, sizes: nat -> nat, typed: nat, payload: nat, after: nat)
    requires NonEmpty(chunks) && (forall k :: sizes(k) > 0) && typed <= payload <= after
    requires |Flatten(chunks)| <= USIZE_MAX - MAX_DISCOVERY_HEADER_BYTES
    ensures
      var ends := Reads(chunks, sizes);
      Delivers(chunks, sizes, [Change(typed, Ahead), Change(payload, Unbounded), Change(after, Ahead)]) <==>
        && EndAt(ends, 0, typed) <= 65536
        && EndAt(ends, 0, payload) <= EndAt(ends, 0, typed) + 65536
        && RowLength(Flatten(chunks)) <= EndAt(ends, 0, after) + 65536
  {
    var last := [Change(after, Ahead)];
    var tail := [Change(payload, Unbounded)] + last;
    var changes := [Change(typed, Ahead)] + tail;
    assert changes == [Change(typed, Ahead), Change(payload, Unbounded), Change(after, Ahead)];
    assert changes[1..] == tail && tail[1..] == last && last[1..] == [];
    var ends := Reads(chunks, sizes);
    ReadsMeaning(chunks, sizes, |Flatten(chunks)|);
    DeliversExactly(chunks, sizes, changes);
    EndAtBounds(ends, 0, typed, |Flatten(chunks)|);
    EndAtBounds(ends, 0, after, |Flatten(chunks)|);
    var e, g := EndAt(ends, 0, typed), EndAt(ends, 0, after);
    assert Within(ends, 0, Allowed(Ahead, g), []) == Fits(Last(ends, 0), Allowed(Ahead, g));
    assert Within(ends, 0, None, last) == Within(ends, 0, Allowed(Ahead, g), []);
    assert Within(ends, 0, Allowed(Ahead, e), tail)
        == (Fits(EndAt(ends, 0, payload), Allowed(Ahead, e)) && Within(ends, 0, None, last));
  }

  // ---- Where a file's reads fall ----

  /** The chunks of a row that starts `first` bytes before the end of the file reader's buffer. */
  function Chunked(bytes: Bytes, first: nat): (chunks: seq<Bytes>)
    requires 0 < first
    ensures NonEmpty(chunks) && Flatten(chunks) == bytes
    decreases |bytes|
  {
    if bytes == [] then []
    else if |bytes| <= first then
      assert [bytes][1..] == [] && bytes + [] == bytes;
      [bytes]
    else
      var rest := Chunked(bytes[first..], BUFFER_BYTES);
      assert ([bytes[..first]] + rest)[1..] == rest && bytes[..first] + bytes[first..] == bytes;
      [bytes[..first]] + rest
  }

  /** The first boundary of the file reader's buffer at or after `point`. */
  function Boundary(point: nat, first: nat): (end: nat)
    requires 0 < first
    ensures point <= end && first <= end && (point > first ==> end < point + BUFFER_BYTES)
    ensures (end - first) % BUFFER_BYTES == 0
    decreases point
  {
    if point <= first then first else first + Boundary(point - first, BUFFER_BYTES)
  }

  /** Where the read that delivers the byte before `point` ends in a row of this length. */
  function Landing(point: nat, first: nat, length: nat): nat
    requires 0 < first
  {
    if Boundary(point, first) <= length then Boundary(point, first) else length
  }

  lemma {:induction false} LandingFrom(point: nat, first: nat, length: nat, beyond: int)
    requires 0 < first < length && point <= length && beyond == point - first
    ensures Landing(point, first, length)
         == if beyond <= 0 then first else first + Landing(beyond, BUFFER_BYTES, length - first)
  {
  }

  /** The pieces of such a row. */
  function Cut(length: nat, first: nat): seq<nat>
    requires 0 < first
    decreases length
  {
    if length == 0 then [] else if length <= first then [length] else [first] + Cut(length - first, BUFFER_BYTES)
  }

  lemma {:induction false} ChunkedPieces(row: Bytes, first: nat)
    requires Plain(row) && 0 < first
    ensures Pieces(Chunked(row, first)) == Cut(|row|, first)
    decreases |row|
  {
    if |row| > first {
      RowIsPlain(row, first);
      SplitRow(row, first);
      ChunkedPieces(row[first..], BUFFER_BYTES);
      var rest := Chunked(row[first..], BUFFER_BYTES);
      assert ([row[..first]] + rest)[1..] == rest;
    } else if row != [] {
      assert [row][1..] == [];
    }
  }

  /** A read that takes a whole piece. */
  lemma {:induction false} WholePiece(piece: nat, later: seq<nat>, sizes: nat -> nat, k: nat, from: nat)
    requires 0 < piece <= sizes(k)
    ensures Ends([piece] + later, sizes, k, from) == [from + piece] + Ends(later, sizes, k + 1, from + piece)
  {
    assert ([piece] + later)[1..] == later;
  }

  /** Each read ends at a boundary of the file reader's buffer, or at the end of the row. */
  function Marks(length: nat, first: nat, from: nat): seq<nat>
    requires 0 < first
    decreases length
  {
    if length == 0 then []
    else if length <= first then [from + length]
    else [from + first] + Marks(length - first, BUFFER_BYTES, from + first)
  }

  lemma {:induction false} ReadsFollowBuffer(length: nat, first: nat, sizes: nat -> nat, k: nat, from: nat)
    returns (pieces: seq<nat>, ends: seq<nat>)
    requires 0 < first <= BUFFER_BYTES && forall j :: sizes(j) == BUFFER_BYTES
    ensures pieces == Cut(length, first) && ends == Marks(length, first, from) && ends == Ends(pieces, sizes, k, from)
    decreases length
  {
    if length > first {
      var later, rest := ReadsFollowBuffer(length - first, BUFFER_BYTES, sizes, k + 1, from + first);
      WholePiece(first, later, sizes, k, from);
      pieces, ends := [first] + later, [from + first] + rest;
    } else if length > 0 {
      WholePiece(length, [], sizes, k, from);
      pieces, ends := [length] + [], [from + length] + [];
    } else {
      pieces, ends := [], [];
    }
  }

  lemma {:induction false} MarksLand(length: nat, first: nat, from: nat, target: nat)
    requires 0 < first && from < target <= from + length
    ensures EndAt(Marks(length, first, from), from, target) == from + Landing(target - from, first, length)
    decreases length
  {
    if length > first {
      var now := from + first;
      FirstRead(now, Marks(length - first, BUFFER_BYTES, now), from, BUFFER_BYTES, target);
      LandingFrom(target - from, first, length, target - now);
      if target > now {
        MarksLand(length - first, BUFFER_BYTES, now, target);
      }
    }
  }

  function BufferSize(k: nat): nat {
    BUFFER_BYTES
  }

  /** A row whose type shows after `lift` bytes, read from a file in which `first` bytes were left in the buffer. */
  predicate DeliveredAt(row: Bytes, first: nat, lift: nat)
    requires 0 < first
  {
    Delivers(Chunked(row, first), BufferSize, [Change(lift, Line)])
  }

  /** A row of more than 64 KiB whose type shows in time: the place in the file decides. */
  lemma {:induction false} OffsetDecides(row: Bytes, first: nat, lift: nat)
    requires Plain(row) && 0 < first <= BUFFER_BYTES && 0 < lift <= MAX_DISCOVERY_HEADER_BYTES < |row|
    ensures DeliveredAt(row, first, lift) <==>
      Boundary(lift, first) <= MAX_DISCOVERY_HEADER_BYTES && |row| <= MAX_DISCOVERY_LINE_BYTES
  {
    TypedRowExactly(Chunked(row, first), BufferSize, lift);
    ChunkedPieces(row, first);
    var _, _ := ReadsFollowBuffer(|row|, first, BufferSize, 0, 0);
    MarksLand(|row|, first, 0, lift);
  }

  /** One row of 70000 bytes, delivered at the start of a file and refused 100 bytes later. */
  lemma {:induction false} SameRowTwoFates(row: Bytes)
    requires Plain(row) && |row| == 70000
    ensures DeliveredAt(row, BUFFER_BYTES, 65530) && !DeliveredAt(row, BUFFER_BYTES - 100, 65530)
  {
    OffsetDecides(row, BUFFER_BYTES, 65530);
    OffsetDecides(row, BUFFER_BYTES - 100, 65530);
  }

  /** The latest point for the type of a long row at which no place in the file matters. */
  const SAFE_LIFT: nat := MAX_DISCOVERY_HEADER_BYTES - BUFFER_BYTES + 1

  /** A type that shows one buffer before 64 KiB is in time for every chunking. */
  lemma {:induction false} EarlyTypeIsDelivered(chunks: seq<Bytes>, sizes: nat -> nat, lift: nat)
    requires NonEmpty(chunks) && (forall k :: 0 < sizes(k) <= BUFFER_BYTES) && 0 < lift
    requires RowLength(Flatten(chunks)) <= MAX_DISCOVERY_LINE_BYTES
    requires RowLength(Flatten(chunks)) <= MAX_DISCOVERY_HEADER_BYTES || lift <= SAFE_LIFT
    ensures Delivers(chunks, sizes, [Change(lift, Line)])
  {
    ReadsMeaning(chunks, sizes, BUFFER_BYTES);
    EndAtBounds(Reads(chunks, sizes), 0, lift, BUFFER_BYTES);
    TypedRowExactly(chunks, sizes, lift);
  }

  /** Any other row is refused when it starts one byte before the end of the buffer. */
  lemma {:induction false} LateTypeIsRefusedSomewhere(row: Bytes, lift: nat)
    requires Plain(row) && 0 < lift && |row| > MAX_DISCOVERY_HEADER_BYTES
    requires |row| > MAX_DISCOVERY_LINE_BYTES || lift > SAFE_LIFT
    ensures !DeliveredAt(row, 1, lift)
  {
    if lift <= MAX_DISCOVERY_HEADER_BYTES {
      OffsetDecides(row, 1, lift);
    } else {
      LateTypeIsRefused(Chunked(row, 1), BufferSize, [Change(lift, Line)]);
    }
  }

  /**
   * A row is delivered wherever it starts in the file exactly when it has at most 64 KiB,
   * or at most 1 MiB and a type that shows one buffer before 64 KiB.
   */
  lemma {:induction false} DeliveredAnywhereExactly(row: Bytes, lift: nat)
    requires Plain(row) && 0 < lift
    ensures (forall first: nat | 0 < first <= BUFFER_BYTES :: DeliveredAt(row, first, lift)) <==>
      |row| <= MAX_DISCOVERY_HEADER_BYTES || (|row| <= MAX_DISCOVERY_LINE_BYTES && lift <= SAFE_LIFT)
  {
    if |row| <= MAX_DISCOVERY_HEADER_BYTES || (|row| <= MAX_DISCOVERY_LINE_BYTES && lift <= SAFE_LIFT) {
      forall first: nat | 0 < first <= BUFFER_BYTES
        ensures DeliveredAt(row, first, lift)
      {
        EarlyTypeIsDelivered(Chunked(row, first), BufferSize, lift);
      }
    } else {
      LateTypeIsRefusedSomewhere(row, lift);
    }
  }
}
