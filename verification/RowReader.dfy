/**
 The bounded reader of one JSONL row over buffered input that arrives in
 arbitrary chunks, and the checks built on it.
 */
module RowReader {
  import opened Basics

  const USIZE_MAX: nat := 0xFFFF_FFFF_FFFF_FFFF

  const MAX_DISCOVERY_LINE_BYTES: nat := 1024 * 1024

  const MAX_DISCOVERY_HEADER_BYTES: nat := 64 * 1024

  // ---- Rows of a byte sequence --------------------------------------------

  function RowLength(bytes: Bytes): (n: nat)
    ensures n <= |bytes|
    ensures n < |bytes| ==> bytes[n] == NEWLINE
  {
    if bytes == [] || bytes[0] == NEWLINE then 0 else 1 + RowLength(bytes[1..])
  }

  /** The bytes before the first newline, or all of them. */
  function Row(bytes: Bytes): Bytes {
    bytes[..RowLength(bytes)]
  }

  predicate HasNewline(bytes: Bytes) {
    RowLength(bytes) < |bytes|
  }

  /** No newline at all. */
  predicate Plain(bytes: Bytes) {
    RowLength(bytes) == |bytes|
  }

  /** The row really ends at the first newline. */
  lemma {:induction false} RowIsPlain(bytes: Bytes, n: nat)
    requires n <= RowLength(bytes)
    ensures Plain(bytes[..n]) && NEWLINE !in bytes[..n]
  {
    if n > 0 {
      RowIsPlain(bytes[1..], n - 1);
      assert bytes[..n] == [bytes[0]] + bytes[1..][..n - 1];
      assert bytes[..n][1..] == bytes[1..][..n - 1];
    }
  }

  /** A row that begins with bytes free of newlines. */
  lemma {:induction false} RowAfter(head: Bytes, rest: Bytes)
    requires Plain(head)
    ensures RowLength(head + rest) == |head| + RowLength(rest)
    ensures Row(head + rest) == head + Row(rest) && (HasNewline(head + rest) <==> HasNewline(rest))
  {
    if head == [] {
      assert head + rest == rest;
    } else {
      assert (head + rest)[1..] == head[1..] + rest;
      RowAfter(head[1..], rest);
    }
  }

  /** The bytes read after `before` are the rest of the row once the whole row is read. */
  lemma {:induction false} RestOfRow(before: Bytes, read: Bytes, rest: Bytes, remaining: Bytes)
    requires Plain(before) && Plain(before + read) && remaining == read + rest
    ensures Row(remaining) == read + Row(rest) && Row(before + remaining) == before + read + Row(rest)
  {
    RowAfter(before, read);
    RowAfter(read, rest);
    RowAfter(before, remaining);
  }

  /** Appending one more piece to what was read. */
  lemma {:induction false} MoreOfRow(before: Bytes, row: Bytes, piece: Bytes, rest: Bytes)
    ensures (before + row) + piece == before + (row + piece)
    ensures row + (piece + rest) == (row + piece) + rest
  {
  }

  /** One more piece of the row: the row is blank only if every piece is. */
  lemma {:induction false} BlankSoFar(before: Bytes, drained: Bytes, piece: Bytes, rest: Bytes)
    requires Plain(before) && Plain(before + drained + piece) && AllWhitespace(drained)
    ensures AllWhitespace(drained + piece) <==> AllWhitespace(piece)
    ensures !AllWhitespace(piece) ==> !AllWhitespace(Row(drained + (piece + rest)))
  {
    var read := drained + piece;
    assert before + drained + piece == before + read;
    RestOfRow(before, read, rest, read + rest);
    assert read + rest == drained + (piece + rest);
    WhitespaceAppend(drained, piece);
    WhitespaceAppend(read, Row(rest));
  }

  lemma {:induction false} WhitespaceAppend(a: Bytes, b: Bytes)
    ensures AllWhitespace(a + b) <==> AllWhitespace(a) && AllWhitespace(b)
  {
    if a == [] {
      assert a + b == b;
    } else {
      assert (a + b)[1..] == a[1..] + b;
      WhitespaceAppend(a[1..], b);
    }
  }

  // ---- Buffered input -----------------------------------------------------

  predicate NonEmpty(chunks: seq<Bytes>) {
    forall i | 0 <= i < |chunks| :: chunks[i] != []
  }

  /** The chunks after n bytes were consumed. */
  function Skip(chunks: seq<Bytes>, n: nat): (rest: seq<Bytes>)
    requires NonEmpty(chunks) && n <= |Flatten(chunks)|
    ensures NonEmpty(rest) && Flatten(rest) == Flatten(chunks)[n..]
  {
    if chunks == [] then []
    else if n < |chunks[0]| then
      assert [chunks[0][n..]] + chunks[1..] != [] && ([chunks[0][n..]] + chunks[1..])[1..] == chunks[1..];
      [chunks[0][n..]] + chunks[1..]
    else Skip(chunks[1..], n - |chunks[0]|)
  }

  lemma {:induction false} SkipNone(chunks: seq<Bytes>)
    requires NonEmpty(chunks)
    ensures Skip(chunks, 0) == chunks
  {
  }

  lemma {:induction false} SkipTwice(chunks: seq<Bytes>, a: nat, b: nat)
    requires NonEmpty(chunks) && a + b <= |Flatten(chunks)|
    ensures Skip(Skip(chunks, a), b) == Skip(chunks, a + b)
  {
    if chunks != [] {
      if a < |chunks[0]| {
        var rest := [chunks[0][a..]] + chunks[1..];
        assert rest[1..] == chunks[1..];
        if a + b < |chunks[0]| {
          assert chunks[0][a..][b..] == chunks[0][a + b..];
        }
      } else {
        SkipTwice(chunks[1..], a - |chunks[0]|, b);
      }
    }
  }

  /** How many bytes one read with an output buffer of this size takes. */
  function Take(chunks: seq<Bytes>, size: nat): (n: nat)
    ensures n <= size && n <= |Flatten(chunks)|
  {
    if chunks == [] then 0
    else if RowLength(chunks[0]) <= size then RowLength(chunks[0]) else size
  }

  /** How much of the row each chunk holds. */
  function Pieces(chunks: seq<Bytes>): seq<nat> {
    if chunks == [] || RowLength(chunks[0]) == 0 then []
    else [RowLength(chunks[0])] + if RowLength(chunks[0]) < |chunks[0]| then [] else Pieces(chunks[1..])
  }

  /** How much one read takes of these pieces. */
  function Bite(pieces: seq<nat>, size: nat): nat {
    if pieces == [] then 0 else if pieces[0] <= size then pieces[0] else size
  }

  /** What a read of n bytes leaves of the pieces. */
  function Rest(pieces: seq<nat>, n: nat): seq<nat>
    requires pieces != [] && n <= pieces[0]
  {
    if n == pieces[0] then pieces[1..] else [pieces[0] - n] + pieces[1..]
  }

  /** Where the successive reads of one row end, counted from its first byte. */
  function Ends(pieces: seq<nat>, sizes: nat -> nat, k: nat, from: nat): seq<nat>
    decreases |pieces|, if pieces == [] then 0 else pieces[0]
  {
    var n := Bite(pieces, sizes(k));
    if n == 0 then [] else [from + n] + Ends(Rest(pieces, n), sizes, k + 1, from + n)
  }

  /** Reading from the chunks is reading from their pieces. */
  lemma {:induction false} PiecesAfter(chunks: seq<Bytes>, size: nat)
    requires NonEmpty(chunks)
    ensures Take(chunks, size) == Bite(Pieces(chunks), size)
    ensures 0 < Take(chunks, size) ==> Pieces(Skip(chunks, Take(chunks, size))) == Rest(Pieces(chunks), Take(chunks, size))
  {
    var take := Take(chunks, size);
    if take > 0 {
      var head, tail := chunks[0], chunks[1..];
      var n := RowLength(head);
      assert Pieces(chunks)[0] == n;
      if take < |head| {
        SplitRow(head, take);
        var rest := [head[take..]] + tail;
        assert rest[1..] == tail && Skip(chunks, take) == rest;
        assert Pieces(chunks)[1..] == if n < |head| then [] else Pieces(tail);
      } else {
        SkipNone(tail);
        assert Pieces(chunks)[1..] == Pieces(tail);
      }
    }
  }

  lemma {:induction false} SplitRow(bytes: Bytes, n: nat)
    requires n <= RowLength(bytes)
    ensures RowLength(bytes[n..]) == RowLength(bytes) - n
  {
    RowIsPlain(bytes, n);
    assert bytes == bytes[..n] + bytes[n..];
    RowAfter(bytes[..n], bytes[n..]);
  }

  /** A `BufRead`: chunks[0] is what the next fill returns, nothing left means end of input. */
  class BufferedInput {
    var chunks: seq<Bytes>

    ghost predicate Valid()
      reads this
    {
      NonEmpty(chunks)
    }

    ghost function Remaining(): Bytes
      reads this
    {
      Flatten(chunks)
    }

    constructor (chunks: seq<Bytes>)
      requires NonEmpty(chunks)
      ensures Valid() && this.chunks == chunks
    {
      this.chunks := chunks;
    }

    method FillBuf() returns (available: Bytes)
      requires Valid()
      ensures available == (if chunks == [] then [] else chunks[0])
      ensures available <= Remaining() && (available == [] <==> Remaining() == [])
    {
      available := if chunks == [] then [] else chunks[0];
    }

    method Consume(n: nat)
      requires Valid() && chunks != [] && n <= |chunks[0]|
      modifies this
      ensures Valid() && n <= |old(Flatten(chunks))| && chunks == Skip(old(chunks), n)
    {
      if n == |chunks[0]| {
        SkipNone(chunks[1..]);
      }
      var rest := chunks[0][n..];
      if rest == [] {
        chunks := chunks[1..];
      } else {
        chunks := [rest] + chunks[1..];
      }
    }
  }

  datatype ReadError = BudgetExceeded

  /** Whether a row of this length passes a budget; the counter saturates at the word size. */
  predicate Fits(length: nat, budget: Option<nat>) {
    budget.None? || length <= budget.value || budget.value >= USIZE_MAX
  }

  /** What a row may be long once the decoder has seen a part of it. */
  datatype Allowance = Line | Unbounded | Ahead

  /** The decoder sets another budget when it has seen this many bytes of the row. */
  datatype Change = Change(point: nat, allowance: Allowance)

  /** The new budget, after `delivered` bytes were read. */
  function Allowed(allowance: Allowance, delivered: nat): Option<nat> {
    match allowance
    case Line => Some(MAX_DISCOVERY_LINE_BYTES)
    case Unbounded => None
    case Ahead => Some((if delivered <= USIZE_MAX then delivered else USIZE_MAX) + MAX_DISCOVERY_HEADER_BYTES)
  }

  /** The changes a decoder has made when it has seen n bytes. */
  function Known(changes: seq<Change>, n: nat): seq<Change> {
    if changes == [] || changes[0].point > n then [] else [changes[0]] + Known(changes[1..], n)
  }

  /** When a decoder changes the budget of a row, given whether oversized events are already allowed. */
  type Schedule = (Bytes, bool) -> seq<Change>

  /** A decoder has nothing to go by but the bytes it was given. */
  ghost predicate Causal(schedule: Schedule) {
    forall row: Bytes, n: nat, oversized: bool | n <= |row| ::
      schedule(row[..n], oversized) == Known(schedule(row, oversized), n)
  }

  /**
   * Whether reads that end at these points stay within the budget: each is held against
   * the budget as it stands before the read, and a change takes effect with the first
   * read that starts at or after its point.
   */
  predicate Passes(ends: seq<nat>, from: nat, budget: Option<nat>, changes: seq<Change>)
    decreases |ends| + |changes|
  {
    if changes != [] && changes[0].point <= from then
      Passes(ends, from, Allowed(changes[0].allowance, from), changes[1..])
    else
      ends == [] || (Fits(ends[0], budget) && Passes(ends[1..], ends[0], budget, changes))
  }

  /** Whether a row that arrives in these chunks is delivered to a decoder that makes these changes. */
  predicate Delivers(chunks: seq<Bytes>, sizes: nat -> nat, changes: seq<Change>) {
    Passes(Ends(Pieces(chunks), sizes, 0, 0), 0, Some(MAX_DISCOVERY_HEADER_BYTES), changes)
  }

  lemma {:induction false} KnownNext(all: seq<Change>, i: nat, n: nat)
    requires i <= |all| && forall j | 0 <= j < i :: all[j].point <= n
    ensures i < |Known(all, n)| <==> i < |all| && all[i].point <= n
    ensures i < |Known(all, n)| ==> Known(all, n)[i] == all[i]
  {
    if i > 0 { KnownNext(all[1..], i - 1, n); }
  }

  /** Making the next change. */
  lemma {:induction false} PassesChange(ends: seq<nat>, from: nat, budget: Option<nat>, all: seq<Change>, i: nat)
    requires i < |all| && all[i].point <= from
    ensures Passes(ends, from, budget, all[i..]) == Passes(ends, from, Allowed(all[i].allowance, from), all[i + 1..])
  {
    assert all[i..][1..] == all[i + 1..];
  }

  /** The next read, when no change comes before it. */
  lemma {:induction false} PassesRead(ends: seq<nat>, from: nat, budget: Option<nat>, all: seq<Change>, i: nat)
    requires i <= |all| && (i < |all| ==> all[i].point > from)
    ensures Passes(ends, from, budget, all[i..]) ==
      (ends == [] || (Fits(ends[0], budget) && Passes(ends[1..], ends[0], budget, all[i..])))
  {
  }

  /** The reads to come are those of these pieces. */
  predicate ToCome(ends: seq<nat>, pieces: seq<nat>, sizes: nat -> nat, k: nat, from: nat) {
    ends == Ends(pieces, sizes, k, from)
  }

  lemma {:induction false} NextRead(ends: seq<nat>, pieces: seq<nat>, sizes: nat -> nat, k: nat, from: nat)
    requires ToCome(ends, pieces, sizes, k, from)
    ensures
      var n := Bite(pieces, sizes(k));
      && (n == 0 <==> ends == [])
      && (n > 0 ==> ends[0] == from + n && ToCome(ends[1..], Rest(pieces, n), sizes, k + 1, ends[0]))
  {
    var n := Bite(pieces, sizes(k));
    if n > 0 {
      var rest := Ends(Rest(pieces, n), sizes, k + 1, from + n);
      assert ([from + n] + rest)[1..] == rest;
    }
  }

  class JsonlRowReader {
    const inner: BufferedInput
    var budget: Option<nat>
    var bytesRead: nat
    var terminated: bool
    /** What was delivered so far, and the input the reader started with. */
    ghost var delivered: Bytes
    ghost var original: Bytes

    ghost predicate Valid()
      reads this, inner
    {
      && inner.Valid()
      && original == delivered + inner.Remaining()
      && Plain(delivered)
      && bytesRead == (if |delivered| <= USIZE_MAX then |delivered| else USIZE_MAX)
      && (terminated ==> inner.Remaining() != [] && inner.Remaining()[0] == NEWLINE)
    }

    constructor (inner: BufferedInput)
      requires inner.Valid()
      ensures Valid() && this.inner == inner && delivered == [] && original == inner.Remaining()
      ensures budget == Some(MAX_DISCOVERY_HEADER_BYTES) && !terminated
    {
      this.inner := inner;
      budget, bytesRead, terminated := Some(MAX_DISCOVERY_HEADER_BYTES), 0, false;
      delivered, original := [], inner.Remaining();
    }

    /** The decoder sets another budget once it knows more about the row. */
    method ChangeBudget(allowance: Allowance)
      requires Valid()
      modifies this`budget
      ensures Valid() && budget == Allowed(allowance, |delivered|)
    {
      match allowance
      case Line => budget := Some(MAX_DISCOVERY_LINE_BYTES);
      case Unbounded => budget := None;
      case Ahead => budget := Some(bytesRead + MAX_DISCOVERY_HEADER_BYTES);
    }

    /**
     Delivers the next bytes of the row, none only at its end (or for an empty
     output buffer); refuses exactly the read that would pass the budget.
     */
    method Read(outputLength: nat) returns (result: Result<Bytes, ReadError>)
      requires Valid()
      modifies this, inner
      ensures Valid() && original == old(original) && budget == old(budget)
      ensures result.Ok? ==>
                && |result.value| <= outputLength && delivered == old(delivered) + result.value
                && old(inner.Remaining()) == result.value + inner.Remaining()
      ensures result.Ok? && result.value != [] ==> Fits(|delivered|, budget)
      ensures result.Ok? && result.value == [] && outputLength > 0 ==>
                delivered == Row(original) && (terminated <==> HasNewline(original))
      ensures result.Err? ==> delivered == old(delivered) && !Fits(|Row(original)|, budget)
      ensures
        var take := Take(old(inner.chunks), outputLength);
        && (result.Err? <==> take > 0 && !Fits(|old(delivered)| + take, budget))
        && (result.Ok? ==> |result.value| == take && inner.chunks == Skip(old(inner.chunks), take))
    {
      SkipNone(inner.chunks);
      AtEnd(delivered, inner.Remaining());
      NothingToTake(inner.chunks, outputLength);
      if outputLength == 0 || terminated {
        return Ok([]);
      }
      var available := inner.FillBuf();
      if available == [] {
        return Ok([]);
      }
      if RowLength(available) == 0 {
        terminated := true;
        return Ok([]);
      }
      result := ReadAvailable(available, outputLength);
    }

    /** A read that finds bytes of the row in the buffer. */
    method ReadAvailable(available: Bytes, outputLength: nat) returns (result: Result<Bytes, ReadError>)
      requires Valid() && !terminated && inner.chunks != [] && available == inner.chunks[0]
      requires RowLength(available) > 0 && outputLength > 0
      modifies this, inner
      ensures Valid() && original == old(original) && budget == old(budget)
      ensures
        var take := Take(old(inner.chunks), outputLength);
        && take > 0
        && (result.Err? <==> !Fits(|old(delivered)| + take, budget))
        && (result.Err? ==> delivered == old(delivered) && |old(delivered)| + take <= |Row(original)|)
        && (result.Ok? ==>
              && |result.value| == take && delivered == old(delivered) + result.value
              && old(inner.Remaining()) == result.value + inner.Remaining()
              && inner.chunks == Skip(old(inner.chunks), take))
    {
      var beforeNewline := RowLength(available);
      var take := if beforeNewline <= outputLength then beforeNewline else outputLength;
      TakenIsInRow(delivered, available, Flatten(inner.chunks[1..]));
      var total := if bytesRead + take <= USIZE_MAX then bytesRead + take else USIZE_MAX;
      if budget.Some? && total > budget.value {
        return Err(BudgetExceeded);
      }
      TakeBytes(available, take);
      if take == beforeNewline && beforeNewline < |available| {
        terminated := true;
      }
      result := Ok(available[..take]);
    }

    /** Moves `take` bytes of the current chunk from the input to what was delivered. */
    method TakeBytes(available: Bytes, take: nat)
      requires Valid() && !terminated && inner.chunks != [] && available == inner.chunks[0]
      requires take <= RowLength(available)
      modifies this`delivered, this`bytesRead, inner
      ensures Valid() && delivered == old(delivered) + available[..take]
      ensures old(inner.Remaining()) == available[..take] + inner.Remaining()
      ensures inner.chunks == Skip(old(inner.chunks), take)
      ensures inner.Remaining() == available[take..] + old(Flatten(inner.chunks[1..]))
    {
      TakenIsPlain(delivered, available, take);
      MovedBytes(delivered, available, take, Flatten(inner.chunks[1..]));
      inner.Consume(take);
      delivered := delivered + available[..take];
      bytesRead := if bytesRead + take <= USIZE_MAX then bytesRead + take else USIZE_MAX;
    }

    /**
     The whole row for any chunking and any non-empty buffer sizes: succeeds
     exactly when the row fits the budget, and then has delivered the bytes
     before the first newline, left the newline in the input and set
     `terminated` exactly when there is one.
     */
    method ReadRow(sizes: nat -> nat) returns (result: Result<Bytes, ReadError>)
      requires Valid() && (forall k :: sizes(k) > 0) && Fits(|delivered|, budget)
      modifies this, inner
      ensures Valid() && original == old(original) && budget == old(budget)
      ensures result.Ok? <==> Fits(|Row(original)|, budget)
      ensures result.Ok? ==>
                && result.value == Row(old(inner.Remaining())) && delivered == Row(original)
                && inner.Remaining() == original[|Row(original)|..]
                && (terminated <==> HasNewline(original))
    {
      var row: Bytes := [];
      var k := 0;
      while true
        invariant Valid() && original == old(original) && budget == old(budget)
        invariant Fits(|delivered|, budget) && delivered == old(delivered) + row
        invariant old(inner.Remaining()) == row + inner.Remaining()
        decreases |original| - |delivered|
      {
        var chunk := Read(sizes(k));
        if chunk.Err? {
          return chunk;
        }
        MoreOfRow(old(delivered), row, chunk.value, inner.Remaining());
        if chunk.value == [] {
          RestOfRow(old(delivered), row, inner.Remaining(), old(inner.Remaining()));
          return Ok(row);
        }
        row := row + chunk.value;
        k := k + 1;
      }
    }

    /** Of the input, exactly `got` was delivered. */
    ghost predicate Gave(input: seq<Bytes>, got: Bytes)
      requires NonEmpty(input)
      reads this, inner
    {
      Valid() && got == delivered && |got| <= |Flatten(input)| && inner.chunks == Skip(input, |got|)
    }

    /** One more read of this input. */
    method ReadMore(ghost input: seq<Bytes>, got: Bytes, size: nat) returns (result: Result<Bytes, ReadError>)
      requires NonEmpty(input) && size > 0 && Gave(input, got)
      modifies this, inner
      ensures Valid() && original == old(original) && budget == old(budget)
      ensures
        var take := Take(old(inner.chunks), size);
        && (result.Err? <==> take > 0 && !Fits(|got| + take, budget))
        && (result.Ok? ==>
              && |result.value| == take && Gave(input, got + result.value) && |got| + take <= |original|
              && inner.chunks == Skip(old(inner.chunks), take))
      ensures result.Ok? && result.value == [] ==> got == Row(original) && (terminated <==> HasNewline(original))
    {
      SkipTwice(input, |got|, Take(inner.chunks, size));
      result := Read(size);
    }

    /** ... which ends where the next of the reads to come does. */
    method ReadNext(ghost input: seq<Bytes>, got: Bytes, sizes: nat -> nat, k: nat, ghost ends: seq<nat>)
      returns (result: Result<Bytes, ReadError>)
      requires NonEmpty(input) && sizes(k) > 0 && Gave(input, got) && ToCome(ends, Pieces(inner.chunks), sizes, k, |got|)
      modifies this, inner
      ensures Valid() && original == old(original) && budget == old(budget)
      ensures result.Err? ==> ends != [] && !Fits(ends[0], budget)
      ensures result.Ok? ==> Gave(input, got + result.value) && |got + result.value| <= |original|
      ensures result.Ok? && result.value == [] ==>
        ends == [] && got == Row(original) && (terminated <==> HasNewline(original))
      ensures result.Ok? && result.value != [] ==>
        && ends != [] && Fits(ends[0], budget) && |got + result.value| == ends[0]
        && ToCome(ends[1..], Pieces(inner.chunks), sizes, k + 1, ends[0])
    {
      NextRead(ends, Pieces(inner.chunks), sizes, k, |got|);
      PiecesAfter(inner.chunks, sizes(k));
      result := ReadMore(input, got, sizes(k));
    }

    /** The row as a decoder reads it, which changes the budget as it goes along. */
    method ReadDecoded(schedule: Schedule, oversized: bool, sizes: nat -> nat) returns (row: Option<Bytes>)
      requires Valid() && delivered == [] && budget == Some(MAX_DISCOVERY_HEADER_BYTES)
      requires (forall k :: sizes(k) > 0) && Causal(schedule)
      modifies this, inner
      ensures Valid() && original == old(original)
      ensures row.Some? <==> Delivers(old(inner.chunks), sizes, schedule(Row(original), oversized))
      ensures row.Some? ==> row.value == Row(original) && (terminated <==> HasNewline(original))
      ensures row.Some? ==> |row.value| <= |old(Flatten(inner.chunks))| && inner.chunks == Skip(old(inner.chunks), |row.value|)
    {
      var got: Bytes, k, i := [], 0, 0;
      ghost var input, all := inner.chunks, schedule(Row(original), oversized);
      ghost var ends := Ends(Pieces(input), sizes, 0, 0);
      ghost var verdict := Passes(ends, 0, budget, all);
      SkipNone(input);
      assert all[0..] == all;
      while true
        invariant original == old(original) && |got| <= |original| && Gave(input, got)
        invariant 0 <= i <= |all| && forall j | 0 <= j < i :: all[j].point <= |got|
        invariant ToCome(ends, Pieces(inner.chunks), sizes, k, |got|)
        invariant verdict == Passes(ends, |got|, budget, all[i..])
        decreases |original| - |got|, |all| - i
      {
        var known := schedule(got, oversized);
        SeenSoFar(schedule, oversized, got, inner.Remaining(), all, i);
        if i < |known| {
          PassesChange(ends, |got|, budget, all, i);
          ChangeBudget(known[i].allowance);
          i := i + 1;
        } else {
          PassesRead(ends, |got|, budget, all, i);
          var chunk := ReadNext(input, got, sizes, k, ends);
          if chunk.Err? {
            return None;
          }
          if chunk.value == [] {
            assert got + [] == got;
            return Some(got);
          }
          got, k, ends := got + chunk.value, k + 1, ends[1..];
        }
      }
    }

    /** Drains to the end of the row; with `requireWhitespace`, only if the rest of the row is blank. */
    method DrainRow(requireWhitespace: bool) returns (accepted: bool)
      requires Valid() && Fits(|delivered|, budget)
      modifies this, inner
      ensures Valid() && original == old(original)
      ensures accepted <==>
                && Fits(|Row(original)|, budget)
                && (requireWhitespace ==> AllWhitespace(Row(old(inner.Remaining()))))
      ensures accepted ==> delivered == Row(original) && (terminated <==> HasNewline(original))
    {
      ghost var drained: Bytes := [];
      while true
        invariant Valid() && original == old(original) && budget == old(budget)
        invariant Fits(|delivered|, budget) && delivered == old(delivered) + drained
        invariant old(inner.Remaining()) == drained + inner.Remaining()
        invariant requireWhitespace ==> AllWhitespace(drained)
        decreases |original| - |delivered|
      {
        var chunk := Read(1024);
        if chunk.Err? {
          return false;
        }
        if chunk.value == [] {
          RestOfRow(old(delivered), drained, inner.Remaining(), old(inner.Remaining()));
          return true;
        }
        if requireWhitespace {
          BlankSoFar(old(delivered), drained, chunk.value, inner.Remaining());
          if !AllWhitespace(chunk.value) {
            assert old(inner.Remaining()) == drained + (chunk.value + inner.Remaining());
            return false;
          }
        }
        assert drained + (chunk.value + inner.Remaining()) == drained + chunk.value + inner.Remaining();
        drained := drained + chunk.value;
      }
    }
  }

  /** The changes known from the bytes delivered so far are the first ones of the whole row. */
  lemma {:induction false} SeenSoFar(
    schedule: Schedule, oversized: bool, got: Bytes, remaining: Bytes, all: seq<Change>, i: nat)
    requires Causal(schedule) && Plain(got) && all == schedule(Row(got + remaining), oversized)
    requires i <= |all| && forall j | 0 <= j < i :: all[j].point <= |got|
    ensures i < |schedule(got, oversized)| <==> i < |all| && all[i].point <= |got|
    ensures i < |schedule(got, oversized)| ==> schedule(got, oversized)[i] == all[i]
  {
    RowAfter(got, remaining);
    var row := Row(got + remaining);
    assert row[..|got|] == got;
    KnownNext(all, i, |got|);
  }

  lemma {:induction false} MovedBytes(delivered: Bytes, available: Bytes, take: nat, rest: Bytes)
    requires take <= |available|
    ensures delivered + (available + rest) == delivered + available[..take] + (available[take..] + rest)
    ensures available + rest == available[..take] + (available[take..] + rest)
  {
    assert available == available[..take] + available[take..];
  }

  /** With nothing left, or a newline next, the row is complete. */
  lemma {:induction false} AtEnd(delivered: Bytes, remaining: Bytes)
    requires Plain(delivered)
    ensures remaining == [] || remaining[0] == NEWLINE ==>
              Row(delivered + remaining) == delivered && (HasNewline(delivered + remaining) <==> remaining != [])
  {
    RowAfter(delivered, remaining);
  }

  /** At the end of the row a read takes nothing. */
  lemma {:induction false} NothingToTake(chunks: seq<Bytes>, size: nat)
    requires NonEmpty(chunks)
    ensures Flatten(chunks) == [] || Flatten(chunks)[0] == NEWLINE ==> Take(chunks, size) == 0
  {
    if chunks != [] {
      assert Flatten(chunks)[0] == chunks[0][0];
    }
  }

  /** Taking bytes of the current chunk before its newline keeps what was delivered plain. */
  lemma {:induction false} TakenIsPlain(delivered: Bytes, available: Bytes, take: nat)
    requires Plain(delivered) && take <= RowLength(available)
    ensures Plain(delivered + available[..take])
  {
    RowIsPlain(available, take);
    RowAfter(delivered, available[..take]);
  }

  /** ... and stays within the row. */
  lemma {:induction false} TakenIsInRow(delivered: Bytes, available: Bytes, rest: Bytes)
    requires Plain(delivered)
    ensures |delivered| + RowLength(available) <= |Row(delivered + (available + rest))|
  {
    PrefixRow(available, rest);
    RowAfter(delivered, available + rest);
  }

  /** The first chunk decides where the row ends, if it holds a newline. */
  lemma {:induction false} PrefixRow(available: Bytes, rest: Bytes)
    ensures RowLength(available) <= RowLength(available + rest)
    ensures RowLength(available) < |available| ==> RowLength(available) == RowLength(available + rest)
  {
    if available != [] {
      assert (available + rest)[1..] == available[1..] + rest;
      PrefixRow(available[1..], rest);
    }
  }

  // ---- The rows of a file -------------------------------------------------

  /** The complete rows of a file. */
  function CompleteRows(bytes: Bytes): seq<Bytes> {
    if !HasNewline(bytes) then [] else [Row(bytes)] + CompleteRows(bytes[RowLength(bytes) + 1..])
  }

  /** What follows its last newline. */
  function OpenTail(bytes: Bytes): Bytes {
    if !HasNewline(bytes) then bytes else OpenTail(bytes[RowLength(bytes) + 1..])
  }

  /** Rows, newlines and tail make up the file. */
  lemma {:induction false} RowsAreLossless(bytes: Bytes)
    ensures bytes == Flatten(Ended(CompleteRows(bytes))) + OpenTail(bytes)
    ensures forall row | row in CompleteRows(bytes) :: NEWLINE !in row
  {
    if HasNewline(bytes) {
      var n := RowLength(bytes);
      RowIsPlain(bytes, n);
      RowsAreLossless(bytes[n + 1..]);
      EndedCons(Row(bytes), CompleteRows(bytes[n + 1..]));
      SplitAtRow(bytes, Flatten(Ended(CompleteRows(bytes[n + 1..]))), OpenTail(bytes));
    }
  }

  lemma {:induction false} EndedCons(row: Bytes, rows: seq<Bytes>)
    ensures Flatten(Ended([row] + rows)) == row + [NEWLINE] + Flatten(Ended(rows))
  {
    assert ([row] + rows)[1..] == rows;
    var ended := Ended(rows);
    assert ([row + [NEWLINE]] + ended)[1..] == ended;
  }

  lemma {:induction false} SplitAtRow(bytes: Bytes, rows: Bytes, tail: Bytes)
    requires HasNewline(bytes) && bytes[RowLength(bytes) + 1..] == rows + tail
    ensures bytes == Row(bytes) + [NEWLINE] + rows + tail
  {
    var n := RowLength(bytes);
    assert bytes == bytes[..n] + [bytes[n]] + bytes[n + 1..];
  }

  function Ended(rows: seq<Bytes>): seq<Bytes> {
    if rows == [] then [] else [rows[0] + [NEWLINE]] + Ended(rows[1..])
  }
}
