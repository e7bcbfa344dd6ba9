/**
 JSONL ledgers as bytes: splitting into physical lines, parsing into records
 and writing kept records back. The JSON parser is a parameter.
 */
module JsonlLedger {
  import opened Basics
  import opened Json

  type Parser = Bytes -> Option<Json>

  datatype Record = Record(line: nat, raw: Bytes, value: Json)

  // ---- Physical lines -----------------------------------------------------

  /** Where the first line ends: after its newline, or at the end of the input. */
  function LineEnd(bytes: Bytes): (n: nat)
    ensures n <= |bytes| && (bytes != [] ==> n > 0)
  {
    if bytes == [] then 0 else if bytes[0] == NEWLINE then 1 else 1 + LineEnd(bytes[1..])
  }

  function Lines(bytes: Bytes): seq<Bytes> {
    if bytes == [] then [] else [bytes[..LineEnd(bytes)]] + Lines(bytes[LineEnd(bytes)..])
  }

  /** Non-empty, with no newline except possibly as its last byte. */
  predicate IsLine(line: Bytes) {
    line != [] && forall k | 0 <= k < |line| - 1 :: line[k] != NEWLINE
  }

  predicate Terminated(line: Bytes) {
    line != [] && line[|line| - 1] == NEWLINE
  }

  /** A list of lines of which only the last may lack its newline. */
  predicate IsLineList(lines: seq<Bytes>) {
    && (forall i | 0 <= i < |lines| :: IsLine(lines[i]))
    && (forall i | 0 <= i < |lines| - 1 :: Terminated(lines[i]))
  }

  lemma {:induction false} LineEndIsFirstNewline(bytes: Bytes)
    requires bytes != []
    ensures IsLine(bytes[..LineEnd(bytes)])
    ensures LineEnd(bytes) < |bytes| ==> Terminated(bytes[..LineEnd(bytes)])
  {
    if bytes[0] != NEWLINE {
      var rest := bytes[1..];
      if rest != [] {
        LineEndIsFirstNewline(rest);
        var line := bytes[..LineEnd(bytes)];
        assert line[1..] == rest[..LineEnd(rest)];
        forall k | 0 <= k < |line| - 1
          ensures line[k] != NEWLINE
        {
          if k > 0 { assert line[k] == line[1..][k - 1]; }
        }
      }
    }
  }

  /** Splitting is lossless and produces lines. */
  lemma {:induction false} LinesAreLossless(bytes: Bytes)
    ensures Flatten(Lines(bytes)) == bytes && IsLineList(Lines(bytes))
    decreases |bytes|
  {
    if bytes != [] {
      var n := LineEnd(bytes);
      LineEndIsFirstNewline(bytes);
      LinesAreLossless(bytes[n..]);
      assert Lines(bytes)[1..] == Lines(bytes[n..]);
      forall i | 0 <= i < |Lines(bytes)| - 1
        ensures Terminated(Lines(bytes)[i])
      {
        if i > 0 { assert Lines(bytes)[i] == Lines(bytes[n..])[i - 1]; }
      }
    }
  }

  lemma {:induction false} LineEndOfLine(line: Bytes, rest: Bytes)
    requires IsLine(line) && (rest == [] || Terminated(line))
    ensures LineEnd(line + rest) == |line|
  {
    var all := line + rest;
    if |line| > 1 {
      assert all[1..] == line[1..] + rest;
      LineEndOfLine(line[1..], rest);
    } else {
      assert all[0] == line[0];
      assert line + [] == line;
      assert all[1..] == rest;
    }
  }

  /** Writing a list of lines and splitting again gives the same list. */
  lemma {:induction false} LinesOfFlatten(lines: seq<Bytes>)
    requires IsLineList(lines)
    ensures Lines(Flatten(lines)) == lines
  {
    if lines != [] {
      var rest := Flatten(lines[1..]);
      if |lines| == 1 {
        assert lines[1..] == [];
      }
      LineEndOfLine(lines[0], rest);
      LinesOfFlatten(lines[1..]);
      assert (lines[0] + rest)[..|lines[0]|] == lines[0] && (lines[0] + rest)[|lines[0]|..] == rest;
    }
  }

  function NewlineCount(bytes: Bytes): nat {
    if bytes == [] then 0 else (if bytes[0] == NEWLINE then 1 else 0) + NewlineCount(bytes[1..])
  }

  function PhysicalLineCount(bytes: Bytes): nat {
    if bytes == [] then 0 else NewlineCount(bytes) + if Terminated(bytes) then 0 else 1
  }

  /** Counting newlines, plus one for an unterminated tail, counts the lines. */
  lemma {:induction false} PhysicalLineCountIsExact(bytes: Bytes)
    ensures PhysicalLineCount(bytes) == |Lines(bytes)|
  {
    if bytes != [] {
      var rest := bytes[1..];
      PhysicalLineCountIsExact(rest);
      if bytes[0] != NEWLINE && rest != [] {
        assert bytes[LineEnd(bytes)..] == rest[LineEnd(rest)..];
      }
    }
  }

  /** The line of the remaining input that starts at `start` and ends at `end`. */
  lemma {:induction false} NextLine(bytes: Bytes, start: nat, end: nat)
    requires start < end <= |bytes|
    requires forall k | start <= k < end - 1 :: bytes[k] != NEWLINE
    requires bytes[end - 1] == NEWLINE || end == |bytes|
    ensures Lines(bytes[start..]) == [bytes[start..end]] + Lines(bytes[end..])
  {
    var rest := bytes[start..];
    assert rest == bytes[start..end] + bytes[end..];
    LineEndOfLine(bytes[start..end], bytes[end..]);
    assert rest[..end - start] == bytes[start..end] && rest[end - start..] == bytes[end..];
  }

  // ---- Records ------------------------------------------------------------

  function Content(line: Bytes): Bytes {
    if Terminated(line) then line[..|line| - 1] else line
  }

  predicate IsBlankLine(line: Bytes) {
    AllWhitespace(Content(line))
  }

  function Prepend(records: seq<Record>, rest: Result<seq<Record>, nat>): Result<seq<Record>, nat> {
    if rest.Err? then rest else Ok(records + rest.value)
  }

  /** The records of the lines from physical line number `line` on; Err names the first bad line. */
  function RecordsFrom(lines: seq<Bytes>, parse: Parser, line: nat): Result<seq<Record>, nat> {
    if lines == [] then Ok([])
    else if IsBlankLine(lines[0]) then RecordsFrom(lines[1..], parse, line + 1)
    else
      var value := parse(Content(lines[0]));
      if value.None? then Err(line)
      else Prepend([Record(line, lines[0], value.value)], RecordsFrom(lines[1..], parse, line + 1))
  }

  function Records(bytes: Bytes, parse: Parser): Result<seq<Record>, nat> {
    RecordsFrom(Lines(bytes), parse, 1)
  }

  /** r is what line r.line of `lines` (numbered from `first`) holds. */
  predicate Faithful(r: Record, lines: seq<Bytes>, parse: Parser, first: nat) {
    && first <= r.line < first + |lines|
    && r.raw == lines[r.line - first] && !IsBlankLine(r.raw) && parse(Content(r.raw)) == Some(r.value)
  }

  predicate Ordered(rs: seq<Record>) {
    forall i, j | 0 <= i < j < |rs| :: rs[i].line < rs[j].line
  }

  predicate Parses(line: Bytes, parse: Parser) {
    IsBlankLine(line) || parse(Content(line)).Some?
  }

  /** Parsing succeeds exactly when every non-blank line parses; otherwise it names the first that does not. */
  lemma {:induction false} ParseOutcome(lines: seq<Bytes>, parse: Parser, first: nat)
    ensures RecordsFrom(lines, parse, first).Ok? <==> AllParse(lines, parse)
    ensures RecordsFrom(lines, parse, first).Err? ==> IsFirstBad(lines, parse, RecordsFrom(lines, parse, first).error - first)
  {
    if lines != [] {
      ParseOutcome(lines[1..], parse, first + 1);
      ParseStep(lines, parse, first);
      AllParseCons(lines, parse);
      var later := RecordsFrom(lines[1..], parse, first + 1);
      if Parses(lines[0], parse) && later.Err? {
        FirstBadLater(lines, parse, later.error - first);
      }
    }
  }

  /** Line k does not parse, and all before it do. */
  predicate IsFirstBad(lines: seq<Bytes>, parse: Parser, k: int) {
    0 <= k < |lines| && !Parses(lines[k], parse) && AllParse(lines[..k], parse)
  }

  lemma {:induction false} FirstBadLater(lines: seq<Bytes>, parse: Parser, k: int)
    requires lines != [] && Parses(lines[0], parse) && IsFirstBad(lines[1..], parse, k - 1)
    ensures IsFirstBad(lines, parse, k)
  {
    assert lines[..k][1..] == lines[1..][..k - 1];
    AllParseCons(lines[..k], parse);
  }

  /** The first line decides, or the rest does. */
  lemma {:induction false} ParseStep(lines: seq<Bytes>, parse: Parser, first: nat)
    requires lines != []
    ensures var r, later := RecordsFrom(lines, parse, first), RecordsFrom(lines[1..], parse, first + 1);
            if !Parses(lines[0], parse) then r == Err(first)
            else (r.Ok? <==> later.Ok?) && (later.Err? ==> r == later)
  {
  }

  predicate AllParse(lines: seq<Bytes>, parse: Parser) {
    forall k | 0 <= k < |lines| :: Parses(lines[k], parse)
  }

  lemma {:induction false} AllParseCons(lines: seq<Bytes>, parse: Parser)
    requires lines != []
    ensures AllParse(lines, parse) <==> Parses(lines[0], parse) && AllParse(lines[1..], parse)
  {
    assert forall k | 1 <= k < |lines| :: lines[k] == lines[1..][k - 1];
  }

  lemma {:induction false} FaithfulLater(r: Record, lines: seq<Bytes>, parse: Parser, first: nat)
    requires lines != [] && Faithful(r, lines[1..], parse, first + 1)
    ensures Faithful(r, lines, parse, first)
  {
  }

  /** The records are lines of the input, in order, each with its number, bytes and value. */
  lemma {:induction false} RecordsMeaning(lines: seq<Bytes>, parse: Parser, first: nat)
    requires RecordsFrom(lines, parse, first).Ok?
    ensures var rs := RecordsFrom(lines, parse, first).value;
            Ordered(rs) && forall i | 0 <= i < |rs| :: Faithful(rs[i], lines, parse, first)
  {
    if lines != [] {
      var rest := lines[1..];
      RecordsMeaning(rest, parse, first + 1);
      var rs, later := RecordsFrom(lines, parse, first).value, RecordsFrom(rest, parse, first + 1).value;
      forall i | 0 <= i < |later|
        ensures Faithful(later[i], lines, parse, first) && later[i].line > first
      {
        FaithfulLater(later[i], lines, parse, first);
      }
      if !IsBlankLine(lines[0]) {
        assert rs == [rs[0]] + later;
        assert Faithful(rs[0], lines, parse, first);
      }
    }
  }

  /** Every non-blank line has its record. */
  lemma {:induction false} RecordsAreComplete(lines: seq<Bytes>, parse: Parser, first: nat, k: nat) returns (i: nat)
    requires RecordsFrom(lines, parse, first).Ok? && k < |lines| && !IsBlankLine(lines[k])
    ensures i < |RecordsFrom(lines, parse, first).value|
    ensures RecordsFrom(lines, parse, first).value[i].line == first + k
  {
    if k == 0 {
      i := 0;
    } else {
      i := RecordsAreComplete(lines[1..], parse, first + 1, k - 1);
      i := if IsBlankLine(lines[0]) then i else i + 1;
    }
  }

  lemma {:induction false} RecordsCons(line: Bytes, rest: seq<Bytes>, parse: Parser, n: nat)
    ensures RecordsFrom([line] + rest, parse, n) ==
            if IsBlankLine(line) then RecordsFrom(rest, parse, n + 1)
            else if parse(Content(line)).None? then Err(n)
            else Prepend([Record(n, line, parse(Content(line)).value)], RecordsFrom(rest, parse, n + 1))
  {
    assert ([line] + rest)[1..] == rest;
  }

  lemma {:induction false} PrependTwice(xs: seq<Record>, ys: seq<Record>, rest: Result<seq<Record>, nat>)
    ensures Prepend(xs, Prepend(ys, rest)) == Prepend(xs + ys, rest)
    ensures Prepend([], rest) == rest
  {
    if rest.Ok? {
      assert xs + (ys + rest.value) == xs + ys + rest.value;
      assert [] + rest.value == rest.value;
    }
  }

  method FindLineEnd(bytes: Bytes, start: nat) returns (end: nat)
    requires start < |bytes|
    ensures start < end <= |bytes|
    ensures Lines(bytes[start..]) == [bytes[start..end]] + Lines(bytes[end..])
  {
    end := start;
    while end < |bytes| && bytes[end] != NEWLINE
      invariant start <= end <= |bytes|
      invariant forall k | start <= k < end :: bytes[k] != NEWLINE
    {
      end := end + 1;
    }
    if end < |bytes| {
      end := end + 1;
    }
    NextLine(bytes, start, end);
  }

  method JsonlRecords(bytes: Bytes, parse: Parser) returns (result: Result<seq<Record>, nat>)
    ensures result == Records(bytes, parse)
  {
    var records: seq<Record> := [];
    var start, line := 0, 1;
    assert bytes[0..] == bytes;
    PrependTwice([], [], Records(bytes, parse));
    while start < |bytes|
      invariant 0 <= start <= |bytes| && line >= 1
      invariant Records(bytes, parse) == Prepend(records, RecordsFrom(Lines(bytes[start..]), parse, line))
      decreases |bytes| - start
    {
      var end := FindLineEnd(bytes, start);
      var raw := bytes[start..end];
      var content := if raw[|raw| - 1] == NEWLINE then raw[..|raw| - 1] else raw;
      RecordsCons(raw, Lines(bytes[end..]), parse, line);
      if !AllWhitespace(content) {
        var value := parse(content);
        if value.None? {
          return Err(line);
        }
        PrependTwice(records, [Record(line, raw, value.value)], RecordsFrom(Lines(bytes[end..]), parse, line + 1));
        records := records + [Record(line, raw, value.value)];
      }
      start, line := end, line + 1;
    }
    assert bytes[start..] == [] && records + [] == records;
    result := Ok(records);
  }

  // ---- Keeping some of the records ----------------------------------------

  /** The kept ones of the first n records, in order. */
  ghost function Picked(rs: seq<Record>, keep: set<int>, n: nat): seq<Record>
    requires n <= |rs|
  {
    if n == 0 then []
    else if n - 1 in keep then Picked(rs, keep, n - 1) + [rs[n - 1]]
    else Picked(rs, keep, n - 1)
  }

  function Raws(rs: seq<Record>): (raws: seq<Bytes>)
    ensures |raws| == |rs| && forall i | 0 <= i < |rs| :: raws[i] == rs[i].raw
  {
    if rs == [] then [] else [rs[0].raw] + Raws(rs[1..])
  }

  function Numbers(rs: seq<Record>): (lines: seq<nat>)
    ensures |lines| == |rs| && forall i | 0 <= i < |rs| :: lines[i] == rs[i].line
  {
    if rs == [] then [] else [rs[0].line] + Numbers(rs[1..])
  }

  /** The bytes of a file holding these rows. */
  function Written(rs: seq<Record>): Bytes {
    Flatten(Raws(rs))
  }

  /** The same rows at physical lines `first`, `first + 1` and so on. */
  function Renumbered(rs: seq<Record>, first: nat := 1): (out: seq<Record>)
    ensures |out| == |rs|
    ensures forall i | 0 <= i < |rs| :: out[i] == Record(first + i, rs[i].raw, rs[i].value)
  {
    if rs == [] then [] else [Record(first, rs[0].raw, rs[0].value)] + Renumbered(rs[1..], first + 1)
  }

  lemma {:induction false} WrittenAppend(rs: seq<Record>, r: Record)
    ensures Written(rs + [r]) == Written(rs) + r.raw
  {
    assert Raws(rs + [r]) == Raws(rs) + [r.raw];
    FlattenAppend(Raws(rs), [r.raw]);
    assert Flatten([r.raw]) == r.raw + Flatten([]);
  }

  /** Picked rows are the kept rows, each once and in order. */
  lemma {:induction false} PickedFrom(rs: seq<Record>, keep: set<int>, n: nat)
    requires n <= |rs| && Ordered(rs)
    ensures var p := Picked(rs, keep, n);
            && Ordered(p)
            && (forall r | r in p :: exists j | 0 <= j < n :: j in keep && r == rs[j])
            && (forall j | 0 <= j < n && j in keep :: rs[j] in p)
  {
    if n > 0 {
      PickedFrom(rs, keep, n - 1);
      var before, p := Picked(rs, keep, n - 1), Picked(rs, keep, n);
      assert p == before || p == before + [rs[n - 1]];
      forall i, j | 0 <= i < j < |p|
        ensures p[i].line < p[j].line
      {
        assert p[i] in before;
        if j == |before| {
          var k :| 0 <= k < n - 1 && k in keep && p[i] == rs[k];
        }
      }
      forall r | r in p
        ensures exists j | 0 <= j < n :: j in keep && r == rs[j]
      {
        if r in before {
          var k :| 0 <= k < n - 1 && k in keep && r == rs[k];
        }
      }
    }
  }

  lemma {:induction false} PickingAll(rs: seq<Record>, keep: set<int>, n: nat)
    requires n <= |rs| && forall i | 0 <= i < n :: i in keep
    ensures Picked(rs, keep, n) == rs[..n]
  {
    if n > 0 {
      PickingAll(rs, keep, n - 1);
    }
  }

  /** The first n indices. */
  function UpTo(n: nat): (indices: set<int>)
    ensures forall i: int :: i in indices <==> 0 <= i < n
  {
    if n == 0 then {} else UpTo(n - 1) + {n - 1}
  }

  /** Keeping fewer rows makes the file shorter. */
  lemma {:induction false} PickingFewerShortens(rs: seq<Record>, keep: set<int>, more: set<int>, n: nat)
    requires n <= |rs| && keep <= more && forall i | 0 <= i < |rs| && i in more :: rs[i].raw != []
    ensures |Written(Picked(rs, keep, n))| <= |Written(Picked(rs, more, n))|
    ensures (exists i | 0 <= i < n :: i in more && i !in keep) ==>
              |Written(Picked(rs, keep, n))| < |Written(Picked(rs, more, n))|
  {
    if n > 0 {
      PickingFewerShortens(rs, keep, more, n - 1);
      WrittenAppend(Picked(rs, keep, n - 1), rs[n - 1]);
      WrittenAppend(Picked(rs, more, n - 1), rs[n - 1]);
    }
  }

  /** Concatenating kept rows and parsing again yields exactly those rows, renumbered. */
  lemma {:induction false} KeptRowsReparse(bytes: Bytes, parse: Parser, keep: set<int>)
    requires Records(bytes, parse).Ok?
    ensures var rs := Records(bytes, parse).value;
            var p := Picked(rs, keep, |rs|);
            && Ordered(rs) && Ordered(p)
            && Lines(Written(p)) == Raws(p)
            && Records(Written(p), parse) == Ok(Renumbered(p))
            && (forall i | 0 <= i < |p| :: Faithful(p[i], Lines(bytes), parse, 1) && p[i].raw != [])
  {
    var lines := Lines(bytes);
    var rs := Records(bytes, parse).value;
    var p := Picked(rs, keep, |rs|);
    LinesAreLossless(bytes);
    RecordsMeaning(lines, parse, 1);
    PickedFrom(rs, keep, |rs|);
    forall i | 0 <= i < |p|
      ensures Faithful(p[i], lines, parse, 1)
    {
      assert p[i] in p;
    }
    KeptRowsAreLines(p, lines, parse);
    LinesOfFlatten(Raws(p));
    GoodRowsParse(p, lines, parse, 1);
  }

  /** Only the last physical line can lack its newline, and order is kept. */
  lemma {:induction false} KeptRowsAreLines(p: seq<Record>, lines: seq<Bytes>, parse: Parser)
    requires IsLineList(lines) && Ordered(p) && forall i | 0 <= i < |p| :: Faithful(p[i], lines, parse, 1)
    ensures IsLineList(Raws(p))
  {
    forall i | 0 <= i < |p|
      ensures IsLine(Raws(p)[i]) && (i < |p| - 1 ==> Terminated(Raws(p)[i]))
    {
      assert Faithful(p[i], lines, parse, 1);
      if i < |p| - 1 {
        assert Faithful(p[i + 1], lines, parse, 1) && p[i].line < p[i + 1].line;
      }
    }
  }

  lemma {:induction false} GoodRowsParse(p: seq<Record>, lines: seq<Bytes>, parse: Parser, first: nat)
    requires forall i | 0 <= i < |p| :: Faithful(p[i], lines, parse, 1)
    ensures RecordsFrom(Raws(p), parse, first) == Ok(Renumbered(p, first))
  {
    if p != [] {
      GoodRowsParse(p[1..], lines, parse, first + 1);
      assert Faithful(p[0], lines, parse, 1);
      RecordsCons(p[0].raw, Raws(p[1..]), parse, first);
    }
  }
}
