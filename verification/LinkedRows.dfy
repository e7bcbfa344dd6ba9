/** Selection of ledger rows linked to retired records, with line provenance. */
module LinkedRows {
  import opened Basics
  import opened Json
  import opened JsonlLedger

  type LinkTest = Json -> bool

  /** Some row of this identity has a legacy link. */
  predicate IdIsLinked(rs: seq<Record>, hasLink: LinkTest, id: string) {
    exists i | 0 <= i < |rs| :: hasLink(rs[i].value) && RecordIdentity(rs[i].value) == Some(id)
  }

  function LinkedIds(rs: seq<Record>, hasLink: LinkTest): (ids: set<string>)
    ensures forall id :: id in ids <==> IdIsLinked(rs, hasLink, id)
  {
    set i | 0 <= i < |rs| && hasLink(rs[i].value) && RecordIdentity(rs[i].value).Some? :: RecordIdentity(rs[i].value).value
  }

  /** The row has a legacy link, or some row of the same identity has one. */
  predicate IsLinked(rs: seq<Record>, hasLink: LinkTest, r: Record) {
    || hasLink(r.value)
    || (RecordIdentity(r.value).Some? && IdIsLinked(rs, hasLink, RecordIdentity(r.value).value))
  }

  function LinkedIndices(rs: seq<Record>, hasLink: LinkTest): set<int> {
    set i: int | 0 <= i < |rs| && IsLinked(rs, hasLink, rs[i])
  }

  ghost function Selection(rs: seq<Record>, hasLink: LinkTest): seq<Record> {
    Picked(rs, LinkedIndices(rs, hasLink), |rs|)
  }

  method SelectLinked(records: seq<Record>, hasLink: LinkTest) returns (selected: Bytes, sourceLines: seq<nat>)
    ensures selected == Written(Selection(records, hasLink))
    ensures sourceLines == Numbers(Selection(records, hasLink))
  {
    ghost var keep := LinkedIndices(records, hasLink);
    var linkedIds := LinkedIds(records, hasLink);
    selected, sourceLines := [], [];
    for i := 0 to |records|
      invariant selected == Written(Picked(records, keep, i))
      invariant sourceLines == Numbers(Picked(records, keep, i))
    {
      var r := records[i];
      var id := RecordIdentity(r.value);
      if hasLink(r.value) || (id.Some? && id.value in linkedIds) {
        assert i in keep;
        WrittenAppend(Picked(records, keep, i), r);
        selected := selected + r.raw;
        sourceLines := sourceLines + [r.line];
      }
    }
  }

  /** Refuses an archive that does not parse or holds an unrelated row. */
  method ValidateLinkedRecords(bytes: Bytes, parse: Parser, hasLink: LinkTest) returns (accepted: bool)
    ensures accepted <==>
              && Records(bytes, parse).Ok?
              && var rs := Records(bytes, parse).value;
                 forall i | 0 <= i < |rs| :: IsLinked(rs, hasLink, rs[i])
  {
    var parsed := JsonlRecords(bytes, parse);
    if parsed.Err? {
      return false;
    }
    var records := parsed.value;
    var linkedIds := LinkedIds(records, hasLink);
    for i := 0 to |records|
      invariant forall k | 0 <= k < i :: IsLinked(records, hasLink, records[k])
    {
      var r := records[i];
      var id := RecordIdentity(r.value);
      if !hasLink(r.value) && !(id.Some? && id.value in linkedIds) {
        assert !IsLinked(records, hasLink, records[i]);
        return false;
      }
    }
    accepted := true;
  }

  /** Keeping whole identities keeps the set of linked identities, so every kept row stays linked. */
  lemma {:induction false} SelectionIsClosed(rs: seq<Record>, hasLink: LinkTest, i: nat)
    requires Ordered(rs) && i < |Selection(rs, hasLink)|
    ensures var again := Renumbered(Selection(rs, hasLink));
            IsLinked(again, hasLink, again[i])
  {
    PickedFrom(rs, LinkedIndices(rs, hasLink), |rs|);
    var picked := Selection(rs, hasLink);
    var again := Renumbered(picked);
    assert picked[i] in picked;
    var j :| 0 <= j < |rs| && j in LinkedIndices(rs, hasLink) && picked[i] == rs[j];
    if !hasLink(rs[j].value) {
      var id := RecordIdentity(rs[j].value).value;
      var n :| 0 <= n < |rs| && hasLink(rs[n].value) && RecordIdentity(rs[n].value) == Some(id);
      assert n in LinkedIndices(rs, hasLink);
      assert rs[n] in picked;
      var k :| 0 <= k < |picked| && picked[k] == rs[n];
      assert again[k].value == rs[n].value;
    }
  }

  /** Re-parsed, the selected rows are all selected again. */
  lemma {:induction false} SelectionIsIdempotent(rs: seq<Record>, hasLink: LinkTest)
    requires Ordered(rs)
    ensures var again := Renumbered(Selection(rs, hasLink));
            && Selection(again, hasLink) == again
            && Written(again) == Written(Selection(rs, hasLink))
            && (forall i | 0 <= i < |again| :: IsLinked(again, hasLink, again[i]))
  {
    var picked := Selection(rs, hasLink);
    var again := Renumbered(picked);
    forall i | 0 <= i < |again|
      ensures IsLinked(again, hasLink, again[i])
    {
      SelectionIsClosed(rs, hasLink, i);
    }
    PickingAll(again, LinkedIndices(again, hasLink), |again|);
    assert again[..|again|] == again;
    assert Raws(again) == Raws(picked);
  }

  /** Each archive line is byte-equal to the source line listed for it. */
  predicate LinesMatch(archive: seq<Bytes>, sourceLines: seq<nat>, source: seq<Bytes>) {
    && |archive| == |sourceLines|
    && forall n | 0 <= n < |sourceLines| ::
         1 <= sourceLines[n] <= |source| && archive[n] == source[sourceLines[n] - 1]
  }

  /** Looking up the source line of any archived record finds an entry. */
  predicate EveryLineListed(archived: seq<Record>, sourceLines: seq<nat>) {
    forall i | 0 <= i < |archived| :: 1 <= archived[i].line <= |sourceLines|
  }

  lemma {:induction false} FaithfulLine(r: Record, lines: seq<Bytes>, parse: Parser)
    requires Faithful(r, lines, parse, 1)
    ensures 1 <= r.line <= |lines| && r.raw == lines[r.line - 1]
  {
  }

  lemma {:induction false} FaithfulLines(p: seq<Record>, lines: seq<Bytes>, parse: Parser)
    requires forall i | 0 <= i < |p| :: Faithful(p[i], lines, parse, 1)
    ensures LinesMatch(Raws(p), Numbers(p), lines)
  {
    forall n | 0 <= n < |p|
      ensures 1 <= p[n].line <= |lines| && p[n].raw == lines[p[n].line - 1]
    {
      FaithfulLine(p[n], lines, parse);
    }
  }

  /**
   The archived linked rows of every strictly parsed ledger: archive line N is
   byte-equal to source line sourceLines[N] (N from zero, source lines from
   one), and every archived record finds its entry in that list.
   */
  lemma {:induction false} ArchiveLinesMatchSource(bytes: Bytes, parse: Parser, hasLink: LinkTest)
    requires Records(bytes, parse).Ok?
    ensures var picked := Selection(Records(bytes, parse).value, hasLink);
            && LinesMatch(Lines(Written(picked)), Numbers(picked), Lines(bytes))
            && Records(Written(picked), parse) == Ok(Renumbered(picked))
            && EveryLineListed(Renumbered(picked), Numbers(picked))
  {
    var rs := Records(bytes, parse).value;
    KeptRowsReparse(bytes, parse, LinkedIndices(rs, hasLink));
    FaithfulLines(Selection(rs, hasLink), Lines(bytes), parse);
  }

  /** Validation accepts the archive, and selecting from it again changes nothing. */
  lemma {:induction false} ArchiveIsClosed(bytes: Bytes, parse: Parser, hasLink: LinkTest)
    requires Records(bytes, parse).Ok?
    ensures var archive := Written(Selection(Records(bytes, parse).value, hasLink));
            && Records(archive, parse).Ok?
            && var again := Records(archive, parse).value;
               && (forall i | 0 <= i < |again| :: IsLinked(again, hasLink, again[i]))
               && Written(Selection(again, hasLink)) == archive
  {
    var rs := Records(bytes, parse).value;
    KeptRowsReparse(bytes, parse, LinkedIndices(rs, hasLink));
    SelectionIsIdempotent(rs, hasLink);
  }
}
