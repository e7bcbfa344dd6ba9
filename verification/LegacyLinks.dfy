/** The link rules of the legacy export as the test by which rows are archived. */
module LegacyLinks {
  import opened Basics
  import opened Json
  import opened JsonlLedger
  import opened JsonPointer
  import opened LinkedRows

  /** A path into the records of one ledger, already split at its separators. */
  datatype LinkRule = LinkRule(ledger: string, segments: seq<string>, target: TargetKind)

  /** What one rule emits for a record of this ledger. */
  function RuleLinks(rule: LinkRule, ledger: string, value: Json): seq<Emission> {
    if rule.ledger == ledger then Collect(value, rule.segments, "", rule.target) else []
  }

  /** What the rules of this ledger emit for a record, rule by rule. */
  function Links(rules: seq<LinkRule>, ledger: string, value: Json): seq<Emission> {
    if rules == [] then [] else Links(rules[..|rules| - 1], ledger, value) + RuleLinks(rules[|rules| - 1], ledger, value)
  }

  /** `collect_link_values`: the loop over the rules of one ledger. */
  method CollectLinkValues(rules: seq<LinkRule>, ledger: string, value: Json) returns (collected: seq<Emission>)
    ensures collected == Links(rules, ledger, value)
  {
    collected := [];
    for i := 0 to |rules|
      invariant collected == Links(rules[..i], ledger, value)
    {
      assert rules[..i + 1][..i] == rules[..i];
      collected := PushLinks(rules[i], ledger, value, collected);
    }
    assert rules[..|rules|] == rules;
  }

  method PushLinks(rule: LinkRule, ledger: string, value: Json, output: seq<Emission>) returns (collected: seq<Emission>)
    ensures collected == output + RuleLinks(rule, ledger, value)
  {
    collected := output;
    if rule.ledger == ledger {
      collected := CollectRuleValues(value, rule.segments, "", rule.target, collected);
    }
  }

  /** Some rule of the ledger reaches a non-blank string of the record. */
  ghost predicate LinkedByRule(rules: seq<LinkRule>, ledger: string, value: Json) {
    exists i | 0 <= i < |rules| :: rules[i].ledger == ledger && ReachesSome(value, rules[i].segments)
  }

  /** `record_has_legacy_link` */
  predicate HasLink(rules: seq<LinkRule>, ledger: string, value: Json) {
    Links(rules, ledger, value) != []
  }

  /** The test holds exactly of the records that some rule of their ledger reaches into. */
  lemma {:induction false} HasLinkExactly(rules: seq<LinkRule>, ledger: string, value: Json)
    ensures HasLink(rules, ledger, value) <==> LinkedByRule(rules, ledger, value)
  {
    if rules != [] {
      var front, last := rules[..|rules| - 1], rules[|rules| - 1];
      HasLinkExactly(front, ledger, value);
      RuleLinksExactly(value, last.segments, last.target);
      LinkedByLast(rules, ledger, value);
    }
  }

  lemma {:induction false} LinkedByLast(rules: seq<LinkRule>, ledger: string, value: Json)
    requires rules != []
    ensures
      var front, last := rules[..|rules| - 1], rules[|rules| - 1];
      LinkedByRule(rules, ledger, value) <==>
        LinkedByRule(front, ledger, value) || (last.ledger == ledger && ReachesSome(value, last.segments))
  {
    var front := rules[..|rules| - 1];
    if LinkedByRule(front, ledger, value) {
      var i :| 0 <= i < |front| && front[i].ledger == ledger && ReachesSome(value, front[i].segments);
      assert rules[i] == front[i];
    }
    if LinkedByRule(rules, ledger, value) {
      var i :| 0 <= i < |rules| && rules[i].ledger == ledger && ReachesSome(value, rules[i].segments);
      assert i < |front| ==> front[i] == rules[i];
    }
  }

  function LinkTestOf(rules: seq<LinkRule>, ledger: string): LinkTest {
    (value: Json) => HasLink(rules, ledger, value)
  }

  /** The row a rule reaches into, or another kept row of its identity that one does. */
  ghost predicate KeptForALink(rules: seq<LinkRule>, ledger: string, kept: seq<Record>, r: Record) {
    || LinkedByRule(rules, ledger, r.value)
    || (RecordIdentity(r.value).Some?
        && exists q | q in kept :: LinkedByRule(rules, ledger, q.value) && RecordIdentity(q.value) == RecordIdentity(r.value))
  }

  /**
   * The archive of every strictly parsed ledger, by its rules: it holds every row some
   * rule reaches into, and no row but those and the rows that share their identity; its
   * lines are the listed source lines; and validation accepts it.
   */
  lemma {:induction false} ArchiveHoldsEveryLink(bytes: Bytes, parse: Parser, rules: seq<LinkRule>, ledger: string)
    requires Records(bytes, parse).Ok?
    ensures
      var rs, hasLink := Records(bytes, parse).value, LinkTestOf(rules, ledger);
      var kept := Selection(rs, hasLink);
      && (forall r | r in rs && LinkedByRule(rules, ledger, r.value) :: r in kept)
      && (forall r | r in kept :: r in rs && KeptForALink(rules, ledger, kept, r))
      && LinesMatch(Lines(Written(kept)), Numbers(kept), Lines(bytes))
      && Records(Written(kept), parse) == Ok(Renumbered(kept))
      && (forall i | 0 <= i < |kept| :: IsLinked(Renumbered(kept), hasLink, Renumbered(kept)[i]))
  {
    var rs, hasLink := Records(bytes, parse).value, LinkTestOf(rules, ledger);
    var kept := Selection(rs, hasLink);
    ArchiveLinesMatchSource(bytes, parse, hasLink);
    RecordsMeaning(Lines(bytes), parse, 1);
    SelectionIsIdempotent(rs, hasLink);
    KeptByRule(rs, rules, ledger);
  }

  lemma {:induction false} KeptByRule(rs: seq<Record>, rules: seq<LinkRule>, ledger: string)
    requires Ordered(rs)
    ensures
      var kept := Selection(rs, LinkTestOf(rules, ledger));
      && (forall r | r in rs && LinkedByRule(rules, ledger, r.value) :: r in kept)
      && (forall r | r in kept :: r in rs && KeptForALink(rules, ledger, kept, r))
  {
    var hasLink := LinkTestOf(rules, ledger);
    var kept, keep := Selection(rs, hasLink), LinkedIndices(rs, hasLink);
    PickedFrom(rs, keep, |rs|);
    forall r | r in rs && LinkedByRule(rules, ledger, r.value)
      ensures r in kept
    {
      var i :| 0 <= i < |rs| && rs[i] == r;
      HasLinkExactly(rules, ledger, r.value);
      assert i in keep;
    }
    forall r | r in kept
      ensures r in rs && KeptForALink(rules, ledger, kept, r)
    {
      var i :| 0 <= i < |rs| && i in keep && r == rs[i];
      HasLinkExactly(rules, ledger, r.value);
      if !hasLink(r.value) {
        var id := RecordIdentity(r.value).value;
        var n :| 0 <= n < |rs| && hasLink(rs[n].value) && RecordIdentity(rs[n].value) == Some(id);
        HasLinkExactly(rules, ledger, rs[n].value);
        assert n in keep && rs[n] in kept;
      }
    }
  }
}
