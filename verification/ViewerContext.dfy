/**
 * The viewer context: which teams an authenticated principal may navigate, and for
 * each the latest run and the viewer's current member run.
 */
module ViewerContext {
  import opened Basics
  import opened Ordering

  datatype ActorKind = AgentMember | OtherActor(name: string)

  datatype Actor = Actor(kind: ActorKind, id: string)

  datatype Principal = Principal(actor: Actor, authority: seq<Actor>, localOperator: bool)

  datatype Team = Team(teamId: string, displayName: string, host: string, members: seq<string>)

  datatype TeamRun = TeamRun(teamRunId: string, teamId: string, updatedAt: string)

  datatype MemberRun = MemberRun(
    memberRunId: string, teamRunId: string, member: string, active: bool, generation: nat, sourceOrder: nat)

  datatype Facts = Facts(teams: seq<Team>, runs: seq<TeamRun>, memberRuns: seq<MemberRun>)

  datatype Role = Operator | Host | Member

  datatype TeamRow = TeamRow(
    teamId: string, displayName: string, role: Role, viewer: string, conversation: string,
    latestRun: Option<string>, teamRunIds: seq<string>, currentMemberRun: Option<string>)

  datatype Projection = Projection(viewer: Actor, teams: seq<TeamRow>)

  datatype QueryError = UnsupportedPrincipal

  // ---- The projection ----

  predicate IsMember(a: Actor, member: string) {
    a.kind == AgentMember && a.id == member
  }

  predicate HasAgentMember(p: Principal, member: string) {
    IsMember(p.actor, member) || exists i | 0 <= i < |p.authority| :: IsMember(p.authority[i], member)
  }

  /** The first of the members that is the principal. */
  function FirstOwn(p: Principal, members: seq<string>): (r: Option<string>)
    ensures r.Some? <==> exists i | 0 <= i < |members| :: HasAgentMember(p, members[i])
    ensures r.Some? ==> r.value in members && HasAgentMember(p, r.value)
  {
    if members == [] then None
    else if HasAgentMember(p, members[0]) then Some(members[0])
    else
      var rest := members[1..];
      assert forall i | 1 <= i < |members| :: members[i] == rest[i - 1];
      FirstOwn(p, rest)
  }

  /** The role in a team and the member it is seen as, or nothing. */
  function RoleIn(p: Principal, t: Team): Option<(Role, string)> {
    if HasAgentMember(p, t.host) then Some((Host, t.host))
    else match FirstOwn(p, t.members)
      case Some(member) => Some((Member, member))
      case None => if p.localOperator then Some((Operator, t.host)) else None
  }

  predicate RunLe(a: TeamRun, b: TeamRun) {
    if a.updatedAt == b.updatedAt then TextLe(a.teamRunId, b.teamRunId) else TextLe(a.updatedAt, b.updatedAt)
  }

  /** The greatest run of the team, the last one among equals. */
  function LatestRun(runs: seq<TeamRun>, teamId: string): Option<TeamRun> {
    if runs == [] then None
    else
      var best, r := LatestRun(runs[..|runs| - 1], teamId), runs[|runs| - 1];
      if r.teamId != teamId then best
      else if best.Some? && !RunLe(best.value, r) then best
      else Some(r)
  }

  predicate MemberRunLe(a: MemberRun, b: MemberRun) {
    a.generation < b.generation || (a.generation == b.generation && a.sourceOrder <= b.sourceOrder)
  }

  predicate IsCandidate(r: MemberRun, teamRunId: string, member: string) {
    r.teamRunId == teamRunId && r.member == member && r.active
  }

  function CurrentRun(runs: seq<MemberRun>, teamRunId: string, member: string): Option<MemberRun> {
    if runs == [] then None
    else
      var best, r := CurrentRun(runs[..|runs| - 1], teamRunId, member), runs[|runs| - 1];
      if !IsCandidate(r, teamRunId, member) then best
      else if best.Some? && !MemberRunLe(best.value, r) then best
      else Some(r)
  }

  function RunKey(teamId: string, r: TeamRun): Option<Keyed<()>> {
    if r.teamId == teamId then Some(Keyed(r.teamRunId, ())) else None
  }

  function RunKeys(runs: seq<TeamRun>, teamId: string): seq<Keyed<()>> {
    FilterMap(runs, r => RunKey(teamId, r))
  }

  function Keys(rows: seq<Keyed<()>>): (ids: seq<string>)
    ensures |ids| == |rows| && forall i | 0 <= i < |ids| :: ids[i] == rows[i].key
  {
    if rows == [] then [] else Keys(rows[..|rows| - 1]) + [rows[|rows| - 1].key]
  }

  function Values<T>(rows: seq<Keyed<T>>): (values: seq<T>)
    ensures |values| == |rows| && forall i | 0 <= i < |values| :: values[i] == rows[i].value
  {
    if rows == [] then [] else Values(rows[..|rows| - 1]) + [rows[|rows| - 1].value]
  }

  function ProjectTeam(p: Principal, facts: Facts, t: Team): Option<Keyed<TeamRow>> {
    match RoleIn(p, t)
    case None => None
    case Some((role, viewer)) =>
      var latest := LatestRun(facts.runs, t.teamId);
      var current := if latest.None? then None else CurrentRun(facts.memberRuns, latest.value.teamRunId, viewer);
      Some(Keyed(t.teamId, TeamRow(
        t.teamId, t.displayName, role, viewer,
        if role == Member then viewer else "host",
        if latest.None? then None else Some(latest.value.teamRunId),
        Keys(Sort(RunKeys(facts.runs, t.teamId))),
        if current.None? then None else Some(current.value.memberRunId))))
  }

  function Rows(p: Principal, facts: Facts): seq<Keyed<TeamRow>> {
    FilterMap(facts.teams, t => ProjectTeam(p, facts, t))
  }

  function Project(p: Principal, facts: Facts): Result<Projection, QueryError> {
    if p.localOperator || p.actor.kind == AgentMember
    then Ok(Projection(p.actor, Values(Sort(Rows(p, facts)))))
    else Err(UnsupportedPrincipal)
  }

  // ---- What the selections mean ----

  predicate IsLatest(runs: seq<TeamRun>, teamId: string, r: TeamRun) {
    r in runs && r.teamId == teamId && forall o | o in runs && o.teamId == teamId :: RunLe(o, r)
  }

  lemma {:induction false} RunLeTransitive(a: TeamRun, b: TeamRun, c: TeamRun)
    requires RunLe(a, b) && RunLe(b, c)
    ensures RunLe(a, c)
  {
    if a.updatedAt == b.updatedAt == c.updatedAt {
      TextLeTransitive(a.teamRunId, b.teamRunId, c.teamRunId);
    } else if a.updatedAt != b.updatedAt && b.updatedAt != c.updatedAt {
      TextLeTransitive(a.updatedAt, b.updatedAt, c.updatedAt);
      if a.updatedAt == c.updatedAt { TextLeAntisymmetric(a.updatedAt, b.updatedAt); }
    }
  }

  lemma {:induction false} RunLeTotal(a: TeamRun, b: TeamRun)
    ensures RunLe(a, b) || RunLe(b, a)
  {
    TextLeTotal(a.teamRunId, b.teamRunId);
    TextLeTotal(a.updatedAt, b.updatedAt);
  }

  /** No later than the other run: by the time of update, and by the id of the run at the same time. */
  ghost predicate NoLater(a: TeamRun, b: TeamRun) {
    if a.updatedAt == b.updatedAt then NotAfter(a.teamRunId, b.teamRunId) else NotAfter(a.updatedAt, b.updatedAt)
  }

  lemma {:induction false} RunLeExactly(a: TeamRun, b: TeamRun)
    ensures RunLe(a, b) <==> NoLater(a, b)
  {
    TextLeExactly(a.teamRunId, b.teamRunId);
    TextLeExactly(a.updatedAt, b.updatedAt);
  }

  /** A run of the team that no other run of the team is later than. */
  ghost predicate IsNewest(runs: seq<TeamRun>, teamId: string, r: TeamRun) {
    r in runs && r.teamId == teamId && forall o | o in runs && o.teamId == teamId :: NoLater(o, r)
  }

  lemma {:induction false} IsLatestExactly(runs: seq<TeamRun>, teamId: string, r: TeamRun)
    ensures IsLatest(runs, teamId, r) <==> IsNewest(runs, teamId, r)
  {
    forall o | o in runs && o.teamId == teamId
      ensures RunLe(o, r) <==> NoLater(o, r)
    {
      RunLeExactly(o, r);
    }
  }

  /** The latest run is a newest run of the team, and is missing only when the team has none. */
  lemma {:induction false} LatestMeaning(runs: seq<TeamRun>, teamId: string)
    ensures LatestRun(runs, teamId).None? <==> forall r | r in runs :: r.teamId != teamId
    ensures LatestRun(runs, teamId).Some? ==> IsNewest(runs, teamId, LatestRun(runs, teamId).value)
  {
    LatestIsGreatest(runs, teamId);
    if LatestRun(runs, teamId).Some? { IsLatestExactly(runs, teamId, LatestRun(runs, teamId).value); }
  }

  lemma {:induction false} LatestIsGreatest(runs: seq<TeamRun>, teamId: string)
    ensures LatestRun(runs, teamId).None? <==> forall r | r in runs :: r.teamId != teamId
    ensures LatestRun(runs, teamId).Some? ==> IsLatest(runs, teamId, LatestRun(runs, teamId).value)
  {
    if runs != [] {
      var front, r := runs[..|runs| - 1], runs[|runs| - 1];
      LatestIsGreatest(front, teamId);
      assert runs == front + [r];
      var best := LatestRun(front, teamId);
      RunLeTotal(r, r);
      if r.teamId == teamId && best.Some? {
        RunLeTotal(best.value, r);
        if RunLe(best.value, r) {
          forall o | o in front && o.teamId == teamId
            ensures RunLe(o, r)
          {
            RunLeTransitive(o, best.value, r);
          }
        }
      }
    }
  }

  /** An active run of this member in this team run. */
  predicate Runs(r: MemberRun, teamRunId: string, member: string) {
    r.active && r.member == member && r.teamRunId == teamRunId
  }

  /** No other active run has a higher generation, nor of the same generation a higher source order. */
  predicate IsCurrent(runs: seq<MemberRun>, teamRunId: string, member: string, r: MemberRun) {
    && r in runs && Runs(r, teamRunId, member)
    && forall o | o in runs && Runs(o, teamRunId, member) ::
         o.generation <= r.generation && (o.generation == r.generation ==> o.sourceOrder <= r.sourceOrder)
  }

  lemma {:induction false} CurrentMeaning(runs: seq<MemberRun>, teamRunId: string, member: string)
    ensures CurrentRun(runs, teamRunId, member).None? <==> forall r | r in runs :: !Runs(r, teamRunId, member)
    ensures CurrentRun(runs, teamRunId, member).Some? ==>
              IsCurrent(runs, teamRunId, member, CurrentRun(runs, teamRunId, member).value)
  {
    if runs != [] {
      var front, last := runs[..|runs| - 1], runs[|runs| - 1];
      CurrentMeaning(front, teamRunId, member);
      assert runs == front + [last] && last in runs;
      assert Runs(last, teamRunId, member) <==> IsCandidate(last, teamRunId, member);
    }
  }

  /** The actor itself or one of those it has the authority of is this agent member. */
  predicate Acts(p: Principal, member: string) {
    Actor(AgentMember, member) in [p.actor] + p.authority
  }

  lemma {:induction false} ActsExactly(p: Principal, member: string)
    ensures HasAgentMember(p, member) <==> Acts(p, member)
  {
    if Acts(p, member) && !IsMember(p.actor, member) {
      var i :| 0 <= i < |p.authority| && p.authority[i] == Actor(AgentMember, member);
    }
    if HasAgentMember(p, member) && !IsMember(p.actor, member) {
      var i :| 0 <= i < |p.authority| && IsMember(p.authority[i], member);
      assert p.authority[i] == Actor(AgentMember, member);
    }
  }

  /** The principal is host or member of the team, or sees every team as local operator. */
  predicate Visible(p: Principal, t: Team) {
    Acts(p, t.host) || (exists i | 0 <= i < |t.members| :: Acts(p, t.members[i])) || p.localOperator
  }

  /** Host before member before operator; a member is seen as the first own entry of the roster. */
  predicate RoleMeans(p: Principal, t: Team, row: TeamRow) {
    match row.role
    case Host => Acts(p, t.host) && row.viewer == t.host && row.conversation == "host"
    case Member =>
      && !Acts(p, t.host) && row.conversation == row.viewer
      && exists i | 0 <= i < |t.members| ::
           && t.members[i] == row.viewer && Acts(p, t.members[i])
           && forall j | 0 <= j < i :: !Acts(p, t.members[j])
    case Operator =>
      && p.localOperator && row.viewer == t.host && row.conversation == "host"
      && !Acts(p, t.host) && forall j | 0 <= j < |t.members| :: !Acts(p, t.members[j])
  }

  /** How many runs of the team have this id. */
  function Occurrences(runs: seq<TeamRun>, teamId: string, id: string): nat {
    if runs == [] then 0
    else
      var last := runs[|runs| - 1];
      Occurrences(runs[..|runs| - 1], teamId, id) + if last.teamId == teamId && last.teamRunId == id then 1 else 0
  }

  lemma {:induction false} KeysOccur(runs: seq<TeamRun>, teamId: string, id: string)
    ensures multiset(Keys(RunKeys(runs, teamId)))[id] == Occurrences(runs, teamId, id)
  {
    if runs != [] {
      KeysOccur(runs[..|runs| - 1], teamId, id);
      var keys := RunKeys(runs[..|runs| - 1], teamId);
      if runs[|runs| - 1].teamId == teamId {
        var key := Keyed(runs[|runs| - 1].teamRunId, ());
        assert (keys + [key])[..|keys|] == keys;
        assert Keys(keys + [key]) == Keys(keys) + [key.key];
      }
    }
  }

  ghost predicate RunsMean(facts: Facts, t: Team, row: TeamRow) {
    && (row.latestRun.None? <==> forall r | r in facts.runs :: r.teamId != t.teamId)
    && (row.latestRun.Some? ==>
          exists r :: IsNewest(facts.runs, t.teamId, r) && r.teamRunId == row.latestRun.value)
    && (forall i, j | 0 <= i < j < |row.teamRunIds| :: NotAfter(row.teamRunIds[i], row.teamRunIds[j]))
    && (forall id :: multiset(row.teamRunIds)[id] == Occurrences(facts.runs, t.teamId, id))
    && (row.currentMemberRun.None? <==>
          row.latestRun.None?
          || forall r | r in facts.memberRuns :: !Runs(r, row.latestRun.value, row.viewer))
    && (row.currentMemberRun.Some? ==>
          exists r :: IsCurrent(facts.memberRuns, row.latestRun.value, row.viewer, r)
                      && r.memberRunId == row.currentMemberRun.value)
  }

  ghost predicate RowMeans(p: Principal, facts: Facts, t: Team, row: TeamRow) {
    && row.teamId == t.teamId && row.displayName == t.displayName
    && RoleMeans(p, t, row) && RunsMean(facts, t, row)
  }

  lemma {:induction false} FirstOwnIsFirst(p: Principal, members: seq<string>) returns (i: nat)
    requires FirstOwn(p, members).Some?
    ensures i < |members| && members[i] == FirstOwn(p, members).value && HasAgentMember(p, members[i])
    ensures forall j | 0 <= j < i :: !HasAgentMember(p, members[j])
  {
    if HasAgentMember(p, members[0]) {
      i := 0;
    } else {
      var k := FirstOwnIsFirst(p, members[1..]);
      i := k + 1;
      assert forall j | 1 <= j < i :: members[j] == members[1..][j - 1];
    }
  }

  function KeyOf(row: Keyed<()>): Option<string> {
    Some(row.key)
  }

  lemma {:induction false} KeysAsFilterMap(rows: seq<Keyed<()>>)
    ensures Keys(rows) == FilterMap(rows, KeyOf)
  {
    if rows != [] { KeysAsFilterMap(rows[..|rows| - 1]); }
  }

  lemma {:induction false} KeysMultiset(xs: seq<Keyed<()>>, ys: seq<Keyed<()>>)
    requires multiset(xs) == multiset(ys)
    ensures multiset(Keys(xs)) == multiset(Keys(ys))
  {
    KeysAsFilterMap(xs);
    KeysAsFilterMap(ys);
    FilterMapPermutes(xs, ys, KeyOf);
  }

  lemma {:induction false} RoleHasMeaning(p: Principal, facts: Facts, t: Team)
    ensures ProjectTeam(p, facts, t).Some? <==> Visible(p, t)
    ensures Visible(p, t) ==> RoleMeans(p, t, ProjectTeam(p, facts, t).value.value)
  {
    ActsExactly(p, t.host);
    forall i | 0 <= i < |t.members|
      ensures HasAgentMember(p, t.members[i]) <==> Acts(p, t.members[i])
    {
      ActsExactly(p, t.members[i]);
    }
    if FirstOwn(p, t.members).Some? {
      var i := FirstOwnIsFirst(p, t.members);
    }
  }

  lemma {:induction false} RunsHaveMeaning(p: Principal, facts: Facts, t: Team)
    requires ProjectTeam(p, facts, t).Some?
    ensures RunsMean(facts, t, ProjectTeam(p, facts, t).value.value)
  {
    var row := ProjectTeam(p, facts, t).value.value;
    LatestMeaning(facts.runs, t.teamId);
    if row.latestRun.Some? { CurrentMeaning(facts.memberRuns, row.latestRun.value, row.viewer); }
    var keys := RunKeys(facts.runs, t.teamId);
    SortSorts(keys);
    KeysMultiset(Sort(keys), keys);
    IdsMean(facts.runs, t.teamId, Keys(Sort(keys)));
  }

  lemma {:induction false} IdsMean(runs: seq<TeamRun>, teamId: string, ids: seq<string>)
    requires multiset(ids) == multiset(Keys(RunKeys(runs, teamId)))
    requires forall i, j | 0 <= i < j < |ids| :: TextLe(ids[i], ids[j])
    ensures forall id :: multiset(ids)[id] == Occurrences(runs, teamId, id)
    ensures forall i, j | 0 <= i < j < |ids| :: NotAfter(ids[i], ids[j])
  {
    forall id
      ensures multiset(ids)[id] == Occurrences(runs, teamId, id)
    {
      KeysOccur(runs, teamId, id);
    }
    forall i, j | 0 <= i < j < |ids|
      ensures NotAfter(ids[i], ids[j])
    {
      TextLeExactly(ids[i], ids[j]);
    }
  }

  /** A team is shown exactly when it is visible, with the row it should have. */
  lemma {:induction false} RowHasMeaning(p: Principal, facts: Facts, t: Team)
    ensures ProjectTeam(p, facts, t).Some? <==> Visible(p, t)
    ensures Visible(p, t) ==>
      && ProjectTeam(p, facts, t).value.key == t.teamId
      && RowMeans(p, facts, t, ProjectTeam(p, facts, t).value.value)
  {
    RoleHasMeaning(p, facts, t);
    if Visible(p, t) { RunsHaveMeaning(p, facts, t); }
  }

  lemma {:induction false} SameMembers<T>(xs: seq<T>, ys: seq<T>)
    requires multiset(xs) == multiset(ys)
    ensures forall x :: x in xs <==> x in ys
  {
    assert forall x :: x in xs <==> x in multiset(xs);
    assert forall x :: x in ys <==> x in multiset(ys);
  }

  /** Every visible team has its row. */
  ghost predicate ShowsAll(p: Principal, facts: Facts, rows: seq<TeamRow>) {
    forall t | t in facts.teams && Visible(p, t) :: exists row :: row in rows && RowMeans(p, facts, t, row)
  }

  /** Every row is that of a visible team. */
  ghost predicate ShowsOnly(p: Principal, facts: Facts, rows: seq<TeamRow>) {
    forall i | 0 <= i < |rows| :: exists t :: t in facts.teams && Visible(p, t) && RowMeans(p, facts, t, rows[i])
  }

  ghost predicate OrderedByTeam(rows: seq<TeamRow>) {
    forall i, j | 0 <= i < j < |rows| :: NotAfter(rows[i].teamId, rows[j].teamId)
  }

  lemma {:induction false} RowsShowAll(p: Principal, facts: Facts)
    ensures ShowsAll(p, facts, Values(Sort(Rows(p, facts))))
  {
    var found := Rows(p, facts);
    SortSorts(found);
    SameMembers(found, Sort(found));
    FilterMapMembers(facts.teams, t => ProjectTeam(p, facts, t));
    forall t | t in facts.teams && Visible(p, t)
      ensures exists row :: row in Values(Sort(found)) && RowMeans(p, facts, t, row)
    {
      RowHasMeaning(p, facts, t);
      var keyed := ProjectTeam(p, facts, t).value;
      assert keyed in Sort(found);
      ValueIsMember(Sort(found), keyed);
    }
  }

  lemma {:induction false} ValueIsMember<T>(rows: seq<Keyed<T>>, row: Keyed<T>)
    requires row in rows
    ensures row.value in Values(rows)
  {
    var i :| 0 <= i < |rows| && rows[i] == row;
    assert Values(rows)[i] == row.value;
  }

  /** The team a found row comes from. */
  lemma {:induction false} RowHasTeam(p: Principal, facts: Facts, keyed: Keyed<TeamRow>) returns (t: Team)
    requires keyed in Rows(p, facts)
    ensures t in facts.teams && Visible(p, t) && RowMeans(p, facts, t, keyed.value) && keyed.key == keyed.value.teamId
  {
    FilterMapMembers(facts.teams, t => ProjectTeam(p, facts, t));
    t :| t in facts.teams && ProjectTeam(p, facts, t) == Some(keyed);
    RowHasMeaning(p, facts, t);
  }

  lemma {:induction false} RowsShowOnly(p: Principal, facts: Facts)
    ensures ShowsOnly(p, facts, Values(Sort(Rows(p, facts))))
    ensures OrderedByTeam(Values(Sort(Rows(p, facts))))
  {
    var sorted := Sort(Rows(p, facts));
    var rows := Values(sorted);
    SortSorts(Rows(p, facts));
    SameMembers(Rows(p, facts), sorted);
    forall i | 0 <= i < |rows|
      ensures exists t :: t in facts.teams && Visible(p, t) && RowMeans(p, facts, t, rows[i])
      ensures rows[i].teamId == sorted[i].key
    {
      assert sorted[i] in sorted;
      var t := RowHasTeam(p, facts, sorted[i]);
    }
    forall i, j | 0 <= i < j < |rows|
      ensures NotAfter(rows[i].teamId, rows[j].teamId)
    {
      TextLeExactly(rows[i].teamId, rows[j].teamId);
    }
  }

  function VisibleCount(p: Principal, teams: seq<Team>): nat {
    if teams == [] then 0
    else VisibleCount(p, teams[..|teams| - 1]) + if Visible(p, teams[|teams| - 1]) then 1 else 0
  }

  lemma {:induction false} OneRowEach(p: Principal, facts: Facts, teams: seq<Team>)
    ensures |FilterMap(teams, t => ProjectTeam(p, facts, t))| == VisibleCount(p, teams)
  {
    if teams != [] {
      OneRowEach(p, facts, teams[..|teams| - 1]);
      RoleHasMeaning(p, facts, teams[|teams| - 1]);
    }
  }

  /**
   * Only local operators and agent members get an answer, and it lists the visible
   * teams and no others, in order of their ids, each with the row it should have.
   */
  lemma {:induction false} ListsVisibleTeams(p: Principal, facts: Facts)
    ensures Project(p, facts).Err? <==> !p.localOperator && p.actor.kind != AgentMember
    ensures Project(p, facts).Ok? ==>
      && ShowsAll(p, facts, Project(p, facts).value.teams)
      && ShowsOnly(p, facts, Project(p, facts).value.teams)
      && OrderedByTeam(Project(p, facts).value.teams)
      && |Project(p, facts).value.teams| == VisibleCount(p, facts.teams)
  {
    OneRowEach(p, facts, facts.teams);
    SortSorts(Rows(p, facts));
    SameLength(Sort(Rows(p, facts)), Rows(p, facts));
    RowsShowAll(p, facts);
    RowsShowOnly(p, facts);
  }

  // ---- Row order does not matter ----

  predicate SameFacts(a: Facts, b: Facts) {
    && multiset(a.teams) == multiset(b.teams)
    && multiset(a.runs) == multiset(b.runs)
    && multiset(a.memberRuns) == multiset(b.memberRuns)
  }

  predicate TeamIdsDistinct(facts: Facts) {
    forall a, b | a in facts.teams && b in facts.teams && a.teamId == b.teamId :: a == b
  }

  predicate SourceOrdersDistinct(facts: Facts) {
    forall a, b | a in facts.memberRuns && b in facts.memberRuns && a.sourceOrder == b.sourceOrder :: a == b
  }

  lemma {:induction false} LatestIgnoresOrder(xs: seq<TeamRun>, ys: seq<TeamRun>, teamId: string)
    requires multiset(xs) == multiset(ys)
    ensures LatestRun(xs, teamId).Some? <==> LatestRun(ys, teamId).Some?
    ensures LatestRun(xs, teamId).Some? ==>
              LatestRun(xs, teamId).value.teamRunId == LatestRun(ys, teamId).value.teamRunId
  {
    SameMembers(xs, ys);
    LatestIsGreatest(xs, teamId);
    LatestIsGreatest(ys, teamId);
    if LatestRun(xs, teamId).Some? && LatestRun(ys, teamId).Some? {
      var a, b := LatestRun(xs, teamId).value, LatestRun(ys, teamId).value;
      assert RunLe(a, b) && RunLe(b, a);
      if a.updatedAt != b.updatedAt { TextLeAntisymmetric(a.updatedAt, b.updatedAt); }
      TextLeAntisymmetric(a.teamRunId, b.teamRunId);
    }
  }

  /** All greatest candidates name one member run. */
  ghost predicate GreatestAgree(runs: seq<MemberRun>, teamRunId: string, member: string) {
    forall a, b | IsCurrent(runs, teamRunId, member, a) && IsCurrent(runs, teamRunId, member, b) ::
      a.memberRunId == b.memberRunId
  }

  lemma {:induction false} CurrentIgnoresOrder(xs: seq<MemberRun>, ys: seq<MemberRun>, teamRunId: string, member: string)
    requires multiset(xs) == multiset(ys) && GreatestAgree(xs, teamRunId, member)
    ensures CurrentRun(xs, teamRunId, member).Some? <==> CurrentRun(ys, teamRunId, member).Some?
    ensures CurrentRun(xs, teamRunId, member).Some? ==>
      CurrentRun(xs, teamRunId, member).value.memberRunId == CurrentRun(ys, teamRunId, member).value.memberRunId
  {
    SameMembers(xs, ys);
    CurrentMeaning(xs, teamRunId, member);
    CurrentMeaning(ys, teamRunId, member);
    if CurrentRun(xs, teamRunId, member).Some? && CurrentRun(ys, teamRunId, member).Some? {
      assert IsCurrent(xs, teamRunId, member, CurrentRun(ys, teamRunId, member).value);
    }
  }

  lemma {:induction false} UnitKeysDetermine(rows: multiset<Keyed<()>>)
    ensures KeysDetermine(rows)
  {
    forall a: Keyed<()>, b: Keyed<()> | a in rows && b in rows && a.key == b.key
      ensures a == b
    {
      assert a.value == () == b.value;
    }
  }

  lemma {:induction false} RunIdsIgnoreOrder(xs: seq<TeamRun>, ys: seq<TeamRun>, teamId: string)
    requires multiset(xs) == multiset(ys)
    ensures Sort(RunKeys(xs, teamId)) == Sort(RunKeys(ys, teamId))
  {
    FilterMapPermutes(xs, ys, r => RunKey(teamId, r));
    SortSorts(RunKeys(xs, teamId));
    SortSorts(RunKeys(ys, teamId));
    UnitKeysDetermine(multiset(Sort(RunKeys(xs, teamId))));
    SortedIsUnique(Sort(RunKeys(xs, teamId)), Sort(RunKeys(ys, teamId)));
  }

  /** In every visible team with a run, the greatest candidates agree. */
  ghost predicate NoTies(p: Principal, facts: Facts) {
    forall t | t in facts.teams :: NoTieIn(p, facts, t)
  }

  ghost predicate NoTieIn(p: Principal, facts: Facts, t: Team) {
    RoleIn(p, t).Some? && LatestRun(facts.runs, t.teamId).Some? ==>
      GreatestAgree(facts.memberRuns, LatestRun(facts.runs, t.teamId).value.teamRunId, RoleIn(p, t).value.1)
  }

  lemma {:induction false} TeamIgnoresOrder(p: Principal, a: Facts, b: Facts, t: Team)
    requires SameFacts(a, b) && NoTieIn(p, a, t)
    ensures ProjectTeam(p, a, t) == ProjectTeam(p, b, t)
  {
    LatestIgnoresOrder(a.runs, b.runs, t.teamId);
    RunIdsIgnoreOrder(a.runs, b.runs, t.teamId);
    if RoleIn(p, t).Some? && LatestRun(a.runs, t.teamId).Some? {
      CurrentIgnoresOrder(a.memberRuns, b.memberRuns, LatestRun(a.runs, t.teamId).value.teamRunId, RoleIn(p, t).value.1);
    }
  }

  lemma {:induction false} RowsIgnoreOrder(p: Principal, a: Facts, b: Facts)
    requires SameFacts(a, b) && NoTies(p, a)
    ensures multiset(Rows(p, a)) == multiset(Rows(p, b))
  {
    var f := t => ProjectTeam(p, a, t);
    var g := t => ProjectTeam(p, b, t);
    forall t | t in a.teams
      ensures f(t) == g(t)
    {
      TeamIgnoresOrder(p, a, b, t);
    }
    FilterMapAgree(a.teams, f, g);
    FilterMapPermutes(a.teams, b.teams, g);
  }

  lemma {:induction false} RowKeysDetermine(p: Principal, facts: Facts)
    requires TeamIdsDistinct(facts)
    ensures KeysDetermine(multiset(Rows(p, facts)))
  {
    var rows := Rows(p, facts);
    FilterMapMembers(facts.teams, t => ProjectTeam(p, facts, t));
    forall x: Keyed<TeamRow>, y: Keyed<TeamRow> | x in multiset(rows) && y in multiset(rows) && x.key == y.key
      ensures x == y
    {
      assert x in rows && y in rows;
      var s :| s in facts.teams && ProjectTeam(p, facts, s) == Some(x);
      var t :| t in facts.teams && ProjectTeam(p, facts, t) == Some(y);
      assert s.teamId == t.teamId;
    }
  }

  lemma {:induction false} UntiedOrderDoesNotMatter(p: Principal, a: Facts, b: Facts)
    requires SameFacts(a, b) && TeamIdsDistinct(a) && NoTies(p, a)
    ensures Project(p, a) == Project(p, b)
  {
    RowsIgnoreOrder(p, a, b);
    RowKeysDetermine(p, a);
    SortSorts(Rows(p, a));
    SortSorts(Rows(p, b));
    SortedIsUnique(Sort(Rows(p, a)), Sort(Rows(p, b)));
  }

  /** With distinct source orders, any reordering of teams, runs and member runs gives the same answer. */
  lemma {:induction false} OrderDoesNotMatter(p: Principal, a: Facts, b: Facts)
    requires SameFacts(a, b) && TeamIdsDistinct(a) && SourceOrdersDistinct(a)
    ensures Project(p, a) == Project(p, b)
  {
    forall t | t in a.teams
      ensures NoTieIn(p, a, t)
    {
    }
    UntiedOrderDoesNotMatter(p, a, b);
  }

  // ---- Exactly when it does not ----

  /** The same member runs with one of them last. */
  lemma {:induction false} MovedLast(runs: seq<MemberRun>, r: MemberRun) returns (moved: seq<MemberRun>)
    requires r in runs
    ensures multiset(moved) == multiset(runs) && moved != [] && moved[|moved| - 1] == r
    ensures forall x | x in moved :: x in runs
  {
    assert r in multiset(runs);
    var before, later := Around(runs, r);
    var rest := before + later;
    moved := rest + [r];
    assert multiset(moved) == multiset(rest) + multiset{r};
    SameMembers(moved, runs);
  }

  /** A greatest candidate that comes last is the current one. */
  lemma {:induction false} LastGreatestWins(runs: seq<MemberRun>, teamRunId: string, member: string)
    requires runs != [] && IsCurrent(runs, teamRunId, member, runs[|runs| - 1])
    ensures CurrentRun(runs, teamRunId, member) == Some(runs[|runs| - 1])
  {
    var front := runs[..|runs| - 1];
    CurrentMeaning(front, teamRunId, member);
    assert forall x | x in front :: x in runs;
  }

  /** Among facts whose order does not matter, a greatest candidate of a visible team is the one shown. */
  lemma {:induction false} GreatestIsShown(p: Principal, facts: Facts, t: Team, r: MemberRun) returns (b: Facts)
    requires t in facts.teams && RoleIn(p, t).Some? && LatestRun(facts.runs, t.teamId).Some?
    requires IsCurrent(facts.memberRuns, LatestRun(facts.runs, t.teamId).value.teamRunId, RoleIn(p, t).value.1, r)
    ensures SameFacts(facts, b) && b.teams == facts.teams
    ensures ProjectTeam(p, b, t).Some? && ProjectTeam(p, b, t).value.value.currentMemberRun == Some(r.memberRunId)
  {
    var moved := MovedLast(facts.memberRuns, r);
    b := facts.(memberRuns := moved);
    LastGreatestWins(moved, LatestRun(facts.runs, t.teamId).value.teamRunId, RoleIn(p, t).value.1);
  }

  /** The row of a team is in the answer, and it is the only one of that team. */
  lemma {:induction false} RowOfTeam(p: Principal, facts: Facts, t: Team)
    requires TeamIdsDistinct(facts) && t in facts.teams && ProjectTeam(p, facts, t).Some? && Project(p, facts).Ok?
    ensures ProjectTeam(p, facts, t).value.value in Project(p, facts).value.teams
    ensures forall row | row in Project(p, facts).value.teams && row.teamId == t.teamId ::
              row == ProjectTeam(p, facts, t).value.value
  {
    RowIsListed(p, facts, t);
    forall row | row in Project(p, facts).value.teams && row.teamId == t.teamId
      ensures row == ProjectTeam(p, facts, t).value.value
    {
      var s := ListedRowHasTeam(p, facts, row);
      assert s.teamId == t.teamId;
    }
  }

  lemma {:induction false} RowIsListed(p: Principal, facts: Facts, t: Team)
    requires t in facts.teams && ProjectTeam(p, facts, t).Some? && Project(p, facts).Ok?
    ensures ProjectTeam(p, facts, t).value.value in Project(p, facts).value.teams
  {
    var found := Rows(p, facts);
    SortSorts(found);
    SameMembers(found, Sort(found));
    FilterMapMembers(facts.teams, t => ProjectTeam(p, facts, t));
    ValueIsMember(Sort(found), ProjectTeam(p, facts, t).value);
  }

  lemma {:induction false} ListedRowHasTeam(p: Principal, facts: Facts, row: TeamRow) returns (t: Team)
    requires Project(p, facts).Ok? && row in Project(p, facts).value.teams
    ensures t in facts.teams && ProjectTeam(p, facts, t).Some? && ProjectTeam(p, facts, t).value.value == row
    ensures t.teamId == row.teamId
  {
    var found := Rows(p, facts);
    SortSorts(found);
    SameMembers(found, Sort(found));
    FilterMapMembers(facts.teams, t => ProjectTeam(p, facts, t));
    var i :| 0 <= i < |Sort(found)| && Values(Sort(found))[i] == row;
    assert Sort(found)[i] in found;
    t :| t in facts.teams && ProjectTeam(p, facts, t) == Some(Sort(found)[i]);
  }

  lemma {:induction false} SameAnswerSameRow(p: Principal, a: Facts, b: Facts, t: Team)
    requires a.teams == b.teams && TeamIdsDistinct(a) && t in a.teams && Project(p, a) == Project(p, b)
    requires ProjectTeam(p, a, t).Some? && ProjectTeam(p, b, t).Some? && Project(p, a).Ok?
    ensures ProjectTeam(p, a, t).value.value == ProjectTeam(p, b, t).value.value
  {
    RowOfTeam(p, a, t);
    RowOfTeam(p, b, t);
  }

  ghost predicate OrderIgnored(p: Principal, facts: Facts) {
    forall b | SameFacts(facts, b) :: Project(p, b) == Project(p, facts)
  }

  /**
   * With distinct team ids, an answer is the same for every reordering of the facts
   * exactly when in each visible team all greatest candidates name one member run.
   */
  lemma {:induction false} OrderIgnoredExactly(p: Principal, facts: Facts)
    requires TeamIdsDistinct(facts) && Project(p, facts).Ok?
    ensures OrderIgnored(p, facts) <==> NoTies(p, facts)
  {
    if NoTies(p, facts) {
      forall b | SameFacts(facts, b)
        ensures Project(p, b) == Project(p, facts)
      {
        UntiedOrderDoesNotMatter(p, facts, b);
      }
    }
    if OrderIgnored(p, facts) {
      forall t | t in facts.teams
        ensures NoTieIn(p, facts, t)
      {
        IgnoredHasNoTie(p, facts, t);
      }
    }
  }

  lemma {:induction false} IgnoredHasNoTie(p: Principal, facts: Facts, t: Team)
    requires TeamIdsDistinct(facts) && Project(p, facts).Ok? && OrderIgnored(p, facts) && t in facts.teams
    ensures NoTieIn(p, facts, t)
  {
    if RoleIn(p, t).Some? && LatestRun(facts.runs, t.teamId).Some? {
      var run, viewer := LatestRun(facts.runs, t.teamId).value.teamRunId, RoleIn(p, t).value.1;
      forall x, y | IsCurrent(facts.memberRuns, run, viewer, x) && IsCurrent(facts.memberRuns, run, viewer, y)
        ensures x.memberRunId == y.memberRunId
      {
        var a := GreatestIsShown(p, facts, t, x);
        var b := GreatestIsShown(p, facts, t, y);
        SameAnswerSameRow(p, a, b, t);
      }
    }
  }
}
