/**
 Depth-bounded discovery of provider session files. The three finders differ
 in what they accept at an entry; the search itself is proved exact and
 independent of the order in which directories list their entries.
 */
module SessionSearch {
  import opened Basics

  datatype Node = File(content: Bytes) | Dir(entries: seq<Entry>) | Symlink | Special

  datatype Entry = Entry(name: string, node: Node)

  /** Path components below the search root. */
  type Path = seq<string>

  /** What a finder makes of one entry: nothing, a candidate at entry + suffix, or a refusal. */
  datatype Probe = Skip | Hit(suffix: Path) | Refuse

  type Prober = Entry -> Probe

  datatype SearchError = Refused | Ambiguous

  // ---- What there is to find ----------------------------------------------

  ghost predicate EntryHits(e: Entry, probe: Prober, depth: nat, p: Path)
    requires depth > 0
    decreases depth, 0
  {
    && e.node != Symlink && p != [] && p[0] == e.name
    && (probe(e) == Hit(p[1..]) || (e.node.Dir? && Hits(e.node.entries, probe, depth - 1, p[1..])))
  }

  /** p is a candidate within `depth` levels, reached through real directories only. */
  ghost predicate Hits(entries: seq<Entry>, probe: Prober, depth: nat, p: Path)
    decreases depth, 1
  {
    depth > 0 && exists i | 0 <= i < |entries| :: EntryHits(entries[i], probe, depth, p)
  }

  ghost predicate EntryRefuses(e: Entry, probe: Prober, depth: nat)
    requires depth > 0
    decreases depth, 0
  {
    e.node != Symlink && (probe(e) == Refuse || (e.node.Dir? && Refuses(e.node.entries, probe, depth - 1)))
  }

  /** Some candidate within reach is refused. */
  ghost predicate Refuses(entries: seq<Entry>, probe: Prober, depth: nat)
    decreases depth, 1
  {
    depth > 0 && exists i | 0 <= i < |entries| :: EntryRefuses(entries[i], probe, depth)
  }

  /** Names are distinct within every directory. */
  ghost predicate ProperNames(node: Node)
    decreases node
  {
    node.Dir? ==>
      && (forall i, j | 0 <= i < j < |node.entries| :: node.entries[i].name != node.entries[j].name)
      && (forall i | 0 <= i < |node.entries| :: ProperNames(node.entries[i].node))
  }

  /** Candidates of one finder all lie equally far below the entry that yields them. */
  ghost predicate Uniform(probe: Prober, length: nat) {
    forall e: Entry :: probe(e).Hit? ==> |probe(e).suffix| == length
  }

  lemma {:induction false} HitsAreLong(entries: seq<Entry>, probe: Prober, length: nat, depth: nat, p: Path)
    requires Uniform(probe, length) && Hits(entries, probe, depth, p)
    ensures |p| > length
    decreases depth
  {
    var i :| 0 <= i < |entries| && EntryHits(entries[i], probe, depth, p);
    if probe(entries[i]) != Hit(p[1..]) {
      HitsAreLong(entries[i].node.entries, probe, length, depth - 1, p[1..]);
    }
  }

  // ---- The search ---------------------------------------------------------

  /** The answer a search must give for a set of candidates and refusals. */
  ghost predicate Answers(r: Result<Option<Path>, SearchError>, hits: iset<Path>, refused: bool) {
    match r
    case Ok(None) => !refused && hits == iset{}
    case Ok(Some(p)) => !refused && hits == iset{p}
    case Err(_) => refused || exists p, q :: p in hits && q in hits && p != q
  }

  ghost function HitSet(entries: seq<Entry>, probe: Prober, depth: nat): iset<Path> {
    iset p: Path | Hits(entries, probe, depth, p)
  }

  ghost function EntryHitSet(e: Entry, probe: Prober, depth: nat): iset<Path>
    requires depth > 0
  {
    iset p: Path | EntryHits(e, probe, depth, p)
  }

  ghost function ExtendAll(name: string, paths: iset<Path>): iset<Path> {
    iset p: Path | p != [] && p[0] == name && p[1..] in paths
  }

  lemma {:induction false} HitsOfPrefix(entries: seq<Entry>, probe: Prober, depth: nat, i: nat)
    requires depth > 0 && i < |entries|
    ensures HitSet(entries[..i + 1], probe, depth)
         == HitSet(entries[..i], probe, depth) + EntryHitSet(entries[i], probe, depth)
    ensures Refuses(entries[..i + 1], probe, depth) <==>
            Refuses(entries[..i], probe, depth) || EntryRefuses(entries[i], probe, depth)
  {
    var now, before := entries[..i + 1], entries[..i];
    assert forall k | 0 <= k < i :: now[k] == before[k];
    assert now[i] == entries[i];
    forall p: Path
      ensures Hits(now, probe, depth, p) <==> Hits(before, probe, depth, p) || EntryHits(entries[i], probe, depth, p)
    {
      if Hits(before, probe, depth, p) {
        var k :| 0 <= k < |before| && EntryHits(before[k], probe, depth, p);
        assert EntryHits(now[k], probe, depth, p);
      }
      if EntryHits(entries[i], probe, depth, p) {
        assert EntryHits(now[i], probe, depth, p);
      }
      if Hits(now, probe, depth, p) {
        var k :| 0 <= k < |now| && EntryHits(now[k], probe, depth, p);
        assert k < i ==> EntryHits(before[k], probe, depth, p);
      }
    }
    if EntryRefuses(entries[i], probe, depth) {
      assert EntryRefuses(now[i], probe, depth);
    }
    if Refuses(before, probe, depth) {
      var k :| 0 <= k < |before| && EntryRefuses(before[k], probe, depth);
      assert EntryRefuses(now[k], probe, depth);
    }
    if Refuses(now, probe, depth) {
      var k :| 0 <= k < |now| && EntryRefuses(now[k], probe, depth);
      assert k < i ==> EntryRefuses(before[k], probe, depth);
    }
  }

  /** What one entry contributes: its own candidate, then those below it, never the same path twice. */
  lemma {:induction false} EntryContributes(e: Entry, probe: Prober, length: nat, depth: nat)
    requires depth > 0 && Uniform(probe, length)
    ensures var own := probe(e);
            var below := if e.node.Dir? then HitSet(e.node.entries, probe, depth - 1) else iset{};
            && EntryHitSet(e, probe, depth) ==
                 (if e.node == Symlink then iset{}
                  else (if own.Hit? then iset{[e.name] + own.suffix} else iset{}) + ExtendAll(e.name, below))
            && (own.Hit? ==> [e.name] + own.suffix !in ExtendAll(e.name, below))
  {
    var own := probe(e);
    var below := if e.node.Dir? then HitSet(e.node.entries, probe, depth - 1) else iset{};
    forall p: Path
      ensures p in ExtendAll(e.name, below) <==>
              p != [] && p[0] == e.name && e.node.Dir? && Hits(e.node.entries, probe, depth - 1, p[1..])
      ensures own.Hit? ==> (p == [e.name] + own.suffix <==> p != [] && p[0] == e.name && p[1..] == own.suffix)
    {
      if p != [] && p[0] == e.name {
        assert p == [e.name] + p[1..];
      }
    }
    if own.Hit? {
      var p := [e.name] + own.suffix;
      assert p[1..] == own.suffix;
      if e.node.Dir? && Hits(e.node.entries, probe, depth - 1, p[1..]) {
        HitsAreLong(e.node.entries, probe, length, depth - 1, p[1..]);
      }
    }
  }

  /** Distinct names keep the candidates of different entries apart. */
  lemma {:induction false} EntriesDisjoint(entries: seq<Entry>, probe: Prober, depth: nat, i: nat, p: Path)
    requires depth > 0 && i < |entries| && ProperNames(Dir(entries)) && EntryHits(entries[i], probe, depth, p)
    ensures !Hits(entries[..i], probe, depth, p)
  {
    assert forall k | 0 <= k < i :: entries[..i][k].name != entries[i].name;
  }

  /** Adding one candidate to what was found so far. */
  lemma {:induction false} AddCandidate(found: Option<Path>, hits: iset<Path>, p: Path)
    requires Answers(Ok(found), hits, false) && p !in hits
    ensures found.None? ==> Answers(Ok(Some(p)), hits + iset{p}, false)
    ensures found.Some? ==> exists q, r :: q in hits + iset{p} && r in hits + iset{p} && q != r
  {
    if found.Some? {
      assert found.value in hits + iset{p} && p in hits + iset{p};
    }
  }

  /**
   Finds the one candidate within `depth` levels: none, the only one, or an
   error exactly when a candidate is refused or there are two.
   */
  method Search(entries: seq<Entry>, probe: Prober, depth: nat, ghost length: nat)
    returns (r: Result<Option<Path>, SearchError>)
    requires ProperNames(Dir(entries)) && Uniform(probe, length)
    ensures Answers(r, HitSet(entries, probe, depth), Refuses(entries, probe, depth))
    decreases depth, 1
  {
    if depth == 0 {
      return Ok(None);
    }
    var found: Option<Path> := None;
    assert entries[..0] == [];
    for i := 0 to |entries|
      invariant Answers(Ok(found), HitSet(entries[..i], probe, depth), Refuses(entries[..i], probe, depth))
    {
      var step := SearchEntry(entries, i, found, probe, depth, length);
      if step.Err? {
        StillWrong(entries, probe, depth, i);
        return step;
      }
      found := step.value;
    }
    assert entries[..|entries|] == entries;
    r := Ok(found);
  }

  /** A wrong prefix makes the whole listing wrong. */
  lemma {:induction false} StillWrong(entries: seq<Entry>, probe: Prober, depth: nat, i: nat)
    requires depth > 0 && i < |entries|
    ensures HitSet(entries[..i + 1], probe, depth) <= HitSet(entries, probe, depth)
    ensures Refuses(entries[..i + 1], probe, depth) ==> Refuses(entries, probe, depth)
  {
    var part := entries[..i + 1];
    forall p: Path | Hits(part, probe, depth, p)
      ensures Hits(entries, probe, depth, p)
    {
      var k :| 0 <= k < |part| && EntryHits(part[k], probe, depth, p);
      assert EntryHits(entries[k], probe, depth, p);
    }
    if Refuses(part, probe, depth) {
      var k :| 0 <= k < |part| && EntryRefuses(part[k], probe, depth);
      assert EntryRefuses(entries[k], probe, depth);
    }
  }

  /** One iteration: probe the entry, then descend into it. */
  method SearchEntry(
    entries: seq<Entry>, i: nat, found: Option<Path>, probe: Prober, depth: nat, ghost length: nat)
    returns (r: Result<Option<Path>, SearchError>)
    requires depth > 0 && i < |entries| && ProperNames(Dir(entries)) && Uniform(probe, length)
    requires Answers(Ok(found), HitSet(entries[..i], probe, depth), Refuses(entries[..i], probe, depth))
    ensures Answers(r, HitSet(entries[..i + 1], probe, depth), Refuses(entries[..i + 1], probe, depth))
    decreases depth, 0
  {
    var e := entries[i];
    ghost var hits := HitSet(entries[..i], probe, depth);
    ghost var own := if probe(e).Hit? then iset{[e.name] + probe(e).suffix} else iset{};
    ghost var below := if e.node.Dir? then ExtendAll(e.name, HitSet(e.node.entries, probe, depth - 1)) else iset{};
    HitsOfPrefix(entries, probe, depth, i);
    EntryContributes(e, probe, length, depth);
    forall p: Path | p in EntryHitSet(e, probe, depth)
      ensures p !in hits
    {
      EntriesDisjoint(entries, probe, depth, i, p);
    }
    if e.node.Symlink? {
      return Ok(found);
    }
    var now := found;
    match probe(e) {
      case Refuse => return Err(Refused);
      case Hit(suffix) =>
        AddCandidate(found, hits, [e.name] + suffix);
        if found.Some? {
          return Err(Ambiguous);
        }
        now := Some([e.name] + suffix);
      case Skip =>
    }
    assert Answers(Ok(now), hits + own, false);
    if e.node.Dir? {
      var nested := Search(e.node.entries, probe, depth - 1, length);
      NestedAnswer(nested, e, probe, depth);
      if nested.Err? {
        return nested;
      }
      if nested.value.Some? {
        AddCandidate(now, hits + own, [e.name] + nested.value.value);
        if now.Some? {
          return Err(Ambiguous);
        }
        now := Some([e.name] + nested.value.value);
      }
    }
    r := Ok(now);
  }

  /** What a nested answer says about the paths below the entry. */
  lemma {:induction false} NestedAnswer(nested: Result<Option<Path>, SearchError>, e: Entry, probe: Prober, depth: nat)
    requires depth > 0 && e.node.Dir?
    requires Answers(nested, HitSet(e.node.entries, probe, depth - 1), Refuses(e.node.entries, probe, depth - 1))
    ensures var below := ExtendAll(e.name, HitSet(e.node.entries, probe, depth - 1));
            match nested
            case Ok(None) => below == iset{}
            case Ok(Some(p)) => below == iset{[e.name] + p}
            case Err(_) =>
              || Refuses(e.node.entries, probe, depth - 1)
              || exists p, q :: p in below && q in below && p != q
  {
    var hits := HitSet(e.node.entries, probe, depth - 1);
    var below := ExtendAll(e.name, hits);
    match nested
    case Ok(None) =>
    case Ok(Some(p)) =>
      forall q: Path
        ensures q in below <==> q == [e.name] + p
      {
        if q in below {
          assert q == [e.name] + q[1..];
        }
        if q == [e.name] + p {
          assert q[1..] == p;
        }
      }
    case Err(_) =>
      if !Refuses(e.node.entries, probe, depth - 1) {
        var p, q :| p in hits && q in hits && p != q;
        assert ([e.name] + p)[1..] == p && ([e.name] + q)[1..] == q;
        assert [e.name] + p in below && [e.name] + q in below && [e.name] + p != [e.name] + q;
      }
  }

  // ---- Order does not matter ----------------------------------------------

  /** How one listing of a tree is matched with another: where each entry went and came from. */
  datatype Relisting = Unchanged | Relisted(over: seq<nat>, back: seq<nat>, below: seq<Relisting>)

  /** b is a with its directories listed in another order. */
  ghost predicate SameTree(a: Node, b: Node, m: Relisting)
    decreases m
  {
    match m
    case Unchanged => a == b
    case Relisted(over, back, below) =>
      && a.Dir? && b.Dir? && |over| == |below| == |a.entries| && |back| == |b.entries|
      && (forall i | 0 <= i < |over| :: over[i] < |b.entries|)
      && (forall j | 0 <= j < |back| :: back[j] < |over| && over[back[j]] == j)
      && (forall i | 0 <= i < |over| ::
            && a.entries[i].name == b.entries[over[i]].name
            && SameTree(a.entries[i].node, b.entries[over[i]].node, below[i]))
  }

  /** The finder looks at names and contents, not at listing order. */
  ghost predicate IgnoresOrder(probe: Prober) {
    forall e: Entry, f: Entry, m: Relisting ::
      e.name == f.name && SameTree(e.node, f.node, m) ==> probe(e) == probe(f)
  }

  /** The relisting of one entry's node. */
  function At(m: Relisting, i: nat): Relisting
    requires m.Relisted? ==> i < |m.below|
  {
    if m.Unchanged? then Unchanged else m.below[i]
  }

  function Over(m: Relisting, i: nat): nat
    requires m.Relisted? ==> i < |m.over|
  {
    if m.Unchanged? then i else m.over[i]
  }

  lemma {:induction false} EntryMatches(xs: seq<Entry>, ys: seq<Entry>, m: Relisting, i: nat)
    requires SameTree(Dir(xs), Dir(ys), m) && i < |xs|
    ensures m.Relisted? ==> i < |m.over| && i < |m.below|
    ensures Over(m, i) < |ys| && xs[i].name == ys[Over(m, i)].name
    ensures SameTree(xs[i].node, ys[Over(m, i)].node, At(m, i))
  {
  }

  lemma {:induction false} EntryComesFrom(xs: seq<Entry>, ys: seq<Entry>, m: Relisting, j: nat) returns (i: nat)
    requires SameTree(Dir(xs), Dir(ys), m) && j < |ys|
    ensures i < |xs| && (m.Relisted? ==> i < |m.over| && i < |m.below|) && Over(m, i) == j
  {
    i := if m.Unchanged? then j else m.back[j];
  }

  lemma {:induction false} HitsIgnoreOrder(
    xs: seq<Entry>, ys: seq<Entry>, m: Relisting, probe: Prober, depth: nat, p: Path)
    requires SameTree(Dir(xs), Dir(ys), m) && IgnoresOrder(probe)
    ensures Hits(xs, probe, depth, p) <==> Hits(ys, probe, depth, p)
    ensures Refuses(xs, probe, depth) <==> Refuses(ys, probe, depth)
    decreases depth, 1
  {
    if depth > 0 {
      forall i | 0 <= i < |xs|
        ensures Over(m, i) < |ys|
        ensures EntryHits(xs[i], probe, depth, p) <==> EntryHits(ys[Over(m, i)], probe, depth, p)
        ensures EntryRefuses(xs[i], probe, depth) <==> EntryRefuses(ys[Over(m, i)], probe, depth)
      {
        EntryMatches(xs, ys, m, i);
        EntriesIgnoreOrder(xs[i], ys[Over(m, i)], At(m, i), probe, depth, p);
      }
      if Hits(ys, probe, depth, p) {
        var j :| 0 <= j < |ys| && EntryHits(ys[j], probe, depth, p);
        var i := EntryComesFrom(xs, ys, m, j);
      }
      if Refuses(ys, probe, depth) {
        var j :| 0 <= j < |ys| && EntryRefuses(ys[j], probe, depth);
        var i := EntryComesFrom(xs, ys, m, j);
      }
    }
  }

  lemma {:induction false} EntriesIgnoreOrder(
    e: Entry, f: Entry, m: Relisting, probe: Prober, depth: nat, p: Path)
    requires depth > 0 && e.name == f.name && SameTree(e.node, f.node, m) && IgnoresOrder(probe)
    ensures EntryHits(e, probe, depth, p) <==> EntryHits(f, probe, depth, p)
    ensures EntryRefuses(e, probe, depth) <==> EntryRefuses(f, probe, depth)
    decreases depth, 0
  {
    if e.node.Dir? {
      HitsIgnoreOrder(e.node.entries, f.node.entries, m, probe, depth - 1, if p == [] then [] else p[1..]);
    }
  }

  /** The facts fix the answer, up to which of two errors is reported. */
  lemma {:induction false} AnswerIsDetermined(
    r: Result<Option<Path>, SearchError>, s: Result<Option<Path>, SearchError>, hits: iset<Path>, refused: bool)
    requires Answers(r, hits, refused) && Answers(s, hits, refused)
    ensures (r.Ok? <==> s.Ok?) && (r.Ok? ==> r == s)
  {
    if r.Ok? && r.value.Some? {
      assert r.value.value in hits;
    }
    if s.Ok? && s.value.Some? {
      assert s.value.value in hits;
    }
  }

  /** Any two answers for the same tree agree: same path, or both errors. */
  lemma {:induction false} AnswersIgnoreOrder(xs: seq<Entry>, ys: seq<Entry>, m: Relisting, probe: Prober, depth: nat,
                           r: Result<Option<Path>, SearchError>, s: Result<Option<Path>, SearchError>)
    requires SameTree(Dir(xs), Dir(ys), m) && IgnoresOrder(probe)
    requires Answers(r, HitSet(xs, probe, depth), Refuses(xs, probe, depth))
    requires Answers(s, HitSet(ys, probe, depth), Refuses(ys, probe, depth))
    ensures (r.Ok? <==> s.Ok?) && (r.Ok? ==> r == s)
  {
    HitSetsAgree(xs, ys, m, probe, depth);
    AnswerIsDetermined(r, s, HitSet(xs, probe, depth), Refuses(xs, probe, depth));
  }

  lemma {:induction false} HitSetsAgree(xs: seq<Entry>, ys: seq<Entry>, m: Relisting, probe: Prober, depth: nat)
    requires SameTree(Dir(xs), Dir(ys), m) && IgnoresOrder(probe)
    ensures HitSet(xs, probe, depth) == HitSet(ys, probe, depth)
    ensures Refuses(xs, probe, depth) <==> Refuses(ys, probe, depth)
  {
    forall p: Path
      ensures Hits(xs, probe, depth, p) <==> Hits(ys, probe, depth, p)
    {
      HitsIgnoreOrder(xs, ys, m, probe, depth, p);
    }
    HitsIgnoreOrder(xs, ys, m, probe, depth, []);
  }

  // ---- The finders --------------------------------------------------------

  /** A regular file of exactly this name. */
  function ExactFile(filename: string): Prober {
    (e: Entry) => if e.node.File? && e.name == filename then Hit([]) else Skip
  }

  predicate EndsWith(s: string, suffix: string) {
    |suffix| <= |s| && s[|s| - |suffix|..] == suffix
  }

  /** A regular file whose name ends so must carry the session's own metadata. */
  function CodexRollout(suffix: string, namesSession: Bytes -> bool): Prober {
    (e: Entry) =>
      if e.node.File? && EndsWith(e.name, suffix) then
        (if namesSession(e.node.content) then Hit([]) else Refuse)
      else Skip
  }

  /** A node named by the path, through real directories, is a regular file or is not. */
  predicate NodeAt(entries: seq<Entry>, path: Path, file: bool)
    decreases |path|, 0
  {
    path != [] && exists i | 0 <= i < |entries| ::
      entries[i].name == path[0] && NodeBelow(entries[i].node, path[1..], file)
  }

  predicate NodeBelow(node: Node, path: Path, file: bool)
    decreases |path|, 1
  {
    if path == [] then node.File? == file else node.Dir? && NodeAt(node.entries, path, file)
  }

  /** A file stands where the path needs a directory. */
  predicate Obstructed(entries: seq<Entry>, path: Path)
    decreases |path|, 0
  {
    |path| > 1 && exists i | 0 <= i < |entries| :: entries[i].name == path[0] && ObstructedBelow(entries[i].node, path[1..])
  }

  predicate ObstructedBelow(node: Node, path: Path)
    decreases |path|, 1
  {
    node.File? || node.Special? || (node.Dir? && Obstructed(node.entries, path))
  }

  const WIRE: Path := ["agents", "main", "wire.jsonl"]

  /** The directory names under which one session may be stored: today's, and that of older releases. */
  function SessionDirs(session: string): set<string> {
    if "session_" <= session then {session} else {session, "session_" + session}
  }

  /** A session directory whose wire file must be a regular file when it exists. */
  function KimiWire(expected: set<string>): Prober {
    (e: Entry) =>
      if e.node.Dir? && e.name in expected then
        if NodeAt(e.node.entries, WIRE, false) || Obstructed(e.node.entries, WIRE) then Refuse
        else if NodeAt(e.node.entries, WIRE, true) then Hit(WIRE)
        else Skip
      else Skip
  }

  lemma {:induction false} FindersAreUniform(filename: string, namesSession: Bytes -> bool, expected: set<string>)
    ensures Uniform(ExactFile(filename), 0)
    ensures Uniform(CodexRollout(filename, namesSession), 0)
    ensures Uniform(KimiWire(expected), 3)
  {
  }

  lemma {:induction false} NodeAtIgnoresOrder(
    xs: seq<Entry>, ys: seq<Entry>, m: Relisting, path: Path, file: bool)
    requires SameTree(Dir(xs), Dir(ys), m)
    ensures NodeAt(xs, path, file) <==> NodeAt(ys, path, file)
    decreases |path|, 0
  {
    if path != [] {
      forall i | 0 <= i < |xs|
        ensures Over(m, i) < |ys| && xs[i].name == ys[Over(m, i)].name
        ensures NodeBelow(xs[i].node, path[1..], file) <==> NodeBelow(ys[Over(m, i)].node, path[1..], file)
      {
        EntryMatches(xs, ys, m, i);
        NodeBelowIgnoresOrder(xs[i].node, ys[Over(m, i)].node, At(m, i), path[1..], file);
      }
      if NodeAt(ys, path, file) {
        var j :| 0 <= j < |ys| && ys[j].name == path[0] && NodeBelow(ys[j].node, path[1..], file);
        var i := EntryComesFrom(xs, ys, m, j);
      }
    }
  }

  lemma {:induction false} NodeBelowIgnoresOrder(a: Node, b: Node, m: Relisting, path: Path, file: bool)
    requires SameTree(a, b, m)
    ensures NodeBelow(a, path, file) <==> NodeBelow(b, path, file)
    decreases |path|, 1
  {
    if path != [] && a.Dir? {
      NodeAtIgnoresOrder(a.entries, b.entries, m, path, file);
    }
  }

  lemma {:induction false} ObstructedIgnoresOrder(xs: seq<Entry>, ys: seq<Entry>, m: Relisting, path: Path)
    requires SameTree(Dir(xs), Dir(ys), m)
    ensures Obstructed(xs, path) <==> Obstructed(ys, path)
    decreases |path|
  {
    if |path| > 1 {
      forall i | 0 <= i < |xs|
        ensures Over(m, i) < |ys| && xs[i].name == ys[Over(m, i)].name
        ensures ObstructedBelow(xs[i].node, path[1..]) <==> ObstructedBelow(ys[Over(m, i)].node, path[1..])
      {
        EntryMatches(xs, ys, m, i);
        if xs[i].node.Dir? {
          ObstructedIgnoresOrder(xs[i].node.entries, ys[Over(m, i)].node.entries, At(m, i), path[1..]);
        }
      }
      if Obstructed(ys, path) {
        var j :| 0 <= j < |ys| && ys[j].name == path[0] && ObstructedBelow(ys[j].node, path[1..]);
        var i := EntryComesFrom(xs, ys, m, j);
      }
    }
  }

  lemma {:induction false} FindersIgnoreOrder(filename: string, namesSession: Bytes -> bool, expected: set<string>)
    ensures IgnoresOrder(ExactFile(filename))
    ensures IgnoresOrder(CodexRollout(filename, namesSession))
    ensures IgnoresOrder(KimiWire(expected))
  {
    forall e: Entry, f: Entry, m: Relisting | e.name == f.name && SameTree(e.node, f.node, m)
      ensures KimiWire(expected)(e) == KimiWire(expected)(f)
    {
      if e.node.Dir? {
        NodeAtIgnoresOrder(e.node.entries, f.node.entries, m, WIRE, true);
        NodeAtIgnoresOrder(e.node.entries, f.node.entries, m, WIRE, false);
        ObstructedIgnoresOrder(e.node.entries, f.node.entries, m, WIRE);
      }
    }
  }
}
