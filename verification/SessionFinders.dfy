/**
 * What each finder of provider session files accepts and refuses, told by the tree alone:
 * which path leads through real directories to what.
 */
module SessionFinders {
  import opened Basics
  import opened SessionSearch

  /** The path leads through real directories to this node. */
  ghost predicate LeadsTo(entries: seq<Entry>, p: Path, node: Node)
    decreases |p|
  {
    p != [] && exists i | 0 <= i < |entries| :: EntryLeadsTo(entries[i], p, node)
  }

  ghost predicate EntryLeadsTo(e: Entry, p: Path, node: Node)
    requires p != []
    decreases |p|, 0
  {
    e.name == p[0] && if |p| == 1 then e.node == node else e.node.Dir? && LeadsTo(e.node.entries, p[1..], node)
  }

  // ---- Any finder ----

  /** The finder takes p for a candidate at its component k. */
  ghost predicate HitAt(entries: seq<Entry>, probe: Prober, p: Path, k: nat, node: Node)
    requires k < |p|
  {
    LeadsTo(entries, p[..k + 1], node) && node != Symlink && probe(Entry(p[k], node)) == Hit(p[k + 1..])
  }

  /** The finder refuses what the path leads to. */
  ghost predicate RefusedAt(entries: seq<Entry>, probe: Prober, q: Path, node: Node)
    requires q != []
  {
    LeadsTo(entries, q, node) && node != Symlink && probe(Entry(q[|q| - 1], node)) == Refuse
  }

  /** A longer path leads on through a directory. */
  lemma {:induction false} LeadsOn(entries: seq<Entry>, i: nat, p: Path, node: Node)
    requires i < |entries| && entries[i].node.Dir? && p != [] && LeadsTo(entries[i].node.entries, p, node)
    ensures LeadsTo(entries, [entries[i].name] + p, node)
  {
    var q := [entries[i].name] + p;
    assert q[1..] == p;
    assert EntryLeadsTo(entries[i], q, node);
  }

  lemma {:induction false} LeadsHere(entries: seq<Entry>, i: nat)
    requires i < |entries|
    ensures LeadsTo(entries, [entries[i].name], entries[i].node)
  {
    assert EntryLeadsTo(entries[i], [entries[i].name], entries[i].node);
  }

  /** A candidate is found at some component within the depth, and at nothing else. */
  lemma {:induction false} HitsExactly(entries: seq<Entry>, probe: Prober, depth: nat, p: Path)
    ensures Hits(entries, probe, depth, p) <==> exists k, node | 0 <= k < |p| && k < depth :: HitAt(entries, probe, p, k, node)
    decreases depth
  {
    if Hits(entries, probe, depth, p) {
      var k, node := HitIsReached(entries, probe, depth, p);
    }
    forall k, node | 0 <= k < |p| && k < depth && HitAt(entries, probe, p, k, node)
      ensures Hits(entries, probe, depth, p)
    {
      ReachedIsHit(entries, probe, depth, p, k, node);
    }
  }

  lemma {:induction false} HitIsReached(entries: seq<Entry>, probe: Prober, depth: nat, p: Path) returns (k: nat, node: Node)
    requires Hits(entries, probe, depth, p)
    ensures k < |p| && k < depth && HitAt(entries, probe, p, k, node)
    decreases depth
  {
    var i :| 0 <= i < |entries| && EntryHits(entries[i], probe, depth, p);
    var e := entries[i];
    if probe(e) == Hit(p[1..]) {
      k, node := 0, e.node;
      LeadsHere(entries, i);
      assert p[..1] == [e.name] && Entry(p[0], node) == e;
    } else {
      var below;
      below, node := HitIsReached(e.node.entries, probe, depth - 1, p[1..]);
      k := below + 1;
      LeadsOn(entries, i, p[1..][..below + 1], node);
      assert [e.name] + p[1..][..below + 1] == p[..k + 1] && p[1..][below + 1..] == p[k + 1..];
    }
  }

  lemma {:induction false} ReachedIsHit(entries: seq<Entry>, probe: Prober, depth: nat, p: Path, k: nat, node: Node)
    requires k < |p| && k < depth && HitAt(entries, probe, p, k, node)
    ensures Hits(entries, probe, depth, p)
    decreases depth
  {
    var i :| 0 <= i < |entries| && EntryLeadsTo(entries[i], p[..k + 1], node);
    if k == 0 {
      assert entries[i] == Entry(p[0], node);
      assert EntryHits(entries[i], probe, depth, p);
    } else {
      assert p[..k + 1][1..] == p[1..][..k] && p[1..][k..] == p[k + 1..] && p[1..][k - 1] == p[k];
      ReachedIsHit(entries[i].node.entries, probe, depth - 1, p[1..], k - 1, node);
      assert EntryHits(entries[i], probe, depth, p);
    }
  }

  /** A search is refused exactly for something within the depth that the finder refuses. */
  lemma {:induction false} RefusesExactly(entries: seq<Entry>, probe: Prober, depth: nat)
    ensures Refuses(entries, probe, depth) <==> exists q: Path, node | 0 < |q| <= depth :: RefusedAt(entries, probe, q, node)
  {
    if Refuses(entries, probe, depth) {
      var q, node := RefusalIsReached(entries, probe, depth);
    }
    forall q: Path, node | 0 < |q| <= depth && RefusedAt(entries, probe, q, node)
      ensures Refuses(entries, probe, depth)
    {
      ReachedIsRefused(entries, probe, depth, q, node);
    }
  }

  lemma {:induction false} RefusalIsReached(entries: seq<Entry>, probe: Prober, depth: nat) returns (q: Path, node: Node)
    requires Refuses(entries, probe, depth)
    ensures 0 < |q| <= depth && RefusedAt(entries, probe, q, node)
    decreases depth
  {
    var i :| 0 <= i < |entries| && EntryRefuses(entries[i], probe, depth);
    var e := entries[i];
    if probe(e) == Refuse {
      q, node := [e.name], e.node;
      LeadsHere(entries, i);
    } else {
      var below;
      below, node := RefusalIsReached(e.node.entries, probe, depth - 1);
      q := [e.name] + below;
      LeadsOn(entries, i, below, node);
    }
  }

  lemma {:induction false} ReachedIsRefused(entries: seq<Entry>, probe: Prober, depth: nat, q: Path, node: Node)
    requires 0 < |q| <= depth && RefusedAt(entries, probe, q, node)
    ensures Refuses(entries, probe, depth)
    decreases depth
  {
    var i :| 0 <= i < |entries| && EntryLeadsTo(entries[i], q, node);
    if |q| == 1 {
      assert entries[i] == Entry(q[0], node);
    } else {
      ReachedIsRefused(entries[i].node.entries, probe, depth - 1, q[1..], node);
    }
    assert EntryRefuses(entries[i], probe, depth);
  }

  // ---- An exact file name ----

  /** The path leads to a regular file. */
  ghost predicate IsFile(entries: seq<Entry>, p: Path) {
    exists content :: LeadsTo(entries, p, File(content))
  }

  /** Candidates are exactly the regular files of the name within the depth, and nothing is refused. */
  lemma {:induction false} ExactFileExactly(entries: seq<Entry>, filename: string, depth: nat, p: Path)
    ensures Hits(entries, ExactFile(filename), depth, p) <==>
      0 < |p| <= depth && p[|p| - 1] == filename && IsFile(entries, p)
    ensures !Refuses(entries, ExactFile(filename), depth)
  {
    var probe := ExactFile(filename);
    HitsExactly(entries, probe, depth, p);
    RefusesExactly(entries, probe, depth);
    if Hits(entries, probe, depth, p) {
      var k, node :| 0 <= k < |p| && k < depth && HitAt(entries, probe, p, k, node);
      WholePath(p, k);
    }
    if 0 < |p| <= depth && p[|p| - 1] == filename && IsFile(entries, p) {
      var content :| LeadsTo(entries, p, File(content));
      WholePath(p, |p| - 1);
      assert HitAt(entries, probe, p, |p| - 1, File(content));
    }
  }

  lemma {:induction false} WholePath(p: Path, k: nat)
    requires k < |p|
    ensures p[k + 1..] == [] <==> k == |p| - 1
    ensures k == |p| - 1 ==> p[..k + 1] == p
  {
  }

  // ---- Codex rollouts ----

  predicate NameEndsWith(name: string, suffix: string) {
    exists n | 0 <= n <= |name| :: name == name[..n] + suffix
  }

  lemma {:induction false} EndsWithExactly(name: string, suffix: string)
    ensures EndsWith(name, suffix) <==> NameEndsWith(name, suffix)
  {
    if EndsWith(name, suffix) {
      var n := |name| - |suffix|;
      assert name == name[..n] + name[n..];
    }
  }

  /** A regular file within the depth whose name ends so and whose content names the session, or does not. */
  ghost predicate IsRollout(entries: seq<Entry>, suffix: string, namesSession: Bytes -> bool, depth: nat, p: Path, names: bool) {
    && 0 < |p| <= depth && NameEndsWith(p[|p| - 1], suffix)
    && exists content :: LeadsTo(entries, p, File(content)) && namesSession(content) == names
  }

  /** Candidates are exactly the files so named that name the session; any other file so named is refused. */
  lemma {:induction false} CodexExactly(entries: seq<Entry>, suffix: string, namesSession: Bytes -> bool, depth: nat, p: Path)
    ensures Hits(entries, CodexRollout(suffix, namesSession), depth, p) <==>
      IsRollout(entries, suffix, namesSession, depth, p, true)
    ensures Refuses(entries, CodexRollout(suffix, namesSession), depth) <==>
      exists q :: IsRollout(entries, suffix, namesSession, depth, q, false)
  {
    var probe := CodexRollout(suffix, namesSession);
    HitsExactly(entries, probe, depth, p);
    if Hits(entries, probe, depth, p) {
      var k, node :| 0 <= k < |p| && k < depth && HitAt(entries, probe, p, k, node);
      WholePath(p, k);
      EndsWithExactly(p[k], suffix);
    }
    if IsRollout(entries, suffix, namesSession, depth, p, true) {
      var content :| LeadsTo(entries, p, File(content)) && namesSession(content);
      WholePath(p, |p| - 1);
      EndsWithExactly(p[|p| - 1], suffix);
      assert HitAt(entries, probe, p, |p| - 1, File(content));
    }
    CodexRefusesExactly(entries, suffix, namesSession, depth);
  }

  lemma {:induction false} CodexRefusesExactly(entries: seq<Entry>, suffix: string, namesSession: Bytes -> bool, depth: nat)
    ensures Refuses(entries, CodexRollout(suffix, namesSession), depth) <==>
      exists q :: IsRollout(entries, suffix, namesSession, depth, q, false)
  {
    var probe := CodexRollout(suffix, namesSession);
    RefusesExactly(entries, probe, depth);
    if Refuses(entries, probe, depth) {
      var q: Path, node :| 0 < |q| <= depth && RefusedAt(entries, probe, q, node);
      EndsWithExactly(q[|q| - 1], suffix);
      assert LeadsTo(entries, q, File(node.content)) && !namesSession(node.content);
      assert IsRollout(entries, suffix, namesSession, depth, q, false);
    }
    forall q | IsRollout(entries, suffix, namesSession, depth, q, false)
      ensures Refuses(entries, probe, depth)
    {
      var content :| LeadsTo(entries, q, File(content)) && !namesSession(content);
      EndsWithExactly(q[|q| - 1], suffix);
      assert RefusedAt(entries, probe, q, File(content));
    }
  }

  // ---- Kimi wires ----

  /** One path goes on where another ends in a directory. */
  lemma {:induction false} LeadsThrough(entries: seq<Entry>, p: Path, below: seq<Entry>, q: Path, node: Node)
    requires LeadsTo(entries, p, Dir(below)) && LeadsTo(below, q, node)
    ensures LeadsTo(entries, p + q, node)
  {
    var i :| 0 <= i < |entries| && EntryLeadsTo(entries[i], p, Dir(below));
    if |p| > 1 {
      LeadsThrough(entries[i].node.entries, p[1..], below, q, node);
    } else {
      assert p[1..] + q == q;
    }
    LeadsOn(entries, i, p[1..] + q, node);
    assert [entries[i].name] + (p[1..] + q) == p + q;
  }

  lemma {:induction false} LeadsVia(entries: seq<Entry>, p: Path, q: Path, node: Node) returns (below: seq<Entry>)
    requires p != [] && q != [] && LeadsTo(entries, p + q, node)
    ensures LeadsTo(entries, p, Dir(below)) && LeadsTo(below, q, node)
  {
    var i :| 0 <= i < |entries| && EntryLeadsTo(entries[i], p + q, node);
    assert (p + q)[1..] == p[1..] + q;
    if |p| == 1 {
      below := entries[i].node.entries;
      assert p[1..] + q == q && p == [entries[i].name];
      LeadsHere(entries, i);
    } else {
      below := LeadsVia(entries[i].node.entries, p[1..], q, node);
      LeadsOn(entries, i, p[1..], Dir(below));
      assert [entries[i].name] + p[1..] == p;
    }
  }

  /** With distinct names a path leads to one node only, and to proper directories. */
  lemma {:induction false} LeadsToOne(entries: seq<Entry>, p: Path, a: Node, b: Node)
    requires ProperNames(Dir(entries)) && LeadsTo(entries, p, a) && LeadsTo(entries, p, b)
    ensures a == b && ProperNames(a)
    decreases |p|
  {
    var i :| 0 <= i < |entries| && EntryLeadsTo(entries[i], p, a);
    var j :| 0 <= j < |entries| && EntryLeadsTo(entries[j], p, b);
    assert i == j;
    if |p| > 1 {
      LeadsToOne(entries[i].node.entries, p[1..], a, b);
    }
  }

  lemma {:induction false} NodeAtExactly(entries: seq<Entry>, path: Path, file: bool)
    ensures NodeAt(entries, path, file) <==> exists node :: LeadsTo(entries, path, node) && node.File? == file
    decreases |path|
  {
    if NodeAt(entries, path, file) {
      var i :| 0 <= i < |entries| && entries[i].name == path[0] && NodeBelow(entries[i].node, path[1..], file);
      if |path| == 1 {
        LeadsHere(entries, i);
        assert path == [entries[i].name];
      } else {
        NodeAtExactly(entries[i].node.entries, path[1..], file);
        var node :| LeadsTo(entries[i].node.entries, path[1..], node) && node.File? == file;
        LeadsOn(entries, i, path[1..], node);
        assert [entries[i].name] + path[1..] == path;
      }
    }
    forall node | LeadsTo(entries, path, node) && node.File? == file
      ensures NodeAt(entries, path, file)
    {
      var i :| 0 <= i < |entries| && EntryLeadsTo(entries[i], path, node);
      if |path| > 1 { NodeAtExactly(entries[i].node.entries, path[1..], file); }
      assert NodeBelow(entries[i].node, path[1..], file);
    }
  }

  /** The first j components of the path lead to something that is neither a directory nor a link. */
  ghost predicate Ends(entries: seq<Entry>, path: Path, j: nat, node: Node)
    requires j <= |path|
  {
    LeadsTo(entries, path[..j], node) && (node.File? || node.Special?)
  }

  lemma {:induction false} ObstructedExactly(entries: seq<Entry>, path: Path)
    ensures Obstructed(entries, path) <==> exists j, node | 1 <= j < |path| :: Ends(entries, path, j, node)
    decreases |path|
  {
    if Obstructed(entries, path) {
      var i :| 0 <= i < |entries| && entries[i].name == path[0] && ObstructedBelow(entries[i].node, path[1..]);
      if entries[i].node.Dir? {
        ObstructedExactly(entries[i].node.entries, path[1..]);
        var j, node :| 1 <= j < |path[1..]| && Ends(entries[i].node.entries, path[1..], j, node);
        LeadsOn(entries, i, path[1..][..j], node);
        assert [entries[i].name] + path[1..][..j] == path[..j + 1];
        assert Ends(entries, path, j + 1, node);
      } else {
        LeadsHere(entries, i);
        assert path[..1] == [entries[i].name];
        assert Ends(entries, path, 1, entries[i].node);
      }
    }
    forall j, node | 1 <= j < |path| && Ends(entries, path, j, node)
      ensures Obstructed(entries, path)
    {
      EndsObstruct(entries, path, j, node);
    }
  }

  lemma {:induction false} EndsObstruct(entries: seq<Entry>, path: Path, j: nat, node: Node)
    requires 1 <= j < |path| && Ends(entries, path, j, node)
    ensures Obstructed(entries, path)
    decreases j
  {
    var i :| 0 <= i < |entries| && EntryLeadsTo(entries[i], path[..j], node);
    if j > 1 {
      assert path[..j][1..] == path[1..][..j - 1];
      EndsObstruct(entries[i].node.entries, path[1..], j - 1, node);
    }
    assert ObstructedBelow(entries[i].node, path[1..]);
  }

  /** The session's own name, or the older form of it. */
  predicate IsSessionName(name: string, session: string) {
    name == session || (name == "session_" + session && !("session_" <= session))
  }

  /** The path ends in a session directory and its wire file, the former within the depth. */
  predicate IsWirePath(p: Path, session: string, depth: nat) {
    && 4 <= |p| <= depth + 3 && IsSessionName(p[|p| - 4], session)
    && p[|p| - 3..] == ["agents", "main", "wire.jsonl"]
  }

  /** What a session directory leads to instead of a wire file, j components on. */
  ghost predicate IsBadWire(entries: seq<Entry>, session: string, q: Path, j: nat, node: Node) {
    && q != [] && IsSessionName(q[|q| - 1], session) && 1 <= j <= 3
    && LeadsTo(entries, q + ["agents", "main", "wire.jsonl"][..j], node)
    && if j == 3 then !node.File? else node.File? || node.Special?
  }

  /**
   * Candidates are exactly the regular wire files of the session's directories within the
   * depth. A search is refused exactly when such a path ends in something other than a
   * regular file, or meets a file on its way.
   */
  lemma {:induction false} KimiExactly(entries: seq<Entry>, session: string, depth: nat, p: Path)
    requires ProperNames(Dir(entries))
    ensures Hits(entries, KimiWire(SessionDirs(session)), depth, p) <==> IsWirePath(p, session, depth) && IsFile(entries, p)
    ensures Refuses(entries, KimiWire(SessionDirs(session)), depth) <==>
      exists q: Path, j, node :: |q| <= depth && IsBadWire(entries, session, q, j, node)
  {
    KimiHitsExactly(entries, session, depth, p);
    KimiRefusesExactly(entries, session, depth);
  }

  lemma {:induction false} KimiHitsExactly(entries: seq<Entry>, session: string, depth: nat, p: Path)
    requires ProperNames(Dir(entries))
    ensures Hits(entries, KimiWire(SessionDirs(session)), depth, p) <==> IsWirePath(p, session, depth) && IsFile(entries, p)
  {
    var probe := KimiWire(SessionDirs(session));
    HitsExactly(entries, probe, depth, p);
    if Hits(entries, probe, depth, p) {
      var k, node :| 0 <= k < |p| && k < depth && HitAt(entries, probe, p, k, node);
      WireIsFile(entries, session, depth, p, k, node);
    }
    if IsWirePath(p, session, depth) && IsFile(entries, p) {
      var node := FileIsHit(entries, session, depth, p);
    }
  }

  lemma {:induction false} WireIsFile(entries: seq<Entry>, session: string, depth: nat, p: Path, k: nat, node: Node)
    requires k < |p| && k < depth && HitAt(entries, KimiWire(SessionDirs(session)), p, k, node)
    ensures IsWirePath(p, session, depth) && IsFile(entries, p)
  {
    KimiProbes(session, p[k], node);
    FileThrough(entries, p[..k + 1], node.entries, p[k + 1..]);
    assert p == p[..k + 1] + p[k + 1..];
    WirePathAt(p, session, depth, k);
  }

  lemma {:induction false} WirePathAt(p: Path, session: string, depth: nat, k: nat)
    requires k < |p| && k < depth && IsSessionName(p[k], session) && p[k + 1..] == WIRE
    ensures IsWirePath(p, session, depth)
  {
    assert |p| - 3 == k + 1;
  }

  /** What the finder makes of one entry. */
  lemma {:induction false} KimiProbes(session: string, name: string, node: Node)
    ensures
      var found := KimiWire(SessionDirs(session))(Entry(name, node));
      && (found != Skip ==> node.Dir? && IsSessionName(name, session))
      && (found.Hit? ==> found.suffix == WIRE && NodeAt(node.entries, found.suffix, true))
      && (node.Dir? && IsSessionName(name, session) ==>
            (found == Refuse <==> NodeAt(node.entries, WIRE, false) || Obstructed(node.entries, WIRE)))
  {
  }

  lemma {:induction false} FileThrough(entries: seq<Entry>, q: Path, below: seq<Entry>, path: Path)
    requires LeadsTo(entries, q, Dir(below)) && NodeAt(below, path, true)
    ensures IsFile(entries, q + path)
  {
    NodeAtExactly(below, path, true);
    var file :| LeadsTo(below, path, file) && file.File?;
    LeadsThrough(entries, q, below, path, file);
    assert LeadsTo(entries, q + path, File(file.content));
  }

  lemma {:induction false} FileIsHit(entries: seq<Entry>, session: string, depth: nat, p: Path) returns (node: Node)
    requires ProperNames(Dir(entries)) && IsWirePath(p, session, depth) && IsFile(entries, p)
    ensures HitAt(entries, KimiWire(SessionDirs(session)), p, |p| - 4, node)
  {
    var q := p[..|p| - 3];
    var content :| LeadsTo(entries, p, File(content));
    assert p == q + WIRE && p[|p| - 3..] == WIRE;
    var below := LeadsVia(entries, q, WIRE, File(content));
    LeadsToOne(entries, q, Dir(below), Dir(below));
    WireIsUsable(below, WIRE, content);
    node := Dir(below);
  }

  /** Where the path leads to a regular file, it leads to nothing else. */
  lemma {:induction false} WireIsUsable(below: seq<Entry>, path: Path, content: Bytes)
    requires ProperNames(Dir(below)) && LeadsTo(below, path, File(content))
    ensures NodeAt(below, path, true) && !NodeAt(below, path, false) && !Obstructed(below, path)
  {
    NodeAtExactly(below, path, true);
    NodeAtExactly(below, path, false);
    ObstructedExactly(below, path);
    forall node | LeadsTo(below, path, node)
      ensures node.File?
    {
      LeadsToOne(below, path, node, File(content));
    }
    forall j, node | 1 <= j < |path|
      ensures !Ends(below, path, j, node)
    {
      if LeadsTo(below, path[..j], node) { OnTheWay(below, path, j, node, content); }
    }
  }

  lemma {:induction false} OnTheWay(below: seq<Entry>, path: Path, j: nat, node: Node, content: Bytes)
    requires ProperNames(Dir(below)) && LeadsTo(below, path, File(content))
    requires 1 <= j < |path| && LeadsTo(below, path[..j], node)
    ensures node.Dir?
  {
    assert path == path[..j] + path[j..];
    var inner := LeadsVia(below, path[..j], path[j..], File(content));
    LeadsToOne(below, path[..j], node, Dir(inner));
  }

  lemma {:induction false} KimiRefusesExactly(entries: seq<Entry>, session: string, depth: nat)
    ensures Refuses(entries, KimiWire(SessionDirs(session)), depth) <==>
      exists q: Path, j, node :: |q| <= depth && IsBadWire(entries, session, q, j, node)
  {
    var probe := KimiWire(SessionDirs(session));
    RefusesExactly(entries, probe, depth);
    if Refuses(entries, probe, depth) {
      var q: Path, node :| 0 < |q| <= depth && RefusedAt(entries, probe, q, node);
      KimiProbes(session, q[|q| - 1], node);
      var j, bad := BadWireBelow(entries, session, q, node.entries);
    }
    forall q: Path, j, node | |q| <= depth && IsBadWire(entries, session, q, j, node)
      ensures Refuses(entries, probe, depth)
    {
      var below := BadWireObstructs(entries, session, q, j, node);
      KimiProbes(session, q[|q| - 1], Dir(below));
      assert RefusedAt(entries, probe, q, Dir(below));
    }
  }

  lemma {:induction false} BadWireBelow(entries: seq<Entry>, session: string, q: Path, below: seq<Entry>) returns (j: nat, node: Node)
    requires LeadsTo(entries, q, Dir(below)) && IsSessionName(q[|q| - 1], session)
    requires NodeAt(below, WIRE, false) || Obstructed(below, WIRE)
    ensures IsBadWire(entries, session, q, j, node)
  {
    if NodeAt(below, WIRE, false) {
      NodeAtExactly(below, WIRE, false);
      j := 3;
      node :| LeadsTo(below, WIRE, node) && !node.File?;
    } else {
      ObstructedExactly(below, WIRE);
      j, node :| 1 <= j < |WIRE| && Ends(below, WIRE, j, node);
    }
    assert WIRE[..3] == WIRE;
    LeadsThrough(entries, q, below, WIRE[..j], node);
  }

  lemma {:induction false} BadWireObstructs(entries: seq<Entry>, session: string, q: Path, j: nat, node: Node)
    returns (below: seq<Entry>)
    requires IsBadWire(entries, session, q, j, node)
    ensures LeadsTo(entries, q, Dir(below)) && (NodeAt(below, WIRE, false) || Obstructed(below, WIRE))
  {
    below := LeadsVia(entries, q, WIRE[..j], node);
    if j == 3 {
      assert WIRE[..3] == WIRE;
      NodeAtExactly(below, WIRE, false);
    } else {
      ObstructedExactly(below, WIRE);
      assert Ends(below, WIRE, j, node);
    }
  }
}
