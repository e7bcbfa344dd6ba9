/**
 * The control-plane registry shared by projects and execution spaces: an ordered
 * list of entries keyed by id, and the one-line marker file that names the
 * selected id.
 */
module RegistryTable {
  import opened Basics

  datatype Entry<T> = Entry(id: string, info: T, createdAt: string, lastOpenedAt: string)

  /** Position of the first entry with this id, or the length of the list. */
  function Position<T>(entries: seq<Entry<T>>, id: string): (k: nat)
    ensures k <= |entries|
    ensures forall i | 0 <= i < k :: entries[i].id != id
    ensures k < |entries| ==> entries[k].id == id
  {
    if entries == [] then 0
    else if entries[0].id == id then 0
    else 1 + Position(entries[1..], id)
  }

  function Find<T>(entries: seq<Entry<T>>, id: string): Option<Entry<T>> {
    var k := Position(entries, id);
    if k < |entries| then Some(entries[k]) else None
  }

  predicate UniqueIds<T>(entries: seq<Entry<T>>) {
    forall i, j | 0 <= i < j < |entries| :: entries[i].id != entries[j].id
  }

  /** The given entry stamped for insertion or for replacing `existing`. */
  function Stamped<T>(entry: Entry<T>, existing: Option<Entry<T>>, now: string): Entry<T> {
    match existing
    case Some(e) =>
      entry.(createdAt := if e.createdAt != "" then e.createdAt else entry.createdAt, lastOpenedAt := now)
    case None =>
      entry.(createdAt := if entry.createdAt == "" then now else entry.createdAt, lastOpenedAt := now)
  }

  function Upsert<T>(entries: seq<Entry<T>>, entry: Entry<T>, now: string): seq<Entry<T>> {
    var k := Position(entries, entry.id);
    if k < |entries| then entries[k := Stamped(entry, Some(entries[k]), now)]
    else entries + [Stamped(entry, None, now)]
  }

  /** `retain(|p| p.id != id)`. */
  function Without<T>(entries: seq<Entry<T>>, id: string): seq<Entry<T>> {
    if entries == [] then []
    else if entries[0].id == id then Without(entries[1..], id)
    else [entries[0]] + Without(entries[1..], id)
  }

  /** The first entry with an id is the one at its position. */
  lemma {:induction false} FindIs<T>(entries: seq<Entry<T>>, id: string, k: nat)
    requires k <= |entries|
    requires forall i | 0 <= i < k :: entries[i].id != id
    requires k < |entries| ==> entries[k].id == id
    ensures Position(entries, id) == k
  {
  }

  /** `upsert`: replace the first entry with the id, or append. */
  method UpsertEntry<T>(entries: seq<Entry<T>>, entry: Entry<T>, now: string) returns (updated: seq<Entry<T>>)
    ensures updated == Upsert(entries, entry, now)
  {
    var k := 0;
    while k < |entries| && entries[k].id != entry.id
      invariant 0 <= k <= |entries|
      invariant forall i | 0 <= i < k :: entries[i].id != entry.id
    {
      k := k + 1;
    }
    FindIs(entries, entry.id, k);
    var stamped := entry.(lastOpenedAt := now);
    if k < |entries| {
      if entries[k].createdAt != "" {
        stamped := stamped.(createdAt := entries[k].createdAt);
      }
      updated := entries[k := stamped];
    } else {
      if stamped.createdAt == "" {
        stamped := stamped.(createdAt := now);
      }
      updated := entries + [stamped];
    }
  }

  /** Upserting changes what one id finds and nothing else, and never duplicates an id. */
  lemma {:induction false} UpsertMeaning<T>(entries: seq<Entry<T>>, entry: Entry<T>, now: string, id: string)
    ensures UniqueIds(entries) ==> UniqueIds(Upsert(entries, entry, now))
    ensures Find(Upsert(entries, entry, now), id)
         == if id == entry.id then Some(Stamped(entry, Find(entries, id), now)) else Find(entries, id)
  {
    var k := Position(entries, entry.id);
    var after := Upsert(entries, entry, now);
    if id == entry.id {
      FindIs(after, id, k);
    } else {
      var j := Position(entries, id);
      FindIs(after, id, if j < |entries| then j else |after|);
    }
  }

  /** Removal drops the rows of one id only. */
  lemma {:induction false} WithoutMembers<T>(entries: seq<Entry<T>>, id: string)
    ensures forall e | e in Without(entries, id) :: e in entries && e.id != id
    ensures |Without(entries, id)| <= |entries|
  {
    if entries != [] { WithoutMembers(entries[1..], id); }
  }

  lemma {:induction false} WithoutUnique<T>(entries: seq<Entry<T>>, id: string)
    requires UniqueIds(entries)
    ensures UniqueIds(Without(entries, id))
  {
    if entries != [] {
      assert forall i | 0 <= i < |entries[1..]| :: entries[1..][i] == entries[i + 1];
      WithoutUnique(entries[1..], id);
      WithoutMembers(entries[1..], id);
      var rest := Without(entries[1..], id);
      forall i | 0 <= i < |rest|
        ensures rest[i].id != entries[0].id
      {
        assert rest[i] in entries[1..];
      }
    }
  }

  lemma {:induction false} FindCons<T>(head: Entry<T>, tail: seq<Entry<T>>, id: string)
    ensures Find([head] + tail, id) == if head.id == id then Some(head) else Find(tail, id)
  {
    assert ([head] + tail)[1..] == tail;
  }

  /** Removal hides one id and keeps what every other id finds. */
  lemma {:induction false} WithoutMeaning<T>(entries: seq<Entry<T>>, id: string, other: string)
    ensures Find(Without(entries, id), other) == if other == id then None else Find(entries, other)
  {
    if entries != [] {
      WithoutMeaning(entries[1..], id, other);
      assert entries == [entries[0]] + entries[1..];
      FindCons(entries[0], entries[1..], other);
      FindCons(entries[0], Without(entries[1..], id), other);
    }
  }

  /** The list gets shorter exactly when the id was there. */
  lemma {:induction false} WithoutShortens<T>(entries: seq<Entry<T>>, id: string)
    ensures |Without(entries, id)| == |entries| <==> Find(entries, id) == None
  {
    if entries != [] {
      WithoutShortens(entries[1..], id);
      WithoutMembers(entries[1..], id);
      assert entries == [entries[0]] + entries[1..];
      FindCons(entries[0], entries[1..], id);
    }
  }

  // ---- The marker file ----

  function TrimStart(s: string): string {
    if s != [] && IsWhitespace(s[0]) then TrimStart(s[1..]) else s
  }

  function TrimEnd(s: string): string {
    if s != [] && IsWhitespace(s[|s| - 1]) then TrimEnd(s[..|s| - 1]) else s
  }

  function Trim(s: string): string {
    TrimEnd(TrimStart(s))
  }

  /** What is written for an id: the id on one line. */
  function MarkerText(id: string): string {
    id + "\n"
  }

  /** A missing file, or one that is blank once trimmed, selects nothing. */
  function ReadMarker(file: Option<string>): Option<string> {
    match file
    case None => None
    case Some(text) => if Trim(text) == "" then None else Some(Trim(text))
  }

  /** Neither end of the text is white space. */
  predicate Trimmed(s: string) {
    s != [] ==> !IsWhitespace(s[0]) && !IsWhitespace(s[|s| - 1])
  }

  lemma {:induction false} TrimIsTrimmed(s: string)
    ensures Trimmed(Trim(s))
    ensures |Trim(s)| <= |s|
  {
    TrimStartMeaning(s);
    TrimEndMeaning(TrimStart(s));
  }

  lemma {:induction false} TrimStartMeaning(s: string)
    ensures |TrimStart(s)| <= |s|
    ensures TrimStart(s) != [] ==> !IsWhitespace(TrimStart(s)[0])
  {
    if s != [] && IsWhitespace(s[0]) { TrimStartMeaning(s[1..]); }
  }

  lemma {:induction false} TrimEndMeaning(s: string)
    ensures |TrimEnd(s)| <= |s|
    ensures TrimEnd(s) != [] ==> TrimEnd(s)[0] == s[0] && !IsWhitespace(TrimEnd(s)[|TrimEnd(s)| - 1])
  {
    if s != [] && IsWhitespace(s[|s| - 1]) { TrimEndMeaning(s[..|s| - 1]); }
  }

  /** What is left of a text once the white space around it is taken away. */
  ghost predicate IsTrimOf(t: string, s: string) {
    Trimmed(t) && exists i, j | 0 <= i <= j <= |s| :: IsBlank(s[..i]) && t == s[i..j] && IsBlank(s[j..])
  }

  lemma {:induction false} TrimStartExactly(s: string) returns (i: nat)
    ensures i <= |s| && IsBlank(s[..i]) && TrimStart(s) == s[i..]
  {
    if s != [] && IsWhitespace(s[0]) {
      var k := TrimStartExactly(s[1..]);
      i := k + 1;
      assert s[1..][k..] == s[i..] && forall j | 1 <= j < i :: s[..i][j] == s[1..][..k][j - 1];
    } else {
      i := 0;
    }
  }

  lemma {:induction false} TrimEndExactly(s: string) returns (j: nat)
    ensures j <= |s| && IsBlank(s[j..]) && TrimEnd(s) == s[..j]
  {
    if s != [] && IsWhitespace(s[|s| - 1]) {
      var front := s[..|s| - 1];
      j := TrimEndExactly(front);
      assert front[..j] == s[..j] && s[j..] == front[j..] + [s[|s| - 1]];
    } else {
      j := |s|;
    }
  }

  /** Trimming gives exactly that, and there is only one such text. */
  lemma {:induction false} TrimExactly(s: string, t: string)
    ensures Trim(s) == t <==> IsTrimOf(t, s)
  {
    var i := TrimStartExactly(s);
    var k := TrimEndExactly(s[i..]);
    TrimIsTrimmed(s);
    assert s[i..][..k] == s[i..i + k] && s[i..][k..] == s[i + k..];
    assert IsTrimOf(Trim(s), s);
    if IsTrimOf(t, s) {
      TrimIsUnique(s, t, Trim(s));
    }
  }

  /** The white space around a part of the text. */
  predicate BlankOutside(s: string, i: nat, j: nat) {
    forall k | 0 <= k < |s| && (k < i || j <= k) :: IsWhitespace(s[k])
  }

  lemma {:induction false} AroundIsBlank(s: string, i: nat, j: nat)
    requires i <= j <= |s| && IsBlank(s[..i]) && IsBlank(s[j..])
    ensures BlankOutside(s, i, j)
  {
    forall k | 0 <= k < |s| && (k < i || j <= k)
      ensures IsWhitespace(s[k])
    {
      if k < i { assert s[..i][k] == s[k]; } else { assert s[j..][k - j] == s[k]; }
    }
  }

  /** A trimmed part lies within every part that has nothing but white space around it. */
  lemma {:induction false} TrimmedIsInside(s: string, i: nat, j: nat, k: nat, l: nat)
    requires i <= j <= |s| && k < l <= |s| && BlankOutside(s, i, j) && Trimmed(s[k..l])
    ensures i <= k && l <= j
  {
    assert s[k..l][0] == s[k] && s[k..l][l - k - 1] == s[l - 1];
  }

  lemma {:induction false} TrimIsUnique(s: string, t: string, u: string)
    requires IsTrimOf(t, s) && IsTrimOf(u, s)
    ensures t == u
  {
    var i, j :| 0 <= i <= j <= |s| && IsBlank(s[..i]) && t == s[i..j] && IsBlank(s[j..]);
    var k, l :| 0 <= k <= l <= |s| && IsBlank(s[..k]) && u == s[k..l] && IsBlank(s[l..]);
    AroundIsBlank(s, i, j);
    AroundIsBlank(s, k, l);
    if k < l { TrimmedIsInside(s, i, j, k, l); }
    if i < j { TrimmedIsInside(s, k, l, i, j); }
  }

  /** A written id is read back exactly when it is non-empty and has no white space at either end. */
  lemma {:induction false} MarkerRoundTrip(id: string)
    ensures ReadMarker(Some(MarkerText(id))) == Some(id) <==> id != "" && Trimmed(id)
  {
    var text := MarkerText(id);
    TrimIsTrimmed(text);
    if id != "" && Trimmed(id) {
      assert TrimStart(text) == text;
      assert text[..|text| - 1] == id;
      assert TrimEnd(id) == id;
    }
  }

  // ---- Ids that may name a directory ----

  predicate IsCleanChar(c: char) {
    'a' <= c <= 'z' || 'A' <= c <= 'Z' || '0' <= c <= '9' || c == '.' || c == '_' || c == '-'
  }

  predicate IsCleanId(id: string) {
    id != "" && forall i | 0 <= i < |id| :: IsCleanChar(id[i])
  }

  lemma {:induction false} CleanIdReadsBack(id: string)
    requires IsCleanId(id)
    ensures ReadMarker(Some(MarkerText(id))) == Some(id)
  {
    assert Trimmed(id) by { assert IsCleanChar(id[0]) && IsCleanChar(id[|id| - 1]); }
    MarkerRoundTrip(id);
  }

  // ---- Files that are written in place ----

  /** A JSON file as its reader finds it: absent, blank, unreadable, or complete. */
  datatype File<+T> = Missing | Blank | Garbled | Whole(value: T)

  /** What a plain write that fails leaves: the file as it was, or the first bytes of the new text. */
  datatype Tear = Kept | Cut(length: nat)

  /** The disk during one operation: how many writes go through before one fails, and how that one fails. */
  datatype Disk = Disk(writes: nat, tear: Tear)

  /** No proper prefix of an object's text parses, and the empty one reads as a blank file. */
  function Torn<T>(file: File<T>, tear: Tear): File<T> {
    match tear
    case Kept => file
    case Cut(length) => if length == 0 then Blank else Garbled
  }

  /** The marker after its write failed: at most the id, without the line end. */
  function TornMarker(file: Option<string>, id: string, tear: Tear): Option<string> {
    match tear
    case Kept => file
    case Cut(length) => Some(id[..if length < |id| then length else |id|])
  }

  /** A cut marker names a shorter id, or none at all. */
  lemma {:induction false} TornMarkerReads(file: Option<string>, id: string, tear: Tear)
    requires IsCleanId(id) && tear.Cut?
    ensures ReadMarker(TornMarker(file, id, tear))
         == if tear.length == 0 then None else Some(id[..if tear.length < |id| then tear.length else |id|])
  {
    var text := TornMarker(file, id, tear).value;
    if text != "" {
      assert IsCleanChar(text[0]) && IsCleanChar(text[|text| - 1]);
    }
  }
}
