/**
 Link values of a record and the JSON Pointers (RFC 6901) that locate them.
 Evaluation follows section 4 of RFC 6901, escaping section 3.
 */
module JsonPointer {
  import opened Basics
  import opened Json

  // ---- Escaping (section 3) -----------------------------------------------

  /** `str::replace` of one character by a text. */
  function ReplaceChar(s: string, c: char, with: string): string {
    if s == [] then [] else (if s[0] == c then with else [s[0]]) + ReplaceChar(s[1..], c, with)
  }

  /** Replacement of every "~" followed by `second`, left to right. */
  function ReplacePair(s: string, second: char, with: char): string {
    if |s| < 2 then s
    else if s[0] == '~' && s[1] == second then [with] + ReplacePair(s[2..], second, with)
    else [s[0]] + ReplacePair(s[1..], second, with)
  }

  function Escape(s: string): string {
    ReplaceChar(ReplaceChar(s, '~', "~0"), '/', "~1")
  }

  /** First "~1" to "/", then "~0" to "~", the order section 4 prescribes. */
  function Unescape(s: string): string {
    ReplacePair(ReplacePair(s, '1', '/'), '0', '~')
  }

  lemma {:induction false} ReplaceCharAppend(s: string, t: string, c: char, with: string)
    ensures ReplaceChar(s + t, c, with) == ReplaceChar(s, c, with) + ReplaceChar(t, c, with)
  {
    if s == [] {
      assert s + t == t;
    } else {
      assert (s + t)[1..] == s[1..] + t;
      ReplaceCharAppend(s[1..], t, c, with);
    }
  }

  function EscapedChar(c: char): string {
    if c == '~' then "~0" else if c == '/' then "~1" else [c]
  }

  lemma {:induction false} EscapeCons(s: string)
    requires s != []
    ensures Escape(s) == EscapedChar(s[0]) + Escape(s[1..])
  {
    var once := if s[0] == '~' then "~0" else [s[0]];
    ReplaceCharAppend(once, ReplaceChar(s[1..], '~', "~0"), '/', "~1");
    if s[0] == '~' {
      assert ReplaceChar("0", '/', "~1") == "0" + ReplaceChar("0"[1..], '/', "~1");
      assert ReplaceChar("~0", '/', "~1") == "~" + ReplaceChar("~0"[1..], '/', "~1");
      assert "~0"[1..] == "0";
    } else {
      assert ReplaceChar([s[0]], '/', "~1") == EscapedChar(s[0]) + ReplaceChar([s[0]][1..], '/', "~1");
    }
  }

  lemma {:induction false} EscapeRoundTrip(s: string)
    ensures Unescape(Escape(s)) == s
  {
    FirstPass(s);
    SecondPass(s);
  }

  /** The first pass of unescaping undoes the slashes only. */
  lemma {:induction false} FirstPass(s: string)
    ensures ReplacePair(Escape(s), '1', '/') == ReplaceChar(s, '~', "~0")
  {
    if s != [] {
      EscapeCons(s);
      FirstPass(s[1..]);
      var rest := Escape(s[1..]);
      if s[0] == '~' {
        assert ("~0" + rest)[1..] == "0" + rest;
        assert ("0" + rest)[1..] == rest;
        if rest == [] {
          assert ReplaceChar(s[1..], '~', "~0") == [];
        }
      } else if s[0] == '/' {
        assert ("~1" + rest)[2..] == rest;
      } else {
        assert ([s[0]] + rest)[1..] == rest;
        if rest == [] {
          assert ReplaceChar(s[1..], '~', "~0") == [];
        }
      }
    }
  }

  lemma {:induction false} SecondPass(s: string)
    ensures ReplacePair(ReplaceChar(s, '~', "~0"), '0', '~') == s
  {
    if s != [] {
      SecondPass(s[1..]);
      var rest := ReplaceChar(s[1..], '~', "~0");
      if s[0] == '~' {
        assert ("~0" + rest)[2..] == rest;
      } else {
        assert ([s[0]] + rest)[1..] == rest;
        if rest == [] {
          assert s[1..] == [];
        }
      }
    }
  }

  lemma {:induction false} EscapeHasNoSlash(s: string)
    ensures '/' !in Escape(s)
  {
    if s != [] {
      EscapeCons(s);
      EscapeHasNoSlash(s[1..]);
    }
  }

  // ---- Pointers (sections 3 and 4) ----------------------------------------

  function Render(tokens: seq<string>): string {
    if tokens == [] then "" else "/" + Escape(tokens[0]) + Render(tokens[1..])
  }

  /** The texts between slashes; there is always at least one. */
  function SplitSlash(s: string): (parts: seq<string>)
    ensures |parts| >= 1
  {
    if s == [] then [""]
    else
      var rest := SplitSlash(s[1..]);
      if s[0] == '/' then [""] + rest else [[s[0]] + rest[0]] + rest[1..]
  }

  function UnescapeAll(texts: seq<string>): seq<string> {
    if texts == [] then [] else [Unescape(texts[0])] + UnescapeAll(texts[1..])
  }

  /** The reference tokens of a pointer; None for a text that is not a pointer. */
  function Tokens(pointer: string): Option<seq<string>> {
    if pointer == "" then Some([])
    else if pointer[0] != '/' then None
    else Some(UnescapeAll(SplitSlash(pointer[1..])))
  }

  /** An array index: digits without a leading zero. */
  function ArrayIndex(token: string): Option<nat> {
    if |token| >= 1 && (forall i | 0 <= i < |token| :: '0' <= token[i] <= '9') && (|token| > 1 ==> token[0] != '0')
       && FromDecimal(token) >= 0
    then Some(FromDecimal(token)) else None
  }

  function Resolve(value: Json, token: string): Option<Json> {
    match value
    case JObject(_) => Member(value, token)
    case JArray(items) =>
      var i := ArrayIndex(token);
      if i.Some? && i.value < |items| then Some(items[i.value]) else None
    case _ => None
  }

  function Walk(value: Json, tokens: seq<string>): Option<Json> {
    if tokens == [] then Some(value)
    else
      var child := Resolve(value, tokens[0]);
      if child.None? then None else Walk(child.value, tokens[1..])
  }

  /** The value a pointer identifies in a document, if any. */
  function Evaluate(document: Json, pointer: string): Option<Json> {
    var tokens := Tokens(pointer);
    if tokens.None? then None else Walk(document, tokens.value)
  }

  lemma {:induction false} SplitPrefix(s: string, rest: string)
    requires '/' !in s
    ensures SplitSlash(s + rest) == [s + SplitSlash(rest)[0]] + SplitSlash(rest)[1..]
  {
    var parts := SplitSlash(rest);
    if s == [] {
      assert s + rest == rest && s + parts[0] == parts[0];
      assert parts == [parts[0]] + parts[1..];
    } else {
      assert (s + rest)[1..] == s[1..] + rest && (s + rest)[0] == s[0];
      SplitPrefix(s[1..], rest);
      assert [s[0]] + (s[1..] + SplitSlash(rest)[0]) == s + SplitSlash(rest)[0];
    }
  }

  function EscapeAll(tokens: seq<string>): seq<string> {
    if tokens == [] then [] else [Escape(tokens[0])] + EscapeAll(tokens[1..])
  }

  /** The slashes of a rendered pointer separate exactly its tokens. */
  lemma {:induction false} SplitRendered(tokens: seq<string>)
    requires tokens != []
    ensures SplitSlash(Render(tokens)[1..]) == EscapeAll(tokens)
  {
    var text, rest := Escape(tokens[0]), Render(tokens[1..]);
    assert Render(tokens)[1..] == text + rest;
    EscapeHasNoSlash(tokens[0]);
    SplitPrefix(text, rest);
    assert text + "" == text;
    if tokens[1..] != [] {
      SplitRendered(tokens[1..]);
      assert rest[0] == '/' && SplitSlash(rest)[1..] == SplitSlash(rest[1..]);
    }
  }

  lemma {:induction false} UnescapeAllRoundTrip(tokens: seq<string>)
    ensures UnescapeAll(EscapeAll(tokens)) == tokens
  {
    if tokens != [] {
      EscapeRoundTrip(tokens[0]);
      UnescapeAllRoundTrip(tokens[1..]);
    }
  }

  /** Reading a rendered pointer gives back its tokens, whatever characters they hold. */
  lemma {:induction false} PointerRoundTrip(tokens: seq<string>)
    ensures Tokens(Render(tokens)) == Some(tokens)
  {
    if tokens != [] {
      SplitRendered(tokens);
      UnescapeAllRoundTrip(tokens);
    }
  }

  lemma {:induction false} RenderAppend(a: seq<string>, b: seq<string>)
    ensures Render(a + b) == Render(a) + Render(b)
  {
    if a == [] {
      assert a + b == b;
    } else {
      assert (a + b)[1..] == a[1..] + b;
      RenderAppend(a[1..], b);
    }
  }

  /** Index tokens need no escaping and read back as the index. */
  lemma {:induction false} IndexToken(i: nat)
    ensures Escape(Decimal(i)) == Decimal(i) && ArrayIndex(Decimal(i)) == Some(i)
  {
    DecimalRoundTrip(i);
    PlainText(Decimal(i));
  }

  lemma {:induction false} PlainText(s: string)
    requires '~' !in s && '/' !in s
    ensures Escape(s) == s
  {
    if s != [] {
      EscapeCons(s);
      PlainText(s[1..]);
    }
  }

  // ---- Link rules ---------------------------------------------------------

  datatype TargetKind =
    | Goal | GoalOrDescriptionRef | Task | TaskOrDescriptionRef | Phase | GoalDesign | GoalDesignRef | GoalEvaluation

  datatype Emission = Emission(pointer: string, target: TargetKind, text: string)

  predicate NonBlankString(value: Json) {
    value.JString? && !IsBlank(value.text)
  }

  /** The values a rule path emits, with the pointer text built along the way. */
  function Collect(value: Json, segments: seq<string>, path: string, target: TargetKind): seq<Emission>
    decreases |segments|, 0, 0
  {
    if segments == [] then
      match value
      case JString(text) => if !IsBlank(text) then [Emission(path, target, text)] else []
      case JArray(items) => CollectStrings(items, 0, path, target)
      case _ => []
    else if segments[0] == "*" then
      (if value.JArray? then CollectItems(value.items, 0, segments[1..], path, target) else [])
    else
      var child := Member(value, segments[0]);
      if child.Some? then Collect(child.value, segments[1..], path + "/" + Escape(segments[0]), target) else []
  }

  function CollectStrings(items: seq<Json>, i: nat, path: string, target: TargetKind): seq<Emission>
    requires i <= |items|
    decreases |items| - i
  {
    if i == |items| then []
    else (if NonBlankString(items[i]) then [Emission(path + "/" + Decimal(i), target, items[i].text)] else [])
         + CollectStrings(items, i + 1, path, target)
  }

  function CollectItems(items: seq<Json>, i: nat, segments: seq<string>, path: string, target: TargetKind): seq<Emission>
    requires i <= |items|
    decreases |segments|, 1, |items| - i
  {
    if i == |items| then []
    else Collect(items[i], segments, path + "/" + Decimal(i), target)
         + CollectItems(items, i + 1, segments, path, target)
  }

  method PushStrings(items: seq<Json>, path: string, target: TargetKind, output: seq<Emission>)
    returns (collected: seq<Emission>)
    ensures collected == output + CollectStrings(items, 0, path, target)
  {
    collected := output;
    for i := 0 to |items|
      invariant collected + CollectStrings(items, i, path, target) == output + CollectStrings(items, 0, path, target)
    {
      if NonBlankString(items[i]) {
        collected := collected + [Emission(path + "/" + Decimal(i), target, items[i].text)];
      }
    }
  }

  /** The collector as the exporter runs it, pushing onto one output vector. */
  method CollectRuleValues(value: Json, segments: seq<string>, path: string, target: TargetKind, output: seq<Emission>)
    returns (collected: seq<Emission>)
    ensures collected == output + Collect(value, segments, path, target)
    decreases |segments|, 0
  {
    collected := output;
    if segments == [] {
      match value
      case JString(text) =>
        if !IsBlank(text) {
          collected := collected + [Emission(path, target, text)];
        }
      case JArray(items) =>
        collected := PushStrings(items, path, target, collected);
      case _ =>
    } else if segments[0] == "*" {
      if value.JArray? {
        collected := CollectEach(value.items, segments[1..], path, target, collected);
      }
    } else {
      var child := Member(value, segments[0]);
      if child.Some? {
        collected := CollectRuleValues(child.value, segments[1..], path + "/" + Escape(segments[0]), target, collected);
      }
    }
  }

  /** The loop over the elements of an array below a "*". */
  method CollectEach(items: seq<Json>, segments: seq<string>, path: string, target: TargetKind, output: seq<Emission>)
    returns (collected: seq<Emission>)
    ensures collected == output + CollectItems(items, 0, segments, path, target)
    decreases |segments|, 1
  {
    collected := output;
    for i := 0 to |items|
      invariant collected + CollectItems(items, i, segments, path, target)
             == output + CollectItems(items, 0, segments, path, target)
    {
      ghost var here := Collect(items[i], segments, path + "/" + Decimal(i), target);
      ghost var later := CollectItems(items, i + 1, segments, path, target);
      assert CollectItems(items, i, segments, path, target) == here + later;
      Regroup(collected, here, later);
      collected := CollectRuleValues(items[i], segments, path + "/" + Decimal(i), target, collected);
    }
  }

  lemma {:induction false} Regroup(a: seq<Emission>, b: seq<Emission>, c: seq<Emission>)
    ensures a + (b + c) == (a + b) + c
  {
  }

  // ---- What a rule path reaches -------------------------------------------

  /**
   The tokens lead along the rule path to a non-blank string: "*" is one array
   element, any other segment one object member, and a final array stands for
   each of its elements.
   */
  ghost predicate Reaches(value: Json, segments: seq<string>, tokens: seq<string>, text: string) {
    if segments == [] then
      || (tokens == [] && value == JString(text) && !IsBlank(text))
      || (|tokens| == 1 && !IsBlank(text) && value.JArray?
          && exists i | 0 <= i < |value.items| :: tokens[0] == Decimal(i) && value.items[i] == JString(text))
    else if segments[0] == "*" then
      tokens != [] && value.JArray?
      && exists i | 0 <= i < |value.items| ::
           tokens[0] == Decimal(i) && Reaches(value.items[i], segments[1..], tokens[1..], text)
    else
      tokens != [] && tokens[0] == segments[0] && Member(value, segments[0]).Some?
      && Reaches(Member(value, segments[0]).value, segments[1..], tokens[1..], text)
  }

  lemma {:induction false} WalkIndex(items: seq<Json>, i: nat, tokens: seq<string>)
    requires i < |items| && tokens != [] && tokens[0] == Decimal(i)
    ensures Walk(JArray(items), tokens) == Walk(items[i], tokens[1..])
  {
    IndexToken(i);
  }

  /** Whatever the rule reaches, walking the tokens from the value finds it. */
  lemma {:induction false} ReachedIsWalked(value: Json, segments: seq<string>, tokens: seq<string>, text: string)
    requires Reaches(value, segments, tokens, text)
    ensures Walk(value, tokens) == Some(JString(text)) && !IsBlank(text)
    decreases |segments|
  {
    if segments == [] {
      if tokens != [] {
        var i :| 0 <= i < |value.items| && tokens[0] == Decimal(i) && value.items[i] == JString(text);
        WalkIndex(value.items, i, tokens);
        assert tokens[1..] == [];
      }
    } else if segments[0] == "*" {
      var i :| 0 <= i < |value.items| && tokens[0] == Decimal(i)
               && Reaches(value.items[i], segments[1..], tokens[1..], text);
      WalkIndex(value.items, i, tokens);
      ReachedIsWalked(value.items[i], segments[1..], tokens[1..], text);
    } else {
      ReachedIsWalked(Member(value, segments[0]).value, segments[1..], tokens[1..], text);
    }
  }

  /** Emission k comes from some reached token path below `base`. */
  ghost predicate ComesFrom(e: Emission, value: Json, segments: seq<string>, base: seq<string>, target: TargetKind) {
    exists tokens :: e == Emission(Render(base + tokens), target, e.text) && Reaches(value, segments, tokens, e.text)
  }

  /** Extending the pointer text by one token. */
  lemma {:induction false} ExtendPath(base: seq<string>, token: string)
    ensures Render(base + [token]) == Render(base) + "/" + Escape(token)
  {
    RenderAppend(base, [token]);
    assert [token][1..] == [];
    assert Render([token]) == "/" + Escape(token) + "";
  }

  lemma {:induction false} ReachedThroughMember(e: Emission, value: Json, segments: seq<string>, base: seq<string>, target: TargetKind)
    requires segments != [] && segments[0] != "*" && Member(value, segments[0]).Some?
    requires ComesFrom(e, Member(value, segments[0]).value, segments[1..], base + [segments[0]], target)
    ensures ComesFrom(e, value, segments, base, target)
  {
    var tokens :| e == Emission(Render(base + [segments[0]] + tokens), target, e.text)
                  && Reaches(Member(value, segments[0]).value, segments[1..], tokens, e.text);
    var longer := [segments[0]] + tokens;
    assert longer[1..] == tokens && base + longer == base + [segments[0]] + tokens;
    assert Reaches(value, segments, longer, e.text);
  }

  lemma {:induction false} ReachedThroughItem(
    e: Emission, items: seq<Json>, i: nat, segments: seq<string>, base: seq<string>, target: TargetKind)
    requires i < |items| && segments != [] && segments[0] == "*"
    requires ComesFrom(e, items[i], segments[1..], base + [Decimal(i)], target)
    ensures ComesFrom(e, JArray(items), segments, base, target)
  {
    var tokens :| e == Emission(Render(base + [Decimal(i)] + tokens), target, e.text)
                  && Reaches(items[i], segments[1..], tokens, e.text);
    var longer := [Decimal(i)] + tokens;
    assert longer[1..] == tokens && base + longer == base + [Decimal(i)] + tokens;
    assert Reaches(JArray(items), segments, longer, e.text);
  }

  lemma {:induction false} ExtendIndex(base: seq<string>, i: nat)
    ensures Render(base + [Decimal(i)]) == Render(base) + "/" + Decimal(i)
  {
    ExtendPath(base, Decimal(i));
    IndexToken(i);
  }

  lemma {:induction false} ItemsStep(items: seq<Json>, i: nat, segments: seq<string>, base: seq<string>, target: TargetKind)
    requires i < |items|
    ensures CollectItems(items, i, segments, Render(base), target)
         == Collect(items[i], segments, Render(base + [Decimal(i)]), target)
            + CollectItems(items, i + 1, segments, Render(base), target)
  {
    ExtendIndex(base, i);
  }

  /** Nothing is emitted that the rule does not reach. */
  lemma {:induction false} EmissionsAreReached(value: Json, segments: seq<string>, base: seq<string>, target: TargetKind)
    ensures forall e | e in Collect(value, segments, Render(base), target) :: ComesFrom(e, value, segments, base, target)
    decreases |segments|, 0, 0
  {
    if segments == [] {
      match value
      case JString(text) =>
        assert base + [] == base;
        assert !IsBlank(text) ==> Reaches(value, segments, [], text);
      case JArray(items) => StringsAreReached(items, 0, base, target);
      case _ =>
    } else if segments[0] == "*" {
      if value.JArray? {
        ItemsAreReached(value.items, 0, segments, base, target);
      }
    } else {
      var child := Member(value, segments[0]);
      if child.Some? {
        ExtendPath(base, segments[0]);
        EmissionsAreReached(child.value, segments[1..], base + [segments[0]], target);
        forall e | e in Collect(child.value, segments[1..], Render(base + [segments[0]]), target)
          ensures ComesFrom(e, value, segments, base, target)
        {
          ReachedThroughMember(e, value, segments, base, target);
        }
      }
    }
  }

  lemma {:induction false} StringsAreReached(items: seq<Json>, i: nat, base: seq<string>, target: TargetKind)
    requires i <= |items|
    ensures forall e | e in CollectStrings(items, i, Render(base), target) ::
              ComesFrom(e, JArray(items), [], base, target)
    decreases |items| - i
  {
    if i < |items| {
      StringsAreReached(items, i + 1, base, target);
      ExtendPath(base, Decimal(i));
      IndexToken(i);
      if NonBlankString(items[i]) {
        assert Reaches(JArray(items), [], [Decimal(i)], items[i].text);
      }
    }
  }

  lemma {:induction false} ItemsAreReached(items: seq<Json>, i: nat, segments: seq<string>, base: seq<string>, target: TargetKind)
    requires i <= |items| && segments != [] && segments[0] == "*"
    ensures forall e | e in CollectItems(items, i, segments[1..], Render(base), target) ::
              ComesFrom(e, JArray(items), segments, base, target)
    decreases |segments| - 1, 1, |items| - i
  {
    if i < |items| {
      ItemsAreReached(items, i + 1, segments, base, target);
      ItemsStep(items, i, segments[1..], base, target);
      EmissionsAreReached(items[i], segments[1..], base + [Decimal(i)], target);
      forall e | e in Collect(items[i], segments[1..], Render(base + [Decimal(i)]), target)
        ensures ComesFrom(e, JArray(items), segments, base, target)
      {
        ReachedThroughItem(e, items, i, segments, base, target);
      }
    }
  }

  /** How often a pointer was emitted. */
  function Times(es: seq<Emission>, pointer: string): nat {
    if es == [] then 0 else (if es[0].pointer == pointer then 1 else 0) + Times(es[1..], pointer)
  }

  lemma {:induction false} TimesAppend(a: seq<Emission>, b: seq<Emission>, pointer: string)
    ensures Times(a + b, pointer) == Times(a, pointer) + Times(b, pointer)
  {
    if a == [] {
      assert a + b == b;
    } else {
      assert (a + b)[1..] == a[1..] + b;
      TimesAppend(a[1..], b, pointer);
    }
  }

  lemma {:induction false} NotEmittedElsewhere(es: seq<Emission>, pointer: string)
    requires forall e | e in es :: e.pointer != pointer
    ensures Times(es, pointer) == 0
  {
    if es != [] {
      assert forall e | e in es[1..] :: e in es;
      NotEmittedElsewhere(es[1..], pointer);
    }
  }

  lemma {:induction false} RenderIsInjective(a: seq<string>, b: seq<string>)
    requires Render(a) == Render(b)
    ensures a == b
  {
    PointerRoundTrip(a);
    PointerRoundTrip(b);
  }

  lemma {:induction false} DecimalIsInjective(i: nat, j: nat)
    requires Decimal(i) == Decimal(j)
    ensures i == j
  {
    DecimalRoundTrip(i);
    DecimalRoundTrip(j);
  }

  /** Every reached token path is emitted exactly once, with its text. */
  lemma {:induction false} ReachedIsEmittedOnce(
    value: Json, segments: seq<string>, base: seq<string>, target: TargetKind, tokens: seq<string>, text: string)
    requires Reaches(value, segments, tokens, text)
    ensures EmittedOnce(Collect(value, segments, Render(base), target), Emission(Render(base + tokens), target, text))
    decreases |segments|, 0, 2
  {
    if segments == [] {
      if tokens == [] {
        assert base + [] == base;
        assert Collect(value, segments, Render(base), target) == [Emission(Render(base), target, text)];
        assert [Emission(Render(base), target, text)][1..] == [];
      } else {
        var i :| 0 <= i < |value.items| && tokens[0] == Decimal(i) && value.items[i] == JString(text);
        assert tokens == [Decimal(i)];
        StringIsEmittedOnce(value.items, 0, base, target, i);
      }
    } else if segments[0] == "*" {
      var i :| 0 <= i < |value.items| && tokens[0] == Decimal(i)
               && Reaches(value.items[i], segments[1..], tokens[1..], text);
      ItemIsEmittedOnce(value.items, 0, segments[1..], base, target, i, tokens[1..], text);
      assert tokens == [Decimal(i)] + tokens[1..];
    } else {
      ExtendPath(base, segments[0]);
      ReachedIsEmittedOnce(Member(value, segments[0]).value, segments[1..], base + [segments[0]], target, tokens[1..], text);
      assert base + tokens == base + [segments[0]] + tokens[1..];
    }
  }

  predicate EmittedOnce(es: seq<Emission>, e: Emission) {
    e in es && Times(es, e.pointer) == 1
  }

  lemma {:induction false} OnceInEither(a: seq<Emission>, b: seq<Emission>, e: Emission)
    ensures EmittedOnce(a, e) && Times(b, e.pointer) == 0 ==> EmittedOnce(a + b, e)
    ensures Times(a, e.pointer) == 0 && EmittedOnce(b, e) ==> EmittedOnce(a + b, e)
    ensures Times(a + b, e.pointer) == Times(a, e.pointer) + Times(b, e.pointer)
  {
    TimesAppend(a, b, e.pointer);
  }

  function StringAt(items: seq<Json>, i: nat, base: seq<string>, target: TargetKind): seq<Emission>
    requires i < |items|
  {
    if NonBlankString(items[i]) then [Emission(Render(base + [Decimal(i)]), target, items[i].text)] else []
  }

  lemma {:induction false} StringsStep(items: seq<Json>, i: nat, base: seq<string>, target: TargetKind)
    requires i < |items|
    ensures CollectStrings(items, i, Render(base), target)
         == StringAt(items, i, base, target) + CollectStrings(items, i + 1, Render(base), target)
  {
    ExtendIndex(base, i);
  }

  /** The pointer to element k is emitted for element k only. */
  lemma {:induction false} StringAtTimes(items: seq<Json>, i: nat, base: seq<string>, target: TargetKind, k: nat)
    requires i < |items| && k < |items| && NonBlankString(items[k])
    ensures var e := Emission(Render(base + [Decimal(k)]), target, items[k].text);
            if i == k then EmittedOnce(StringAt(items, i, base, target), e)
            else Times(StringAt(items, i, base, target), e.pointer) == 0
  {
    var here := StringAt(items, i, base, target);
    assert here != [] ==> here[1..] == [];
    if Render(base + [Decimal(i)]) == Render(base + [Decimal(k)]) {
      RenderIsInjective(base + [Decimal(i)], base + [Decimal(k)]);
      assert (base + [Decimal(i)])[|base|] == (base + [Decimal(k)])[|base|];
      DecimalIsInjective(i, k);
    }
  }

  lemma {:induction false} StringIsEmittedOnce(items: seq<Json>, i: nat, base: seq<string>, target: TargetKind, k: nat)
    requires i <= |items| && k < |items| && NonBlankString(items[k])
    ensures var es := CollectStrings(items, i, Render(base), target);
            var e := Emission(Render(base + [Decimal(k)]), target, items[k].text);
            if k >= i then EmittedOnce(es, e) else Times(es, e.pointer) == 0
    decreases |items| - i
  {
    if i < |items| {
      var e := Emission(Render(base + [Decimal(k)]), target, items[k].text);
      StringIsEmittedOnce(items, i + 1, base, target, k);
      StringsStep(items, i, base, target);
      StringAtTimes(items, i, base, target, k);
      OnceInEither(StringAt(items, i, base, target), CollectStrings(items, i + 1, Render(base), target), e);
    }
  }

  /** Below element i nothing has a pointer that goes through element k. */
  lemma {:induction false} OtherItemsDoNotEmit(
    item: Json, segments: seq<string>, base: seq<string>, target: TargetKind, i: nat, k: nat, tokens: seq<string>)
    requires i != k
    ensures Times(Collect(item, segments, Render(base + [Decimal(i)]), target), Render(base + ([Decimal(k)] + tokens))) == 0
    decreases |segments|, 0, 1
  {
    var next, pointer := base + [Decimal(i)], Render(base + ([Decimal(k)] + tokens));
    EmissionsAreReached(item, segments, next, target);
    var here := Collect(item, segments, Render(next), target);
    forall e | e in here
      ensures e.pointer != pointer
    {
      assert ComesFrom(e, item, segments, next, target);
      var found :| e == Emission(Render(next + found), target, e.text) && Reaches(item, segments, found, e.text);
      if e.pointer == pointer {
        RenderIsInjective(next + found, base + ([Decimal(k)] + tokens));
        assert (next + found)[|base|] == Decimal(i);
        assert (base + ([Decimal(k)] + tokens))[|base|] == Decimal(k);
        DecimalIsInjective(i, k);
      }
    }
    NotEmittedElsewhere(here, pointer);
  }

  /** Nor does any element after k. */
  lemma {:induction false} LaterItemsDoNotEmit(
    items: seq<Json>, i: nat, segments: seq<string>, base: seq<string>, target: TargetKind, k: nat, tokens: seq<string>)
    requires k < i <= |items|
    ensures Times(CollectItems(items, i, segments, Render(base), target), Render(base + ([Decimal(k)] + tokens))) == 0
    decreases |segments|, 1, |items| - i
  {
    if i < |items| {
      LaterItemsDoNotEmit(items, i + 1, segments, base, target, k, tokens);
      OtherItemsDoNotEmit(items[i], segments, base, target, i, k, tokens);
      ExtendIndex(base, i);
      TimesAppend(Collect(items[i], segments, Render(base + [Decimal(i)]), target),
                  CollectItems(items, i + 1, segments, Render(base), target),
                  Render(base + ([Decimal(k)] + tokens)));
    }
  }

  lemma {:induction false} ItemIsEmittedOnce(
    items: seq<Json>, i: nat, segments: seq<string>, base: seq<string>, target: TargetKind,
    k: nat, tokens: seq<string>, text: string)
    requires i <= k < |items|
    requires Reaches(items[k], segments, tokens, text)
    ensures EmittedOnce(CollectItems(items, i, segments, Render(base), target),
                        Emission(Render(base + ([Decimal(k)] + tokens)), target, text))
    decreases |segments|, 1, |items| - i
  {
    var e := Emission(Render(base + ([Decimal(k)] + tokens)), target, text);
    var here := Collect(items[i], segments, Render(base + [Decimal(i)]), target);
    var later := CollectItems(items, i + 1, segments, Render(base), target);
    if i == k {
      ReachedIsEmittedOnce(items[k], segments, base + [Decimal(k)], target, tokens, text);
      assert base + [Decimal(k)] + tokens == base + ([Decimal(k)] + tokens);
      LaterItemsDoNotEmit(items, k + 1, segments, base, target, k, tokens);
      assert EmittedOnce(here, e) && Times(later, e.pointer) == 0;
    } else {
      ItemIsEmittedOnce(items, i + 1, segments, base, target, k, tokens, text);
      OtherItemsDoNotEmit(items[i], segments, base, target, i, k, tokens);
      assert EmittedOnce(later, e) && Times(here, e.pointer) == 0;
    }
    ItemsStep(items, i, segments, base, target);
    OnceInEither(here, later, e);
  }

  // ---- Main results -------------------------------------------------------

  /** Every emitted pointer, evaluated on the record, returns the emitted non-blank string. */
  lemma {:induction false} EmittedPointersEvaluate(document: Json, segments: seq<string>, target: TargetKind, e: Emission)
    requires e in Collect(document, segments, "", target)
    ensures Evaluate(document, e.pointer) == Some(JString(e.text)) && !IsBlank(e.text) && e.target == target
  {
    EmissionsAreReached(document, segments, [], target);
    assert Render([]) == "";
    var tokens :| e == Emission(Render([] + tokens), target, e.text) && Reaches(document, segments, tokens, e.text);
    assert [] + tokens == tokens;
    PointerRoundTrip(tokens);
    ReachedIsWalked(document, segments, tokens, e.text);
  }

  /** Every non-blank string the rule path reaches is emitted exactly once. */
  lemma {:induction false} EveryReachedStringIsEmittedOnce(
    document: Json, segments: seq<string>, target: TargetKind, tokens: seq<string>, text: string)
    requires Reaches(document, segments, tokens, text)
    ensures var es := Collect(document, segments, "", target);
            Emission(Render(tokens), target, text) in es && Times(es, Render(tokens)) == 1
  {
    ReachedIsEmittedOnce(document, segments, [], target, tokens, text);
    assert [] + tokens == tokens;
  }

  ghost predicate ReachesSome(document: Json, segments: seq<string>) {
    exists tokens, text :: Reaches(document, segments, tokens, text)
  }

  /** A rule links a record exactly when its path reaches some non-blank string. */
  lemma {:induction false} RuleLinksExactly(document: Json, segments: seq<string>, target: TargetKind)
    ensures |Collect(document, segments, "", target)| > 0 <==> ReachesSome(document, segments)
  {
    var es := Collect(document, segments, "", target);
    if |es| > 0 {
      EmissionsAreReached(document, segments, [], target);
      assert Render([]) == "";
      assert ComesFrom(es[0], document, segments, [], target);
    }
    if ReachesSome(document, segments) {
      var tokens, text :| Reaches(document, segments, tokens, text);
      EveryReachedStringIsEmittedOnce(document, segments, target, tokens, text);
    }
  }
}
