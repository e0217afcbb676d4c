/** When the cookie rules delete a header, told from the names in it. */
module CookieShapes {
  import opened Strings
  import opened Cookies
  import opened CookieIndependence

  /** Some rule drops cookies of that name; a nameless token is never dropped. */
  predicate Dropped(rules: seq<Rule>, name: string) {
    name != "" && exists i :: 0 <= i < |rules| && FateOf(rules[i], name) == Drop
  }

  /** What decides whether anything is left: a token's name, and whether it is blank. */
  datatype Shape = Shape(name: string, blank: bool)

  function ShapeOf(t: string): Shape { Shape(CookieName(t), TrimLeft(t) == "") }

  function Shapes(tokens: seq<string>): seq<Shape> {
    if tokens == [] then [] else Shapes(tokens[..|tokens| - 1]) + [ShapeOf(tokens[|tokens| - 1])]
  }

  function Kept(rules: seq<Rule>, shapes: seq<Shape>): seq<Shape> {
    if shapes == [] then []
    else
      var n := |shapes| - 1;
      Kept(rules, shapes[..n]) + (if Dropped(rules, shapes[n].name) then [] else [shapes[n]])
  }

  /** A Cookie value of which the rules leave no token, or only a blank one. */
  predicate Vanishes(rules: seq<Rule>, v: string) {
    var kept := Kept(rules, Shapes(Split(v, ';')));
    kept == [] || (|kept| == 1 && kept[0].blank)
  }

  /** The Set-Cookie entries no rule drops. */
  function Survivors(rules: seq<Rule>, vals: seq<string>): nat {
    if vals == [] then 0
    else
      var n := |vals| - 1;
      Survivors(rules, vals[..n]) + (if Dropped(rules, CookieName(vals[n])) then 0 else 1)
  }

  // Names and blanks survive redaction

  /** A token as leading blanks, the text up to the first '=', and the rest. */
  predicate Form(t: string, lead: string, head: string, rest: string) {
    && t == lead + (head + ("=" + rest))
    && (forall i :: 0 <= i < |lead| ==> IsBlank(lead[i]))
    && '=' !in head && (head == "" || !IsBlank(head[0]))
  }

  lemma {:induction false} BlankLead(lead: string, q: string)
    requires (forall i :: 0 <= i < |lead| ==> IsBlank(lead[i])) && q != "" && !IsBlank(q[0])
    ensures TrimLeft(lead + q) == q
  {
    if lead == "" {
      assert lead + q == q;
    } else {
      assert (lead + q)[1..] == lead[1..] + q;
      BlankLead(lead[1..], q);
    }
  }

  lemma {:induction false} HeadNotBlank(t: string)
    ensures TrimLeft(t) != "" ==> !IsBlank(TrimLeft(t)[0])
  {
    if t != "" && IsBlank(t[0]) { HeadNotBlank(t[1..]); }
  }

  lemma {:induction false} CutAt(s: string, c: char) returns (a: string, b: string)
    requires c in s
    ensures s == a + ([c] + b) && c !in a
  {
    if s[0] == c {
      a, b := "", s[1..];
    } else {
      assert s == [s[0]] + s[1..];
      a, b := CutAt(s[1..], c);
      a := [s[0]] + a;
    }
  }

  lemma {:induction false} LeadOf(t: string) returns (lead: string)
    ensures t == lead + TrimLeft(t) && forall i :: 0 <= i < |lead| ==> IsBlank(lead[i])
  {
    lead := "";
    if t != "" && IsBlank(t[0]) {
      lead := LeadOf(t[1..]);
      lead := [t[0]] + lead;
    }
  }

  lemma FormOf(t: string) returns (lead: string, head: string, rest: string)
    requires '=' in TrimLeft(t)
    ensures Form(t, lead, head, rest)
  {
    hide TrimLeft;
    HeadNotBlank(t);
    lead := LeadOf(t);
    head, rest := CutAt(TrimLeft(t), '=');
    assert head != "" ==> head[0] == TrimLeft(t)[0];
  }

  lemma FormTrimmed(t: string, lead: string, head: string, rest: string)
    requires Form(t, lead, head, rest)
    ensures TrimLeft(t) == head + ("=" + rest)
  {
    var q := head + ("=" + rest);
    assert q[0] == if head == "" then '=' else head[0];
    BlankLead(lead, q);
  }

  /** The name is read off the text before the first '='. */
  lemma FormName(t: string, lead: string, head: string, rest: string)
    requires Form(t, lead, head, rest)
    ensures CookieName(t) == TrimSpace(Before(head, ';'))
  {
    hide TrimLeft, IndexOf, TrimSpace, Before;
    FormTrimmed(t, lead, head, rest);
    FirstParts(head, rest);
  }

  lemma FirstParts(head: string, rest: string)
    requires '=' !in head
    ensures Before(Before(head + ("=" + rest), ';'), '=') == Before(head, ';')
  {
    hide IndexOf, Before;
    if ';' in head {
      var a, b := CutAt(head, ';');
      assert head + ("=" + rest) == a + ([';'] + b + ("=" + rest)) && a + "" == a;
      BeforeStop(a, [';'] + b + ("=" + rest), ';');
      BeforeStop(a, [';'] + b, ';');
      BeforeStop(a, "", '=');
    } else {
      var v := Uncut(rest);
      assert head + ("=" + rest) == (head + ("=" + rest[..v])) + rest[v..] && head + "" == head;
      BeforeStop(head + ("=" + rest[..v]), rest[v..], ';');
      BeforeStop(head, "=" + rest[..v], '=');
      BeforeStop(head, "", ';');
    }
  }

  /** How much of a text comes before its first ';'. */
  lemma Uncut(s: string) returns (v: nat)
    ensures v <= |s| && ';' !in s[..v] && (s[v..] == "" || s[v..][0] == ';')
  {
    v := IndexOf(s, ';');
  }

  lemma FormReplaced(t: string, lead: string, head: string, rest: string) returns (after: string)
    requires Form(t, lead, head, rest)
    ensures Form(ReplaceValue(t), lead, head, after)
  {
    hide Form, TrimLeft, IndexOf, ReplaceValue;
    FormStart(t, lead, head, rest);
    var start := |lead| + |head| + 1;
    after := ReplacedFrom(t, start);
    FormPrefix(t, lead, head, rest, after);
  }

  lemma ReplacedFrom(t: string, start: nat) returns (after: string)
    requires var q := TrimLeft(t);
      IndexOf(q, '=') < |q| <= |t| && start == |t| - |q| + IndexOf(q, '=') + 1
    ensures start <= |t| && ReplaceValue(t) == t[..start] + after
  {
    hide ReplaceValue, TrimLeft, IndexOf;
    ReplacedIs(t, start);
    var tail := t[start + IndexOf(t[start..], ';')..];
    after := REDACTED + tail;
    Regroup(t[..start], REDACTED, tail);
  }

  lemma ReplacedIs(t: string, start: nat)
    requires var q := TrimLeft(t);
      IndexOf(q, '=') < |q| <= |t| && start == |t| - |q| + IndexOf(q, '=') + 1
    ensures start <= |t| && ReplaceValue(t) == ReplaceFrom(t, start)
  {
    hide TrimLeft, IndexOf, ReplaceFrom;
  }

  lemma FormStart(t: string, lead: string, head: string, rest: string)
    requires Form(t, lead, head, rest)
    ensures IndexOf(TrimLeft(t), '=') == |head| < |TrimLeft(t)| <= |t| && |t| - |TrimLeft(t)| == |lead|
  {
    hide TrimLeft, IndexOf;
    FormTrimmed(t, lead, head, rest);
    BeforeStop(head, "=" + rest, '=');
  }

  lemma Regroup(a: string, b: string, c: string)
    ensures a + b + c == a + (b + c)
  {}

  lemma FormPrefix(t: string, lead: string, head: string, rest: string, after: string)
    requires Form(t, lead, head, rest)
    ensures |lead| + |head| + 1 <= |t| && Form(t[..|lead| + |head| + 1] + after, lead, head, after)
  {
    assert t[..|lead| + |head| + 1] + after == lead + (head + ("=" + after));
  }

  lemma ShapeReplaced(t: string)
    ensures ShapeOf(ReplaceValue(t)) == ShapeOf(t)
  {
    if '=' in TrimLeft(t) {
      hide Form, TrimLeft, ReplaceValue, CookieName;
      var lead, head, rest := FormOf(t);
      var after := FormReplaced(t, lead, head, rest);
      FormName(t, lead, head, rest);
      FormName(ReplaceValue(t), lead, head, after);
      FormTrimmed(t, lead, head, rest);
      FormTrimmed(ReplaceValue(t), lead, head, after);
    } else {
      NoValue(t);
    }
  }

  lemma NoValue(t: string)
    requires '=' !in TrimLeft(t)
    ensures ReplaceValue(t) == t
  {}

  lemma ShapeTrimmed(t: string)
    ensures ShapeOf(TrimLeft(t)) == ShapeOf(t)
  {
    TrimLeftTwice(t);
  }

  // One rule

  lemma ShapesLast(tokens: seq<string>, t: string)
    ensures Shapes(tokens + [t]) == Shapes(tokens) + [ShapeOf(t)]
  {
    hide ShapeOf;
    assert (tokens + [t])[..|tokens|] == tokens;
  }

  lemma KeptLast(rules: seq<Rule>, shapes: seq<Shape>, x: Shape)
    ensures Kept(rules, shapes + [x]) == Kept(rules, shapes) + (if Dropped(rules, x.name) then [] else [x])
  {
    hide Dropped;
    assert (shapes + [x])[..|shapes|] == shapes;
  }

  lemma DropsToken(rule: Rule, t: string)
    ensures TokenFate(rule, t) == Drop <==> Dropped([rule], CookieName(t))
  {
    assert [rule][0] == rule;
  }

  lemma {:induction false} FilterShapes(rule: Rule, tokens: seq<string>)
    ensures Shapes(FilterTokens(rule, tokens)) == Kept([rule], Shapes(tokens))
  {
    hide ShapeOf, Dropped, TokenFate, ReplaceValue;
    if tokens != [] {
      var n := |tokens| - 1;
      var t, f := tokens[n], FilterTokens(rule, tokens[..n]);
      FilterShapes(rule, tokens[..n]);
      ShapeReplaced(t);
      ShapesLast(f, t);
      ShapesLast(f, ReplaceValue(t));
      KeptLast([rule], Shapes(tokens[..n]), ShapeOf(t));
      DropsToken(rule, t);
      NameOfShape(t);
      assert f + [] == f;
    }
  }

  lemma NameOfShape(t: string)
    ensures ShapeOf(t).name == CookieName(t)
  {}

  lemma DroppedSplits(rules: seq<Rule>, name: string)
    requires rules != []
    ensures Dropped(rules, name) <==> Dropped([rules[0]], name) || Dropped(rules[1..], name)
  {
    hide FateOf;
    if Dropped(rules, name) {
      var i :| 0 <= i < |rules| && FateOf(rules[i], name) == Drop;
      if i == 0 { assert FateOf([rules[0]][0], name) == Drop; } else { assert FateOf(rules[1..][i - 1], name) == Drop; }
    }
  }

  lemma {:induction false} KeptTwice(rules: seq<Rule>, shapes: seq<Shape>)
    requires rules != []
    ensures Kept(rules[1..], Kept([rules[0]], shapes)) == Kept(rules, shapes)
    decreases |shapes|
  {
    hide Dropped;
    if shapes != [] {
      var n := |shapes| - 1;
      KeptTwice(rules, shapes[..n]);
      DroppedSplits(rules, shapes[n].name);
      KeptLast(rules[1..], Kept([rules[0]], shapes[..n]), shapes[n]);
      assert Kept([rules[0]], shapes[..n]) + [] == Kept([rules[0]], shapes[..n]);
    }
  }

  lemma {:induction false} TrimFirstShapes(tokens: seq<string>)
    ensures Shapes(TrimFirst(tokens)) == Shapes(tokens)
  {
    hide ShapeOf, TrimLeft, Shapes;
    if tokens != [] {
      var n := |tokens| - 1;
      ShapeTrimmed(tokens[0]);
      ShapesLast(tokens[..n], tokens[n]);
      assert tokens == tokens[..n] + [tokens[n]];
      if n > 0 {
        TrimFirstShapes(tokens[..n]);
        assert TrimFirst(tokens) == TrimFirst(tokens[..n]) + [tokens[n]];
        ShapesLast(TrimFirst(tokens[..n]), tokens[n]);
      } else {
        assert tokens[..n] == [] && TrimFirst(tokens) == [] + [TrimLeft(tokens[0])];
        ShapesLast([], TrimLeft(tokens[0]));
      }
    }
  }

  lemma EmptyVanishes(rules: seq<Rule>)
    ensures Vanishes(rules, "")
  {
    assert Split("", ';') == [""];
    assert Shapes([""]) == [] + [ShapeOf("")] by { assert [""][..0] == []; }
    KeptLast(rules, [], ShapeOf(""));
  }

  /** What is left of a value after one rule vanishes under the others exactly when the value
      vanishes under all of them. */
  lemma VanishStep(rules: seq<Rule>, v: string)
    requires rules != []
    ensures Vanishes(rules, v) <==> Vanishes(rules[1..], ApplyToHeader(rules[0], v))
  {
    hide FilterTokens, TrimFirst, Split, Kept, Shapes, ApplyToHeader;
    if v == "" {
      EmptyStaysEmpty(rules[0]);
      EmptyVanishes(rules);
      EmptyVanishes(rules[1..]);
    } else {
      var f := FilterTokens(rules[0], Split(v, ';'));
      SplitFiltered(rules[0], v);
      FilterShapes(rules[0], Split(v, ';'));
      KeptTwice(rules, Shapes(Split(v, ';')));
      if f == [] {
        EmptyVanishes(rules[1..]);
        NothingKept(rules[1..], f);
        SplitOfNothing(rules[0], v);
      } else {
        TrimFirstShapes(f);
      }
    }
  }

  lemma NothingKept(rules: seq<Rule>, tokens: seq<string>)
    requires tokens == []
    ensures Kept(rules, Shapes(tokens)) == []
  {}

  lemma SplitOfNothing(rule: Rule, v: string)
    requires v != "" && FilterTokens(rule, Split(v, ';')) == []
    ensures ApplyToHeader(rule, v) == ""
  {}

  lemma EmptiedIff(rule: Rule, v: string)
    ensures ApplyToHeader(rule, v) == "" <==> Vanishes([rule], v)
  {
    hide FilterTokens, Split, Kept, Shapes, TrimLeft, ShapeOf, CookieName;
    if v == "" {
      EmptyVanishes([rule]);
    } else {
      var f := FilterTokens(rule, Split(v, ';'));
      FilterShapes(rule, Split(v, ';'));
      ShapesLength(f);
      if |f| == 1 {
        OneShape(f[0]);
        assert f == [f[0]] && TrimFirst(f) == [TrimLeft(f[0])];
      } else if |f| > 1 {
        assert TrimFirst(f)[1..] == f[1..];
      }
    }
  }

  lemma OneShape(t: string)
    ensures Shapes([t]) == [ShapeOf(t)] && (ShapeOf(t).blank <==> TrimLeft(t) == "")
  {
    assert [t][..0] == [];
  }

  lemma {:induction false} ShapesLength(tokens: seq<string>)
    ensures |Shapes(tokens)| == |tokens|
  {
    if tokens != [] { ShapesLength(tokens[..|tokens| - 1]); }
  }

  // All rules

  /** The Cookie header is deleted exactly when the rules leave nothing of any value;
      otherwise every value stays, if only as an empty text. */
  lemma {:induction false} CookieHeaderDeletedIff(rules: seq<Rule>, vals: seq<string>)
    requires rules != []
    ensures CookieValues(rules, vals).None? <==> forall i :: 0 <= i < |vals| ==> Vanishes(rules, vals[i])
    ensures CookieValues(rules, vals).Some? ==> |CookieValues(rules, vals).value| == |vals|
    decreases rules
  {
    hide Vanishes, ApplyToHeader;
    var next := ApplyToAll(rules[0], vals);
    forall i | 0 <= i < |vals|
      ensures Vanishes(rules, vals[i]) <==> Vanishes(rules[1..], next[i])
      ensures next[i] == "" <==> Vanishes([rules[0]], vals[i])
    {
      VanishStep(rules, vals[i]);
      EmptiedIff(rules[0], vals[i]);
    }
    EmptyVanishes(rules[1..]);
    if rules[1..] == [] {
      assert rules == [rules[0]];
    } else if !AllEmpty(next) {
      CookieHeaderDeletedIff(rules[1..], next);
    }
  }

  lemma {:induction false} SurvivorsStep(rules: seq<Rule>, vals: seq<string>)
    requires rules != []
    ensures Survivors(rules[1..], FilterEntries(rules[0], vals)) == Survivors(rules, vals)
    decreases |vals|
  {
    hide Dropped, TokenFate, ReplaceValue, CookieName;
    if vals != [] {
      var n := |vals| - 1;
      var v, kept := vals[n], FilterEntries(rules[0], vals[..n]);
      SurvivorsStep(rules, vals[..n]);
      DroppedSplits(rules, CookieName(v));
      DropsToken(rules[0], v);
      ShapeReplaced(v);
      NameOfShape(v);
      NameOfShape(ReplaceValue(v));
      SurvivorsLast(rules[1..], kept, v);
      SurvivorsLast(rules[1..], kept, ReplaceValue(v));
      assert kept + [] == kept;
    }
  }

  lemma SurvivorsLast(rules: seq<Rule>, vals: seq<string>, v: string)
    ensures Survivors(rules, vals + [v]) == Survivors(rules, vals) + (if Dropped(rules, CookieName(v)) then 0 else 1)
  {
    hide Dropped, CookieName;
    assert (vals + [v])[..|vals|] == vals;
  }

  lemma {:induction false} NoRulesAllSurvive(vals: seq<string>)
    ensures Survivors([], vals) == |vals|
  {
    if vals != [] { NoRulesAllSurvive(vals[..|vals| - 1]); }
  }

  /** As many Set-Cookie entries stay as no rule drops, and the header goes with the last. */
  lemma {:induction false} SetCookieHeaderKeeps(rules: seq<Rule>, vals: seq<string>)
    requires rules != []
    ensures var kept := SetCookieValues(rules, vals);
      if kept.Some? then |kept.value| == Survivors(rules, vals) > 0 else Survivors(rules, vals) == 0
    decreases rules
  {
    hide Survivors, FilterEntries;
    var kept := FilterEntries(rules[0], vals);
    SurvivorsStep(rules, vals);
    if kept == [] {
      NoneSurvive(rules[1..]);
    } else if rules[1..] == [] {
      NoRulesAllSurvive(kept);
    } else {
      SetCookieHeaderKeeps(rules[1..], kept);
    }
  }

  lemma NoneSurvive(rules: seq<Rule>)
    ensures Survivors(rules, []) == 0
  {}
}
