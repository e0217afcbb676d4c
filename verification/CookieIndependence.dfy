/** The result of the cookie rules does not depend on the values of covered cookies. */
module CookieIndependence {
  import opened Strings
  import opened Cookies

  /** Some rule erases or drops cookies of that name. */
  predicate Covered(rules: seq<Rule>, name: string) {
    exists i :: 0 <= i < |rules| && FateOf(rules[i], name) != Keep
  }

  // Tokens of the form  prefix '=' value attributes

  predicate Pair(t: string, p: string, v: string, attrs: string) {
    && t == p + "=" + v + attrs
    && '=' !in p && ';' !in p && ';' !in v
    && (attrs == "" || attrs[0] == ';')
  }

  function NameOf(p: string): string { TrimSpace(TrimLeft(p)) }

  lemma {:induction false} TrimLeftAppend(p: string, rest: string)
    requires rest != "" && !IsBlank(rest[0])
    ensures TrimLeft(p + rest) == TrimLeft(p) + rest
  {
    if p == "" {
      assert p + rest == rest;
    } else if IsBlank(p[0]) {
      assert (p + rest)[1..] == p[1..] + rest;
      TrimLeftAppend(p[1..], rest);
    }
  }

  lemma {:induction false} TrimLeftChars(p: string, c: char)
    requires c !in p
    ensures c !in TrimLeft(p)
  {
    if p != "" && IsBlank(p[0]) { TrimLeftChars(p[1..], c); }
  }

  lemma {:induction false} TrimLeftTwice(p: string)
    ensures TrimLeft(TrimLeft(p)) == TrimLeft(p)
  {
    if p != "" && IsBlank(p[0]) { TrimLeftTwice(p[1..]); }
  }

  /** A pair after its leading blanks are gone. */
  lemma PairTrimmed(t: string, p: string, v: string, attrs: string)
    requires Pair(t, p, v, attrs)
    ensures Pair(TrimLeft(t), TrimLeft(p), v, attrs)
  {
    assert t == p + ("=" + v + attrs);
    TrimLeftAppend(p, "=" + v + attrs);
    TrimLeftChars(p, '=');
    TrimLeftChars(p, ';');
    assert TrimLeft(t) == TrimLeft(p) + "=" + v + attrs;
  }

  lemma BeforeStop(a: string, rest: string, c: char)
    requires c !in a && (rest == "" || rest[0] == c)
    ensures IndexOf(a + rest, c) == |a| && Before(a + rest, c) == a
  {
    if rest == "" {
      assert a + rest == a;
    } else {
      assert a + rest == a + [c] + rest[1..];
      IndexOfAfter(a, c, rest[1..]);
    }
  }

  lemma PairName(t: string, p: string, v: string, attrs: string)
    requires Pair(t, p, v, attrs)
    ensures CookieName(t) == NameOf(p)
  {
    PairTrimmed(t, p, v, attrs);
    var q := TrimLeft(p);
    assert TrimLeft(t) == (q + "=" + v) + attrs;
    BeforeStop(q + "=" + v, attrs, ';');
    assert q + "=" + v == q + ("=" + v);
    BeforeStop(q, "=" + v, '=');
  }

  lemma PairReplaced(t: string, p: string, v: string, attrs: string)
    requires Pair(t, p, v, attrs)
    ensures ReplaceValue(t) == p + "=" + REDACTED + attrs
  {
    hide TrimLeft, IndexOf, Before;
    PairTrimmed(t, p, v, attrs);
    var q, rest := TrimLeft(p), TrimLeft(t);
    assert rest == q + ("=" + v + attrs);
    BeforeStop(q, "=" + v + attrs, '=');
    var start := |p| + 1;
    assert |t| - |rest| + |q| + 1 == start;
    PairParts(t, p, v, attrs);
    BeforeStop(v, attrs, ';');
  }

  lemma PairParts(t: string, p: string, v: string, attrs: string)
    requires Pair(t, p, v, attrs)
    ensures t[..|p| + 1] == p + "=" && t[|p| + 1..] == v + attrs && t[|p| + 1 + |v|..] == attrs
  {}

  // Tokens that differ only in covered values

  /** Equal, or the same covered cookie with another value. */
  ghost predicate Alike(rules: seq<Rule>, t1: string, t2: string) {
    t1 == t2 ||
    exists p, v1, v2, attrs :: Pair(t1, p, v1, attrs) && Pair(t2, p, v2, attrs) &&
      NameOf(p) != "" && Covered(rules, NameOf(p))
  }

  ghost predicate AllAlike(rules: seq<Rule>, a: seq<string>, b: seq<string>) {
    |a| == |b| && forall i :: 0 <= i < |a| ==> Alike(rules, a[i], b[i])
  }

  lemma AlikeStep(rules: seq<Rule>, t1: string, t2: string)
    requires rules != [] && Alike(rules, t1, t2)
    ensures TokenFate(rules[0], t1) == TokenFate(rules[0], t2)
    ensures TokenFate(rules[0], t1) == Keep ==> Alike(rules[1..], t1, t2)
    ensures TokenFate(rules[0], t1) == Erase ==> ReplaceValue(t1) == ReplaceValue(t2)
  {
    hide Pair, CookieName, ReplaceValue, NameOf, FateOf;
    if t1 != t2 {
      var p, v1, v2, attrs :| Pair(t1, p, v1, attrs) && Pair(t2, p, v2, attrs) &&
        NameOf(p) != "" && Covered(rules, NameOf(p));
      PairName(t1, p, v1, attrs);
      PairName(t2, p, v2, attrs);
      PairReplaced(t1, p, v1, attrs);
      PairReplaced(t2, p, v2, attrs);
      if TokenFate(rules[0], t1) == Keep {
        var i :| 0 <= i < |rules| && FateOf(rules[i], NameOf(p)) != Keep;
        assert rules[1..][i - 1] == rules[i];
      }
    }
  }

  lemma AlikeTrimmed(rules: seq<Rule>, t1: string, t2: string)
    requires Alike(rules, t1, t2)
    ensures Alike(rules, TrimLeft(t1), TrimLeft(t2))
  {
    hide Pair, TrimSpace, Covered;
    if t1 != t2 {
      var p, v1, v2, attrs :| Pair(t1, p, v1, attrs) && Pair(t2, p, v2, attrs) &&
        NameOf(p) != "" && Covered(rules, NameOf(p));
      PairTrimmed(t1, p, v1, attrs);
      PairTrimmed(t2, p, v2, attrs);
      TrimLeftTwice(p);
      assert NameOf(TrimLeft(p)) == NameOf(p);
    }
  }

  lemma AlikeNothing(t1: string, t2: string)
    requires Alike([], t1, t2)
    ensures t1 == t2
  {}

  lemma {:induction false} FilterAlike(rules: seq<Rule>, a: seq<string>, b: seq<string>)
    requires rules != [] && AllAlike(rules, a, b)
    ensures AllAlike(rules[1..], FilterTokens(rules[0], a), FilterTokens(rules[0], b))
    decreases |a|
  {
    hide Alike, TokenFate, ReplaceValue;
    if a != [] {
      var n := |a| - 1;
      FilterAlike(rules, a[..n], b[..n]);
      AlikeStep(rules, a[n], b[n]);
      assert Alike(rules[1..], ReplaceValue(a[n]), ReplaceValue(a[n])) by { AlikeSelf(rules[1..], ReplaceValue(a[n])); }
    }
  }

  lemma AlikeSelf(rules: seq<Rule>, t: string)
    ensures Alike(rules, t, t)
  {}

  // One Cookie header value

  ghost predicate HeaderAlike(rules: seq<Rule>, v1: string, v2: string) {
    AllAlike(rules, Split(v1, ';'), Split(v2, ';'))
  }

  lemma SplitShape(a: string, sep: char)
    ensures var i := IndexOf(a, sep);
      && Split(a, sep)[0] == a[..i]
      && (|Split(a, sep)| == 1 <==> i == |a|)
      && (i < |a| ==> Split(a, sep)[1..] == Split(a[i + 1..], sep))
  {}

  lemma {:induction false} SplitInjective(a: string, b: string, sep: char)
    requires Split(a, sep) == Split(b, sep)
    ensures a == b
    decreases |a|
  {
    hide Split, IndexOf;
    SplitShape(a, sep);
    SplitShape(b, sep);
    var i := IndexOf(a, sep);
    assert i == |a[..i]| == IndexOf(b, sep);
    if i < |a| {
      SplitInjective(a[i + 1..], b[i + 1..], sep);
      Rejoin(a, i);
      Rejoin(b, i);
    } else {
      assert a == a[..i] && b == b[..i];
    }
  }

  lemma Rejoin(a: string, i: nat)
    requires i < |a|
    ensures a == a[..i] + [a[i]] + a[i + 1..]
  {}

  lemma ReplaceKeepsSemicolons(t: string)
    requires ';' !in t
    ensures ';' !in ReplaceValue(t)
  {}

  lemma {:induction false} FilterNoSemicolons(rule: Rule, tokens: seq<string>)
    requires forall t :: t in tokens ==> ';' !in t
    ensures forall t :: t in FilterTokens(rule, tokens) ==> ';' !in t
  {
    hide TokenFate, ReplaceValue;
    if tokens != [] {
      var n := |tokens| - 1;
      FilterNoSemicolons(rule, tokens[..n]);
      ReplaceKeepsSemicolons(tokens[n]);
    }
  }

  /** Splitting a rewritten header gives back the filtered tokens. */
  lemma SplitFiltered(rule: Rule, value: string)
    requires value != ""
    ensures var f := FilterTokens(rule, Split(value, ';'));
      Split(ApplyToHeader(rule, value), ';') == if f == [] then [""] else TrimFirst(f)
  {
    hide FilterTokens, TrimLeft;
    var f := FilterTokens(rule, Split(value, ';'));
    FilterNoSemicolons(rule, Split(value, ';'));
    if f != [] {
      assert f[0] in f;
      TrimLeftChars(f[0], ';');
      assert forall t :: t in f[1..] ==> t in f;
      SplitJoin(TrimFirst(f), ';');
    }
  }

  lemma TrimFirstAlike(rules: seq<Rule>, a: seq<string>, b: seq<string>)
    requires AllAlike(rules, a, b)
    ensures AllAlike(rules, TrimFirst(a), TrimFirst(b))
  {
    hide Alike;
    if a != [] { AlikeTrimmed(rules, a[0], b[0]); }
  }

  lemma EmptyAlike(rules: seq<Rule>, v1: string, v2: string)
    requires HeaderAlike(rules, v1, v2)
    ensures v1 == "" <==> v2 == ""
  {
    hide Covered, NameOf;
    var a, b := Split(v1, ';'), Split(v2, ';');
    if v1 == "" || v2 == "" {
      assert |a| == |b| == 1 && Alike(rules, a[0], b[0]);
      assert a == [a[0]] && b == [b[0]] && a[0] == b[0];
      SplitInjective(v1, v2, ';');
    }
  }

  lemma HeaderStep(rules: seq<Rule>, v1: string, v2: string)
    requires rules != [] && HeaderAlike(rules, v1, v2)
    ensures HeaderAlike(rules[1..], ApplyToHeader(rules[0], v1), ApplyToHeader(rules[0], v2))
  {
    hide Alike, FilterTokens, TrimFirst, ApplyToHeader;
    EmptyAlike(rules, v1, v2);
    if v1 == "" {
      EmptyStaysEmpty(rules[0]);
      SelfAlike(rules[1..], "");
    } else {
      var a, b := FilterTokens(rules[0], Split(v1, ';')), FilterTokens(rules[0], Split(v2, ';'));
      FilterAlike(rules, Split(v1, ';'), Split(v2, ';'));
      SplitFiltered(rules[0], v1);
      SplitFiltered(rules[0], v2);
      TrimFirstAlike(rules[1..], a, b);
      AlikeSelf(rules[1..], "");
    }
  }

  lemma EmptyStaysEmpty(rule: Rule)
    ensures ApplyToHeader(rule, "") == ""
  {}

  lemma SelfAlike(rules: seq<Rule>, v: string)
    ensures HeaderAlike(rules, v, v)
  {}

  // All values of the two cookie headers, through all rules

  function ApplyToAll(rule: Rule, vals: seq<string>): seq<string> {
    seq(|vals|, i requires 0 <= i < |vals| => ApplyToHeader(rule, vals[i]))
  }

  predicate AllEmpty(vals: seq<string>) {
    forall i :: 0 <= i < |vals| ==> vals[i] == ""
  }

  /** The Cookie header after every rule; None once it has become empty and was deleted. */
  function CookieValues(rules: seq<Rule>, vals: seq<string>): Option<seq<string>>
    decreases rules
  {
    if rules == [] then Some(vals)
    else
      var vals' := ApplyToAll(rules[0], vals);
      if AllEmpty(vals') then None else CookieValues(rules[1..], vals')
  }

  function FilterEntries(rule: Rule, vals: seq<string>): seq<string> {
    if vals == [] then []
    else
      var n := |vals| - 1;
      var e := ApplyToSetCookie(rule, vals[n]);
      FilterEntries(rule, vals[..n]) + (if e.Some? then [e.value] else [])
  }

  function SetCookieValues(rules: seq<Rule>, vals: seq<string>): Option<seq<string>>
    decreases rules
  {
    if rules == [] then Some(vals)
    else
      var kept := FilterEntries(rules[0], vals);
      if kept == [] then None else SetCookieValues(rules[1..], kept)
  }

  ghost predicate HeadersAlike(rules: seq<Rule>, a: seq<string>, b: seq<string>) {
    |a| == |b| && forall i :: 0 <= i < |a| ==> HeaderAlike(rules, a[i], b[i])
  }

  lemma {:induction false} CookieValuesIndependent(rules: seq<Rule>, a: seq<string>, b: seq<string>)
    requires HeadersAlike(rules, a, b)
    ensures CookieValues(rules, a) == CookieValues(rules, b)
    decreases rules
  {
    hide HeaderAlike, ApplyToHeader;
    if rules == [] {
      forall i | 0 <= i < |a|
        ensures a[i] == b[i]
      {
        NoRulesNoDifference(a[i], b[i]);
      }
      assert a == b;
    } else {
      var a', b' := ApplyToAll(rules[0], a), ApplyToAll(rules[0], b);
      forall i | 0 <= i < |a|
        ensures HeaderAlike(rules[1..], a'[i], b'[i]) && (a'[i] == "" <==> b'[i] == "")
      {
        HeaderStep(rules, a[i], b[i]);
        EmptyAlike(rules[1..], a'[i], b'[i]);
      }
      CookieValuesIndependent(rules[1..], a', b');
    }
  }

  lemma NoRulesNoDifference(v1: string, v2: string)
    requires HeaderAlike([], v1, v2)
    ensures v1 == v2
  {
    var a, b := Split(v1, ';'), Split(v2, ';');
    forall i | 0 <= i < |a|
      ensures a[i] == b[i]
    {
      AlikeNothing(a[i], b[i]);
    }
    SplitInjective(v1, v2, ';');
  }

  lemma {:induction false} EntriesAlike(rules: seq<Rule>, a: seq<string>, b: seq<string>)
    requires rules != [] && AllAlike(rules, a, b)
    ensures AllAlike(rules[1..], FilterEntries(rules[0], a), FilterEntries(rules[0], b))
    decreases |a|
  {
    hide Alike, TokenFate, ReplaceValue;
    if a != [] {
      var n := |a| - 1;
      EntriesAlike(rules, a[..n], b[..n]);
      AlikeStep(rules, a[n], b[n]);
      AlikeSelf(rules[1..], ReplaceValue(a[n]));
    }
  }

  lemma {:induction false} SetCookieValuesIndependent(rules: seq<Rule>, a: seq<string>, b: seq<string>)
    requires AllAlike(rules, a, b)
    ensures SetCookieValues(rules, a) == SetCookieValues(rules, b)
    decreases rules
  {
    hide Alike, FilterEntries;
    if rules == [] {
      forall i | 0 <= i < |a|
        ensures a[i] == b[i]
      {
        AlikeNothing(a[i], b[i]);
      }
      assert a == b;
    } else {
      EntriesAlike(rules, a, b);
      SetCookieValuesIndependent(rules[1..], FilterEntries(rules[0], a), FilterEntries(rules[0], b));
    }
  }

  // The parsed cookies

  predicate CookiesAlike(rules: seq<Rule>, a: seq<Cookie>, b: seq<Cookie>) {
    |a| == |b| && forall i :: 0 <= i < |a| ==>
      a[i].name == b[i].name && (a[i].value == b[i].value || Covered(rules, a[i].name))
  }

  lemma {:induction false} FilterCookiesAlike(rules: seq<Rule>, a: seq<Cookie>, b: seq<Cookie>)
    requires rules != [] && CookiesAlike(rules, a, b)
    ensures CookiesAlike(rules[1..], FilterCookies(rules[0], a), FilterCookies(rules[0], b))
    decreases |a|
  {
    hide FateOf;
    if a != [] {
      var n := |a| - 1;
      FilterCookiesAlike(rules, a[..n], b[..n]);
      if Covered(rules, a[n].name) && FateOf(rules[0], a[n].name) == Keep {
        var i :| 0 <= i < |rules| && FateOf(rules[i], a[n].name) != Keep;
        assert rules[1..][i - 1] == rules[i];
      }
    }
  }

  lemma {:induction false} CookieSliceIndependent(rules: seq<Rule>, a: seq<Cookie>, b: seq<Cookie>)
    requires CookiesAlike(rules, a, b)
    ensures RedactSlice(rules, a) == RedactSlice(rules, b)
    decreases rules
  {
    if rules == [] {
      assert forall i :: 0 <= i < |a| ==> a[i] == b[i];
    } else {
      FilterCookiesAlike(rules, a, b);
      CookieSliceIndependent(rules[1..], FilterCookies(rules[0], a), FilterCookies(rules[0], b));
    }
  }
}
