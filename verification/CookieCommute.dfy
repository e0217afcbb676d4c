/** Rewriting a Cookie header and rewriting the cookies read from it commute. */
module CookieCommute {
  import opened Strings
  import opened Cookies
  import opened CookieIndependence

  // Reading the pairs of a header

  /** The name before the first '=' and everything after it. */
  function ReadPair(t: string): Cookie {
    var s := TrimLeft(t);
    var i := IndexOf(s, '=');
    Cookie(s[..i], if i < |s| then s[i + 1..] else "")
  }

  /** A token `name=value` with a non-empty name free of white space. */
  predicate IsPair(t: string) {
    && '=' in t && ';' !in t
    && ReadPair(t).name != "" && forall i :: 0 <= i < |ReadPair(t).name| ==> !IsSpace(ReadPair(t).name[i])
  }

  predicate AllPairs(tokens: seq<string>) {
    forall i :: 0 <= i < |tokens| ==> IsPair(tokens[i])
  }

  function ReadTokens(tokens: seq<string>): seq<Cookie> {
    if tokens == [] then [] else ReadTokens(tokens[..|tokens| - 1]) + [ReadPair(tokens[|tokens| - 1])]
  }

  function ReadHeader(v: string): seq<Cookie> {
    if v == "" then [] else ReadTokens(Split(v, ';'))
  }

  predicate PairsOnly(v: string) { v == "" || AllPairs(Split(v, ';')) }

  /** All values of the header, one after the other. */
  function ReadHeaders(vals: seq<string>): seq<Cookie> {
    if vals == [] then [] else ReadHeaders(vals[..|vals| - 1]) + ReadHeader(vals[|vals| - 1])
  }

  // One token

  lemma {:induction false} NoWhiteNoTrim(s: string)
    requires forall i :: 0 <= i < |s| ==> !IsSpace(s[i])
    ensures TrimLeft(s) == s && TrimSpace(s) == s
  {}

  /** A pair token, in the form the cookie rules look at. */
  lemma PairForm(t: string) returns (p: string, v: string)
    requires IsPair(t)
    ensures Pair(t, p, v, "") && TrimLeft(p) == ReadPair(t).name && NameOf(p) == ReadPair(t).name
  {
    var i := IndexOf(t, '=');
    p, v := t[..i], t[i + 1..];
    hide TrimLeft, TrimSpace, IsSpace;
    assert t == p + "=" + v + "";
    PairReads(t, p, v);
    NoWhiteNoTrim(TrimLeft(p));
  }

  lemma PairReads(t: string, p: string, v: string)
    requires Pair(t, p, v, "")
    ensures ReadPair(t) == Cookie(TrimLeft(p), v)
  {
    hide TrimLeft, IndexOf;
    PairTrimmed(t, p, v, "");
    var q := TrimLeft(p);
    assert TrimLeft(t) == q + ("=" + v);
    BeforeStop(q, "=" + v, '=');
    assert (q + ("=" + v))[|q| + 1..] == v && (q + ("=" + v))[..|q|] == q;
  }

  lemma TokenCommutes(rule: Rule, t: string)
    requires IsPair(t)
    ensures TokenFate(rule, t) == FateOf(rule, ReadPair(t).name)
    ensures IsPair(ReplaceValue(t)) && ReadPair(ReplaceValue(t)) == Cookie(ReadPair(t).name, REDACTED)
  {
    hide Pair, CookieName, ReplaceValue, ReadPair, NameOf, TrimLeft;
    var p, v := PairForm(t);
    PairName(t, p, v, "");
    PairReplaced(t, p, v, "");
    ReplacedPair(t, p, v);
    PairReads(ReplaceValue(t), p, REDACTED);
    EqualsInPair(ReplaceValue(t), p, REDACTED);
  }

  lemma ReplacedPair(t: string, p: string, v: string)
    requires Pair(t, p, v, "")
    ensures Pair(p + "=" + REDACTED + "", p, REDACTED, "")
  {}

  lemma EqualsInPair(t: string, p: string, v: string)
    requires Pair(t, p, v, "")
    ensures '=' in t && ';' !in t
  {
    assert t[|p|] == '=';
  }

  // One rule

  lemma {:induction false} FilterCommutes(rule: Rule, tokens: seq<string>)
    requires AllPairs(tokens)
    ensures AllPairs(FilterTokens(rule, tokens))
    ensures ReadTokens(FilterTokens(rule, tokens)) == FilterCookies(rule, ReadTokens(tokens))
  {
    hide IsPair, TokenFate, ReplaceValue, ReadPair;
    if tokens != [] {
      var n := |tokens| - 1;
      FilterCommutes(rule, tokens[..n]);
      TokenCommutes(rule, tokens[n]);
      var f, cs := FilterTokens(rule, tokens[..n]), ReadTokens(tokens[..n]);
      FilterLast(rule, cs, ReadPair(tokens[n]));
      ReadLast(f, tokens[n]);
      ReadLast(f, ReplaceValue(tokens[n]));
      assert f + [] == f;
    }
  }

  lemma ReadLast(tokens: seq<string>, t: string)
    ensures ReadTokens(tokens + [t]) == ReadTokens(tokens) + [ReadPair(t)]
  {
    hide ReadPair;
    assert (tokens + [t])[..|tokens|] == tokens;
  }

  lemma FilterLast(rule: Rule, cs: seq<Cookie>, c: Cookie)
    ensures FilterCookies(rule, cs + [c]) == FilterCookies(rule, cs) +
      match FateOf(rule, c.name)
      case Keep => [c]
      case Erase => [Cookie(c.name, REDACTED)]
      case Drop => []
  {
    hide FateOf;
    assert (cs + [c])[..|cs|] == cs;
  }

  lemma {:induction false} ReadLength(tokens: seq<string>)
    ensures |ReadTokens(tokens)| == |tokens|
  {
    if tokens != [] { ReadLength(tokens[..|tokens| - 1]); }
  }

  lemma TrimmedPair(t: string)
    requires IsPair(t)
    ensures IsPair(TrimLeft(t)) && ReadPair(TrimLeft(t)) == ReadPair(t)
  {
    hide ReadPair, NameOf;
    var p, v := PairForm(t);
    PairReads(t, p, v);
    PairTrimmed(t, p, v, "");
    PairReads(TrimLeft(t), TrimLeft(p), v);
    TrimLeftTwice(p);
    EqualsInPair(TrimLeft(t), TrimLeft(p), v);
  }

  lemma {:induction false} TrimFirstReads(tokens: seq<string>)
    requires AllPairs(tokens)
    ensures AllPairs(TrimFirst(tokens)) && ReadTokens(TrimFirst(tokens)) == ReadTokens(tokens)
  {
    hide IsPair, ReadPair, TrimLeft, ReadTokens;
    if tokens != [] {
      var n := |tokens| - 1;
      TrimmedPair(tokens[0]);
      if n > 0 {
        TrimFirstReads(tokens[..n]);
        assert tokens == tokens[..n] + [tokens[n]];
        assert TrimFirst(tokens) == TrimFirst(tokens[..n]) + [tokens[n]];
        ReadLast(tokens[..n], tokens[n]);
        ReadLast(TrimFirst(tokens[..n]), tokens[n]);
      } else {
        assert tokens == [] + [tokens[0]] && TrimFirst(tokens) == [] + [TrimLeft(tokens[0])];
        ReadLast([], tokens[0]);
        ReadLast([], TrimLeft(tokens[0]));
      }
    }
  }

  lemma HeaderCommutes(rule: Rule, v: string)
    requires PairsOnly(v)
    ensures PairsOnly(ApplyToHeader(rule, v))
    ensures ReadHeader(ApplyToHeader(rule, v)) == FilterCookies(rule, ReadHeader(v))
  {
    hide IsPair, FilterTokens, TrimFirst, Split;
    if v != "" {
      var f := FilterTokens(rule, Split(v, ';'));
      FilterCommutes(rule, Split(v, ';'));
      SplitFiltered(rule, v);
      if f != [] {
        TrimFirstReads(f);
        NoEmptyPair();
        SplitOfEmpty();
        assert |TrimFirst(f)| >= 1 ==> IsPair(TrimFirst(f)[0]);
      } else {
        TrimFirstEmpty();
      }
    }
  }

  lemma NoEmptyPair()
    ensures !IsPair("")
  {}

  lemma SplitOfEmpty()
    ensures Split("", ';') == [""]
  {}

  lemma TrimFirstEmpty()
    ensures TrimFirst([]) == []
  {}

  // Every value of the header, every rule

  lemma {:induction false} FilterConcat(rule: Rule, a: seq<Cookie>, b: seq<Cookie>)
    ensures FilterCookies(rule, a + b) == FilterCookies(rule, a) + FilterCookies(rule, b)
    decreases |b|
  {
    hide FateOf;
    if b == [] {
      assert a + b == a;
    } else {
      var n := |b| - 1;
      FilterConcat(rule, a, b[..n]);
      assert (a + b)[..|a + b| - 1] == a + b[..n];
    }
  }

  predicate AllPairsOnly(vals: seq<string>) {
    forall i :: 0 <= i < |vals| ==> PairsOnly(vals[i])
  }

  lemma {:induction false} ValuesCommute(rule: Rule, vals: seq<string>)
    requires AllPairsOnly(vals)
    ensures AllPairsOnly(ApplyToAll(rule, vals))
    ensures ReadHeaders(ApplyToAll(rule, vals)) == FilterCookies(rule, ReadHeaders(vals))
  {
    hide PairsOnly, ApplyToHeader, ReadHeader;
    if vals != [] {
      var n := |vals| - 1;
      ValuesCommute(rule, vals[..n]);
      HeaderCommutes(rule, vals[n]);
      FilterConcat(rule, ReadHeaders(vals[..n]), ReadHeader(vals[n]));
      assert ApplyToAll(rule, vals)[..n] == ApplyToAll(rule, vals[..n]);
    }
  }

  lemma {:induction false} EmptyReadsNothing(vals: seq<string>)
    requires AllEmpty(vals)
    ensures ReadHeaders(vals) == []
  {
    if vals != [] { EmptyReadsNothing(vals[..|vals| - 1]); }
  }

  lemma {:induction false} NothingStaysNothing(rules: seq<Rule>)
    ensures RedactSlice(rules, []) == []
    decreases rules
  {
    if rules != [] { NothingStaysNothing(rules[1..]); }
  }

  /** The cookies read from the rewritten header are the rewritten cookies read from the
      original one, and the header is deleted only when no cookie is left. */
  lemma {:induction false} HeaderAndSliceCommute(rules: seq<Rule>, vals: seq<string>)
    requires AllPairsOnly(vals)
    ensures var kept := CookieValues(rules, vals);
      RedactSlice(rules, ReadHeaders(vals)) == if kept.Some? then ReadHeaders(kept.value) else []
    decreases rules
  {
    hide PairsOnly, ApplyToAll, ReadHeaders, FilterCookies, AllEmpty;
    if rules != [] {
      var next := ApplyToAll(rules[0], vals);
      ValuesCommute(rules[0], vals);
      if AllEmpty(next) {
        EmptyReadsNothing(next);
        NothingStaysNothing(rules[1..]);
      } else {
        HeaderAndSliceCommute(rules[1..], next);
      }
    }
  }

  /** Conversely the header survives as long as one cookie does. */
  lemma HeaderDeletedIff(rules: seq<Rule>, vals: seq<string>)
    requires AllPairsOnly(vals) && rules != []
    ensures CookieValues(rules, vals).None? <==> RedactSlice(rules, ReadHeaders(vals)) == []
  {
    hide CookieValues, RedactSlice, ReadHeaders, AllPairsOnly;
    HeaderAndSliceCommute(rules, vals);
    if CookieValues(rules, vals).Some? { SurvivorReads(rules, vals); }
  }

  lemma {:induction false} SurvivorReads(rules: seq<Rule>, vals: seq<string>)
    requires AllPairsOnly(vals) && rules != [] && CookieValues(rules, vals).Some?
    ensures ReadHeaders(CookieValues(rules, vals).value) != []
    decreases rules
  {
    hide PairsOnly, ApplyToAll, ReadHeaders;
    var next := ApplyToAll(rules[0], vals);
    ValuesCommute(rules[0], vals);
    if rules[1..] == [] {
      var i :| 0 <= i < |next| && next[i] != "";
      NonEmptyReads(next, i);
    } else {
      SurvivorReads(rules[1..], next);
    }
  }

  lemma {:induction false} NonEmptyReads(vals: seq<string>, i: nat)
    requires i < |vals| && vals[i] != ""
    ensures ReadHeaders(vals) != []
  {
    hide ReadHeader;
    var n := |vals| - 1;
    if i < n {
      NonEmptyReads(vals[..n], i);
    } else {
      HeaderReads(vals[n]);
    }
  }

  lemma HeaderReads(v: string)
    requires v != ""
    ensures ReadHeader(v) != []
  {}
}
