/** The header, query and cookie rules, overwriting slices in place. */
module RedactInPlace {
  import opened Strings
  import opened MimeHeader
  import opened Capture
  import opened Slices
  import opened Cookies
  import opened CookieIndependence
  import opened Redaction

  /** findHeaderKey: map iteration may pick any spelling when the canonical key is absent. */
  method FindHeaderKey(m: SliceMap, canonical: string) returns (k: Option<string>)
    ensures IsKey(m.Keys, canonical, k)
  {
    hide CanonicalHeader;
    if canonical in m {
      return Some(canonical);
    }
    var todo := m.Keys;
    while todo != {}
      invariant todo <= m.Keys
      invariant forall x :: x in m.Keys - todo ==> CanonicalHeader(x) != canonical
      decreases todo
    {
      var x :| x in todo;
      if CanonicalHeader(x) == canonical {
        return Some(x);
      }
      todo := todo - {x};
    }
    return None;
  }

  /** One rule over every value of the Cookie header. */
  method RewriteValues(rule: Rule, vals: Slice<string>)
    requires vals.Valid()
    modifies vals.buf
    ensures vals.Items() == ApplyToAll(rule, old(vals.Items()))
  {
    hide ApplyToHeader;
    for i := 0 to vals.len
      invariant forall j :: 0 <= j < i ==> vals.buf[j] == ApplyToHeader(rule, old(vals.buf[..])[j])
      invariant forall j :: i <= j < vals.buf.Length ==> vals.buf[j] == old(vals.buf[..])[j]
    {
      vals.buf[i] := FilterHeader(rule, vals.buf[i]);
    }
  }

  /** One rule over every Set-Cookie entry; kept entries move to the front of the same array. */
  method FilterValues(rule: Rule, vals: Slice<string>) returns (kept: Slice<string>)
    requires vals.Valid()
    modifies vals.buf
    ensures kept.buf == vals.buf && kept.Valid() && kept.Items() == FilterEntries(rule, old(vals.Items()))
  {
    hide ApplyToSetCookie;
    ghost var before := vals.Items();
    var w := 0;
    for i := 0 to vals.len
      invariant 0 <= w <= i
      invariant forall j :: i <= j < vals.len ==> vals.buf[j] == before[j]
      invariant vals.buf[..w] == FilterEntries(rule, before[..i])
    {
      assert before[..i + 1][..i] == before[..i];
      var e := ApplyToSetCookie(rule, vals.buf[i]);
      if e.Some? {
        vals.buf[w] := e.value;
        w := w + 1;
      }
    }
    assert before[..vals.len] == before;
    kept := Slice(vals.buf, w);
  }

  method AllEmptyTexts(vals: Slice<string>) returns (r: bool)
    requires vals.Valid()
    ensures r == AllEmpty(vals.Items())
  {
    for i := 0 to vals.len
      invariant forall j :: 0 <= j < i ==> vals.buf[j] == ""
    {
      if vals.buf[i] != "" {
        assert vals.Items()[i] != "";
        return false;
      }
    }
    return true;
  }

  // One rule at a time, on values

  /** The Cookie header after one rule; a header already gone stays gone. */
  function AfterCookie(rule: Rule, m: HeaderMap, key: Option<string>): HeaderMap {
    if key.None? || key.value !in m then m
    else
      var vals := ApplyToAll(rule, m[key.value]);
      SetOrDelete(m, key.value, if AllEmpty(vals) then None else Some(vals))
  }

  function AfterSetCookie(rule: Rule, m: HeaderMap, key: Option<string>): HeaderMap {
    if key.None? || key.value !in m then m
    else
      var kept := FilterEntries(rule, m[key.value]);
      SetOrDelete(m, key.value, if kept == [] then None else Some(kept))
  }

  function AfterRules(rules: seq<Rule>, m: HeaderMap, ck: Option<string>, sk: Option<string>): HeaderMap
    decreases rules
  {
    if rules == [] then m
    else AfterRules(rules[1..], AfterSetCookie(rules[0], AfterCookie(rules[0], m, ck), sk), ck, sk)
  }

  /** Rule by rule over the map is header by header through all rules. */
  lemma {:induction false} RulesByHeader(rules: seq<Rule>, m: HeaderMap, ck: Option<string>, sk: Option<string>, k: string)
    requires ck.Some? && sk.Some? ==> ck != sk
    ensures var out := AfterRules(rules, m, ck, sk);
      var was := if k in m then Some(m[k]) else None;
      var now := if k in out then Some(out[k]) else None;
      now ==
        if was.None? then None
        else if ck == Some(k) then CookieValues(rules, m[k])
        else if sk == Some(k) then SetCookieValues(rules, m[k])
        else was
    decreases rules
  {
    hide ApplyToAll, FilterEntries, AllEmpty;
    if rules != [] {
      RulesByHeader(rules[1..], AfterSetCookie(rules[0], AfterCookie(rules[0], m, ck), sk), ck, sk, k);
    }
  }

  lemma RulesAreCookieHeaders(rules: seq<Rule>, m: HeaderMap, ck: Option<string>, sk: Option<string>)
    requires IsKey(m.Keys, COOKIE, ck) && IsKey(m.Keys, SET_COOKIE, sk)
    ensures AfterRules(rules, m, ck, sk) == CookieHeaders(rules, m, ck, sk)
  {
    hide AfterRules, CanonicalHeader, CookieValues, SetCookieValues;
    DistinctKeys(m.Keys, ck, sk);
    var x, y := AfterRules(rules, m, ck, sk), CookieHeaders(rules, m, ck, sk);
    forall k: string
      ensures (k in x <==> k in y) && (k in x ==> x[k] == y[k])
    {
      RulesByHeader(rules, m, ck, sk, k);
    }
    assert x.Keys == y.Keys;
  }

  lemma DistinctKeys(keys: set<string>, ck: Option<string>, sk: Option<string>)
    requires IsKey(keys, COOKIE, ck) && IsKey(keys, SET_COOKIE, sk)
    ensures ck.Some? && sk.Some? ==> ck != sk
  {
    hide CanonicalHeader;
    KeyIsCanonical(keys, COOKIE, ck);
    KeyIsCanonical(keys, SET_COOKIE, sk);
  }

  // The same in place

  /** `m` with some keys gone and some slices shortened. */
  ghost predicate Within(out: SliceMap, m: SliceMap) {
    forall k :: k in out ==> k in m && out[k].buf == m[k].buf && out[k].Valid()
  }

  lemma WithinSeparate(out: SliceMap, m: SliceMap)
    requires Within(out, m) && Separate(m)
    ensures Sized(out) && Separate(out) && Buffers(out) <= Buffers(m)
  {}

  /** One rule on the Cookie header: rewritten in place, deleted when nothing is left. */
  method RewriteCookie(rule: Rule, m: SliceMap, key: Option<string>) returns (out: SliceMap)
    requires Sized(m) && Separate(m) && (key.Some? ==> key.value in m)
    modifies Buffers(m)
    ensures Within(out, m) && Texts(out) == AfterCookie(rule, old(Texts(m)), key)
  {
    hide ApplyToAll, AllEmpty;
    out := m;
    if key.Some? {
      ghost var start := Texts(m);
      assert m[key.value].buf in Buffers(m);
      RewriteValues(rule, m[key.value]);
      var gone := AllEmptyTexts(m[key.value]);
      if gone {
        out := m - {key.value};
      }
      assert forall k :: k in m && k != key.value ==> m[k].Items() == start[k];
    }
  }

  /** One rule on the Set-Cookie header. */
  method FilterSetCookie(rule: Rule, m: SliceMap, key: Option<string>) returns (out: SliceMap)
    requires Sized(m) && Separate(m) && (key.Some? ==> key.value in m)
    modifies Buffers(m)
    ensures Within(out, m) && Texts(out) == AfterSetCookie(rule, old(Texts(m)), key)
  {
    hide FilterEntries;
    out := m;
    if key.Some? {
      ghost var start := Texts(m);
      assert m[key.value].buf in Buffers(m);
      var kept := FilterValues(rule, m[key.value]);
      assert kept.Items() == [] <==> kept.len == 0;
      out := if kept.len == 0 then m - {key.value} else m[key.value := kept];
      assert forall k :: k in m && k != key.value ==> m[k].Items() == start[k];
    }
  }

  method ApplyCookieRule(rule: Rule, m: SliceMap, cookieKey: Option<string>, setCookieKey: Option<string>) returns (out: SliceMap)
    requires Sized(m) && Separate(m)
    requires (cookieKey.Some? ==> cookieKey.value in m) && (setCookieKey.Some? ==> setCookieKey.value in m)
    requires cookieKey.Some? && setCookieKey.Some? ==> cookieKey != setCookieKey
    modifies Buffers(m)
    ensures Within(out, m)
    ensures Texts(out) == AfterSetCookie(rule, AfterCookie(rule, old(Texts(m)), cookieKey), setCookieKey)
  {
    hide ApplyToAll, AllEmpty, AfterSetCookie;
    out := RewriteCookie(rule, m, cookieKey);
    WithinSeparate(out, m);
    assert setCookieKey.Some? ==> setCookieKey.value in Texts(out);
    out := FilterSetCookie(rule, out, setCookieKey);
  }

  /** A key that is already gone. */
  function StillIn(key: Option<string>, keys: set<string>): Option<string> {
    if key.Some? && key.value in keys then key else None
  }

  lemma GoneKeys(rule: Rule, m: HeaderMap, ck: Option<string>, sk: Option<string>)
    requires ck.Some? && sk.Some? ==> ck != sk
    ensures AfterSetCookie(rule, AfterCookie(rule, m, StillIn(ck, m.Keys)), StillIn(sk, m.Keys)) ==
      AfterSetCookie(rule, AfterCookie(rule, m, ck), sk)
  {
    hide ApplyToAll, AllEmpty, FilterEntries;
  }

  /** applyCookieRulesToHeaders: both cookie headers go through the rules one by one, and a
      header is deleted by the first rule that leaves nothing of it. */
  method CookieRulesToHeaders(rules: seq<Rule>, m: SliceMap) returns (out: SliceMap, ghost ck: Option<string>, ghost sk: Option<string>)
    requires Sized(m) && Separate(m)
    modifies Buffers(m)
    ensures IsKey(m.Keys, COOKIE, ck) && IsKey(m.Keys, SET_COOKIE, sk)
    ensures Within(out, m) && Texts(out) == CookieHeaders(rules, old(Texts(m)), ck, sk)
  {
    hide IsKey, AfterCookie, AfterSetCookie, CookieHeaders;
    var cookieKey := FindHeaderKey(m, COOKIE);
    var setCookieKey := FindHeaderKey(m, SET_COOKIE);
    ck, sk := cookieKey, setCookieKey;
    KeysPresent(m.Keys, ck, sk);
    ghost var start := Texts(m);
    assert start.Keys == m.Keys;
    RulesAreCookieHeaders(rules, start, ck, sk);
    out := m;
    assert rules[0..] == rules;
    for g := 0 to |rules|
      invariant Within(out, m)
      invariant AfterRules(rules[g..], Texts(out), ck, sk) == AfterRules(rules, start, ck, sk)
      invariant cookieKey == StillIn(ck, out.Keys) && setCookieKey == StillIn(sk, out.Keys)
    {
      assert rules[g..][1..] == rules[g + 1..];
      WithinSeparate(out, m);
      assert Texts(out).Keys == out.Keys;
      GoneKeys(rules[g], Texts(out), ck, sk);
      ghost var before := out;
      out := ApplyCookieRule(rules[g], out, cookieKey, setCookieKey);
      assert out.Keys <= before.Keys;
      if cookieKey.Some? && cookieKey.value !in out { cookieKey := None; }
      if setCookieKey.Some? && setCookieKey.value !in out { setCookieKey := None; }
    }
  }

  /** The same, told from the texts. */
  method CookieRulesToMap(rules: seq<Rule>, m: SliceMap) returns (out: SliceMap, ghost ck: Option<string>, ghost sk: Option<string>)
    requires Sized(m) && Separate(m)
    modifies Buffers(m)
    ensures Sized(out) && Separate(out) && Buffers(out) <= Buffers(m)
    ensures var was := old(Texts(m));
      && IsKey(was.Keys, COOKIE, ck) && IsKey(was.Keys, SET_COOKIE, sk)
      && Texts(out) == CookieHeaders(rules, was, ck, sk)
  {
    hide CookieHeaders, IsKey;
    assert Texts(m).Keys == m.Keys;
    out, ck, sk := CookieRulesToHeaders(rules, m);
    WithinSeparate(out, m);
  }

  lemma KeysPresent(keys: set<string>, ck: Option<string>, sk: Option<string>)
    requires IsKey(keys, COOKIE, ck) && IsKey(keys, SET_COOKIE, sk)
    ensures StillIn(ck, keys) == ck && StillIn(sk, keys) == sk && (ck.Some? && sk.Some? ==> ck != sk)
  {
    hide CanonicalHeader;
    DistinctKeys(keys, ck, sk);
  }

  /** Overwrite every value of the keys a rule names. */
  method BlankNamedKeys(names: seq<string>, m: SliceMap)
    requires Sized(m) && Separate(m)
    modifies Buffers(m)
    ensures Texts(m) == BlankKeys(names, old(Texts(m)))
  {
    hide Separate, Blanked, BlankKeys;
    ghost var start := Texts(m);
    var todo := m.Keys;
    while todo != {}
      invariant todo <= m.Keys
      invariant forall k :: k in m ==> m[k].Items() == if k in todo then start[k] else Blanked(names, k, start[k])
      decreases todo
    {
      var key :| key in todo;
      BlankedIs(names, key, m[key].Items());
      if ToLower(key) in names {
        assert m[key].buf in Buffers(m);
        BlankSlice(m, key);
      }
      todo := todo - {key};
    }
    BlankKeysIs(names, start, Texts(m));
  }

  lemma BlankedIs(names: seq<string>, k: string, vals: seq<string>)
    ensures Blanked(names, k, vals) == if ToLower(k) in names then Blank(vals) else vals
  {}

  lemma BlankKeysIs(names: seq<string>, m: HeaderMap, out: HeaderMap)
    requires out.Keys == m.Keys && forall k :: k in m ==> out[k] == Blanked(names, k, m[k])
    ensures out == BlankKeys(names, m)
  {}

  method BlankSlice(m: SliceMap, key: string)
    requires Sized(m) && Separate(m) && key in m
    modifies m[key].buf
    ensures m[key].Items() == Blank(old(m[key].Items()))
    ensures forall k :: k in m && k != key ==> m[k].Items() == old(m[k].Items())
  {
    MapSlice(_ => REDACTED, m[key]);
  }

  /** One regex over every value. */
  method ReplaceInAll(f: string -> string, m: SliceMap)
    requires Sized(m) && Separate(m)
    modifies Buffers(m)
    ensures Texts(m) == MapValues(f, old(Texts(m)))
  {
    ghost var start := Texts(m);
    hide Separate, MapAll, MapValues;
    var todo := m.Keys;
    while todo != {}
      invariant todo <= m.Keys
      invariant forall k :: k in m ==> m[k].Items() == if k in todo then start[k] else MapAll(f, start[k])
      decreases todo
    {
      var key :| key in todo;
      assert m[key].buf in Buffers(m);
      ReplaceInSlice(f, m, key);
      todo := todo - {key};
    }
    MapValuesIs(f, start, Texts(m));
  }

  lemma MapValuesIs(f: string -> string, m: HeaderMap, out: HeaderMap)
    requires out.Keys == m.Keys && forall k :: k in m ==> out[k] == MapAll(f, m[k])
    ensures out == MapValues(f, m)
  {}

  method ReplaceInSlice(f: string -> string, m: SliceMap, key: string)
    requires Sized(m) && Separate(m) && key in m
    modifies m[key].buf
    ensures m[key].Items() == MapAll(f, old(m[key].Items()))
    ensures forall k :: k in m && k != key ==> m[k].Items() == old(m[k].Items())
  {
    MapSlice(f, m[key]);
  }
}
