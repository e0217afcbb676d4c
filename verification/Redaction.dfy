/** Redaction of a captured request: cookie, header, query, JSON-path and regex rules. */
module Redaction {
  import opened Strings
  import opened MimeHeader
  import opened Capture
  import opened Cookies
  import opened CookieIndependence
  import opened CookieShapes

  /** JSON-path and regex rules are given as functions on text. */
  datatype Rules = Rules(
    headers: seq<string>,                         // lowercased names
    query: seq<string>,
    cookies: seq<Rule>,
    json: Option<(string, string) -> string>,     // body, content type
    regexes: seq<string -> string>)
  {
    predicate IsUnredacted() {
      |headers| == 0 && |query| == 0 && |cookies| == 0 && json.None? && |regexes| == 0
    }
  }

  /** A captured request; `other` stands for the fields no rule touches. */
  datatype Request = Request(
    headers: Option<HeaderMap>,                   // None is a nil map
    query: Option<HeaderMap>,
    cookies: Option<seq<Cookie>>,
    body: string,
    contentType: string,
    other: string)

  const COOKIE := "Cookie"
  const SET_COOKIE := "Set-Cookie"

  /** A possible answer of findHeaderKey: the canonical key, else any spelling of it. */
  predicate IsKey(keys: set<string>, canonical: string, k: Option<string>) {
    if k.None? then canonical !in keys && forall x :: x in keys ==> CanonicalHeader(x) != canonical
    else
      && k.value in keys
      && (if canonical in keys then k.value == canonical else CanonicalHeader(k.value) == canonical)
  }

  // What each rule bucket makes of a request

  function Blank(vals: seq<string>): seq<string> { seq(|vals|, _ => REDACTED) }

  function Blanked(names: seq<string>, k: string, vals: seq<string>): seq<string> {
    if ToLower(k) in names then Blank(vals) else vals
  }

  /** applyHeaderRulesMap and applyQueryRules. */
  function BlankKeys(names: seq<string>, m: HeaderMap): HeaderMap {
    map k | k in m :: Blanked(names, k, m[k])
  }

  function SetOrDelete(m: HeaderMap, k: string, vals: Option<seq<string>>): HeaderMap {
    if vals.Some? then m[k := vals.value] else m - {k}
  }

  function CookieHeaders(rules: seq<Rule>, m: HeaderMap, ck: Option<string>, sk: Option<string>): HeaderMap
    requires (ck.Some? ==> ck.value in m) && (sk.Some? ==> sk.value in m)
  {
    var m1 := if ck.Some? then SetOrDelete(m, ck.value, CookieValues(rules, m[ck.value])) else m;
    if sk.Some? then SetOrDelete(m1, sk.value, SetCookieValues(rules, m[sk.value])) else m1
  }

  function MapAll(f: string -> string, vals: seq<string>): seq<string> {
    seq(|vals|, i requires 0 <= i < |vals| => f(vals[i]))
  }

  function MapValues(f: string -> string, m: HeaderMap): HeaderMap {
    map k | k in m :: MapAll(f, m[k])
  }

  function MapOption(f: string -> string, m: Option<HeaderMap>): Option<HeaderMap> {
    if m.None? then None else Some(MapValues(f, m.value))
  }

  function ApplyRegexes(regexes: seq<string -> string>, r: Request, bodyEligible: bool): Request
    decreases |regexes|
  {
    if regexes == [] then r
    else
      var f := regexes[0];
      ApplyRegexes(regexes[1..],
        r.(body := if bodyEligible then f(r.body) else r.body, headers := MapOption(f, r.headers), query := MapOption(f, r.query)),
        bodyEligible)
  }

  predicate ValidKeys(r: Request, ck: Option<string>, sk: Option<string>) {
    r.headers.Some? ==> IsKey(r.headers.value.Keys, COOKIE, ck) && IsKey(r.headers.value.Keys, SET_COOKIE, sk)
  }

  function ApplyCookies(rules: seq<Rule>, r: Request, ck: Option<string>, sk: Option<string>): Request
    requires ValidKeys(r, ck, sk)
  {
    if rules == [] || r.headers.None? then r
    else
      r.(headers := Some(CookieHeaders(rules, r.headers.value, ck, sk)),
         cookies := if r.cookies.Some? && r.cookies.value != [] then Some(RedactSlice(rules, r.cookies.value)) else r.cookies)
  }

  function BlankOption(names: seq<string>, m: Option<HeaderMap>): Option<HeaderMap> {
    if m.None? then None else Some(BlankKeys(names, m.value))
  }

  /** redactCapturedRequest, with the spellings findHeaderKey picked for the cookie headers. */
  function RedactRequest(rules: Rules, r: Request, ck: Option<string>, sk: Option<string>): Request
    requires ValidKeys(r, ck, sk)
  {
    if rules.IsUnredacted() then r
    else
      var r1 := ApplyCookies(rules.cookies, r, ck, sk);
      var r2 := r1.(headers := BlankOption(rules.headers, r1.headers), query := BlankOption(rules.query, r1.query));
      var r3 := if rules.json.Some? && r2.body != "" then r2.(body := (rules.json.value)(r2.body, r2.contentType)) else r2;
      ApplyRegexes(rules.regexes, r3, r3.body != "")
  }

  // Independence

  predicate SameCookieHeader(x: string, y: string) {
    CanonicalHeader(x) == CanonicalHeader(y) && CanonicalHeader(x) in {COOKIE, SET_COOKIE}
  }

  /** At most one spelling of each cookie header. */
  predicate OneSpelling(keys: set<string>) {
    forall x, y :: x in keys && y in keys && SameCookieHeader(x, y) ==> x == y
  }

  predicate AllVanish(rules: seq<Rule>, vals: seq<string>) {
    forall i :: 0 <= i < |vals| ==> Vanishes(rules, vals[i])
  }

  /** Two values of a cookie header that is blanked anyway: the names in them tell whether the
      cookie rules delete both, or leave as many values of each. */
  predicate BlankedAlike(rules: seq<Rule>, k: string, a: seq<string>, b: seq<string>) {
    if CanonicalHeader(k) == COOKIE
    then (AllVanish(rules, a) && AllVanish(rules, b)) || (!AllVanish(rules, a) && !AllVanish(rules, b) && |a| == |b|)
    else Survivors(rules, a) == Survivors(rules, b)
  }

  predicate IsCookieKey(k: string) { CanonicalHeader(k) in {COOKIE, SET_COOKIE} }

  /** The values of one header may differ only where the rules erase the difference. */
  ghost predicate HeaderDiffers(rules: Rules, k: string, a: seq<string>, b: seq<string>) {
    var blanked := ToLower(k) in rules.headers;
    if rules.cookies != [] && IsCookieKey(k) then
      || (if CanonicalHeader(k) == COOKIE then HeadersAlike(rules.cookies, a, b) else AllAlike(rules.cookies, a, b))
      || (blanked && BlankedAlike(rules.cookies, k, a, b))
    else
      a == b || (blanked && |a| == |b|)
  }

  predicate QueryDiffers(rules: Rules, k: string, a: seq<string>, b: seq<string>) {
    a == b || (ToLower(k) in rules.query && |a| == |b|)
  }

  ghost predicate QueriesDiffer(rules: Rules, a: Option<HeaderMap>, b: Option<HeaderMap>) {
    && (a.Some? <==> b.Some?)
    && (a.Some? ==> a.value.Keys == b.value.Keys)
    && (a.Some? ==> forall k :: k in a.value ==> QueryDiffers(rules, k, a.value[k], b.value[k]))
  }

  ghost predicate HeadersDiffer(rules: Rules, a: HeaderMap, b: HeaderMap) {
    a.Keys == b.Keys && OneSpelling(a.Keys) && forall k :: k in a ==> HeaderDiffers(rules, k, a[k], b[k])
  }

  /** With a nil header map the cookie rules are skipped, so the parsed cookies must agree. */
  ghost predicate DifferOnlyInCovered(rules: Rules, a: Request, b: Request) {
    && a.body == b.body && a.contentType == b.contentType && a.other == b.other
    && (a.headers.Some? <==> b.headers.Some?)
    && (a.headers.None? ==> a.cookies == b.cookies)
    && (a.headers.Some? ==> HeadersDiffer(rules, a.headers.value, b.headers.value))
    && QueriesDiffer(rules, a.query, b.query)
    && (a.cookies.Some? <==> b.cookies.Some?)
    && (a.cookies.Some? ==> CookiesAlike(rules.cookies, a.cookies.value, b.cookies.value))
  }

  lemma {:induction false} LowercaseIsCanonical(s: string)
    requires forall i :: 0 <= i < |s| ==> 'a' <= s[i] <= 'z'
    ensures CanonicalChars(s, false) == s
  {
    if s != "" {
      LowercaseIsCanonical(s[1..]);
      assert s == [s[0]] + s[1..];
    }
  }

  lemma CanonicalCookieNames()
    ensures CanonicalHeader(COOKIE) == COOKIE && CanonicalHeader(SET_COOKIE) == SET_COOKIE
  {
    hide CanonicalChars;
    assert CanonicalChars("Cookie", true) == "Cookie" by {
      LowercaseIsCanonical("ookie");
      CanonicalStep('C', "ookie", true);
      assert ['C'] + "ookie" == "Cookie";
    }
    assert CanonicalChars("Set-Cookie", true) == "Set-Cookie" by {
      CanonicalStep('-', "Cookie", false);
      CanonicalStep('t', "-Cookie", false);
      CanonicalStep('e', "t-Cookie", false);
      CanonicalStep('S', "et-Cookie", true);
      assert ['-'] + "Cookie" == "-Cookie" && ['t'] + "-Cookie" == "t-Cookie";
      assert ['e'] + "t-Cookie" == "et-Cookie" && ['S'] + "et-Cookie" == "Set-Cookie";
    }
  }

  lemma CanonicalStep(c: char, rest: string, upper: bool)
    ensures var d := if upper then UpperChar(c) else LowerChar(c);
      CanonicalChars([c] + rest, upper) == [d] + CanonicalChars(rest, d == '-')
  {
    assert ([c] + rest)[1..] == rest;
  }

  lemma KeyIsCanonical(keys: set<string>, canonical: string, k: Option<string>)
    requires IsKey(keys, canonical, k) && canonical in {COOKIE, SET_COOKIE}
    ensures k.Some? ==> k.value in keys && CanonicalHeader(k.value) == canonical
  {
    hide CanonicalHeader;
    CanonicalCookieNames();
  }

  lemma SameKey(keys: set<string>, canonical: string, k1: Option<string>, k2: Option<string>)
    requires IsKey(keys, canonical, k1) && IsKey(keys, canonical, k2) && OneSpelling(keys) && canonical in {COOKIE, SET_COOKIE}
    ensures k1 == k2
  {}

  /** Equal, or blanked by the rules whatever it holds. */
  predicate Agree(names: seq<string>, a: HeaderMap, b: HeaderMap) {
    && a.Keys == b.Keys
    && forall k :: k in a ==> a[k] == b[k] || (ToLower(k) in names && |a[k]| == |b[k]|)
  }

  lemma BlankKeysErases(names: seq<string>, a: HeaderMap, b: HeaderMap)
    requires Agree(names, a, b)
    ensures BlankKeys(names, a) == BlankKeys(names, b)
  {}

  /** Both deleted, or both left with as many values. */
  predicate SameShape(x: Option<seq<string>>, y: Option<seq<string>>) {
    (x.None? && y.None?) || (x.Some? && y.Some? && |x.value| == |y.value|)
  }

  /** The rules' result on a cookie header, by the header's name. */
  function CookieResult(rules: seq<Rule>, k: string, vals: seq<string>): Option<seq<string>> {
    if CanonicalHeader(k) == COOKIE then CookieValues(rules, vals) else SetCookieValues(rules, vals)
  }

  lemma ShapeFromNames(rules: seq<Rule>, k: string, a: seq<string>, b: seq<string>)
    requires rules != []
    ensures SameShape(CookieResult(rules, k, a), CookieResult(rules, k, b)) <==> BlankedAlike(rules, k, a, b)
  {
    hide CanonicalHeader, CookieValues, SetCookieValues, Vanishes, Survivors;
    if CanonicalHeader(k) == COOKIE {
      CookieHeaderDeletedIff(rules, a);
      CookieHeaderDeletedIff(rules, b);
    } else {
      SetCookieHeaderKeeps(rules, a);
      SetCookieHeaderKeeps(rules, b);
    }
  }

  predicate AgreeOn(names: seq<string>, k: string, x: Option<seq<string>>, y: Option<seq<string>>) {
    x == y || (ToLower(k) in names && SameShape(x, y))
  }

  lemma CookieHeaderAgrees(rules: Rules, k: string, a: seq<string>, b: seq<string>)
    requires HeaderDiffers(rules, k, a, b) && rules.cookies != []
    ensures AgreeOn(rules.headers, k, HeaderResult(rules.cookies, k, a), HeaderResult(rules.cookies, k, b))
  {
    hide CanonicalHeader, CookieValues, SetCookieValues, HeadersAlike, AllAlike, BlankedAlike;
    if IsCookieKey(k) {
      ShapeFromNames(rules.cookies, k, a, b);
      if CanonicalHeader(k) == COOKIE && HeadersAlike(rules.cookies, a, b) {
        CookieValuesIndependent(rules.cookies, a, b);
      } else if CanonicalHeader(k) == SET_COOKIE && AllAlike(rules.cookies, a, b) {
        SetCookieValuesIndependent(rules.cookies, a, b);
      }
    }
  }

  /** With one spelling, the cookie headers are the ones findHeaderKey finds. */
  lemma KeyFound(keys: set<string>, ck: Option<string>, sk: Option<string>, k: string)
    requires OneSpelling(keys) && IsKey(keys, COOKIE, ck) && IsKey(keys, SET_COOKIE, sk) && k in keys
    ensures IsCookieKey(k) ==> Some(k) == if CanonicalHeader(k) == COOKIE then ck else sk
  {
    hide CanonicalHeader;
    KeyIsCanonical(keys, COOKIE, ck);
    KeyIsCanonical(keys, SET_COOKIE, sk);
  }

  /** What the cookie rules make of one header. */
  function HeaderResult(rules: seq<Rule>, k: string, vals: seq<string>): Option<seq<string>> {
    if IsCookieKey(k) then CookieResult(rules, k, vals) else Some(vals)
  }

  lemma CookieHeaderAt(rules: seq<Rule>, m: HeaderMap, ck: Option<string>, sk: Option<string>, k: string)
    requires k in m && OneSpelling(m.Keys) && IsKey(m.Keys, COOKIE, ck) && IsKey(m.Keys, SET_COOKIE, sk)
    ensures var out, vals := CookieHeaders(rules, m, ck, sk), HeaderResult(rules, k, m[k]);
      (k in out <==> vals.Some?) && (k in out ==> out[k] == vals.value)
  {
    hide CanonicalHeader, CookieValues, SetCookieValues;
    KeyFound(m.Keys, ck, sk, k);
    KeyIsCanonical(m.Keys, COOKIE, ck);
    KeyIsCanonical(m.Keys, SET_COOKIE, sk);
  }

  lemma NoNewHeaders(rules: seq<Rule>, m: HeaderMap, ck: Option<string>, sk: Option<string>)
    requires (ck.Some? ==> ck.value in m) && (sk.Some? ==> sk.value in m)
    ensures CookieHeaders(rules, m, ck, sk).Keys <= m.Keys
  {
    hide CookieValues, SetCookieValues;
  }

  lemma CookieHeadersAgree(rules: Rules, a: HeaderMap, b: HeaderMap, ck: Option<string>, sk: Option<string>)
    requires a.Keys == b.Keys && rules.cookies != [] && OneSpelling(a.Keys)
    requires forall k :: k in a ==> HeaderDiffers(rules, k, a[k], b[k])
    requires IsKey(a.Keys, COOKIE, ck) && IsKey(a.Keys, SET_COOKIE, sk)
    ensures Agree(rules.headers, CookieHeaders(rules.cookies, a, ck, sk), CookieHeaders(rules.cookies, b, ck, sk))
  {
    hide CanonicalHeader, CookieHeaders, CookieResult, HeaderDiffers, OneSpelling, IsCookieKey;
    var x, y := CookieHeaders(rules.cookies, a, ck, sk), CookieHeaders(rules.cookies, b, ck, sk);
    NoNewHeaders(rules.cookies, a, ck, sk);
    NoNewHeaders(rules.cookies, b, ck, sk);
    forall k | k in a
      ensures k in x <==> k in y
      ensures k in x ==> x[k] == y[k] || (ToLower(k) in rules.headers && |x[k]| == |y[k]|)
    {
      CookieHeaderAt(rules.cookies, a, ck, sk, k);
      CookieHeaderAt(rules.cookies, b, ck, sk, k);
      CookieHeaderAgrees(rules, k, a[k], b[k]);
    }
  }

  /** Two requests that differ only in covered values redact to the same record. */
  lemma RedactionIndependence(rules: Rules, a: Request, b: Request,
                              ca: Option<string>, sa: Option<string>, cb: Option<string>, sb: Option<string>)
    requires DifferOnlyInCovered(rules, a, b) && ValidKeys(a, ca, sa) && ValidKeys(b, cb, sb)
    ensures RedactRequest(rules, a, ca, sa) == RedactRequest(rules, b, cb, sb)
  {
    hide RedactRequest, BlankOption, ApplyCookies, HeadersDiffer, CookiesAlike, ValidKeys, BlankKeys;
    if rules.IsUnredacted() {
      Unredacted(rules, a, b);
      NothingRedacted(rules, a, ca, sa);
      NothingRedacted(rules, b, cb, sb);
    } else {
      HeadersAndCookiesAlike(rules, a, b, ca, sa, cb, sb);
      assert BlankOption(rules.query, a.query) == BlankOption(rules.query, b.query) by {
        QueryAlike(rules, a.query, b.query);
      }
      SameParts(rules, a, b, ca, sa, cb, sb);
    }
  }

  lemma NothingRedacted(rules: Rules, r: Request, ck: Option<string>, sk: Option<string>)
    requires rules.IsUnredacted() && ValidKeys(r, ck, sk)
    ensures RedactRequest(rules, r, ck, sk) == r
  {}

  lemma QueryAlike(rules: Rules, a: Option<HeaderMap>, b: Option<HeaderMap>)
    requires QueriesDiffer(rules, a, b)
    ensures BlankOption(rules.query, a) == BlankOption(rules.query, b)
  {
    if a.Some? {
      BlankKeysErases(rules.query, a.value, b.value);
    }
  }

  lemma HeadersAndCookiesAlike(rules: Rules, a: Request, b: Request,
                               ca: Option<string>, sa: Option<string>, cb: Option<string>, sb: Option<string>)
    requires DifferOnlyInCovered(rules, a, b) && ValidKeys(a, ca, sa) && ValidKeys(b, cb, sb)
    ensures var x, y := ApplyCookies(rules.cookies, a, ca, sa), ApplyCookies(rules.cookies, b, cb, sb);
      BlankOption(rules.headers, x.headers) == BlankOption(rules.headers, y.headers) && x.cookies == y.cookies
  {
    hide IsKey, CookieHeaders, BlankKeys, HeadersDiffer, QueriesDiffer, CookiesAlike, RedactSlice;
    if a.headers.Some? {
      HeadersRedactAlike(rules, a.headers.value, b.headers.value, ca, sa, cb, sb);
      if a.cookies.Some? {
        CookieSliceIndependent(rules.cookies, a.cookies.value, b.cookies.value);
        SameLength(rules.cookies, a.cookies.value, b.cookies.value);
      }
    }
  }

  /** The later stages read only what the earlier ones left. */
  lemma SameParts(rules: Rules, a: Request, b: Request,
                  ca: Option<string>, sa: Option<string>, cb: Option<string>, sb: Option<string>)
    requires ValidKeys(a, ca, sa) && ValidKeys(b, cb, sb) && !rules.IsUnredacted()
    requires a.body == b.body && a.contentType == b.contentType && a.other == b.other
    requires BlankOption(rules.query, a.query) == BlankOption(rules.query, b.query)
    requires var x, y := ApplyCookies(rules.cookies, a, ca, sa), ApplyCookies(rules.cookies, b, cb, sb);
      BlankOption(rules.headers, x.headers) == BlankOption(rules.headers, y.headers) && x.cookies == y.cookies
    ensures RedactRequest(rules, a, ca, sa) == RedactRequest(rules, b, cb, sb)
  {
    hide IsKey, CookieHeaders, BlankOption, RedactSlice, ApplyRegexes;
  }

  lemma HeadersRedactAlike(rules: Rules, a: HeaderMap, b: HeaderMap,
                           ca: Option<string>, sa: Option<string>, cb: Option<string>, sb: Option<string>)
    requires HeadersDiffer(rules, a, b)
    requires IsKey(a.Keys, COOKIE, ca) && IsKey(a.Keys, SET_COOKIE, sa)
    requires IsKey(b.Keys, COOKIE, cb) && IsKey(b.Keys, SET_COOKIE, sb)
    ensures rules.cookies == [] ==> BlankKeys(rules.headers, a) == BlankKeys(rules.headers, b)
    ensures rules.cookies != [] ==>
      BlankKeys(rules.headers, CookieHeaders(rules.cookies, a, ca, sa)) == BlankKeys(rules.headers, CookieHeaders(rules.cookies, b, cb, sb))
  {
    hide CanonicalHeader, CookieHeaders, BlankKeys, OneSpelling, HeaderDiffers;
    if rules.cookies != [] {
      SameKey(a.Keys, COOKIE, ca, cb);
      SameKey(a.Keys, SET_COOKIE, sa, sb);
      CookieHeadersAgree(rules, a, b, ca, sa);
      BlankKeysErases(rules.headers, CookieHeaders(rules.cookies, a, ca, sa), CookieHeaders(rules.cookies, b, ca, sa));
    } else {
      NoCookieRulesAgree(rules, a, b);
      BlankKeysErases(rules.headers, a, b);
    }
  }

  lemma NoCookieRulesAgree(rules: Rules, a: HeaderMap, b: HeaderMap)
    requires a.Keys == b.Keys && rules.cookies == [] && forall k :: k in a ==> HeaderDiffers(rules, k, a[k], b[k])
    ensures Agree(rules.headers, a, b)
  {}

  lemma SameLength(rules: seq<Rule>, a: seq<Cookie>, b: seq<Cookie>)
    requires CookiesAlike(rules, a, b)
    ensures |a| == |b| && (rules == [] ==> a == b)
  {}

  lemma Unredacted(rules: Rules, a: Request, b: Request)
    requires DifferOnlyInCovered(rules, a, b) && rules.IsUnredacted()
    ensures a == b
  {
    hide CanonicalHeader;
    if a.headers.Some? { assert a.headers.value == b.headers.value; }
    if a.query.Some? { assert a.query.value == b.query.value; }
    if a.cookies.Some? { SameLength(rules.cookies, a.cookies.value, b.cookies.value); }
  }
}
