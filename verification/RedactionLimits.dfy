/** Where two redacted requests can still be told apart, with the exact conditions. */
module RedactionLimits {
  import opened Strings
  import opened MimeHeader
  import opened Capture
  import opened Cookies
  import opened CookieIndependence
  import opened CookieShapes
  import opened Redaction

  // What the later stages keep

  /** Same keys, and as many values under each. */
  predicate SameSizes(a: Option<HeaderMap>, b: Option<HeaderMap>) {
    && (a.Some? <==> b.Some?)
    && (a.Some? ==> a.value.Keys == b.value.Keys && forall k :: k in a.value ==> |a.value[k]| == |b.value[k]|)
  }

  lemma {:induction false} RegexesKeep(regexes: seq<string -> string>, r: Request, eligible: bool)
    ensures ApplyRegexes(regexes, r, eligible).cookies == r.cookies
    ensures SameSizes(ApplyRegexes(regexes, r, eligible).headers, r.headers)
    decreases |regexes|
  {
    if regexes != [] {
      var f := regexes[0];
      var r' := r.(body := if eligible then f(r.body) else r.body, headers := MapOption(f, r.headers), query := MapOption(f, r.query));
      RegexesKeep(regexes[1..], r', eligible);
      assert SameSizes(r'.headers, r.headers);
    }
  }

  /** After the cookie rules no stage adds or removes a cookie, a header or a header value. */
  lemma LaterStagesKeep(rules: Rules, r: Request, ck: Option<string>, sk: Option<string>)
    requires ValidKeys(r, ck, sk) && !rules.IsUnredacted()
    ensures var out, r1 := RedactRequest(rules, r, ck, sk), ApplyCookies(rules.cookies, r, ck, sk);
      out.cookies == r1.cookies && SameSizes(out.headers, r1.headers)
  {
    hide ApplyRegexes, ApplyCookies, ValidKeys, ToLower;
    var r1 := ApplyCookies(rules.cookies, r, ck, sk);
    var r2 := r1.(headers := BlankOption(rules.headers, r1.headers), query := BlankOption(rules.query, r1.query));
    var r3 := if rules.json.Some? && r2.body != "" then r2.(body := (rules.json.value)(r2.body, r2.contentType)) else r2;
    assert SameSizes(r2.headers, r1.headers);
    RegexesKeep(rules.regexes, r3, r3.body != "");
  }

  // A nil header map switches the cookie rules off.

  lemma NilHeadersKeepCookies(rules: Rules, r: Request, ck: Option<string>, sk: Option<string>)
    requires r.headers.None?
    ensures RedactRequest(rules, r, ck, sk).cookies == r.cookies
  {
    if !rules.IsUnredacted() {
      LaterStagesKeep(rules, r, ck, sk);
    }
  }

  /** Two requests with nil header maps that differ in nothing but covered query values and
      cookies redact alike exactly when their cookies were alike. */
  lemma NilHeadersAlikeIff(rules: Rules, a: Request, b: Request,
                           ca: Option<string>, sa: Option<string>, cb: Option<string>, sb: Option<string>)
    requires a.headers.None? && b.headers.None? && QueriesDiffer(rules, a.query, b.query)
    requires a.body == b.body && a.contentType == b.contentType && a.other == b.other
    ensures RedactRequest(rules, a, ca, sa) == RedactRequest(rules, b, cb, sb) <==> a.cookies == b.cookies
  {
    hide RedactRequest, QueriesDiffer;
    NilHeadersKeepCookies(rules, a, ca, sa);
    NilHeadersKeepCookies(rules, b, cb, sb);
    if a.cookies == b.cookies {
      RedactionIndependence(rules, a, b, ca, sa, cb, sb);
    }
  }

  /** A redact rule on `a`, two requests that differ in the value of `a`, two redactions. */
  lemma NilHeadersShowCookie()
    ensures var rules := Rules([], [], [Rule(Redact, ["a"])], None, []);
      var x, y := [Cookie("a", "1")], [Cookie("a", "2")];
      && CookiesAlike(rules.cookies, x, y)
      && RedactRequest(rules, Request.Request(None, None, Some(x), "", "", ""), None, None)
        != RedactRequest(rules, Request.Request(None, None, Some(y), "", "", ""), None, None)
  {
    var rules := Rules([], [], [Rule(Redact, ["a"])], None, []);
    var x, y := [Cookie("a", "1")], [Cookie("a", "2")];
    assert FateOf(rules.cookies[0], "a") == Erase;
    NilHeadersKeepCookies(rules, Request.Request(None, None, Some(x), "", "", ""), None, None);
    NilHeadersKeepCookies(rules, Request.Request(None, None, Some(y), "", "", ""), None, None);
    assert x[0] != y[0];
  }

  // A blanked cookie header still shows what the cookie rules did to it.

  /** Two requests that differ only in the values of one blanked cookie header redact alike
      exactly when, by the names in it, the cookie rules delete both or leave as many values. */
  lemma BlankedHeaderAlikeIff(rules: Rules, r: Request, k: string, v1: seq<string>, v2: seq<string>,
                              ck: Option<string>, sk: Option<string>)
    requires r.headers.Some? && k in r.headers.value && IsCookieKey(k) && OneSpelling(r.headers.value.Keys)
    requires rules.cookies != [] && ToLower(k) in rules.headers && ValidKeys(r, ck, sk)
    ensures var m := r.headers.value;
      var a, b := r.(headers := Some(m[k := v1])), r.(headers := Some(m[k := v2]));
      && ValidKeys(a, ck, sk) && ValidKeys(b, ck, sk)
      && (RedactRequest(rules, a, ck, sk) == RedactRequest(rules, b, ck, sk) <==> BlankedAlike(rules.cookies, k, v1, v2))
  {
    var m := r.headers.value;
    var a, b := r.(headers := Some(m[k := v1])), r.(headers := Some(m[k := v2]));
    assert m[k := v1].Keys == m[k := v2].Keys == m.Keys;
    hide RedactRequest, IsKey, OneSpelling, BlankedAlike, IsCookieKey, ToLower, HeadersDiffer;
    if BlankedAlike(rules.cookies, k, v1, v2) {
      OneHeaderDiffers(rules, m, k, v1, v2);
      SelfDiffers(rules, r);
      RedactionIndependence(rules, a, b, ck, sk, ck, sk);
    } else {
      ShapeShows(rules, a, b, k, ck, sk);
    }
  }

  /** Requests whose blanked cookie header is left in different shapes stay different. */
  lemma ShapeShows(rules: Rules, a: Request, b: Request, k: string, ck: Option<string>, sk: Option<string>)
    requires a.headers.Some? && b.headers.Some? && a.headers.value.Keys == b.headers.value.Keys && k in a.headers.value
    requires IsCookieKey(k) && OneSpelling(a.headers.value.Keys) && rules.cookies != []
    requires ValidKeys(a, ck, sk) && ValidKeys(b, ck, sk)
    requires !BlankedAlike(rules.cookies, k, a.headers.value[k], b.headers.value[k])
    ensures RedactRequest(rules, a, ck, sk) != RedactRequest(rules, b, ck, sk)
  {
    hide RedactRequest, IsKey, OneSpelling, CookieHeaders, BlankedAlike, IsCookieKey, CookieResult;
    ShapeFromNames(rules.cookies, k, a.headers.value[k], b.headers.value[k]);
    CookieHeaderAt(rules.cookies, a.headers.value, ck, sk, k);
    CookieHeaderAt(rules.cookies, b.headers.value, ck, sk, k);
    LaterStagesKeep(rules, a, ck, sk);
    LaterStagesKeep(rules, b, ck, sk);
  }

  lemma OneHeaderDiffers(rules: Rules, m: HeaderMap, k: string, v1: seq<string>, v2: seq<string>)
    requires k in m && IsCookieKey(k) && OneSpelling(m.Keys) && rules.cookies != []
    requires ToLower(k) in rules.headers && BlankedAlike(rules.cookies, k, v1, v2)
    ensures HeadersDiffer(rules, m[k := v1], m[k := v2])
  {
    hide CanonicalHeader, OneSpelling, BlankedAlike, HeadersAlike, AllAlike;
    assert m[k := v1].Keys == m[k := v2].Keys == m.Keys;
    forall j | j in m
      ensures HeaderDiffers(rules, j, m[j], m[j])
    {
      HeaderSelf(rules, m[j]);
    }
  }

  lemma HeaderSelf(rules: Rules, vals: seq<string>)
    ensures HeadersAlike(rules.cookies, vals, vals) && AllAlike(rules.cookies, vals, vals)
  {
    hide Alike, Split;
    forall i | 0 <= i < |vals|
      ensures Alike(rules.cookies, vals[i], vals[i]) && HeaderAlike(rules.cookies, vals[i], vals[i])
    {
      AlikeSelf(rules.cookies, vals[i]);
      SelfAlike(rules.cookies, vals[i]);
    }
  }

  lemma SelfDiffers(rules: Rules, r: Request)
    ensures QueriesDiffer(rules, r.query, r.query)
    ensures r.cookies.Some? ==> CookiesAlike(rules.cookies, r.cookies.value, r.cookies.value)
  {}

  lemma PlainPair(rules: seq<Rule>, t: string, p: string, v: string)
    requires t == p + "=" + v && |p| == 1 && |v| == 1 && p[0] != '=' && p[0] != ';' && v[0] != ';' && !IsSpace(p[0])
    ensures Vanishes(rules, t) <==> Dropped(rules, p)
  {
    hide Dropped;
    assert t == p + "=" + v + "";
    PairName(t, p, v, "");
    assert TrimLeft(p) == p && TrimWhiteLeft(p) == p && TrimWhiteRight(p) == p;
    assert ';' !in t;
    assert Split(t, ';') == [t];
    OneShape(t);
    KeptLast(rules, [], ShapeOf(t));
    assert [] + [ShapeOf(t)] == [ShapeOf(t)];
  }

  /** A rule that strips `a`, a header rule on `cookie`, and Cookie values `a=1` and `b=2`: the
      first request loses the header, the second keeps it blanked. */
  lemma StrippedHeaderShowsPresence()
    ensures var rules := Rules(["cookie"], [], [Rule(Strip, ["a"])], None, []);
      var x := Request.Request(Some(map[COOKIE := ["a=1"]]), None, None, "", "", "");
      var y := Request.Request(Some(map[COOKIE := ["b=2"]]), None, None, "", "", "");
      && ValidKeys(x, Some(COOKIE), None) && ValidKeys(y, Some(COOKIE), None)
      && RedactRequest(rules, x, Some(COOKIE), None) != RedactRequest(rules, y, Some(COOKIE), None)
  {
    hide CanonicalHeader, RedactRequest, Vanishes;
    var rules := Rules(["cookie"], [], [Rule(Strip, ["a"])], None, []);
    var m: HeaderMap := map[COOKIE := ["a=1"]];
    var x := Request.Request(Some(m), None, None, "", "", "");
    CanonicalCookieNames();
    CookieInLowercase();
    PlainPair(rules.cookies, "a=1", "a", "1");
    PlainPair(rules.cookies, "b=2", "b", "2");
    assert FateOf(rules.cookies[0], "a") == Drop;
    assert !Dropped(rules.cookies, "b");
    assert Vanishes(rules.cookies, ["a=1"][0]) && !Vanishes(rules.cookies, ["b=2"][0]);
    BlankedHeaderAlikeIff(rules, x, COOKIE, ["a=1"], ["b=2"], Some(COOKIE), None);
    assert m[COOKIE := ["a=1"]] == m && m[COOKIE := ["b=2"]] == map[COOKIE := ["b=2"]];
  }

  lemma CookieInLowercase()
    ensures ToLower(COOKIE) == "cookie"
  {
    assert forall i :: 0 <= i < |COOKIE| ==> LowerChar(COOKIE[i]) == "cookie"[i];
  }
}
