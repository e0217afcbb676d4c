/** Redaction of a request object: the rules overwrite the copy's slices in place, and the
    copy's own backing arrays keep the argument out of their reach. */
module RedactRecord {
  import opened Strings
  import opened MimeHeader
  import opened Capture
  import opened Slices
  import opened Cookies
  import opened Redaction
  import opened RedactInPlace

  /** A nil map reads like an empty one, but stays nil. */
  ghost function TextsOrNil(isNil: bool, m: SliceMap): Option<HeaderMap>
    requires Sized(m)
    reads Buffers(m)
  {
    if isNil then None else Some(Texts(m))
  }

  class RequestObject {
    var nilHeaders: bool
    var headers: SliceMap
    var nilQuery: bool
    var query: SliceMap
    var cookies: Option<Slice<Cookie>>
    var body: string
    const contentType: string
    const other: string

    ghost predicate Valid()
      reads this
    {
      && Sized(headers) && Sized(query) && (cookies.Some? ==> cookies.value.Valid())
      && (nilHeaders ==> headers == map[]) && (nilQuery ==> query == map[])
    }

    /** No two slices of headers and query share a backing array. */
    ghost predicate Unshared()
      reads this
    {
      Separate(headers) && Separate(query) && Buffers(headers) !! Buffers(query)
    }

    /** Every backing array reachable from the object. */
    ghost function Arrays(): set<object>
      reads this
    {
      Buffers(headers) + Buffers(query) + if cookies.Some? then {cookies.value.buf} else {}
    }

    ghost function Value(): Request
      requires Valid()
      reads this, Arrays()
    {
      Request.Request(TextsOrNil(nilHeaders, headers), TextsOrNil(nilQuery, query),
        if cookies.Some? then Some(cookies.value.Items()) else None, body, contentType, other)
    }

    constructor (nilHeaders: bool, headers: SliceMap, nilQuery: bool, query: SliceMap, cookies: Option<Slice<Cookie>>,
                 body: string, contentType: string, other: string)
      ensures this.nilHeaders == nilHeaders && this.headers == headers && this.nilQuery == nilQuery && this.query == query
      ensures this.cookies == cookies && this.body == body && this.contentType == contentType && this.other == other
    {
      this.nilHeaders, this.headers, this.nilQuery, this.query := nilHeaders, headers, nilQuery, query;
      this.cookies, this.body, this.contentType, this.other := cookies, body, contentType, other;
    }

    method ApplyCookieRules(rules: seq<Rule>) returns (ghost ck: Option<string>, ghost sk: Option<string>)
      requires Valid() && Unshared()
      modifies this`headers, this`cookies, Buffers(headers)
      ensures Valid() && Unshared() && fresh(Arrays() - old(Arrays())) && (cookies.None? <==> old(cookies).None?)
      ensures ValidKeys(old(Value()), ck, sk) && Value() == ApplyCookies(rules, old(Value()), ck, sk)
    {
      hide CookieHeaders, RedactSlice, IsKey, Texts, Separate, Sized, Buffers;
      if |rules| == 0 || nilHeaders {
        ck, sk := SomeKey(Texts(headers).Keys, COOKIE), SomeKey(Texts(headers).Keys, SET_COOKIE);
        return;
      }
      ck, sk := ApplyCookieRulesToHeaders(rules);
      ApplyCookieRulesToSlice(rules);
    }

    method ApplyCookieRulesToHeaders(rules: seq<Rule>) returns (ghost ck: Option<string>, ghost sk: Option<string>)
      requires Valid() && Unshared() && !nilHeaders
      modifies this`headers, Buffers(headers)
      ensures Valid() && Unshared() && Arrays() <= old(Arrays())
      ensures var was := old(Value());
        && ValidKeys(was, ck, sk)
        && Value() == was.(headers := Some(CookieHeaders(rules, was.headers.value, ck, sk)))
    {
      hide CookieHeaders, Separate, Texts, Sized, IsKey;
      headers, ck, sk := CookieRulesToMap(rules, headers);
    }

    method ApplyCookieRulesToSlice(rules: seq<Rule>)
      requires Valid() && Unshared()
      modifies this`cookies
      ensures Valid() && Unshared() && fresh(Arrays() - old(Arrays())) && (cookies.None? <==> old(cookies).None?)
      ensures var was := old(Value());
        Value() == was.(cookies := if was.cookies.Some? then Some(SliceOrEmpty(rules, was.cookies.value)) else None)
    {
      hide SliceOrEmpty, Texts, Separate, Sized;
      cookies := RedactCookies(rules, cookies);
    }

    method ApplyHeaderAndQueryRules(rules: Rules)
      requires Valid() && Unshared()
      modifies Buffers(headers), Buffers(query)
      ensures var was := old(Value());
        Value() == was.(headers := BlankOption(rules.headers, was.headers), query := BlankOption(rules.query, was.query))
    {
      hide BlankKeys, Texts, Separate;
      BlankNamedKeys(rules.headers, headers);
      BlankNamedKeys(rules.query, query);
    }

    method ApplyRegex(f: string -> string, bodyEligible: bool)
      requires Valid() && Unshared()
      modifies this`body, Buffers(headers), Buffers(query)
      ensures var was := old(Value());
        Value() == was.(body := if bodyEligible then f(was.body) else was.body,
          headers := MapOption(f, was.headers), query := MapOption(f, was.query))
    {
      hide MapValues, Texts, Separate;
      if bodyEligible {
        body := f(body);
      }
      ReplaceInAll(f, headers);
      ReplaceInAll(f, query);
    }

    method ApplyBodyRules(rules: Rules)
      requires Valid() && Unshared()
      modifies this`body, Buffers(headers), Buffers(query)
      ensures var was := old(Value());
        var json := if rules.json.Some? && was.body != "" then was.(body := (rules.json.value)(was.body, was.contentType)) else was;
        Value() == ApplyRegexes(rules.regexes, json, json.body != "")
    {
      hide MapOption, TextsOrNil;
      if rules.json.Some? && |body| > 0 {
        body := (rules.json.value)(body, contentType);
      }
      ghost var start := Value();
      var bodyEligible := |body| > 0;
      assert rules.regexes[0..] == rules.regexes;
      for g := 0 to |rules.regexes|
        invariant ApplyRegexes(rules.regexes[g..], Value(), bodyEligible) == ApplyRegexes(rules.regexes, start, bodyEligible)
      {
        assert rules.regexes[g..][1..] == rules.regexes[g + 1..];
        ApplyRegex(rules.regexes[g], bodyEligible);
      }
    }
  }

  function SliceOrEmpty(rules: seq<Rule>, cs: seq<Cookie>): seq<Cookie> {
    if cs == [] then cs else RedactSlice(rules, cs)
  }

  /** A nil or empty cookie slice is left as it is. */
  method RedactCookies(rules: seq<Rule>, cookies: Option<Slice<Cookie>>) returns (out: Option<Slice<Cookie>>)
    requires cookies.Some? ==> cookies.value.Valid()
    ensures out.Some? <==> cookies.Some?
    ensures out.Some? ==> out.value.Valid() && (out == cookies || fresh(out.value.buf))
    ensures out.Some? ==> out.value.Items() == SliceOrEmpty(rules, old(cookies.value.Items()))
  {
    hide RedactSlice;
    out := cookies;
    if cookies.Some? && cookies.value.len > 0 {
      assert cookies.value.Items() != [];
      var cs := RedactCookieSlice(rules, cookies.value);
      out := Some(cs);
    }
  }

  method CopyCookies(cookies: Option<Slice<Cookie>>) returns (out: Option<Slice<Cookie>>)
    requires cookies.Some? ==> cookies.value.Valid()
    ensures out.Some? <==> cookies.Some?
    ensures out.Some? ==> out.value.Valid() && fresh(out.value.buf) && out.value.Items() == old(cookies.value.Items())
  {
    out := None;
    if cookies.Some? {
      var copy := CopySlice(cookies.value);
      out := Some(copy);
    }
  }

  method CopyMaps(a: SliceMap, b: SliceMap) returns (a': SliceMap, b': SliceMap)
    requires Sized(a) && Sized(b)
    ensures Sized(a') && Separate(a') && Texts(a') == old(Texts(a))
    ensures Sized(b') && Separate(b') && Texts(b') == old(Texts(b))
    ensures a'.Keys == a.Keys && b'.Keys == b.Keys
    ensures fresh(Buffers(a')) && fresh(Buffers(b')) && Buffers(a') !! Buffers(b')
  {
    ghost var start := Texts(b);
    a' := CopyMap(a);
    assert Texts(b) == start;
    assert Texts(a').Keys == a'.Keys && Texts(a).Keys == a.Keys;
    hide Separate;
    b' := CopyMap(b);
    assert Texts(b').Keys == b'.Keys && start.Keys == b.Keys;
  }

  /** shallowCopyCapturedRequest: the body is shared, every slice of headers, query and
      cookies gets an array of its own. */
  method CopyRequest(rec: RequestObject) returns (out: RequestObject)
    requires rec.Valid()
    ensures fresh(out) && fresh(out.Arrays()) && out.Valid() && out.Unshared() && out.Value() == old(rec.Value())
  {
    var headers, query := CopyMaps(rec.headers, rec.query);
    hide Texts, Separate, Sized;
    var cookies := CopyCookies(rec.cookies);
    out := new RequestObject(rec.nilHeaders, headers, rec.nilQuery, query, cookies, rec.body, rec.contentType, rec.other);
  }

  /** The rule buckets in their fixed order. */
  method ApplyRules(rules: Rules, out: RequestObject) returns (ghost ck: Option<string>, ghost sk: Option<string>)
    requires out.Valid() && out.Unshared() && !rules.IsUnredacted()
    modifies out, out.Arrays()
    ensures out.Valid() && fresh(out.Arrays() - old(out.Arrays()))
    ensures ValidKeys(old(out.Value()), ck, sk) && out.Value() == RedactRequest(rules, old(out.Value()), ck, sk)
  {
    hide TextsOrNil, ValidKeys, BlankOption, ApplyRegexes, ApplyCookies;
    ck, sk := out.ApplyCookieRules(rules.cookies);
    out.ApplyHeaderAndQueryRules(rules);
    out.ApplyBodyRules(rules);
  }

  /** Some answer findHeaderKey could give, where the code does not ask. */
  ghost function SomeKey(keys: set<string>, canonical: string): (k: Option<string>)
    ensures IsKey(keys, canonical, k)
  {
    if canonical in keys then Some(canonical)
    else if exists x :: x in keys && CanonicalHeader(x) == canonical then
      var x :| x in keys && CanonicalHeader(x) == canonical; Some(x)
    else None
  }

  /** Redact: a new object with arrays of its own holds the redacted request, and neither the
      argument nor any array it reaches is written to. */
  method Redact(rules: Rules, rec: RequestObject) returns (out: RequestObject, ghost ck: Option<string>, ghost sk: Option<string>)
    requires rec.Valid()
    ensures out.Valid() && ValidKeys(old(rec.Value()), ck, sk) && out.Value() == RedactRequest(rules, old(rec.Value()), ck, sk)
    ensures unchanged(rec) && unchanged(rec.Arrays()) && rec.Value() == old(rec.Value())
    ensures if rules.IsUnredacted() then out == rec else fresh(out) && fresh(out.Arrays())
  {
    hide TextsOrNil, IsKey, BlankOption, ApplyRegexes, ApplyCookies;
    if rules.IsUnredacted() {
      ck, sk := None, None;
      if rec.Value().headers.Some? {
        ck, sk := SomeKey(rec.Value().headers.value.Keys, COOKIE), SomeKey(rec.Value().headers.value.Keys, SET_COOKIE);
      }
      return rec, ck, sk;
    }
    out := CopyRequest(rec);
    ck, sk := ApplyRules(rules, out);
  }
}
