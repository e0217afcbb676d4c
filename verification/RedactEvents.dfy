/** Redaction of response and outbound events. A message is a request object without query and
    cookies; the rules reach its headers and its body. */
module RedactEvents {
  import opened Strings
  import opened Capture
  import opened Slices
  import opened Cookies
  import opened Redaction
  import opened RedactInPlace
  import opened RedactRecord

  // Rule by rule over everything, or place by place through all rules

  function Through(fs: seq<string -> string>, s: string): string
    decreases |fs|
  {
    if fs == [] then s else Through(fs[1..], fs[0](s))
  }

  /** applyRegexRulesCaptured takes one rule after the other; events take the body through all
      rules first and then each header value. The results are the same. */
  lemma {:induction false} RegexesByPlace(fs: seq<string -> string>, r: Request, eligible: bool)
    ensures ApplyRegexes(fs, r, eligible) ==
      r.(body := if eligible then Through(fs, r.body) else r.body,
         headers := MapOption(s => Through(fs, s), r.headers), query := MapOption(s => Through(fs, s), r.query))
    decreases |fs|
  {
    hide MapValues;
    if fs == [] {
      ThroughNothing(r.headers);
      ThroughNothing(r.query);
    } else {
      var f := fs[0];
      var r' := r.(body := if eligible then f(r.body) else r.body, headers := MapOption(f, r.headers), query := MapOption(f, r.query));
      RegexesByPlace(fs[1..], r', eligible);
      ThroughStep(fs, r.headers);
      ThroughStep(fs, r.query);
    }
  }

  lemma ThroughNothing(m: Option<HeaderMap>)
    ensures MapOption(s => Through([], s), m) == m
  {
    if m.Some? {
      MapValuesIs(s => Through([], s), m.value, m.value);
    }
  }

  lemma ThroughStep(fs: seq<string -> string>, m: Option<HeaderMap>)
    requires fs != []
    ensures MapOption(s => Through(fs[1..], s), MapOption(fs[0], m)) == MapOption(s => Through(fs, s), m)
  {
    if m.Some? {
      var out := MapValues(s => Through(fs[1..], s), MapValues(fs[0], m.value));
      MapValuesIs(s => Through(fs, s), m.value, out);
    }
  }

  /** applyRegexRulesHeaderMap: every value through all rules. */
  method ReplaceThroughAll(fs: seq<string -> string>, m: SliceMap)
    requires Sized(m) && Separate(m)
    modifies Buffers(m)
    ensures Texts(m) == MapValues(s => Through(fs, s), old(Texts(m)))
  {
    ReplaceInAll(s => Through(fs, s), m);
  }

  method ReplaceThrough(fs: seq<string -> string>, body: string) returns (r: string)
    ensures r == Through(fs, body)
  {
    r := body;
    assert fs[0..] == fs;
    for g := 0 to |fs|
      invariant Through(fs[g..], r) == Through(fs, body)
    {
      assert fs[g..][1..] == fs[g + 1..];
      r := fs[g](r);
    }
  }

  // One message

  ghost predicate IsMessage(m: RequestObject)
    reads m
  {
    m.nilQuery && m.query == map[] && m.cookies.None?
  }

  /** The rule buckets on one message, in the order of events. */
  method RedactMessage(rules: Rules, m: RequestObject) returns (ghost ck: Option<string>, ghost sk: Option<string>)
    requires m.Valid() && m.Unshared() && IsMessage(m) && !rules.IsUnredacted()
    modifies m, m.Arrays()
    ensures m.Valid() && IsMessage(m) && fresh(m.Arrays() - old(m.Arrays()))
    ensures ValidKeys(old(m.Value()), ck, sk) && m.Value() == RedactRequest(rules, old(m.Value()), ck, sk)
  {
    hide TextsOrNil, ValidKeys, BlankOption, ApplyRegexes, ApplyCookies;
    ck, sk := m.ApplyCookieRules(rules.cookies);
    m.ApplyHeaderAndQueryRules(rules);
    ApplyEventBodyRules(rules, m);
  }

  method ApplyEventBodyRules(rules: Rules, m: RequestObject)
    requires m.Valid() && m.Unshared() && IsMessage(m)
    modifies m`body, Buffers(m.headers)
    ensures var was := old(m.Value());
      var json := if rules.json.Some? && was.body != "" then was.(body := (rules.json.value)(was.body, was.contentType)) else was;
      m.Value() == ApplyRegexes(rules.regexes, json, json.body != "")
  {
    hide MapValues, Texts, Separate;
    if rules.json.Some? && |m.body| > 0 {
      m.body := (rules.json.value)(m.body, m.contentType);
    }
    RegexesByPlace(rules.regexes, m.Value(), m.body != "");
    if |m.body| > 0 {
      m.body := ReplaceThrough(rules.regexes, m.body);
    }
    ReplaceThroughAll(rules.regexes, m.headers);
  }

  // Response events

  /** redactResponseEvent: a copy with arrays of its own is redacted, the argument is left alone. */
  method RedactResponse(rules: Rules, rec: RequestObject) returns (out: RequestObject, ghost ck: Option<string>, ghost sk: Option<string>)
    requires rec.Valid() && IsMessage(rec) && !rules.IsUnredacted()
    ensures fresh(out) && fresh(out.Arrays()) && out.Valid() && IsMessage(out)
    ensures ValidKeys(old(rec.Value()), ck, sk) && out.Value() == RedactRequest(rules, old(rec.Value()), ck, sk)
    ensures unchanged(rec) && unchanged(rec.Arrays()) && rec.Value() == old(rec.Value())
  {
    hide ValidKeys, RedactRequest, Texts;
    out := CopyRequest(rec);
    assert IsMessage(out);
    hide TextsOrNil;
    ck, sk := RedactMessage(rules, out);
  }

  // Outbound events

  class OutboundObject {
    const request: RequestObject
    const response: Option<RequestObject>
    const other: string

    constructor (request: RequestObject, response: Option<RequestObject>, other: string)
      ensures this.request == request && this.response == response && this.other == other
    {
      this.request, this.response, this.other := request, response, other;
    }
  }

  /** redactOutboundEvent: both halves are copied, then each copy is redacted. The halves of
      the argument may share arrays. */
  method RedactOutbound(rules: Rules, rec: OutboundObject)
    returns (out: OutboundObject, ghost ck: Option<string>, ghost sk: Option<string>, ghost ck2: Option<string>, ghost sk2: Option<string>)
    requires !rules.IsUnredacted() && rec.request.Valid() && IsMessage(rec.request)
    requires rec.response.Some? ==> rec.response.value.Valid() && IsMessage(rec.response.value)
    ensures fresh(out) && out.other == rec.other
    ensures fresh(out.request) && fresh(out.request.Arrays()) && out.request.Valid()
    ensures ValidKeys(old(rec.request.Value()), ck, sk)
    ensures out.request.Value() == RedactRequest(rules, old(rec.request.Value()), ck, sk)
    ensures out.response.Some? <==> rec.response.Some?
    ensures out.response.Some? ==>
      && fresh(out.response.value) && fresh(out.response.value.Arrays()) && out.response.value.Valid()
      && ValidKeys(old(rec.response.value.Value()), ck2, sk2)
      && out.response.value.Value() == RedactRequest(rules, old(rec.response.value.Value()), ck2, sk2)
    ensures unchanged(rec.request) && unchanged(rec.request.Arrays())
    ensures rec.response.Some? ==> unchanged(rec.response.value) && unchanged(rec.response.value.Arrays())
  {
    hide TextsOrNil, ValidKeys, RedactRequest;
    ck2, sk2 := None, None;
    var request, response;
    request, ck, sk := RedactResponse(rules, rec.request);
    response := None;
    if rec.response.Some? {
      var half;
      half, ck2, sk2 := RedactResponse(rules, rec.response.value);
      response := Some(half);
    }
    out := new OutboundObject(request, response, rec.other);
  }

  /** Two events that differ only in covered values redact to the same event: a message is a
      request whose query and cookies are nil. */
  lemma EventIndependence(rules: Rules, a: HeaderMap, b: HeaderMap, body: string, contentType: string, other: string,
                          ca: Option<string>, sa: Option<string>, cb: Option<string>, sb: Option<string>)
    requires HeadersDiffer(rules, a, b)
    requires IsKey(a.Keys, COOKIE, ca) && IsKey(a.Keys, SET_COOKIE, sa)
    requires IsKey(b.Keys, COOKIE, cb) && IsKey(b.Keys, SET_COOKIE, sb)
    ensures RedactRequest(rules, Request.Request(Some(a), None, None, body, contentType, other), ca, sa)
      == RedactRequest(rules, Request.Request(Some(b), None, None, body, contentType, other), cb, sb)
  {
    hide RedactRequest, HeadersDiffer, IsKey;
    RedactionIndependence(rules, Request.Request(Some(a), None, None, body, contentType, other),
      Request.Request(Some(b), None, None, body, contentType, other), ca, sa, cb, sb);
  }
}
