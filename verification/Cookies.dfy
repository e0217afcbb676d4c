/** Cookie rules on one header value, one Set-Cookie entry and the parsed cookie list. */
module Cookies {
  import opened Strings
  import opened Slices

  const REDACTED := "[REDACTED]"

  datatype Mode = Redact | Strip | Allowlist

  datatype Rule = Rule(mode: Mode, names: seq<string>)

  datatype Cookie = Cookie(name: string, value: string)

  // Text

  predicate IsBlank(c: char) { c == ' ' || c == '\t' }

  /** strings.TrimLeft(s, " \t"). */
  function TrimLeft(s: string): string {
    if s != "" && IsBlank(s[0]) then TrimLeft(s[1..]) else s
  }

  function TrimWhiteLeft(s: string): string {
    if s != "" && IsSpace(s[0]) then TrimWhiteLeft(s[1..]) else s
  }

  function TrimWhiteRight(s: string): string {
    if s != "" && IsSpace(s[|s| - 1]) then TrimWhiteRight(s[..|s| - 1]) else s
  }

  function TrimSpace(s: string): string { TrimWhiteRight(TrimWhiteLeft(s)) }

  /** The text before the first `c`, or all of it. */
  function Before(s: string, c: char): string { s[..IndexOf(s, c)] }

  function CookieName(token: string): string {
    TrimSpace(Before(Before(TrimLeft(token), ';'), '='))
  }

  lemma {:induction false} TrimLeftSuffix(s: string)
    ensures |TrimLeft(s)| <= |s| && s[|s| - |TrimLeft(s)|..] == TrimLeft(s)
    ensures forall i :: 0 <= i < |s| - |TrimLeft(s)| ==> IsBlank(s[i])
  {
    if s != "" && IsBlank(s[0]) { TrimLeftSuffix(s[1..]); }
  }

  /** replaceCookieValue: only the text between the first '=' and the next ';' changes. */
  function ReplaceValue(token: string): string {
    TrimLeftSuffix(token);
    var rest := TrimLeft(token);
    var eq := IndexOf(rest, '=');
    if eq == |rest| then token
    else
      ReplaceFrom(token, |token| - |rest| + eq + 1)
  }

  function ReplaceFrom(token: string, start: nat): string
    requires start <= |token|
  {
    var attr := IndexOf(token[start..], ';');
    token[..start] + REDACTED + token[start + attr..]
  }

  // Rules on tokens

  /** What a rule does to a cookie of that name. */
  datatype Fate = Keep | Erase | Drop

  function FateOf(rule: Rule, name: string): Fate {
    match rule.mode
    case Redact => if name in rule.names then Erase else Keep
    case Strip => if name in rule.names then Drop else Keep
    case Allowlist => if name in rule.names then Keep else Drop
  }

  /** A nameless token is always kept. */
  function TokenFate(rule: Rule, token: string): Fate {
    if CookieName(token) == "" then Keep else FateOf(rule, CookieName(token))
  }

  function FilterTokens(rule: Rule, tokens: seq<string>): seq<string> {
    if tokens == [] then []
    else
      var n := |tokens| - 1;
      FilterTokens(rule, tokens[..n]) +
      match TokenFate(rule, tokens[n])
      case Keep => [tokens[n]]
      case Erase => [ReplaceValue(tokens[n])]
      case Drop => []
  }

  function TrimFirst(tokens: seq<string>): seq<string> {
    if tokens == [] then [] else [TrimLeft(tokens[0])] + tokens[1..]
  }

  function JoinTokens(tokens: seq<string>): string { Join(TrimFirst(tokens), ";") }

  function ApplyToHeader(rule: Rule, value: string): string {
    if value == "" then "" else JoinTokens(FilterTokens(rule, Split(value, ';')))
  }

  /** applyRuleToCookieHeader, filtering the split tokens in place. */
  method FilterHeader(rule: Rule, value: string) returns (r: string)
    ensures r == ApplyToHeader(rule, value)
  {
    hide TokenFate, ReplaceValue, Split, Join;
    if value == "" {
      return value;
    }
    var split := Split(value, ';');
    var parts := new string[|split|](i requires 0 <= i < |split| => split[i]);
    var w := 0;
    for k := 0 to parts.Length
      invariant 0 <= w <= k
      invariant forall i :: k <= i < parts.Length ==> parts[i] == split[i]
      invariant parts[..w] == FilterTokens(rule, split[..k])
    {
      var raw := parts[k];
      assert split[..k + 1][..k] == split[..k];
      match TokenFate(rule, raw) {
        case Keep =>
          parts[w] := raw;
          w := w + 1;
        case Erase =>
          parts[w] := ReplaceValue(raw);
          w := w + 1;
        case Drop =>
      }
    }
    assert split[..|split|] == split;
    r := JoinTokens(parts[..w]);
  }

  /** applyRuleToSetCookieHeader: an entry is kept, rewritten or dropped as a whole. */
  function ApplyToSetCookie(rule: Rule, value: string): Option<string> {
    match TokenFate(rule, value)
    case Keep => Some(value)
    case Erase => Some(ReplaceValue(value))
    case Drop => None
  }

  // Rules on the parsed cookies

  function FilterCookies(rule: Rule, cs: seq<Cookie>): seq<Cookie> {
    if cs == [] then []
    else
      var n := |cs| - 1;
      FilterCookies(rule, cs[..n]) +
      match FateOf(rule, cs[n].name)
      case Keep => [cs[n]]
      case Erase => [Cookie(cs[n].name, REDACTED)]
      case Drop => []
  }

  function RedactSlice(rules: seq<Rule>, cs: seq<Cookie>): seq<Cookie>
    decreases rules
  {
    if rules == [] then cs else RedactSlice(rules[1..], FilterCookies(rules[0], cs))
  }

  /** redactCookieSlice: one copy, then every rule compacts it in place. */
  method RedactCookieSlice(rules: seq<Rule>, input: Slice<Cookie>) returns (out: Slice<Cookie>)
    requires input.Valid()
    ensures out.Valid() && fresh(out.buf) && out.Items() == RedactSlice(rules, input.Items())
  {
    hide FilterCookies;
    out := CopySlice(input);
    ghost var start := input.Items();
    var n := out.len;
    assert rules[0..] == rules;
    for g := 0 to |rules|
      invariant 0 <= n <= out.buf.Length
      invariant RedactSlice(rules[g..], out.buf[..n]) == RedactSlice(rules, start)
    {
      assert rules[g..][1..] == rules[g + 1..];
      n := Compact(rules[g], out.buf, n);
    }
    out := Slice(out.buf, n);
  }

  /** One rule over the first `n` cookies: kept ones move to the front of the same array. */
  method Compact(rule: Rule, out: array<Cookie>, n: nat) returns (w: nat)
    requires n <= out.Length
    modifies out
    ensures w <= n && out[..w] == FilterCookies(rule, old(out[..n]))
  {
    hide FateOf;
    ghost var before := out[..n];
    w := 0;
    for k := 0 to n
      invariant 0 <= w <= k
      invariant forall i :: k <= i < n ==> out[i] == before[i]
      invariant out[..w] == FilterCookies(rule, before[..k])
    {
      var c := out[k];
      assert before[..k + 1][..k] == before[..k];
      match FateOf(rule, c.name) {
        case Keep =>
          out[w] := c;
          w := w + 1;
        case Erase =>
          out[w] := Cookie(c.name, REDACTED);
          w := w + 1;
        case Drop =>
      }
    }
    assert before[..n] == before;
  }
}
