/** Parsing of one token, of a value, and of a whole search. */
module Parser {
  import opened Strings
  import opened SearchQuery
  import opened Tokenizer
  import opened MimeHeader
  import Decimal

  // Values

  /** strings.ReplaceAll(s, `\"`, `"`). */
  function Unescape(s: string): string {
    if s == "" then ""
    else if EscapedQuote(s) then "\"" + Unescape(s[2..])
    else [s[0]] + Unescape(s[1..])
  }

  datatype Parsed = Parsed(value: string, wildcard: Wildcard, quoted: bool)

  function ParseValue(raw: string): Result<Parsed, Reason> {
    if HasPrefix(raw, "\"") then
      if |raw| < 2 || !HasSuffix(raw, "\"") then Err(UnclosedQuote)
      else Ok(Parsed(Unescape(raw[1..|raw| - 1]), Exactly, true))
    else
      var leading := HasPrefix(raw, "*");
      var v := if leading then raw[1..] else raw;
      var trailing := HasSuffix(v, "*");
      var w := if trailing then v[..|v| - 1] else v;
      if w == "" then Err(NoLiteral)
      else if '*' in w then Err(InteriorWildcard)
      else Ok(Parsed(w, if leading then Substring else if trailing then Prefix else Exactly, false))
  }

  predicate IsHTTPMethod(m: string) {
    m in {"GET", "HEAD", "POST", "PUT", "DELETE", "CONNECT", "OPTIONS", "TRACE", "PATCH"}
  }

  function ParseStatus(s: string): Option<StatusFilter> {
    if |s| == 3 && s[1] == 'x' && s[2] == 'x' && '1' <= s[0] <= '5' then Some(Class(s))
    else
      var n := Decimal.ParseInt(s);
      if n.Some? && 100 <= n.value <= 599 then Some(Exact(n.value)) else None
  }

  // Tokens

  function Plain(f: Field, p: Parsed, negated: bool): Term {
    Term(f, p.value, p.wildcard, p.quoted, negated, "", None, None)
  }

  function ParseToken(raw: string): Result<Term, ParseError> {
    var negated := HasPrefix(raw, "-");
    var tok := if negated then raw[1..] else raw;
    if negated && tok == "" then Err(ParseError(raw, BareMinus))
    else
      var r := ParseUnsigned(tok, negated);
      if r.Ok? then Ok(r.value) else Err(ParseError(raw, r.error))
  }

  /** The token after its optional leading '-'. */
  function ParseUnsigned(tok: string, negated: bool): Result<Term, Reason> {
    var idx := IndexOf(tok, ':');
    if HasPrefix(tok, "\"") || idx == |tok| then ParseFreeform(tok, negated)
    else if idx == 0 then Err(MissingKey)
    else if tok[idx + 1..] == "" then Err(EmptyValue)
    else ParseKeyed(tok[..idx], tok[idx + 1..], negated)
  }

  function ParseFreeform(tok: string, negated: bool): Result<Term, Reason> {
    var p := ParseValue(tok);
    if p.Err? then Err(p.error) else Ok(Plain(Freeform, p.value, negated))
  }

  function ParseKeyed(key: string, rawValue: string, negated: bool): Result<Term, Reason> {
    var field := KnownField(ToLower(key));
    if field.None? then
      if HasPrefix(ToLower(key), "header.") then ParseHeaderTerm(key, rawValue, negated)
      else Err(UnknownKey)
    else
      var p := ParseValue(rawValue);
      if p.Err? then Err(p.error)
      else if Structured(field.value) && p.value.wildcard != Exactly then Err(WildcardOnStructured)
      else Finish(Plain(field.value, p.value, negated))
  }

  /** The per-field validation after the value has been read. */
  function Finish(t: Term): Result<Term, Reason> {
    match t.field
    case Method =>
      if IsHTTPMethod(ToUpper(t.value)) then Ok(t.(value := ToUpper(t.value))) else Err(UnknownMethod)
    case Status =>
      var sf := ParseStatus(t.value);
      if sf.Some? then Ok(t.(status := sf)) else Err(BadStatus)
    case HasEvents =>
      if ToLower(t.value) == "true" then Ok(t.(hasEvents := Some(true)))
      else if ToLower(t.value) == "false" then Ok(t.(hasEvents := Some(false)))
      else Err(BadBoolean)
    case _ => Ok(t)
  }

  function ParseHeaderTerm(key: string, rawValue: string, negated: bool): Result<Term, Reason>
    requires |key| >= 7
  {
    var name := key[7..];
    if name == "" then Err(EmptyHeaderName)
    else if '*' in name then Err(WildcardInHeaderName)
    else
      var p := ParseValue(rawValue);
      if p.Err? then Err(p.error)
      else Ok(Plain(Header, p.value, negated).(headerName := CanonicalHeader(name)))
  }

  // Searches

  function ParseTokens(tokens: seq<string>): Result<Query, ParseError> {
    if tokens == [] then Ok([])
    else
      var t := ParseToken(tokens[0]);
      if t.Err? then Err(t.error)
      else
        var rest := ParseTokens(tokens[1..]);
        if rest.Err? then rest else Ok([t.value] + rest.value)
  }

  function Parse(s: string): Result<Query, ParseError> {
    var tokens := Tokens(s);
    if tokens.Err? then Err(tokens.error) else ParseTokens(tokens.value)
  }

  /** The loop of Parse: terms are appended, the first bad token stops it. */
  method ParseSearch(s: string) returns (r: Result<Query, ParseError>)
    ensures r == Parse(s)
  {
    var tokenized := Tokenize(s);
    if tokenized.Err? {
      return Err(tokenized.error);
    }
    r := ParseAll(tokenized.value);
  }

  method ParseAll(tokens: seq<string>) returns (r: Result<Query, ParseError>)
    ensures r == ParseTokens(tokens)
  {
    hide ParseToken;
    var terms: seq<Term> := [];
    var i := 0;
    assert tokens[0..] == tokens;
    AfterNothing(ParseTokens(tokens));
    while i < |tokens|
      invariant 0 <= i <= |tokens|
      invariant ParseTokens(tokens) == After(terms, ParseTokens(tokens[i..]))
    {
      var t := ParseToken(tokens[i]);
      ParseTokensStep(terms, tokens[i..]);
      assert tokens[i..][1..] == tokens[i + 1..];
      if t.Err? {
        return Err(t.error);
      }
      terms := terms + [t.value];
      i := i + 1;
    }
    assert tokens[i..] == [] && terms + [] == terms;
    return Ok(terms);
  }

  lemma AfterNothing(r: Result<Query, ParseError>)
    ensures After([], r) == r
  {
    if r.Ok? { assert [] + r.value == r.value; }
  }

  ghost function After(terms: Query, r: Result<Query, ParseError>): Result<Query, ParseError> {
    if r.Err? then r else Ok(terms + r.value)
  }

  lemma ParseTokensStep(terms: Query, tokens: seq<string>)
    requires tokens != []
    ensures var t := ParseToken(tokens[0]);
      After(terms, ParseTokens(tokens)) ==
      if t.Err? then Err(t.error) else After(terms + [t.value], ParseTokens(tokens[1..]))
  {
    hide ParseToken;
    var rest := ParseTokens(tokens[1..]);
    if ParseToken(tokens[0]).Ok? && rest.Ok? {
      assert terms + ([ParseToken(tokens[0]).value] + rest.value) == terms + [ParseToken(tokens[0]).value] + rest.value;
    }
  }

  lemma {:induction false} ParseTokensSucceeds(tokens: seq<string>, terms: Query)
    requires |terms| == |tokens|
    requires forall k :: 0 <= k < |tokens| ==> ParseToken(tokens[k]) == Ok(terms[k])
    ensures ParseTokens(tokens) == Ok(terms)
  {
    hide ParseToken;
    if tokens != [] {
      ParseTokensSucceeds(tokens[1..], terms[1..]);
      assert terms == [terms[0]] + terms[1..];
    }
  }

  lemma {:induction false} ParseTokensInverts(tokens: seq<string>)
    requires ParseTokens(tokens).Ok?
    ensures var terms := ParseTokens(tokens).value;
      |terms| == |tokens| && forall k :: 0 <= k < |tokens| ==> ParseToken(tokens[k]) == Ok(terms[k])
  {
    if tokens != [] { ParseTokensInverts(tokens[1..]); }
  }

  lemma KeyedWellFormed(key: string, rawValue: string, negated: bool)
    requires ParseKeyed(key, rawValue, negated).Ok?
    ensures WellFormed(ParseKeyed(key, rawValue, negated).value)
  {
    hide ParseValue, ParseStatus;
    var field := KnownField(ToLower(key));
    if field == Some(Status) {
      assert WellFormed(ParseKeyed(key, rawValue, negated).value) by {
        StatusWellFormed(ParseValue(rawValue).value.value);
      }
    }
  }

  lemma StatusWellFormed(v: string)
    ensures var sf := ParseStatus(v);
      sf.Some? ==>
        match sf.value
        case Exact(n) => 100 <= n <= 599
        case Class(c) => |c| == 3 && '1' <= c[0] <= '5' && c[1] == c[2] == 'x'
  {}

  lemma TokenWellFormed(tok: string)
    requires ParseToken(tok).Ok?
    ensures WellFormed(ParseToken(tok).value)
  {
    hide ParseValue, ParseKeyed;
    var body := if HasPrefix(tok, "-") then tok[1..] else tok;
    var i := IndexOf(body, ':');
    if !HasPrefix(body, "\"") && 0 < i < |body| {
      KeyedWellFormed(body[..i], body[i + 1..], HasPrefix(tok, "-"));
    }
  }

  /** Every accepted search consists of well-formed terms. */
  lemma {:induction false} ParseWellFormed(tokens: seq<string>)
    requires ParseTokens(tokens).Ok?
    ensures forall t :: t in ParseTokens(tokens).value ==> WellFormed(t)
  {
    if tokens != [] {
      TokenWellFormed(tokens[0]);
      ParseWellFormed(tokens[1..]);
    }
  }
}
