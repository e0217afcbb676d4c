/** The quote-aware tokenizer. `Lex` says what a whole run of text does to the
    quote state; `Tokens` is the splitting function; `Tokenize` is the index loop. */
module Tokenizer {
  import opened Strings

  datatype Reason =
    | UnclosedQuote | BareMinus | MissingKey | EmptyValue | UnknownKey
    | EmptyHeaderName | WildcardInHeaderName | NoLiteral | InteriorWildcard
    | WildcardOnStructured | UnknownMethod | BadStatus | BadBoolean

  datatype ParseError = ParseError(token: string, reason: Reason)

  /** The escape `\"`, which does not end a quoted region. */
  predicate EscapedQuote(s: string) {
    |s| >= 2 && s[0] == '\\' && s[1] == '"'
  }

  datatype LexState = Outside | Inside | Broken   // Broken: unquoted whitespace was met

  function Lex(s: string, inQuote: bool): LexState {
    if s == "" then (if inQuote then Inside else Outside)
    else if inQuote then
      if EscapedQuote(s) then Lex(s[2..], true)
      else Lex(s[1..], s[0] != '"')
    else if s[0] == '"' then Lex(s[1..], true)
    else if IsSpace(s[0]) then Broken
    else Lex(s[1..], false)
  }

  /** A text the tokenizer keeps in one piece: non-empty, quotes closed, no unquoted whitespace. */
  predicate Whole(t: string) {
    t != "" && Lex(t, false) == Outside
  }

  /** Length of the token at the start of `s`, and whether a quote was left open. */
  function TokenEnd(s: string, inQuote: bool): (r: (nat, bool))
    ensures r.0 <= |s|
  {
    if s == "" then (0, inQuote)
    else if inQuote then
      if EscapedQuote(s) then
        var r := TokenEnd(s[2..], true); (r.0 + 2, r.1)
      else
        var r := TokenEnd(s[1..], s[0] != '"'); (r.0 + 1, r.1)
    else if s[0] == '"' then
      var r := TokenEnd(s[1..], true); (r.0 + 1, r.1)
    else if IsSpace(s[0]) then (0, false)
    else
      var r := TokenEnd(s[1..], false); (r.0 + 1, r.1)
  }

  function Tokens(s: string): Result<seq<string>, ParseError>
    decreases |s|
  {
    if s == "" then Ok([])
    else if IsSpace(s[0]) then Tokens(s[1..])
    else
      var (n, open) := TokenEnd(s, false);
      if open then Err(ParseError(s, UnclosedQuote))
      else
        TokenNonEmpty(s);
        var rest := Tokens(s[n..]);
        if rest.Err? then rest else Ok([s[..n]] + rest.value)
  }

  lemma TokenNonEmpty(s: string)
    requires s != "" && !IsSpace(s[0])
    ensures TokenEnd(s, false).0 > 0
  {}

  /** The loop of tokenize: `i` walks the text once and tokens are appended. */
  method Tokenize(s: string) returns (r: Result<seq<string>, ParseError>)
    ensures r == Tokens(s)
  {
    var tokens: seq<string> := [];
    var i := 0;
    var n := |s|;
    assert s[0..] == s;
    PrependNothing(Tokens(s));
    while i < n
      invariant 0 <= i <= n
      invariant Tokens(s) == Prepend(tokens, Tokens(s[i..]))
    {
      while i < n && IsSpace(s[i])
        invariant 0 <= i <= n
        invariant Tokens(s) == Prepend(tokens, Tokens(s[i..]))
      {
        assert s[i..][1..] == s[i + 1..];
        i := i + 1;
      }
      if i >= n {
        break;
      }
      var start := i;
      var inQuote;
      i, inQuote := ScanToken(s, start);
      if inQuote {
        return Err(ParseError(s[start..], UnclosedQuote));
      }
      TokensStep(s, start, i);
      PrependAppend(tokens, s[start..i], Tokens(s[i..]));
      tokens := tokens + [s[start..i]];
    }
    assert s[i..] == "" && tokens + [] == tokens;
    return Ok(tokens);
  }

  /** The inner loop: run to the first unquoted whitespace or the end of the text. */
  method ScanToken(s: string, start: nat) returns (i: nat, inQuote: bool)
    requires start < |s|
    ensures start <= i <= |s|
    ensures (i - start, inQuote) == TokenEnd(s[start..], false)
  {
    hide IsSpace;
    i := start;
    inQuote := false;
    var n := |s|;
    while i < n
      invariant start <= i <= n
      invariant TokenEnd(s[start..], false).0 == i - start + TokenEnd(s[i..], inQuote).0
      invariant TokenEnd(s[start..], false).1 == TokenEnd(s[i..], inQuote).1
    {
      var c := s[i];
      assert s[i..][0] == c && s[i..][1..] == s[i + 1..];
      assert EscapedQuote(s[i..]) <==> c == '\\' && i + 1 < n && s[i + 1] == '"';
      if inQuote {
        if c == '\\' && i + 1 < n && s[i + 1] == '"' {
          assert s[i..][2..] == s[i + 2..];
          i := i + 2;
          continue;
        }
        if c == '"' {
          inQuote := false;
          i := i + 1;
          continue;
        }
        i := i + 1;
        continue;
      }
      if c == '"' {
        inQuote := true;
        i := i + 1;
        continue;
      }
      if IsSpace(c) {
        break;
      }
      i := i + 1;
    }
  }

  lemma TokensStep(s: string, start: nat, end: nat)
    requires start <= end <= |s| && start < |s| && !IsSpace(s[start])
    requires TokenEnd(s[start..], false) == (end - start, false)
    ensures start < end
    ensures Tokens(s[start..]) == Prepend([s[start..end]], Tokens(s[end..]))
  {
    TokenNonEmpty(s[start..]);
    assert s[start..][..end - start] == s[start..end];
    assert s[start..][end - start..] == s[end..];
  }

  lemma PrependNothing(r: Result<seq<string>, ParseError>)
    ensures Prepend([], r) == r
  {
    if r.Ok? { assert [] + r.value == r.value; }
  }

  ghost function Prepend(ts: seq<string>, r: Result<seq<string>, ParseError>): Result<seq<string>, ParseError> {
    if r.Err? then r else Ok(ts + r.value)
  }

  lemma PrependAppend(ts: seq<string>, t: string, r: Result<seq<string>, ParseError>)
    ensures Prepend(ts, Prepend([t], r)) == Prepend(ts + [t], r)
  {
    if r.Ok? { assert ts + ([t] + r.value) == ts + [t] + r.value; }
  }

  // What the tokenizer produces, and what it gives back.

  lemma {:induction false} TokenEndWhole(s: string, inQuote: bool)
    requires !TokenEnd(s, inQuote).1
    ensures var n := TokenEnd(s, inQuote).0;
      Lex(s[..n], inQuote) == Outside && (n < |s| ==> IsSpace(s[n]))
    decreases |s|
  {
    if s != "" {
      var n := TokenEnd(s, inQuote).0;
      if inQuote && EscapedQuote(s) {
        TokenEndWhole(s[2..], true);
        assert s[..n][2..] == s[2..][..n - 2];
      } else if inQuote || s[0] == '"' || !IsSpace(s[0]) {
        TokenEndWhole(s[1..], if inQuote then s[0] != '"' else s[0] == '"');
        assert s[..n][1..] == s[1..][..n - 1];
        assert inQuote && n >= 2 && EscapedQuote(s[..n]) ==> EscapedQuote(s);
      }
    }
  }

  lemma {:induction false} WholeTokenEnd(t: string, rest: string, inQuote: bool)
    requires Lex(t, inQuote) == Outside
    requires rest == "" || IsSpace(rest[0])
    ensures TokenEnd(t + rest, inQuote) == (|t|, false)
    decreases |t|
  {
    var s := t + rest;
    if t == "" {
      assert s == rest;
    } else {
      assert s[0] == t[0] && (EscapedQuote(s) <==> EscapedQuote(t));
      if inQuote && EscapedQuote(t) {
        WholeTokenEnd(t[2..], rest, true);
        assert s[2..] == t[2..] + rest;
      } else {
        assert s[1..] == t[1..] + rest;
        hide EscapedQuote;
        WholeTokenEnd(t[1..], rest, if inQuote then t[0] != '"' else t[0] == '"');
      }
    }
  }

  lemma {:induction false} TokensAreWhole(s: string)
    requires Tokens(s).Ok?
    ensures forall t :: t in Tokens(s).value ==> Whole(t)
    decreases |s|
  {
    if s == "" {
    } else if IsSpace(s[0]) {
      TokensAreWhole(s[1..]);
    } else {
      var n := TokenEnd(s, false).0;
      TokenNonEmpty(s);
      TokenEndWhole(s, false);
      TokensAreWhole(s[n..]);
    }
  }

  /** Whole tokens joined with single spaces split back into the same tokens. */
  lemma {:induction false} TokensOfJoin(ts: seq<string>)
    requires forall t :: t in ts ==> Whole(t)
    ensures Tokens(Join(ts, " ")) == Ok(ts)
  {
    hide Tokens, Whole;
    if ts == [] {
      NoTokens();
    } else {
      var t := ts[0];
      assert Whole(t);
      if |ts| == 1 {
        NoTokens();
        FirstToken(t, "");
        assert t + "" == t && [t] + [] == ts;
      } else {
        var s := Join(ts[1..], " ");
        TokensOfJoin(ts[1..]);
        SkipSpace(s);
        FirstToken(t, " " + s);
        assert t + " " + s == t + (" " + s) && ts == [t] + ts[1..];
      }
    }
  }

  lemma NoTokens()
    ensures Tokens("") == Ok([])
  {}

  lemma SkipSpace(s: string)
    ensures Tokens(" " + s) == Tokens(s)
  {
    assert (" " + s)[1..] == s;
  }

  /** A whole text at the start of a search is its first token. */
  lemma FirstToken(t: string, rest: string)
    requires Whole(t) && (rest == "" || IsSpace(rest[0])) && Tokens(rest).Ok?
    ensures Tokens(t + rest) == Ok([t] + Tokens(rest).value)
  {
    WholeTokenEnd(t, rest, false);
    assert !IsSpace(t[0]);
    hide Lex, TokenEnd;
    var s := t + rest;
    assert s[0] == t[0] && s[..|t|] == t && s[|t|..] == rest;
  }
}
