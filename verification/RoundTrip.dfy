/** Printing the terms of an accepted search and parsing the result gives the same terms. */
module RoundTrip {
  import opened Strings
  import opened SearchQuery
  import opened Tokenizer
  import opened MimeHeader
  import opened Parser
  import opened Printer
  import Decimal

  // Quote state of concatenated text

  predicate EndsInBackslash(s: string) {
    s != "" && s[|s| - 1] == '\\'
  }

  lemma {:induction false} LexAppend(a: string, b: string, inQuote: bool)
    requires EndsInBackslash(a) ==> b == "" || b[0] != '"'
    ensures Lex(a + b, inQuote) ==
      match Lex(a, inQuote)
      case Outside => Lex(b, false)
      case Inside => Lex(b, true)
      case Broken => Broken
    decreases |a|
  {
    if a == "" {
      assert a + b == b;
    } else if inQuote && EscapedQuote(a) {
      assert (a + b)[2..] == a[2..] + b;
      LexAppend(a[2..], b, true);
    } else {
      assert (a + b)[1..] == a[1..] + b;
      assert inQuote ==> !EscapedQuote(a + b);
      if inQuote || a[0] == '"' || !IsSpace(a[0]) {
        LexAppend(a[1..], b, if inQuote then a[0] != '"' else a[0] == '"');
      }
    }
  }

  /** A quote that ends a token is never preceded by a backslash. */
  lemma {:induction false} ClosingQuote(x: string, inQuote: bool)
    requires Lex(x + "\"", inQuote) == Outside
    ensures !EndsInBackslash(x)
    decreases |x|
  {
    var s := x + "\"";
    if x != "" {
      if inQuote && EscapedQuote(s) {
        if |x| >= 2 {
          assert s[2..] == x[2..] + "\"";
          ClosingQuote(x[2..], true);
          assert |x| == 2 ==> x[1] == '"';
        }
      } else {
        assert s[1..] == x[1..] + "\"";
        ClosingQuote(x[1..], if inQuote then x[0] != '"' else x[0] == '"');
        if |x| == 1 {
          assert s[1..] == "\"" && Lex("\"", false) == Inside;
        }
      }
    }
  }

  lemma {:induction false} EscapeStaysInside(v: string)
    requires !EndsInBackslash(v)
    ensures Lex(Escape(v) + "\"", true) == Outside
  {
    var s := Escape(v) + "\"";
    if v == "" {
      assert s[1..] == "";
    } else {
      EscapeStaysInside(v[1..]);
      var tail := Escape(v[1..]) + "\"";
      if v[0] == '"' {
        assert s[2..] == tail;
      } else {
        assert s[1..] == tail;
        assert v[0] == '\\' ==> v[1..] != "" && Escape(v[1..])[0] != '"';
      }
    }
  }

  // Escaping

  lemma {:induction false} UnescapeEscape(v: string)
    ensures Unescape(Escape(v)) == v
  {
    if v != "" {
      UnescapeEscape(v[1..]);
      var e := Escape(v[1..]);
      EscapeHead(v[1..]);
      assert Escape(v) == (if v[0] == '"' then "\\\"" else [v[0]]) + e;
      hide Escape;
      if v[0] == '"' {
        UnescapeQuote(e);
      } else {
        UnescapePlain(v[0], e);
      }
      assert v == [v[0]] + v[1..];
    }
  }

  lemma EscapeHead(v: string)
    ensures Escape(v) != "" ==> Escape(v)[0] != '"'
  {}

  lemma UnescapeQuote(e: string)
    ensures Unescape("\\\"" + e) == "\"" + Unescape(e)
  {
    assert ("\\\"" + e)[2..] == e;
  }

  lemma UnescapePlain(c: char, e: string)
    requires e != "" ==> e[0] != '"'
    ensures Unescape([c] + e) == [c] + Unescape(e)
  {
    assert ([c] + e)[1..] == e;
  }

  lemma {:induction false} UnescapeKeepsEnd(x: string)
    ensures EndsInBackslash(Unescape(x)) <==> EndsInBackslash(x)
    ensures Unescape(x) == "" <==> x == ""
    decreases |x|
  {
    if x != "" { UnescapeKeepsEnd(if EscapedQuote(x) then x[2..] else x[1..]); }
  }

  /** The same, when the value starts while a quote opened in a header name is still open. */
  lemma {:induction false} ReEscapeOutside(inner: string)
    requires Lex(inner + "\"", false) == Outside
    ensures Lex(Escape(Unescape(inner)) + "\"", false) == Outside
    decreases |inner|
  {
    if inner == "" {
      assert false;
    } else if EscapedQuote(inner) || inner[0] == '"' {
      var rest := if EscapedQuote(inner) then inner[2..] else inner[1..];
      QuoteOpens(inner, rest);
      hide Lex, Escape;
      ClosingQuote(rest, true);
      UnescapeKeepsEnd(rest);
      EscapeStaysInside(Unescape(rest));
      OpenedByEscape(Unescape(rest));
      assert Unescape(inner) == "\"" + Unescape(rest);
    } else {
      var rest := inner[1..];
      PlainStaysOutside(inner[0], rest + "\"");
      assert inner + "\"" == [inner[0]] + (rest + "\"");
      ReEscapeOutside(rest);
      var v := Unescape(rest);
      assert Unescape(inner) == [inner[0]] + v;
      assert ([inner[0]] + v)[1..] == v && Escape([inner[0]] + v) == [inner[0]] + Escape(v);
      hide Lex;
      PlainStaysOutside(inner[0], Escape(v) + "\"");
      assert [inner[0]] + Escape(v) + "\"" == [inner[0]] + (Escape(v) + "\"");
    }
  }

  /** A quote, escaped or not, opens a region when none is open. */
  lemma QuoteOpens(inner: string, rest: string)
    requires Lex(inner + "\"", false) == Outside
    requires if EscapedQuote(inner) then rest == inner[2..] else inner != "" && inner[0] == '"' && rest == inner[1..]
    ensures Lex(rest + "\"", true) == Outside
  {
    hide Lex;
    OpeningQuote(rest + "\"");
    if EscapedQuote(inner) {
      PlainStaysOutside('\\', ['"'] + (rest + "\""));
      assert inner + "\"" == ['\\'] + (['"'] + (rest + "\""));
    } else {
      assert inner + "\"" == ['"'] + (rest + "\"");
    }
  }

  lemma OpeningQuote(rest: string)
    ensures Lex(['"'] + rest, false) == Lex(rest, true)
  {
    assert (['"'] + rest)[1..] == rest;
  }

  lemma PlainStaysOutside(c: char, rest: string)
    requires c != '"'
    ensures Lex([c] + rest, false) == if IsSpace(c) then Broken else Lex(rest, false)
  {
    assert ([c] + rest)[1..] == rest;
  }

  lemma OpenedByEscape(v: string)
    requires Lex(Escape(v) + "\"", true) == Outside
    ensures Lex(Escape("\"" + v) + "\"", false) == Outside
  {
    assert ("\"" + v)[1..] == v;
    assert Escape("\"" + v) == "\\\"" + Escape(v);
    var s := Escape("\"" + v) + "\"";
    assert s[1..][0] == '"' && s[1..][1..] == Escape(v) + "\"";
    assert s[0] == '\\' && !IsSpace(s[0]);
    assert Lex(s, false) == Lex(s[1..], false);
    assert Lex(s[1..], false) == Lex(s[1..][1..], true);
  }

  // Values

  /** The value shapes ParseValue produces. */
  predicate Printable(p: Parsed) {
    if p.quoted then p.wildcard == Exactly
    else p.value != "" && '*' !in p.value && (p.wildcard != Substring ==> p.value[0] != '"')
  }

  function Show(p: Parsed): string { ShowValue(p.value, p.wildcard, p.quoted) }

  lemma ParsedIsPrintable(raw: string)
    requires ParseValue(raw).Ok?
    ensures Printable(ParseValue(raw).value)
  {
  }

  lemma ShowParsesBack(p: Parsed)
    requires Printable(p)
    ensures Show(p) != "" && ParseValue(Show(p)) == Ok(p)
  {
    hide ParseValue;
    if p.quoted {
      QuotedParsesBack(p.value);
    } else {
      UnquotedParsesBack(p.value, p.wildcard);
    }
  }

  lemma QuotedParsesBack(v: string)
    ensures ParseValue("\"" + Escape(v) + "\"") == Ok(Parsed(v, Exactly, true))
  {
    UnescapeEscape(v);
    hide Escape, Unescape;
    var s := "\"" + Escape(v) + "\"";
    assert s[1..|s| - 1] == Escape(v);
  }

  lemma UnquotedParsesBack(v: string, w: Wildcard)
    requires v != "" && '*' !in v && (w != Substring ==> v[0] != '"')
    ensures ParseValue(ShowValue(v, w, false)) == Ok(Parsed(v, w, false))
  {
    hide Escape, Unescape;
    var s := ShowValue(v, w, false);
    assert v[0] in v && v[|v| - 1] in v;
    match w {
      case Substring =>
        assert s[1..] == v + "*" && s[1..][..|v|] == v;
      case Prefix =>
        assert s[0] == v[0] && s[..|v|] == v;
      case Exactly =>
    }
  }

  /** The text of an unquoted value, from its parse. */
  lemma UnquotedShape(raw: string)
    requires ParseValue(raw).Ok? && !ParseValue(raw).value.quoted
    ensures var p := ParseValue(raw).value;
      Show(p) == raw || (p.wildcard == Substring && Show(p) == raw + "*")
  {
    hide Unescape, Escape;
    var v := if HasPrefix(raw, "*") then raw[1..] else raw;
    assert raw == (if HasPrefix(raw, "*") then "*" else "") + v;
    assert HasSuffix(v, "*") ==> v == v[..|v| - 1] + "*";
  }

  lemma ShowKeepsWhole(raw: string, inQuote: bool)
    requires ParseValue(raw).Ok? && Lex(raw, inQuote) == Outside
    ensures Lex(Show(ParseValue(raw).value), inQuote) == Outside
  {
    hide Lex, Unescape, Escape;
    var p := ParseValue(raw).value;
    if !p.quoted {
      UnquotedShape(raw);
      LexAppend(raw, "*", inQuote);
      WordLex("*");
    } else {
      QuotedShowKeepsWhole(raw[1..|raw| - 1], raw, inQuote);
    }
  }

  lemma QuotedShowKeepsWhole(inner: string, raw: string, inQuote: bool)
    requires raw == "\"" + inner + "\"" && Lex(raw, inQuote) == Outside
    ensures Lex("\"" + Escape(Unescape(inner)) + "\"", inQuote) == Outside
  {
    assert raw[1..] == inner + "\"";
    var shown := "\"" + Escape(Unescape(inner)) + "\"";
    assert shown[1..] == Escape(Unescape(inner)) + "\"";
    if inQuote {
      ReEscapeOutside(inner);
    } else {
      ClosingQuote(inner, true);
      UnescapeKeepsEnd(inner);
      EscapeStaysInside(Unescape(inner));
    }
  }

  // Keys

  /** Text without quotes or whitespace: it leaves the quote state alone. */
  predicate Word(s: string) {
    forall c :: c in s ==> c != '"' && !IsSpace(c)
  }

  lemma {:induction false} WordLex(s: string)
    requires Word(s)
    ensures Lex(s, false) == Outside
  {
    if s != "" {
      assert s[0] in s;
      WordLex(s[1..]);
    }
  }

  lemma LowerReflectsWord(key: string)
    requires Word(ToLower(key))
    ensures Word(key)
  {
    forall c | c in key
      ensures c != '"' && !IsSpace(c)
    {
      var i :| 0 <= i < |key| && key[i] == c;
      assert ToLower(key)[i] in ToLower(key);
    }
  }

  predicate Known(f: Field) { f != Freeform && f != Header }

  lemma FieldNameFacts(f: Field)
    requires Known(f)
    ensures var k := FieldName(f);
      Word(k) && ':' !in k && k != "" && k[0] != '"' && k[0] != '-'
  {}

  lemma FieldNameIsKnown(f: Field)
    requires Known(f)
    ensures KnownField(ToLower(FieldName(f))) == Some(f)
  {
    assert ToLower(FieldName(f)) == FieldName(f);
  }

  lemma KnownFieldName(low: string)
    requires KnownField(low).Some?
    ensures Known(KnownField(low).value) && low == FieldName(KnownField(low).value)
  {}

  lemma NotKnown(low: string)
    requires |low| >= 7 && low[6] == '.'
    ensures KnownField(low) == None
  {}

  lemma KeyedBack(k: string, v: string, negated: bool)
    requires k != "" && ':' !in k && k[0] != '"' && v != ""
    ensures ParseUnsigned(k + ":" + v, negated) == ParseKeyed(k, v, negated)
  {
    hide ParseKeyed, ParseFreeform;
    var tok := k + ":" + v;
    IndexOfAfter(k, ':', v);
    assert tok[..|k|] == k && tok[|k| + 1..] == v;
  }

  // Header names

  lemma {:induction false} CanonicalCharsFacts(s: string, upper: bool)
    ensures CanonicalChars(CanonicalChars(s, upper), upper) == CanonicalChars(s, upper)
    ensures ValidName(s) ==> ValidName(CanonicalChars(s, upper))
  {
    if s != "" {
      var c := if upper then UpperChar(s[0]) else LowerChar(s[0]);
      CanonicalCharsFacts(s[1..], c == '-');
      assert s[0] in s;
      assert CanonicalChars(s, upper)[1..] == CanonicalChars(s[1..], c == '-');
    }
  }

  lemma {:induction false} CanonicalCharsAvoid(s: string, upper: bool, c: char)
    requires c !in s && LowerChar(c) == c == UpperChar(c)
    ensures c !in CanonicalChars(s, upper)
  {
    if s != "" {
      assert s[0] in s;
      CanonicalCharsAvoid(s[1..], (if upper then UpperChar(s[0]) else LowerChar(s[0])) == '-', c);
    }
  }

  lemma ValidNameIsWord(s: string)
    requires ValidName(s)
    ensures Word(s)
  {}

  lemma CanonicalHeaderIdempotent(name: string)
    ensures CanonicalHeader(CanonicalHeader(name)) == CanonicalHeader(name)
    ensures |CanonicalHeader(name)| == |name|
  {
    CanonicalCharsFacts(name, true);
  }

  lemma CanonicalHeaderAvoids(name: string, c: char)
    requires c !in name && LowerChar(c) == c == UpperChar(c)
    ensures c !in CanonicalHeader(name)
  {
    CanonicalCharsAvoid(name, true, c);
  }

  lemma CanonicalHeaderLex(name: string)
    ensures Lex(CanonicalHeader(name), false) == Lex(name, false)
  {
    hide Lex, CanonicalChars;
    if ValidName(name) {
      CanonicalCharsFacts(name, true);
      ValidNameIsWord(name);
      ValidNameIsWord(CanonicalHeader(name));
      WordLex(name);
      WordLex(CanonicalHeader(name));
    }
  }

  // Tokens

  /** Equal terms; a status term may lose the spelling and quoting of its code. */
  predicate Same(a: Term, b: Term) {
    if a.field == Status
    then b.field == Status && a.negated == b.negated && a.status == b.status
    else a == b
  }

  /** What the printed form `body` of term `t` must do when read again. */
  predicate ReadsBack(body: string, t: Term) {
    && body != ""
    && Lex(body, false) == Outside
    && (!t.negated ==> !HasPrefix(body, "-"))
    && ParseUnsigned(body, t.negated).Ok?
    && Same(t, ParseUnsigned(body, t.negated).value)
  }

  /** Replacing the value text after a key keeps a whole token whole. */
  lemma SwapAfterKey(key: string, key': string, v: string, v': string)
    requires Lex(key + ":" + v, false) == Outside
    requires Lex(key, false) == Lex(key', false)
    requires forall q :: Lex(v, q) == Outside ==> Lex(v', q) == Outside
    ensures Lex(key' + ":" + v', false) == Outside
  {
    LexAppend(key, ":", false);
    LexAppend(key', ":", false);
    assert Lex(":", true) == Inside && Lex(":", false) == Outside;
    LexAppend(key + ":", v, false);
    LexAppend(key' + ":", v', false);
  }

  lemma FreeformReadsBack(tok: string, negated: bool)
    requires tok != "" && Lex(tok, false) == Outside
    requires HasPrefix(tok, "\"") || ':' !in tok
    requires !negated ==> !HasPrefix(tok, "-")
    requires ParseFreeform(tok, negated).Ok?
    ensures ReadsBack(Unsigned(ParseFreeform(tok, negated).value), ParseFreeform(tok, negated).value)
  {
    hide Lex, ParseValue;
    var p := ParseValue(tok).value;
    var shown := Show(p);
    assert Unsigned(ParseFreeform(tok, negated).value) == shown;
    ParsedIsPrintable(tok);
    ShowParsesBack(p);
    ShowKeepsWhole(tok, false);
    if !p.quoted { UnquotedShape(tok); }
  }

  /** A printed key and value parse as that key with that value. */
  lemma KnownReadsBack(f: Field, v: string, t: Term)
    requires Known(f) && t.field == f && v != "" && Lex(v, false) == Outside
    requires ParseKeyed(FieldName(f), v, t.negated).Ok?
    requires Same(t, ParseKeyed(FieldName(f), v, t.negated).value)
    ensures ReadsBack(FieldName(f) + ":" + v, t)
  {
    hide ParseKeyed, Lex, FieldName, ParseUnsigned;
    var k := FieldName(f);
    FieldNameFacts(f);
    KeyedBack(k, v, t.negated);
    WordLex(k);
    WordLex(":");
    LexAppend(k, ":", false);
    LexAppend(k + ":", v, false);
    assert (k + ":" + v)[0] == k[0];
  }

  /** Reading the value of a known key at the start of a value: outside quotes. */
  lemma KnownValueLex(key: string, v: string)
    requires KnownField(ToLower(key)).Some? && Lex(key + ":" + v, false) == Outside
    ensures Lex(v, false) == Outside
  {
    hide Lex, KnownField, FieldName;
    KnownFieldName(ToLower(key));
    FieldNameFacts(KnownField(ToLower(key)).value);
    LowerReflectsWord(key);
    WordLex(key);
    WordLex(":");
    LexAppend(key, ":", false);
    LexAppend(key + ":", v, false);
  }

  lemma MethodFacts(m: string)
    requires IsHTTPMethod(m)
    ensures Word(m) && '*' !in m && m != "" && !EndsInBackslash(m) && m[0] != '"'
  {}

  lemma MethodIsUpper(m: string)
    requires IsHTTPMethod(m)
    ensures ToUpper(m) == m
  {
    assert ToUpper(m) == m;
  }

  lemma StatusFacts(sf: StatusFilter)
    requires sf.Exact? ==> 100 <= sf.code <= 599
    requires sf.Class? ==> |sf.text| == 3 && '1' <= sf.text[0] <= '5' && sf.text[1] == sf.text[2] == 'x'
    ensures var v := match sf { case Exact(n) => Decimal.IntText(n) case Class(c) => c };
      Word(v) && '*' !in v && v != "" && v[0] != '"' && ParseStatus(v) == Some(sf)
  {
    if sf.Exact? {
      Decimal.ParseIntText(sf.code);
      var v := Decimal.IntText(sf.code);
      assert forall i :: 0 <= i < |v| ==> v[i] in v;
    }
  }

  /** A value made of word characters, printed bare or in quotes, is whole. */
  lemma WordShowLex(p: Parsed)
    requires p.wildcard == Exactly && Word(p.value) && !EndsInBackslash(p.value)
    ensures Lex(Show(p), false) == Outside
  {
    if p.quoted {
      EscapeStaysInside(p.value);
      assert Show(p)[1..] == Escape(p.value) + "\"";
    } else {
      WordLex(p.value);
    }
  }

  lemma KnownKeyReadsBack(key: string, raw: string, negated: bool)
    requires KnownField(ToLower(key)).Some?
    requires Lex(key + ":" + raw, false) == Outside
    requires ParseKeyed(key, raw, negated).Ok?
    ensures ReadsBack(Unsigned(ParseKeyed(key, raw, negated).value), ParseKeyed(key, raw, negated).value)
  {
    hide Lex, KnownField, FieldName, ParseValue, ParseStatus, ShowValue, IsHTTPMethod, ToUpper, ParseUnsigned;
    var t := ParseKeyed(key, raw, negated).value;
    var f := KnownField(ToLower(key)).value;
    KnownFieldName(ToLower(key));
    FieldNameIsKnown(f);
    KnownValueLex(key, raw);
    ParsedIsPrintable(raw);
    var p := ParseValue(raw).value;
    if f == Status {
      StatusWellFormed(p.value);
      StatusFacts(t.status.value);
      var shown := Parsed(DisplayValue(t), Exactly, false);
      assert Show(shown) == shown.value by { ShowExactly(shown.value); }
      ShowParsesBack(shown);
      WordLex(shown.value);
    } else if f == Method {
      MethodFacts(t.value);
      MethodIsUpper(t.value);
      ShowParsesBack(p.(value := t.value));
      WordShowLex(p.(value := t.value));
    } else {
      ShowParsesBack(p);
      ShowKeepsWhole(raw, false);
    }
    KnownReadsBack(f, DisplayValue(t), t);
  }

  lemma ShowExactly(v: string)
    ensures ShowValue(v, Exactly, false) == v
  {}

  lemma HeaderKeyLex(key: string)
    requires HasPrefix(ToLower(key), "header.")
    ensures Lex("header." + CanonicalHeader(key[7..]), false) == Lex(key, false)
  {
    hide Lex, CanonicalHeader;
    assert ToLower(key[..7]) == "header.";
    LowerReflectsWord(key[..7]);
    WordLex(key[..7]);
    WordLex("header.");
    LexAppend(key[..7], key[7..], false);
    assert key[..7] + key[7..] == key;
    CanonicalHeaderLex(key[7..]);
    LexAppend("header.", CanonicalHeader(key[7..]), false);
  }

  lemma HeaderReadsBack(key: string, raw: string, negated: bool)
    requires HasPrefix(ToLower(key), "header.") && ':' !in key
    requires Lex(key + ":" + raw, false) == Outside
    requires ParseHeaderTerm(key, raw, negated).Ok?
    ensures ReadsBack(Unsigned(ParseHeaderTerm(key, raw, negated).value), ParseHeaderTerm(key, raw, negated).value)
  {
    hide Lex, ParseValue, ShowValue, CanonicalHeader, ParseUnsigned, KnownField;
    var t := ParseHeaderTerm(key, raw, negated).value;
    var p := ParseValue(raw).value;
    var key' := "header." + t.headerName;
    ParsedIsPrintable(raw);
    ShowParsesBack(p);
    forall q | Lex(raw, q) == Outside
      ensures Lex(Show(p), q) == Outside
    {
      ShowKeepsWhole(raw, q);
    }
    HeaderKeyLex(key);
    SwapAfterKey(key, key', raw, Show(p));
    CanonicalHeaderAvoids(key[7..], ':');
    CanonicalHeaderAvoids(key[7..], '*');
    CanonicalHeaderIdempotent(key[7..]);
    assert ':' !in "header.";
    KeyedBack(key', Show(p), negated);
    assert ToLower(key')[..7] == "header.";
    assert ToLower(key')[6] == '.';
    NotKnown(ToLower(key'));
    assert key'[7..] == t.headerName;
    assert (key' + ":" + Show(p))[0] == 'h';
  }

  lemma UnsignedReadsBack(tok: string, negated: bool)
    requires tok != "" && Lex(tok, false) == Outside
    requires !negated ==> !HasPrefix(tok, "-")
    requires ParseUnsigned(tok, negated).Ok?
    ensures ReadsBack(Unsigned(ParseUnsigned(tok, negated).value), ParseUnsigned(tok, negated).value)
  {
    hide Lex, Unsigned, KnownField, ParseFreeform, ParseHeaderTerm, Finish, ParseValue, ReadsBack;
    var idx := IndexOf(tok, ':');
    if HasPrefix(tok, "\"") || idx == |tok| {
      FreeformReadsBack(tok, negated);
    } else {
      var key, raw := tok[..idx], tok[idx + 1..];
      assert tok == key + ":" + raw;
      if KnownField(ToLower(key)).Some? {
        KnownKeyReadsBack(key, raw, negated);
      } else {
        HeaderReadsBack(key, raw, negated);
      }
    }
  }

  /** One token: its printed form is again one token and parses to the same term. */
  lemma TokenReadsBack(tok: string)
    requires Whole(tok) && ParseToken(tok).Ok?
    ensures var t := ParseToken(tok).value;
      Whole(Token(t)) && ParseToken(Token(t)).Ok? && Same(t, ParseToken(Token(t)).value)
  {
    hide ParseUnsigned, Unsigned;
    var t := ParseToken(tok).value;
    var negated := HasPrefix(tok, "-");
    var body := if negated then tok[1..] else tok;
    assert Lex(body, false) == Outside;
    UnsignedReadsBack(body, negated);
    NegationKept(body, negated);
    if negated {
      assert Token(t)[1..] == Unsigned(t);
    }
  }

  lemma NegationKept(tok: string, negated: bool)
    requires ParseUnsigned(tok, negated).Ok?
    ensures ParseUnsigned(tok, negated).value.negated == negated
  {
    hide ParseValue, ParseStatus, KnownField;
  }

  /** For every accepted search: print the terms, join with spaces, parse again. */
  lemma ParsePrintRoundTrip(s: string)
    requires Parse(s).Ok?
    ensures var q := Parse(s).value;
      var r := Parse(Join(Print(q), " "));
      r.Ok? && |r.value| == |q| && forall i :: 0 <= i < |q| ==> Same(q[i], r.value[i])
  {
    hide ParseToken, Token, Lex;
    var q, tokens := Parse(s).value, Tokens(s).value;
    TokensAreWhole(s);
    ParseTokensInverts(tokens);
    var printed := Print(q);
    forall i | 0 <= i < |q|
      ensures Whole(printed[i]) && ParseToken(printed[i]).Ok? && Same(q[i], ParseToken(printed[i]).value)
    {
      TokenReadsBack(tokens[i]);
    }
    TokensOfJoin(printed);
    var again := seq(|q|, i requires 0 <= i < |q| => ParseToken(printed[i]).value);
    ParseTokensSucceeds(printed, again);
  }
}
