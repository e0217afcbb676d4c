/** The chip printer: a term back to its token text. */
module Printer {
  import opened SearchQuery
  import Decimal

  /** strings.ReplaceAll(v, `"`, `\"`). */
  function Escape(v: string): string {
    if v == "" then ""
    else (if v[0] == '"' then "\\\"" else [v[0]]) + Escape(v[1..])
  }

  function DisplayValue(t: Term): string {
    if t.status.Some? then
      match t.status.value
      case Exact(n) => Decimal.IntText(n)
      case Class(c) => c
    else ShowValue(t.value, t.wildcard, t.quoted)
  }

  function ShowValue(v: string, w: Wildcard, quoted: bool): string {
    if quoted then "\"" + Escape(v) + "\""
    else
      match w
      case Prefix => v + "*"
      case Substring => "*" + v + "*"
      case Exactly => v
  }

  /** The text before the value: nothing for a freeform term, else the key and a colon. */
  function KeyPart(t: Term): string {
    if t.field == Freeform then ""
    else if t.field == Header then "header." + t.headerName + ":"
    else FieldName(t.field) + ":"
  }

  function Unsigned(t: Term): string {
    KeyPart(t) + DisplayValue(t)
  }

  function Token(t: Term): string {
    if t.negated then "-" + Unsigned(t) else Unsigned(t)
  }

  function Print(q: Query): seq<string> {
    seq(|q|, i requires 0 <= i < |q| => Token(q[i]))
  }

  /** The loop of chipsFromQuery, for the token text of each chip. */
  method ChipTokens(q: Query) returns (chips: seq<string>)
    ensures chips == Print(q)
  {
    hide Token;
    chips := [];
    for i := 0 to |q|
      invariant |chips| == i
      invariant forall k :: 0 <= k < i ==> chips[k] == Token(q[k])
    {
      var token := ChipToken(q[i]);
      chips := chips + [token];
    }
  }

  method ChipToken(t: Term) returns (token: string)
    ensures token == Token(t)
  {
    hide DisplayValue, FieldName;
    var value := DisplayValue(t);
    var key := FieldName(t.field);
    if t.field == Header {
      key := "header." + t.headerName;
    }
    if t.field == Freeform {
      token := value;
      assert "" + value == value;
    } else {
      token := key + ":" + value;
    }
    if t.negated {
      token := "-" + token;
    }
  }
}
