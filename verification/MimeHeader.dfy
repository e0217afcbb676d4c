/** Canonical HTTP header names (Go's textproto.CanonicalMIMEHeaderKey). */
module MimeHeader {
  import opened Strings

  /** Characters allowed in an HTTP field name (the `token` characters of RFC 7230). */
  predicate ValidHeaderChar(c: char) {
    'a' <= c <= 'z' || 'A' <= c <= 'Z' || '0' <= c <= '9' || c in "!#$%&'*+-.^_`|~"
  }

  function CanonicalChars(s: string, upper: bool): (r: string)
    ensures |r| == |s|
  {
    if s == "" then ""
    else
      var c := if upper then UpperChar(s[0]) else LowerChar(s[0]);
      [c] + CanonicalChars(s[1..], c == '-')
  }

  /** textproto.CanonicalMIMEHeaderKey: a name with an invalid character is left as it is. */
  function CanonicalHeader(name: string): string {
    if ValidName(name) then CanonicalChars(name, true) else name
  }

  predicate ValidName(name: string) {
    forall c :: c in name ==> ValidHeaderChar(c)
  }
}
