/** Standard base64 with padding (section 4 of RFC 4648), on strings of bytes. */
module Base64 {
  import opened Strings

  predicate Bytes(s: string) {
    forall i :: 0 <= i < |s| ==> s[i] as int < 256
  }

  /** The alphabet: A-Z, a-z, 0-9, '+', '/'. */
  function Symbol(n: nat): char
    requires n < 64
  {
    if n < 26 then ('A' as int + n) as char
    else if n < 52 then ('a' as int + n - 26) as char
    else if n < 62 then ('0' as int + n - 52) as char
    else if n == 62 then '+' else '/'
  }

  function Sextet(c: char): Option<nat> {
    if 'A' <= c <= 'Z' then Some(c as int - 'A' as int)
    else if 'a' <= c <= 'z' then Some(c as int - 'a' as int + 26)
    else if '0' <= c <= '9' then Some(c as int - '0' as int + 52)
    else if c == '+' then Some(62)
    else if c == '/' then Some(63)
    else None
  }

  lemma SextetSymbol(n: nat)
    requires n < 64
    ensures Sextet(Symbol(n)) == Some(n) && Symbol(n) != '=' && Symbol(n) != '\r' && Symbol(n) != '\n'
  {}

  /** Four symbols for three bytes. */
  function Quad(a: nat, b: nat, c: nat): (q: string)
    requires a < 256 && b < 256 && c < 256
    ensures |q| == 4
  {
    [Symbol(a / 4), Symbol(a % 4 * 16 + b / 16), Symbol(b % 16 * 4 + c / 64), Symbol(c % 64)]
  }

  function Encode(s: string): string
    requires Bytes(s)
  {
    if s == "" then ""
    else if |s| == 1 then Quad(s[0] as int, 0, 0)[..2] + "=="
    else if |s| == 2 then Quad(s[0] as int, s[1] as int, 0)[..3] + "="
    else Quad(s[0] as int, s[1] as int, s[2] as int) + Encode(s[3..])
  }

  /** The bytes of four sextets; only the first `n` of them are kept. */
  function Unquad(w: nat, x: nat, y: nat, z: nat, n: nat): (r: string)
    requires w < 64 && x < 64 && y < 64 && z < 64 && n <= 3
    ensures |r| == n
  {
    [(w * 4 + x / 16) as char, (x % 16 * 16 + y / 4) as char, (y % 4 * 64 + z) as char][..n]
  }

  function SextetOr(c: char, pad: bool): Option<nat> {
    if pad then Some(0) else Sextet(c)
  }

  function DecodeQuads(s: string): Option<string> {
    if s == "" then Some("")
    else if |s| < 4 then None
    else
      var last := |s| == 4;
      var pad2 := last && s[3] == '=' && s[2] == '=';
      var pad1 := last && s[3] == '=';
      var w, x, y, z := Sextet(s[0]), Sextet(s[1]), SextetOr(s[2], pad2), SextetOr(s[3], pad1);
      if w.None? || x.None? || y.None? || z.None? then None
      else
        var rest := DecodeQuads(s[4..]);
        SextetSmall(s[0]); SextetSmall(s[1]); SextetSmall(s[2]); SextetSmall(s[3]);
        if rest.None? then None
        else Some(Unquad(w.value, x.value, y.value, z.value, if pad2 then 1 else if pad1 then 2 else 3) + rest.value)
  }

  lemma SextetSmall(c: char)
    ensures Sextet(c).Some? ==> Sextet(c).value < 64
  {}

  /** Line breaks are ignored. */
  function StripBreaks(s: string): string {
    if s == "" then ""
    else if s[0] == '\r' || s[0] == '\n' then StripBreaks(s[1..])
    else [s[0]] + StripBreaks(s[1..])
  }

  function Decode(s: string): Option<string> { DecodeQuads(StripBreaks(s)) }

  lemma QuadInverse(a: nat, b: nat, c: nat, n: nat)
    requires a < 256 && b < 256 && c < 256 && n <= 3
    ensures Unquad(a / 4, a % 4 * 16 + b / 16, b % 16 * 4 + c / 64, c % 64, n) == [a as char, b as char, c as char][..n]
  {}

  lemma QuadSymbols(a: nat, b: nat, c: nat)
    requires a < 256 && b < 256 && c < 256
    ensures var q := Quad(a, b, c);
      && Sextet(q[0]) == Some(a / 4) && Sextet(q[1]) == Some(a % 4 * 16 + b / 16)
      && Sextet(q[2]) == Some(b % 16 * 4 + c / 64) && Sextet(q[3]) == Some(c % 64)
      && forall i :: 0 <= i < 4 ==> q[i] != '=' && q[i] != '\r' && q[i] != '\n'
  {
    SextetSymbol(a / 4);
    SextetSymbol(a % 4 * 16 + b / 16);
    SextetSymbol(b % 16 * 4 + c / 64);
    SextetSymbol(c % 64);
  }

  lemma DecodeLast(s: string)
    requires Bytes(s) && 1 <= |s| <= 2
    ensures DecodeQuads(Encode(s)) == Some(s)
  {
    hide Quad, Unquad, Sextet, DecodeQuads;
    var a := s[0] as int;
    var b := if |s| > 1 then s[1] as int else 0;
    QuadSymbols(a, b, 0);
    QuadInverse(a, b, 0, |s|);
    PaddedStep(Encode(s), |s|, a / 4, a % 4 * 16 + b / 16, if |s| > 1 then b % 16 * 4 else 0);
    assert s == [a as char, b as char, 0 as char][..|s|];
  }

  /** A last group with one or two padding signs. */
  lemma PaddedStep(e: string, n: nat, w: nat, x: nat, y: nat)
    requires |e| == 4 && 1 <= n <= 2 && e[3] == '=' && (e[2] == '=' <==> n == 1) && w < 64 && x < 64 && y < 64
    requires Sextet(e[0]) == Some(w) && Sextet(e[1]) == Some(x)
    requires if n == 1 then y == 0 else Sextet(e[2]) == Some(y)
    ensures DecodeQuads(e) == Some(Unquad(w, x, y, 0, n))
  {
    hide Unquad, Sextet;
    assert e[4..] == "" && Unquad(w, x, y, 0, n) + "" == Unquad(w, x, y, 0, n);
  }

  lemma DecodeStep(q: string, rest: string, w: nat, x: nat, y: nat, z: nat)
    requires |q| == 4 && q[2] != '=' && q[3] != '=' && w < 64 && x < 64 && y < 64 && z < 64
    requires Sextet(q[0]) == Some(w) && Sextet(q[1]) == Some(x) && Sextet(q[2]) == Some(y) && Sextet(q[3]) == Some(z)
    requires DecodeQuads(rest).Some?
    ensures DecodeQuads(q + rest) == Some(Unquad(w, x, y, z, 3) + DecodeQuads(rest).value)
  {}

  lemma DecodeQuad(x: char, y: char, z: char, rest: string)
    requires x as int < 256 && y as int < 256 && z as int < 256 && DecodeQuads(rest).Some?
    ensures DecodeQuads(Quad(x as int, y as int, z as int) + rest) == Some([x, y, z] + DecodeQuads(rest).value)
  {
    hide Quad, Unquad, Sextet, DecodeQuads;
    var a, b, c := x as int, y as int, z as int;
    QuadSymbols(a, b, c);
    QuadInverse(a, b, c, 3);
    DecodeStep(Quad(a, b, c), rest, a / 4, a % 4 * 16 + b / 16, b % 16 * 4 + c / 64, c % 64);
    assert [a as char, b as char, c as char][..3] == [x, y, z];
  }

  lemma EncodeStep(s: string)
    requires Bytes(s) && |s| > 2
    ensures Bytes(s[3..]) && s[0] as int < 256 && s[1] as int < 256 && s[2] as int < 256
    ensures Encode(s) == Quad(s[0] as int, s[1] as int, s[2] as int) + Encode(s[3..])
  {}

  lemma {:induction false} DecodeEncodeQuads(s: string)
    requires Bytes(s)
    ensures DecodeQuads(Encode(s)) == Some(s)
    decreases |s|
  {
    if s != "" {
      hide Quad, DecodeQuads, Encode, Bytes;
      if |s| <= 2 {
        DecodeLast(s);
      } else {
        EncodeStep(s);
        DecodeEncodeQuads(s[3..]);
        DecodeQuad(s[0], s[1], s[2], Encode(s[3..]));
        Regroup(s);
      }
    }
  }

  lemma Regroup(s: string)
    requires |s| > 2
    ensures [s[0], s[1], s[2]] + s[3..] == s
  {}

  lemma {:induction false} EncodedChars(s: string)
    requires Bytes(s)
    ensures forall i :: 0 <= i < |Encode(s)| ==> Encode(s)[i] != '\r' && Encode(s)[i] != '\n'
    decreases |s|
  {
    hide Quad;
    if s != "" {
      QuadSymbols(s[0] as int, if |s| > 1 then s[1] as int else 0, if |s| > 2 then s[2] as int else 0);
      if |s| > 2 { EncodedChars(s[3..]); }
    }
  }

  lemma {:induction false} StripNothing(s: string)
    requires forall i :: 0 <= i < |s| ==> s[i] != '\r' && s[i] != '\n'
    ensures StripBreaks(s) == s
  {
    if s != "" {
      StripNothing(s[1..]);
      assert s == [s[0]] + s[1..];
    }
  }

  lemma DecodeEncode(s: string)
    requires Bytes(s)
    ensures Decode(Encode(s)) == Some(s)
  {
    EncodedChars(s);
    StripNothing(Encode(s));
    DecodeEncodeQuads(s);
  }
}
