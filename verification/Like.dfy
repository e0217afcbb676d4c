/** SQLite's case-sensitive LIKE with ESCAPE '\', and the escaping of bound patterns. */
module Like {
  import opened Strings

  /** `s LIKE pat ESCAPE '\'`: `%` any run, `_` one character, `\c` the character c. */
  predicate Matches(s: string, pat: string)
    decreases |pat|, |s|
  {
    if pat == "" then s == ""
    else if pat[0] == '%' then
      Matches(s, pat[1..]) || (s != "" && Matches(s[1..], pat))
    else if pat[0] == '_' then s != "" && Matches(s[1..], pat[1..])
    else if pat[0] == '\\' then
      |pat| >= 2 && s != "" && s[0] == pat[1] && Matches(s[1..], pat[2..])
    else s != "" && s[0] == pat[0] && Matches(s[1..], pat[1..])
  }

  predicate IsMeta(c: char) { c == '\\' || c == '%' || c == '_' }

  /** The single-pass replacer of escapeLike. */
  function EscapeLike(v: string): string {
    if v == "" then ""
    else (if IsMeta(v[0]) then ['\\', v[0]] else [v[0]]) + EscapeLike(v[1..])
  }

  /** An escaped text at the head of a pattern consumes exactly that text. */
  lemma {:induction false} EscapedHead(s: string, v: string, rest: string)
    ensures Matches(s, EscapeLike(v) + rest) <==> v <= s && Matches(s[|v|..], rest)
    decreases |v|
  {
    var pat := EscapeLike(v) + rest;
    if v == "" {
      assert pat == rest && s[0..] == s;
    } else {
      var tail := EscapeLike(v[1..]) + rest;
      assert (if IsMeta(v[0]) then pat[2..] else pat[1..]) == tail;
      if s != "" && s[0] == v[0] {
        EscapedHead(s[1..], v[1..], rest);
        assert v <= s <==> v[1..] <= s[1..] by {
          assert v == [v[0]] + v[1..] && s == [s[0]] + s[1..];
        }
        if v <= s {
          assert s[1..][|v[1..]|..] == s[|v|..];
        }
      }
    }
  }

  lemma {:induction false} PercentMatchesAll(s: string)
    ensures Matches(s, "%")
    decreases |s|
  {
    if s != "" { PercentMatchesAll(s[1..]); }
  }

  /** A leading `%` tries the rest of the pattern at every offset. */
  lemma {:induction false} PercentHead(s: string, pat: string)
    ensures Matches(s, "%" + pat) <==> exists i :: 0 <= i <= |s| && Matches(s[i..], pat)
    decreases |s|
  {
    assert ("%" + pat)[1..] == pat;
    assert s[0..] == s;
    if s != "" {
      PercentHead(s[1..], pat);
      if Matches(s[1..], "%" + pat) {
        var i :| 0 <= i <= |s[1..]| && Matches(s[1..][i..], pat);
        assert s[1..][i..] == s[i + 1..];
      }
      forall i | 0 < i <= |s| && Matches(s[i..], pat)
        ensures Matches(s[1..], "%" + pat)
      {
        assert s[1..][i - 1..] == s[i..];
      }
    }
  }

  /** `LIKE escape(v) || '%'` is exactly "starts with v", whatever characters v holds. */
  lemma PrefixLikeExact(s: string, v: string)
    ensures Matches(s, EscapeLike(v) + "%") <==> HasPrefix(s, v)
  {
    EscapedHead(s, v, "%");
    if v <= s { PercentMatchesAll(s[|v|..]); }
  }

  /** `LIKE '%' || escape(v) || '%'` is exactly "contains v". */
  lemma SubstringLikeExact(s: string, v: string)
    ensures Matches(s, "%" + EscapeLike(v) + "%") <==> Contains(s, v)
  {
    var pat := EscapeLike(v) + "%";
    assert "%" + EscapeLike(v) + "%" == "%" + pat;
    PercentHead(s, pat);
    forall i | 0 <= i <= |s|
      ensures Matches(s[i..], pat) <==> OccursAt(s, v, i)
    {
      PrefixLikeExact(s[i..], v);
      if v <= s[i..] { assert s[i..i + |v|] == v; }
      if OccursAt(s, v, i) { assert s[i..][..|v|] == v; }
    }
  }
}
