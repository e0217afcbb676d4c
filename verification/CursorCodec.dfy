/** The wire form of a pagination cursor: base64 of "<unix nanoseconds>:<id>". */
module CursorCodec {
  import opened Strings
  import opened Inspect
  import Base64
  import Decimal

  datatype CursorError = InvalidBase64 | MissingColon | BadTimestamp | EmptyId

  predicate IsInt64(n: int) { -0x8000_0000_0000_0000 <= n < 0x8000_0000_0000_0000 }

  function Raw(c: Cursor): string { Decimal.IntText(c.timestamp) + ":" + c.id }

  function Encode(c: Cursor): string
    requires Base64.Bytes(Raw(c))
  {
    Base64.Encode(Raw(c))
  }

  function Decode(s: string): Result<Cursor, CursorError> {
    var raw := Base64.Decode(s);
    if raw.None? then Err(InvalidBase64)
    else
      var idx := IndexOf(raw.value, ':');
      if idx == |raw.value| then Err(MissingColon)
      else
        var nanos := Decimal.ParseInt(raw.value[..idx]);
        if nanos.None? || !IsInt64(nanos.value) then Err(BadTimestamp)
        else if raw.value[idx + 1..] == "" then Err(EmptyId)
        else Ok(Cursor(nanos.value, raw.value[idx + 1..]))
  }

  lemma RawIsBytes(c: Cursor)
    requires Base64.Bytes(c.id)
    ensures Base64.Bytes(Raw(c))
  {
    Decimal.ParseIntText(c.timestamp);
    var ts := Decimal.IntText(c.timestamp);
    assert forall i :: 0 <= i < |ts| ==> ts[i] in ts;
  }

  /** Decoding gives the cursor back exactly when it names an id; colons in the id are kept. */
  lemma DecodeEncode(c: Cursor)
    requires IsInt64(c.timestamp) && Base64.Bytes(c.id)
    ensures Base64.Bytes(Raw(c))
    ensures Decode(Encode(c)) == if c.id == "" then Err(EmptyId) else Ok(c)
  {
    RawIsBytes(c);
    Base64.DecodeEncode(Raw(c));
    Decimal.ParseIntText(c.timestamp);
    var ts := Decimal.IntText(c.timestamp);
    IndexOfAfter(ts, ':', c.id);
    hide Base64.Encode, Base64.Decode, Base64.Bytes, Decimal.ParseInt, Decimal.IntText, IndexOf;
    assert Raw(c)[..|ts|] == ts && Raw(c)[|ts| + 1..] == c.id;
  }
}
