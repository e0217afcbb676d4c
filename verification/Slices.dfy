/** Go slices, and maps of slices, whose elements are overwritten in place. */
module Slices {

  /** A prefix of a backing array. Two slices may share one. */
  datatype Slice<T> = Slice(buf: array<T>, len: nat) {
    ghost predicate Valid() { len <= buf.Length }

    ghost function Items(): seq<T>
      requires Valid()
      reads buf
    {
      buf[..len]
    }
  }

  type SliceMap = map<string, Slice<string>>

  ghost predicate Sized(m: SliceMap) { forall k :: k in m ==> m[k].Valid() }

  ghost function Buffers(m: SliceMap): set<array<string>> { set k | k in m :: m[k].buf }

  /** No two keys share a backing array. */
  ghost predicate Separate(m: SliceMap) {
    forall j, k :: j in m && k in m && j != k ==> m[j].buf != m[k].buf
  }

  ghost function Texts(m: SliceMap): map<string, seq<string>>
    requires Sized(m)
    reads Buffers(m)
  {
    map k | k in m :: m[k].Items()
  }

  method CopySlice<T>(s: Slice<T>) returns (c: Slice<T>)
    requires s.Valid()
    ensures c.Valid() && fresh(c.buf) && c.Items() == s.Items()
  {
    var items := s.buf[..s.len];
    var buf := new T[|items|](i requires 0 <= i < |items| => items[i]);
    c := Slice(buf, |items|);
  }

  /** copyStringSliceMap: a new backing array for every key. */
  method CopyMap(m: SliceMap) returns (out: SliceMap)
    requires Sized(m)
    ensures Sized(out) && Separate(out) && fresh(Buffers(out)) && Texts(out) == old(Texts(m))
  {
    out := map[];
    ghost var start := Texts(m);
    var todo := m.Keys;
    while todo != {}
      invariant todo <= m.Keys && out.Keys == m.Keys - todo
      invariant Sized(out) && Separate(out)
      invariant forall k :: k in out ==> fresh(out[k].buf) && out[k].Items() == start[k]
      decreases todo
    {
      var k :| k in todo;
      var c := CopySlice(m[k]);
      out := out[k := c];
      todo := todo - {k};
    }
  }

  /** Replace every element in place. */
  method MapSlice(f: string -> string, s: Slice<string>)
    requires s.Valid()
    modifies s.buf
    ensures |s.Items()| == |old(s.Items())| && forall i :: 0 <= i < s.len ==> s.Items()[i] == f(old(s.Items())[i])
  {
    for i := 0 to s.len
      invariant forall j :: 0 <= j < i ==> s.buf[j] == f(old(s.buf[..])[j])
      invariant forall j :: i <= j < s.buf.Length ==> s.buf[j] == old(s.buf[..])[j]
    {
      s.buf[i] := f(s.buf[i]);
    }
  }
}
