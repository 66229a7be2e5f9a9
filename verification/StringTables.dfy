/** Strings kept in one buffer with an offset index. */
module StringTables {
  import opened Common

  datatype StringTable = StringTable(data: Bytes, offsets: seq<nat>)

  const EMPTY_TABLE: StringTable := StringTable([], [])

  function Count(t: StringTable): nat {
    if |t.offsets| == 0 then 0 else |t.offsets| - 1
  }

  // The string at `index`, or none when it is out of range.
  function Get(t: StringTable, index: nat): Option<Bytes> {
    if index + 1 >= |t.offsets| then None
    else if t.offsets[index] <= t.offsets[index + 1] <= |t.data| then
      Some(t.data[t.offsets[index]..t.offsets[index + 1]])
    else None
  }

  function Concat(ss: seq<Bytes>): Bytes {
    if ss == [] then [] else Concat(ss[..|ss| - 1]) + ss[|ss| - 1]
  }

  // The table that holds the given strings.
  function TableOf(ss: seq<Bytes>): StringTable {
    if ss == [] then StringTable([], [0])
    else var t := TableOf(ss[..|ss| - 1]); StringTable(Concat(ss), t.offsets + [|Concat(ss)|])
  }

  lemma {:induction false} TableShape(ss: seq<Bytes>)
    ensures TableOf(ss).data == Concat(ss) && |TableOf(ss).offsets| == |ss| + 1
    ensures TableOf(ss).offsets[|ss|] == |Concat(ss)|
  {
    if ss != [] {
      TableShape(ss[..|ss| - 1]);
    }
  }

  // Every string is found under its index, and nothing beyond them.
  lemma {:induction false} GetFindsEach(ss: seq<Bytes>, i: nat)
    ensures Count(TableOf(ss)) == |ss|
    ensures Get(TableOf(ss), i) == if i < |ss| then Some(ss[i]) else None
  {
    TableShape(ss);
    if ss != [] {
      var init := ss[..|ss| - 1];
      TableShape(init);
      if i < |init| {
        GetFindsEach(init, i);
        var t := TableOf(init);
        assert Get(t, i) == Some(init[i]);
        assert TableOf(ss).offsets[i] == t.offsets[i] && TableOf(ss).offsets[i + 1] == t.offsets[i + 1];
        assert TableOf(ss).data[t.offsets[i]..t.offsets[i + 1]] == t.data[t.offsets[i]..t.offsets[i + 1]];
      } else if i == |init| {
        assert TableOf(ss).offsets[i] == |Concat(init)|;
        assert Concat(ss)[|Concat(init)|..] == ss[i];
        assert TableOf(ss).data[|Concat(init)|..|Concat(ss)|] == ss[i];
      }
    }
  }

  // Appends one result after another. It ends at the first failure, or at the first string that takes the buffer past
  // 32 bits.
  function Tabled<E>(rs: seq<Result<Bytes, E>>, tooLarge: E): Result<StringTable, E> {
    if rs == [] then Ok(StringTable([], [0]))
    else match Tabled(rs[..|rs| - 1], tooLarge)
      case Err(e) => Err(e)
      case Ok(t) => Appended(t, rs[|rs| - 1], tooLarge)
  }

  function Appended<E>(t: StringTable, r: Result<Bytes, E>, tooLarge: E): Result<StringTable, E> {
    match r
    case Err(e) => Err(e)
    case Ok(s) =>
      var data := t.data + s;
      if |data| > U32_MAX then Err(tooLarge) else Ok(StringTable(data, t.offsets + [|data|]))
  }

  lemma {:induction false} TabledStops<E>(rs: seq<Result<Bytes, E>>, i: nat, tooLarge: E)
    requires i <= |rs| && Tabled(rs[..i], tooLarge).Err?
    ensures Tabled(rs, tooLarge) == Tabled(rs[..i], tooLarge)
  {
    if i == |rs| {
      assert rs[..i] == rs;
    } else {
      assert rs[..|rs| - 1][..i] == rs[..i];
      TabledStops(rs[..|rs| - 1], i, tooLarge);
    }
  }

  lemma {:induction false} ConcatGrows(ss: seq<Bytes>, i: nat)
    requires i <= |ss|
    ensures |Concat(ss[..i])| <= |Concat(ss)|
  {
    if i == |ss| {
      assert ss[..i] == ss;
    } else {
      assert ss[..|ss| - 1][..i] == ss[..i];
      ConcatGrows(ss[..|ss| - 1], i);
    }
  }

  // When every piece comes out, so does the table, unless it is too large.
  lemma {:induction false} TabledOk<E>(rs: seq<Result<Bytes, E>>, ss: seq<Bytes>, tooLarge: E)
    requires |rs| == |ss| && forall i :: 0 <= i < |rs| ==> rs[i] == Ok(ss[i])
    ensures Tabled(rs, tooLarge) == if |Concat(ss)| <= U32_MAX then Ok(TableOf(ss)) else Err(tooLarge)
  {
    if ss != [] {
      TabledOk(rs[..|rs| - 1], ss[..|ss| - 1], tooLarge);
      ConcatGrows(ss, |ss| - 1);
      TableShape(ss[..|ss| - 1]);
    }
  }
}
