/** The key/value wire form: `packData` and `unpackData` of libbacteria/net.c with their Lua glue. */
module KeyValue {
  import opened Text
  import opened CStrings
  import opened Splitter

  /** `IGNOREINFOBYTE`, as the one-byte string both halves of a pair without a key become. */
  const IGNORE: string := [3 as char]

  datatype Pair = Pair(key: CString, value: CString)

  function Record(p: Pair, f: char): string {
    p.key + [f] + p.value
  }

  function Records(ps: seq<Pair>, f: char): seq<string> {
    if ps == [] then [] else [Record(ps[0], f)] + Records(ps[1..], f)
  }

  /** The packed text: each record closed by the second splitter. */
  function Packed(ps: seq<Pair>, f: char, s: char): string {
    Terminated(Records(ps, f), s)
  }

  /** The result of `packData` as a text: None is its NULL for an empty list. */
  function PackResult(ps: seq<Pair>, f: char, s: char): Option<string> {
    if ps == [] then None else Some(Packed(ps, f, s))
  }

  lemma {:induction false} PackedAppend(ps: seq<Pair>, p: Pair, f: char, s: char)
    ensures Packed(ps + [p], f, s) == Packed(ps, f, s) + Record(p, f) + [s]
    decreases |ps|
  {
    hide Record;
    if ps == [] {
      assert ps + [p] == [p];
      assert Records([p], f) == [Record(p, f)] && Records([p], f)[1..] == [];
      assert Record(p, f) + [s] + "" == "" + Record(p, f) + [s];
    } else {
      PackedAppend(ps[1..], p, f, s);
      assert (ps + [p])[1..] == ps[1..] + [p];
      assert Records(ps + [p], f)[1..] == Records(ps[1..] + [p], f);
      assert Records(ps, f)[1..] == Records(ps[1..], f);
      var head, rest := Record(ps[0], f) + [s], Packed(ps[1..], f, s);
      AppendAssociative(head, rest + Record(p, f), [s]);
      AppendAssociative(head, rest, Record(p, f));
    }
  }

  // --- Packing ---------------------------------------------------------------

  /** The entries that the loop of `packData` reaches: both lists end at their first NULL. */
  function Zip(keys: seq<CString>, values: seq<CString>, n: nat): (r: seq<Pair>)
    requires n <= |keys| && n <= |values|
    ensures |r| == n && forall k :: 0 <= k < n ==> r[k] == Pair(keys[k], values[k])
  {
    if n == 0 then [] else Zip(keys, values, n - 1) + [Pair(keys[n - 1], values[n - 1])]
  }

  /** `packData`: None is the NULL for an empty list. The buffer grows by one record per pass and is
      written at the running offset `sRet`. */
  method PackData(dataKeys: seq<CString>, dataValues: seq<CString>, f: char, s: char)
    returns (r: Option<array<char>>)
    ensures r.None? <==> dataKeys == [] || dataValues == []
    ensures r.Some? ==> fresh(r.value)
    ensures r.Some? ==>
      var n := if |dataKeys| <= |dataValues| then |dataKeys| else |dataValues|;
      r.value[..] == Packed(Zip(dataKeys, dataValues, n), f, s) + ['\0']
  {
    if dataKeys == [] || dataValues == [] {
      return None;
    }
    hide Packed, Records;
    var sRet := 0;
    var rVal := new char[2](_ => '\0');
    var i := 0;
    assert Packed([], f, s) == "" by { PackedEmpty(f, s); }
    while i < |dataKeys| && i < |dataValues|
      invariant i <= |dataKeys| && i <= |dataValues| && fresh(rVal)
      invariant 0 <= sRet <= rVal.Length && rVal[..sRet] == Packed(Zip(dataKeys, dataValues, i), f, s)
    {
      var key, value := dataKeys[i], dataValues[i];
      ghost var done := rVal[..sRet];
      var fullSize := |key| + |value| + 2;
      rVal := Realloc(rVal, sRet + fullSize);
      assert rVal[..sRet] == done;
      WriteRecord(rVal, sRet, key, value, f, s);
      PackedAppend(Zip(dataKeys, dataValues, i), Pair(key, value), f, s);
      sRet := sRet + fullSize;
      i := i + 1;
    }
    ghost var text := rVal[..sRet];
    sRet := sRet + 1;
    rVal := Realloc(rVal, sRet);
    assert rVal[..sRet - 1] == text;
    rVal[sRet - 1] := '\0';
    assert rVal[..] == text + ['\0'];
    return Some(rVal);
  }

  lemma PackedEmpty(f: char, s: char)
    ensures Packed([], f, s) == ""
  {
  }

  /** The body of the loop: `strcpy` the key, overwrite its NUL with the first splitter, `strcpy` the value,
      overwrite its NUL with the second splitter. */
  method WriteRecord(rVal: array<char>, at: nat, key: CString, value: CString, f: char, s: char)
    requires at + |key| + |value| + 2 == rVal.Length
    modifies rVal
    ensures rVal[..] == old(rVal[..at]) + Record(Pair(key, value), f) + [s]
  {
    Strcpy(rVal, at, key);
    rVal[at + |key|] := f;
    Strcpy(rVal, at + |key| + 1, value);
    rVal[at + |key| + 1 + |value|] := s;
    ghost var text := old(rVal[..at]) + Record(Pair(key, value), f) + [s];
    assert forall k :: 0 <= k < rVal.Length ==> rVal[k] == text[k];
  }

  // --- Unpacking -------------------------------------------------------------

  function Count(s: string, c: char): nat {
    if s == "" then 0 else (if s[0] == c then 1 else 0) + Count(s[1..], c)
  }

  lemma {:induction false} CountAppend(a: string, b: string, c: char)
    ensures Count(a + b, c) == Count(a, c) + Count(b, c)
  {
    if a == "" {
      assert a + b == b;
    } else {
      assert (a + b)[1..] == a[1..] + b;
      CountAppend(a[1..], b, c);
    }
  }

  /** How one record is taken apart: at the first `f`, or the ignore pair if there is none. */
  function Unpair(record: string, f: char): (string, string) {
    match Strchr(record, 0, f)
    case None => (IGNORE, IGNORE)
    case Some(k) => (record[..k], record[k + 1..])
  }

  /** The flat result array: keys and values alternate, the last record comes first. */
  function Unpaired(records: seq<string>, f: char): seq<string> {
    if records == [] then []
    else Unpaired(records[1..], f) + [Unpair(records[0], f).0, Unpair(records[0], f).1]
  }

  /** `unpackData`; None is the NULL for splitter counts that differ. */
  function Unpack(data: string, f: char, s: char): Option<seq<string>> {
    if Count(data, f) == (if f == s then 0 else Count(data, s)) then Some(Unpaired(Split(data, s), f))
    else None
  }

  lemma {:induction false} UnpairedLast(records: seq<string>, n: nat, f: char)
    requires n < |records|
    ensures Unpaired(records[n..], f)
         == Unpaired(records[n + 1..], f) + [Unpair(records[n], f).0, Unpair(records[n], f).1]
  {
    assert records[n..][1..] == records[n + 1..];
  }

  method UnpackData(data: CString, f: char, s: char) returns (r: Option<seq<string>>)
    requires f != '\0' && s != '\0'
    ensures r == Unpack(data, f, s)
  {
    hide Split, Unpair;
    var countS, countF, sData := 0, 0, 0;
    while sData < |data|
      invariant sData <= |data|
      invariant countF + Count(data[sData..], f) == Count(data, f)
      invariant countS + (if f == s then 0 else Count(data[sData..], s)) == if f == s then 0 else Count(data, s)
    {
      assert data[sData..][1..] == data[sData + 1..];
      if data[sData] == f {
        countF := countF + 1;
      } else if data[sData] == s {
        countS := countS + 1;
      }
      sData := sData + 1;
    }
    if countS != countF {
      return None;
    }
    var ssplitted := SplitMsg(data, s, sData);
    var rVal: seq<string> := [];
    var i := |ssplitted|;
    while i > 0
      invariant 0 <= i <= |ssplitted|
      invariant rVal == Unpaired(ssplitted[i..], f)
    {
      i := i - 1;
      UnpairedLast(ssplitted, i, f);
      var fs := Strchr(ssplitted[i], 0, f);
      match fs {
        case None =>
          assert Unpair(ssplitted[i], f) == (IGNORE, IGNORE) by { UnpairCases(ssplitted[i], f); }
          rVal := rVal + [IGNORE, IGNORE];
        case Some(k) =>
          UnpairCases(ssplitted[i], f);
          rVal := rVal + [ssplitted[i][..k], ssplitted[i][k + 1..]];
      }
    }
    assert ssplitted[0..] == ssplitted;
    return Some(rVal);
  }

  lemma UnpairCases(record: string, f: char)
    ensures Strchr(record, 0, f).None? ==> Unpair(record, f) == (IGNORE, IGNORE)
    ensures Strchr(record, 0, f).Some? ==>
      var k := Strchr(record, 0, f).value; Unpair(record, f) == (record[..k], record[k + 1..])
  {
  }

  /** A pair is the record cut at its first `f`, so the key holds none; only a record without any `f`
      becomes the ignore pair. */
  lemma UnpairMeaning(record: string, f: char)
    ensures var (key, value) := Unpair(record, f);
      if f in record then key + [f] + value == record && f !in key
      else (key, value) == ([3 as char], [3 as char])
  {
    StrchrFirst(record, 0, f);
    match Strchr(record, 0, f)
    case None =>
    case Some(k) =>
      assert record[..k] + [record[k]] + record[k + 1..] == record;
  }

  // --- The Lua table ---------------------------------------------------------

  /** The table after `lua_settable` of pairs `from`, `from + 2`, ... in this order. */
  function Settable(flat: seq<string>, from: nat, t: map<string, string>): map<string, string>
    decreases |flat| - from
  {
    if from + 1 >= |flat| then t else Settable(flat, from + 2, t[flat[from] := flat[from + 1]])
  }

  /** The table that unpacking a text gives; None is the "bad packed data" error. */
  function LoadResult(packed: string, f: char, s: char): Option<map<string, string>> {
    match Unpack(packed, f, s)
    case None => None
    case Some(flat) => Some(Settable(flat, 0, map[]))
  }

  /** A field of the Lua table to pack: a key with a text value, or with a value that is neither text nor table. */
  datatype Field = TextField(pair: Pair) | OtherField(key: CString)

  /** `FSPLITTERCHAR` and `SPLITADDRCHAR`. */
  const F_SPLITTER: char := '='
  const S_SPLITTER: char := ';'

  /** The fields with a text value, in the order of the walk. */
  function TextPairs(fields: seq<Field>): seq<Pair> {
    if fields == [] then []
    else
      var last := match fields[|fields| - 1] case TextField(p) => [p] case OtherField(_) => [];
      TextPairs(fields[..|fields| - 1]) + last
  }

  /** `lua_packData` on the fields in the order in which `lua_next` gives them; None is nil. */
  method LuaPackData(fields: seq<Field>) returns (r: Option<CString>)
    ensures r == PackResult(TextPairs(fields), '=', ';')
  {
    hide Packed;
    var dataKeys: seq<CString>, dataValues: seq<CString> := [], [];
    for i := 0 to |fields|
      invariant |dataKeys| == |dataValues| == |TextPairs(fields[..i])|
      invariant Zip(dataKeys, dataValues, |dataKeys|) == TextPairs(fields[..i])
    {
      ghost var done := TextPairs(fields[..i]);
      assert fields[..i + 1][..i] == fields[..i];
      match fields[i] {
        case TextField(p) =>
          assert TextPairs(fields[..i + 1]) == done + [p];
          dataKeys := dataKeys + [p.key];
          dataValues := dataValues + [p.value];
          assert forall k :: 0 <= k < |done| ==> done[k] == Pair(dataKeys[k], dataValues[k]);
          assert Zip(dataKeys, dataValues, |dataKeys|) == done + [p];
        case OtherField(_) =>
          assert TextPairs(fields[..i + 1]) == done;
      }
    }
    assert fields[..|fields|] == fields;
    var data := PackData(dataKeys, dataValues, F_SPLITTER, S_SPLITTER);
    if data.None? {
      return None;
    }
    PackedIsCString(TextPairs(fields), F_SPLITTER, S_SPLITTER);
    assert data.value[..data.value.Length - 1] == Packed(TextPairs(fields), F_SPLITTER, S_SPLITTER);
    return Some(data.value[..data.value.Length - 1]);
  }

  lemma {:induction false} PackedIsCString(ps: seq<Pair>, f: char, s: char)
    requires f != '\0' && s != '\0'
    ensures forall c :: c in Packed(ps, f, s) ==> c != '\0'
    decreases |ps|
  {
    if ps != [] {
      PackedIsCString(ps[1..], f, s);
      assert Records(ps, f)[1..] == Records(ps[1..], f);
      assert forall c :: c in Record(ps[0], f) ==> c != '\0';
      assert Packed(ps, f, s) == Record(ps[0], f) + [s] + Packed(ps[1..], f, s);
    }
  }

  /** `lua_unpackData`; None is the "bad packed data" error. */
  method LuaUnpackData(packed: CString, f: char, s: char) returns (t: Option<map<string, string>>)
    requires f != '\0' && s != '\0'
    ensures t == LoadResult(packed, f, s)
  {
    hide Unpack;
    var rv := UnpackData(packed, f, s);
    if rv.None? {
      return None;
    }
    var table: map<string, string> := map[];
    var i := 0;
    UnpackEven(packed, f, s);
    while i < |rv.value|
      invariant i % 2 == 0 && |rv.value| % 2 == 0
      invariant Settable(rv.value, i, table) == Settable(rv.value, 0, map[])
      decreases |rv.value| - i
    {
      table := table[rv.value[i] := rv.value[i + 1]];
      i := i + 2;
    }
    return Some(table);
  }

  lemma {:induction false} UnpairedEven(records: seq<string>, f: char)
    ensures |Unpaired(records, f)| == 2 * |records|
  {
    if records != [] {
      UnpairedEven(records[1..], f);
    }
  }

  /** The flat array runs backwards: record `k` of `n` stands at `2 * (n - 1 - k)`, key before value. */
  lemma {:induction false} UnpairedAt(records: seq<string>, f: char, k: nat)
    requires k < |records|
    ensures |Unpaired(records, f)| == 2 * |records|
    ensures var i := 2 * (|records| - 1 - k);
      (Unpaired(records, f)[i], Unpaired(records, f)[i + 1]) == Unpair(records[k], f)
  {
    hide Unpair;
    UnpairedEven(records, f);
    UnpairedEven(records[1..], f);
    if k > 0 {
      UnpairedAt(records[1..], f, k - 1);
    }
  }

  lemma {:induction false} CountPositions(a: string, c: char)
    ensures |set k | 0 <= k < |a| && a[k] == c| == Count(a, c)
    decreases |a|
  {
    var places := set k | 0 <= k < |a| && a[k] == c;
    if a != "" {
      var n := |a| - 1;
      var front := set k | 0 <= k < n && a[..n][k] == c;
      CountPositions(a[..n], c);
      CountAppend(a[..n], [a[n]], c);
      assert a == a[..n] + [a[n]] && [a[n]][1..] == [];
      assert places == if a[n] == c then front + {n} else front;
    }
  }

  /** A text is accepted exactly if the first splitter stands at as many positions as the second; if they are the
      same, exactly if there is none. */
  lemma UnpackAccepts(data: string, f: char, s: char)
    ensures f != s ==> (Unpack(data, f, s).Some? <==>
      |set k | 0 <= k < |data| && data[k] == f| == |set k | 0 <= k < |data| && data[k] == s|)
    ensures f == s ==> (Unpack(data, f, s).Some? <==> f !in data)
  {
    hide Split, Unpaired;
    CountPositions(data, f);
    CountPositions(data, s);
    CountNone(data, f);
  }

  lemma UnpackEven(data: string, f: char, s: char)
    requires Unpack(data, f, s).Some?
    ensures |Unpack(data, f, s).value| % 2 == 0
  {
    UnpairedEven(Split(data, s), f);
  }

  /** The first of the records whose key is `key`. */
  function FirstWith(records: seq<string>, f: char, key: string): (r: Option<nat>)
    ensures r.Some? ==> r.value < |records| && Unpair(records[r.value], f).0 == key
    ensures r.Some? ==> forall k :: 0 <= k < r.value ==> Unpair(records[k], f).0 != key
    ensures r.None? ==> forall k :: 0 <= k < |records| ==> Unpair(records[k], f).0 != key
  {
    if records == [] then None
    else if Unpair(records[0], f).0 == key then Some(0)
    else match FirstWith(records[1..], f, key)
      case None => None
      case Some(k) => Some(k + 1)
  }

  lemma {:induction false} SettableAppend(a: seq<string>, from: nat, k: string, v: string, t: map<string, string>)
    requires |a| % 2 == 0 && from % 2 == 0 && from <= |a|
    ensures Settable(a + [k, v], from, t) == Settable(a, from, t)[k := v]
    decreases |a| - from
  {
    var flat := a + [k, v];
    if from < |a| {
      assert flat[from] == a[from] && flat[from + 1] == a[from + 1];
      SettableAppend(a, from + 2, k, v, t[a[from] := a[from + 1]]);
    } else {
      assert flat[from] == k && flat[from + 1] == v;
      assert Settable(flat, from + 2, t[k := v]) == t[k := v];
    }
  }

  /** Loading the reversed pairs into a table lets the earliest record of each key win. */
  lemma {:induction false} EarliestWins(records: seq<string>, f: char, key: string)
    ensures var t := Settable(Unpaired(records, f), 0, map[]);
      match FirstWith(records, f, key)
      case None => key !in t
      case Some(k) => key in t && t[key] == Unpair(records[k], f).1
    decreases |records|
  {
    hide Unpair;
    if records != [] {
      var (k, v) := Unpair(records[0], f);
      EarliestWins(records[1..], f, key);
      UnpairedEven(records[1..], f);
      SettableAppend(Unpaired(records[1..], f), 0, k, v, map[]);
    }
  }

  // --- Round trip ------------------------------------------------------------

  /** The text of the pair can be told apart: no splitter in the key, no second splitter in the value. */
  ghost predicate Separable(p: Pair, f: char, s: char) {
    f !in p.key && s !in p.key && s !in p.value
  }

  lemma CountFree(a: string, c: char)
    requires c !in a
    ensures Count(a, c) == 0
  {
    if a != "" {
      CountFree(a[1..], c);
    }
  }

  lemma {:induction false} CountPositive(a: string, c: char)
    requires c in a
    ensures Count(a, c) > 0
  {
    if a[0] != c {
      CountPositive(a[1..], c);
    }
  }

  /** How often `c` stands in the keys and values. */
  function Inside(ps: seq<Pair>, c: char): nat {
    if ps == [] then 0 else Count(ps[0].key, c) + Count(ps[0].value, c) + Inside(ps[1..], c)
  }

  lemma RecordCount(p: Pair, f: char, c: char)
    ensures Count(Record(p, f), c) == Count(p.key, c) + Count(p.value, c) + (if c == f then 1 else 0)
  {
    CountAppend(p.key + [f], p.value, c);
    CountAppend(p.key, [f], c);
  }

  /** A packed list has one splitter of each kind per pair, and those inside the keys and values. */
  lemma {:induction false} PackedCounts(ps: seq<Pair>, f: char, s: char, c: char)
    requires f != s
    ensures Count(Packed(ps, f, s), c) == Inside(ps, c) + (if c == f || c == s then |ps| else 0)
    decreases |ps|
  {
    hide Record;
    if ps != [] {
      var p, rest := ps[0], Packed(ps[1..], f, s);
      PackedCounts(ps[1..], f, s, c);
      RecordCount(p, f, c);
      assert Records(ps, f)[1..] == Records(ps[1..], f);
      assert Packed(ps, f, s) == Record(p, f) + [s] + rest;
      CountAppend(Record(p, f) + [s], rest, c);
      CountAppend(Record(p, f), [s], c);
    }
  }

  /** No splitter is inside exactly if no text holds it. */
  lemma {:induction false} InsideNone(ps: seq<Pair>, c: char)
    ensures Inside(ps, c) == 0 <==> forall p :: p in ps ==> c !in p.key && c !in p.value
  {
    if ps != [] {
      var p := ps[0];
      assert p in ps && forall q :: q in ps <==> q == p || q in ps[1..];
      InsideNone(ps[1..], c);
      CountNone(p.key, c);
      CountNone(p.value, c);
    }
  }

  lemma CountNone(a: string, c: char)
    ensures Count(a, c) == 0 <==> c !in a
  {
    if c in a {
      CountPositive(a, c);
    } else {
      CountFree(a, c);
    }
  }

  lemma {:induction false} RecordsAt(ps: seq<Pair>, f: char)
    ensures |Records(ps, f)| == |ps|
    ensures forall k :: 0 <= k < |ps| ==> Records(ps, f)[k] == Record(ps[k], f)
  {
    if ps != [] {
      RecordsAt(ps[1..], f);
    }
  }

  lemma UnpairRecord(p: Pair, f: char)
    requires f !in p.key
    ensures Unpair(Record(p, f), f) == (p.key, p.value)
  {
    var r := Record(p, f);
    assert r[|p.key|] == f && forall k :: 0 <= k < |p.key| ==> r[k] == p.key[k];
    StrchrIs(r, 0, f, |p.key|);
    assert r[..|p.key|] == p.key && r[|p.key| + 1..] == p.value;
  }

  /** The table with the pairs' bindings; the first of equal keys counts. */
  function ToMap(ps: seq<Pair>): map<string, string> {
    if ps == [] then map[] else ToMap(ps[1..])[ps[0].key := ps[0].value]
  }

  lemma {:induction false} LoadedRecords(ps: seq<Pair>, f: char)
    requires forall p :: p in ps ==> f !in p.key
    ensures Settable(Unpaired(Records(ps, f), f), 0, map[]) == ToMap(ps)
    decreases |ps|
  {
    hide Unpair, Record;
    if ps != [] {
      var rs := Records(ps, f);
      assert rs[1..] == Records(ps[1..], f);
      LoadedRecords(ps[1..], f);
      UnpairRecord(ps[0], f);
      UnpairedEven(rs[1..], f);
      SettableAppend(Unpaired(rs[1..], f), 0, ps[0].key, ps[0].value, map[]);
    }
  }

  function Capped(ps: seq<Pair>): seq<Pair> {
    if |ps| <= MAX_SPLITTED then ps else ps[..MAX_SPLITTED]
  }

  lemma RecordFree(p: Pair, f: char, s: char)
    requires f != s && s !in p.key && s !in p.value
    ensures Free(Record(p, f), 0, |Record(p, f)|, s)
  {
    var r := Record(p, f);
    forall j | 0 <= j < |r| ensures r[j] != s {
      assert r[j] == if j < |p.key| then p.key[j] else if j == |p.key| then f else p.value[j - |p.key| - 1];
    }
  }

  /** If nothing holds the second splitter, the packed text splits into the first 120 records. */
  lemma SplitPacked(ps: seq<Pair>, f: char, s: char)
    requires f != s && forall p :: p in ps ==> s !in p.key && s !in p.value
    ensures Split(Packed(ps, f, s), s) == Records(Capped(ps), f)
  {
    hide Split, Terminated, Record;
    RecordsAt(ps, f);
    RecordsAt(Capped(ps), f);
    var rs := Records(ps, f);
    forall k | 0 <= k < |rs| ensures Free(rs[k], 0, |rs[k]|, s) {
      RecordFree(ps[k], f, s);
    }
    SplitTerminated(rs, s);
  }

  /** Unpacking a packed list: rejected exactly if the splitters inside the texts do not balance. If the pairs can be
      told apart, that is if some value holds the first splitter, and otherwise the loaded table has the bindings
      of the first 120 pairs. */
  lemma UnpackPacked(ps: seq<Pair>, f: char, s: char)
    requires f != s
    ensures Unpack(Packed(ps, f, s), f, s).Some? <==> Inside(ps, f) == Inside(ps, s)
    ensures (forall p :: p in ps ==> Separable(p, f, s)) ==>
      && (Unpack(Packed(ps, f, s), f, s).Some? <==> forall p :: p in ps ==> f !in p.value)
      && match Unpack(Packed(ps, f, s), f, s)
         case None => true
         case Some(flat) => Settable(flat, 0, map[]) == ToMap(Capped(ps))
  {
    hide Settable, Unpaired, Count, Split, Terminated, Record, Packed;
    PackedCounts(ps, f, s, f);
    PackedCounts(ps, f, s, s);
    if forall p :: p in ps ==> Separable(p, f, s) {
      InsideNone(ps, s);
      InsideNone(ps, f);
      SplitPacked(ps, f, s);
      forall p | p in Capped(ps) ensures f !in p.key {
        assert p in ps && Separable(p, f, s);
      }
      LoadedRecords(Capped(ps), f);
    }
  }

  /** The table `t` listed by `lua_next` in some order. */
  ghost predicate Lists(ps: seq<Pair>, t: map<string, string>) {
    && (forall i, j :: 0 <= i < j < |ps| ==> ps[i].key != ps[j].key)
    && (forall k :: 0 <= k < |ps| ==> ps[k].key in t && t[ps[k].key] == ps[k].value)
    && forall key :: key in t ==> exists k :: 0 <= k < |ps| && ps[k].key == key
  }

  lemma {:induction false} ToMapAt(ps: seq<Pair>, k: nat)
    requires k < |ps| && forall i, j :: 0 <= i < j < |ps| ==> ps[i].key != ps[j].key
    ensures ps[k].key in ToMap(ps) && ToMap(ps)[ps[k].key] == ps[k].value
    decreases |ps|
  {
    if k > 0 {
      ToMapAt(ps[1..], k - 1);
    }
  }

  lemma {:induction false} ToMapKeys(ps: seq<Pair>, key: string)
    requires key in ToMap(ps)
    ensures exists k :: 0 <= k < |ps| && ps[k].key == key
  {
    if ps[0].key != key {
      ToMapKeys(ps[1..], key);
      var k :| 0 <= k < |ps[1..]| && ps[1..][k].key == key;
      assert ps[k + 1].key == key;
    }
  }

  lemma {:induction false} NotListed(ps: seq<Pair>, key: string)
    requires forall k :: 0 <= k < |ps| ==> ps[k].key != key
    ensures key !in ToMap(ps)
    decreases |ps|
  {
    if ps != [] {
      NotListed(ps[1..], key);
    }
  }

  lemma ToMapLists(ps: seq<Pair>, t: map<string, string>)
    requires Lists(ps, t)
    ensures ToMap(ps) == t
  {
    forall key | key in t ensures key in ToMap(ps) && ToMap(ps)[key] == t[key] {
      var k :| 0 <= k < |ps| && ps[k].key == key;
      ToMapAt(ps, k);
    }
    forall key | key in ToMap(ps) ensures key in t {
      ToMapKeys(ps, key);
    }
  }

  /** A loaded binding comes from one of the split records; neither half holds the separator `s`. */
  lemma LoadedFrom(records: seq<string>, f: char, s: char, key: string) returns (k: nat)
    requires s != IGNORE[0] && AllFree(records, s)
    requires key in Settable(Unpaired(records, f), 0, map[])
    ensures var t := Settable(Unpaired(records, f), 0, map[]);
      && k < |records| && Unpair(records[k], f) == (key, t[key]) && s !in key && s !in t[key]
  {
    EarliestWins(records, f, key);
    hide Settable, Unpaired;
    k := FirstWith(records, f, key).value;
    var r := records[k];
    UnpairMeaning(r, f);
    hide Unpair;
    assert Free(r, 0, |r|, s);
    var value := Unpair(r, f).1;
    if f in r {
      assert forall c :: c in key + [f] + value ==> c in r;
    }
  }

  /** Whatever comes back can be told apart: nothing that was loaded holds the second splitter, so the records
      are those that were packed, and each was cut at its first splitter. */
  lemma ComesBackSeparable(ps: seq<Pair>, t: map<string, string>, f: char, s: char, p: Pair)
    requires f != s && s != IGNORE[0] && Lists(ps, t) && p in ps
    requires LoadResult(Packed(ps, f, s), f, s) == Some(t)
    ensures Separable(p, f, s)
  {
    hide Settable, Unpaired, Unpair, Split, Packed, Record;
    var records := Split(Packed(ps, f, s), s);
    var n, end := SplitRebuilds(Packed(ps, f, s), s);
    forall q | q in ps ensures s !in q.key && s !in q.value {
      var i :| 0 <= i < |ps| && ps[i] == q;
      var k := LoadedFrom(records, f, s, q.key);
    }
    SplitPacked(ps, f, s);
    RecordsAt(Capped(ps), f);
    var k := LoadedFrom(records, f, s, p.key);
    RecordHolds(Capped(ps)[k], f);
    UnpairMeaning(records[k], f);
  }

  lemma RecordHolds(p: Pair, f: char)
    ensures f in Record(p, f)
  {
    assert Record(p, f)[|p.key|] == f;
  }

  /** Equal splitters are refused: every record holds one. */
  lemma EqualSplitters(ps: seq<Pair>, f: char)
    requires ps != []
    ensures Unpack(Packed(ps, f, f), f, f) == None
  {
    var head := Record(ps[0], f);
    var rest := Terminated(Records(ps, f)[1..], f);
    assert Packed(ps, f, f) == head + [f] + rest;
    RecordHolds(ps[0], f);
    hide Packed, Record, Terminated;
    assert f in Packed(ps, f, f);
    CountPositive(Packed(ps, f, f), f);
  }

  /** Packing a table in any order and unpacking the result gives the table back exactly if the splitters differ, it
      has between one and 120 entries, and no text holds a splitter. The empty table packs to NULL, and of a longer
      one only the first 120 pairs come back, the last of them first. The second splitter must not be the
      byte that stands for a record without a key (see `IgnoreByteSplits`). */
  lemma PackRoundTrip(ps: seq<Pair>, t: map<string, string>, f: char, s: char)
    requires s != IGNORE[0] && Lists(ps, t)
    ensures var packed := PackResult(ps, f, s);
      packed.Some? && LoadResult(packed.value, f, s) == Some(t)
      <==>
      && f != s && 1 <= |ps| <= 120
      && forall p :: p in ps ==> f !in p.key && s !in p.key && f !in p.value && s !in p.value
  {
    assert forall p: Pair :: Separable(p, f, s) <==> f !in p.key && s !in p.key && s !in p.value;
    hide Settable, Unpack, Separable, Packed, Inside;
    if ps != [] && f == s {
      EqualSplitters(ps, f);
    } else if ps != [] {
      if LoadResult(Packed(ps, f, s), f, s) == Some(t) {
        forall p | p in ps ensures Separable(p, f, s) {
          ComesBackSeparable(ps, t, f, s, p);
        }
      }
      UnpackPacked(ps, f, s);
      if |ps| <= MAX_SPLITTED {
        ToMapLists(ps, t);
      } else {
        NotListed(Capped(ps), ps[MAX_SPLITTED].key);
      }
    }
  }

  /** The packed text of the fields written out: a field with a text value adds `key=value;`, any other nothing. */
  lemma PackedFields(fields: seq<Field>, p: Pair, other: CString)
    ensures Packed(TextPairs([]), '=', ';') == ""
    ensures Packed(TextPairs(fields + [TextField(p)]), '=', ';')
         == Packed(TextPairs(fields), '=', ';') + p.key + "=" + p.value + ";"
    ensures TextPairs(fields + [OtherField(other)]) == TextPairs(fields)
  {
    var ps := TextPairs(fields);
    TextPairsAppend(fields, p, other);
    PackedAppend(ps, p, '=', ';');
    assert Packed(TextPairs([]), '=', ';') == "" by {
      assert TextPairs([]) == [];
    }
    hide TextPairs, Packed;
    var before := Packed(ps, '=', ';');
    assert before + Record(p, '=') + [';'] == before + p.key + "=" + p.value + ";";
  }

  lemma TextPairsAppend(fields: seq<Field>, p: Pair, other: CString)
    ensures TextPairs(fields + [TextField(p)]) == TextPairs(fields) + [p]
    ensures TextPairs(fields + [OtherField(other)]) == TextPairs(fields)
  {
    assert (fields + [TextField(p)])[..|fields|] == fields;
    assert (fields + [OtherField(other)])[..|fields|] == fields;
  }

  /** There is no text exactly if no field has a text value. */
  lemma PackedOrNil(fields: seq<Field>)
    ensures PackResult(TextPairs(fields), '=', ';')
         == if exists p :: TextField(p) in fields then Some(Packed(TextPairs(fields), '=', ';')) else None
  {
    TextPairsMembers(fields);
    hide TextPairs, Packed;
    var ps := TextPairs(fields);
    assert ps != [] ==> ps[0] in ps;
  }

  lemma {:induction false} TextPairsMembers(fields: seq<Field>)
    ensures forall p :: p in TextPairs(fields) <==> TextField(p) in fields
    decreases |fields|
  {
    if fields != [] {
      var front, last := fields[..|fields| - 1], fields[|fields| - 1];
      TextPairsMembers(front);
      assert forall x :: x in fields <==> x in front || x == last;
    }
  }

  lemma {:induction false} TextPairsDistinct(fields: seq<Field>)
    requires forall i, j :: 0 <= i < j < |fields| && fields[i].TextField? && fields[j].TextField? ==>
      fields[i].pair.key != fields[j].pair.key
    ensures forall i, j :: 0 <= i < j < |TextPairs(fields)| ==> TextPairs(fields)[i].key != TextPairs(fields)[j].key
    decreases |fields|
  {
    if fields != [] {
      var front := fields[..|fields| - 1];
      TextPairsDistinct(front);
      TextPairsMembers(front);
      var ps, n := TextPairs(fields), |TextPairs(front)|;
      forall i | 0 <= i < n && n < |ps| ensures ps[i].key != ps[n].key {
        assert ps[i] in TextPairs(front);
        assert TextField(ps[i]) in front;
        var k :| 0 <= k < |front| && front[k] == TextField(ps[i]);
        assert fields[k] == front[k] && fields[|fields| - 1] == TextField(ps[n]);
      }
    }
  }

  function Keys(ps: seq<Pair>): set<string> {
    set p | p in ps :: p.key
  }

  lemma KeysStep(ps: seq<Pair>)
    requires ps != [] && forall i, j :: 0 <= i < j < |ps| ==> ps[i].key != ps[j].key
    ensures Keys(ps) == Keys(ps[1..]) + {ps[0].key} && ps[0].key !in Keys(ps[1..])
  {
    assert ps == [ps[0]] + ps[1..];
    forall p | p in ps[1..] ensures p.key != ps[0].key {
      var k :| 0 <= k < |ps[1..]| && ps[1..][k] == p;
      assert ps[k + 1] == p;
    }
  }

  lemma {:induction false} KeysCount(ps: seq<Pair>)
    requires forall i, j :: 0 <= i < j < |ps| ==> ps[i].key != ps[j].key
    ensures |Keys(ps)| == |ps|
  {
    if ps != [] {
      KeysStep(ps);
      hide Keys;
      KeysCount(ps[1..]);
    }
  }

  /** Pairs that describe a table list it. */
  lemma PairsList(ps: seq<Pair>, t: map<string, string>)
    requires forall i, j :: 0 <= i < j < |ps| ==> ps[i].key != ps[j].key
    requires forall p :: p in ps ==> p.key in t && t[p.key] == p.value
    requires forall key :: key in t ==> exists p :: p in ps && p.key == key
    ensures Lists(ps, t) && |ps| == |t|
  {
    KeysCount(ps);
    assert forall k :: 0 <= k < |ps| ==> ps[k] in ps;
    forall key | key in t ensures exists k :: 0 <= k < |ps| && ps[k].key == key {
      var p :| p in ps && p.key == key;
      var k :| 0 <= k < |ps| && ps[k] == p;
    }
    assert t.Keys == Keys(ps);
  }

  /** The fields with text values are a listing of the table they describe. */
  lemma FieldsList(fields: seq<Field>, t: map<string, string>)
    requires forall i, j :: 0 <= i < j < |fields| && fields[i].TextField? && fields[j].TextField? ==>
      fields[i].pair.key != fields[j].pair.key
    requires forall p :: TextField(p) in fields ==> p.key in t && t[p.key] == p.value
    requires forall key :: key in t ==> exists p :: TextField(p) in fields && p.key == key
    ensures Lists(TextPairs(fields), t) && |TextPairs(fields)| == |t|
    ensures forall p :: p in TextPairs(fields) ==> p.key in t && t[p.key] == p.value
    ensures forall key :: key in t ==> exists p :: p in TextPairs(fields) && p.key == key && p.value == t[key]
  {
    var ps := TextPairs(fields);
    TextPairsMembers(fields);
    TextPairsDistinct(fields);
    hide TextPairs, Lists;
    forall key | key in t ensures exists p :: p in ps && p.key == key && p.value == t[key] {
      var p :| TextField(p) in fields && p.key == key;
      assert p in ps;
    }
    PairsList(ps, t);
  }

  /** `lua_packData` followed by `lua_unpackData` on its result, with the default splitters. None is nil from the
      first, which the second must not be given, or the error of the second. `t` is the table the fields come from,
      as far as its values are texts. */
  method LuaRoundTrip(fields: seq<Field>, ghost t: map<string, string>) returns (r: Option<map<string, string>>)
    requires forall i, j :: 0 <= i < j < |fields| && fields[i].TextField? && fields[j].TextField? ==>
      fields[i].pair.key != fields[j].pair.key
    requires forall p :: TextField(p) in fields ==> p.key in t && t[p.key] == p.value
    requires forall key :: key in t ==> exists p :: TextField(p) in fields && p.key == key
    ensures r == Some(t) <==>
      && 1 <= |t| <= 120
      && forall key :: key in t ==> '=' !in key && ';' !in key && '=' !in t[key] && ';' !in t[key]
  {
    FieldsList(fields, t);
    ghost var ps := TextPairs(fields);
    PackRoundTrip(ps, t, '=', ';');
    hide PackResult, LoadResult, TextPairs, Lists;
    var packed := LuaPackData(fields);
    if packed.None? {
      return None;
    }
    r := LuaUnpackData(packed.value, F_SPLITTER, S_SPLITTER);
  }

  // --- Tables that do not come back ------------------------------------------

  /** The empty table is a table, and there is no text for it. */
  lemma EmptyTableLost(f: char, s: char)
    ensures Lists([], map[]) && PackResult([], f, s) == None
  {
  }

  lemma {:induction false} ToMapIsListed(ps: seq<Pair>)
    requires forall i, j :: 0 <= i < j < |ps| ==> ps[i].key != ps[j].key
    ensures Lists(ps, ToMap(ps))
  {
    forall k | 0 <= k < |ps| ensures ps[k].key in ToMap(ps) && ToMap(ps)[ps[k].key] == ps[k].value {
      ToMapAt(ps, k);
    }
    forall key | key in ToMap(ps) ensures exists k :: 0 <= k < |ps| && ps[k].key == key {
      ToMapKeys(ps, key);
    }
  }

  /** The pairs "0", "1", ... with empty values. */
  function NumberedPairs(n: nat): (ps: seq<Pair>)
    ensures |ps| == n && forall k :: 0 <= k < n ==> ps[k] == NumberedPair(k)
  {
    if n == 0 then [] else NumberedPairs(n - 1) + [NumberedPair(n - 1)]
  }

  function NumberedPair(k: nat): Pair {
    assert forall c :: c in Natural(k) ==> IsDigit(c) && c != '\0';
    Pair(Natural(k), "")
  }

  lemma NumberedSeparable(k: nat)
    ensures Separable(NumberedPair(k), '=', ';') && '=' !in NumberedPair(k).value
  {
    assert forall c :: c in Natural(k) ==> IsDigit(c);
  }

  lemma NumberedDistinct(i: nat, j: nat)
    requires i != j
    ensures NumberedPair(i).key != NumberedPair(j).key
  {
    ReadNaturalInverse(i, "");
    ReadNaturalInverse(j, "");
    assert Natural(i) + "" == Natural(i) && Natural(j) + "" == Natural(j);
  }

  /** The table with the keys "0" to "n - 1" does not survive the default splitters, for any n above 120. */
  lemma LongTableLost(n: nat)
    requires n > 120
    ensures var ps := NumberedPairs(n);
      && Lists(ps, ToMap(ps)) && PackResult(ps, '=', ';').Some?
      && LoadResult(PackResult(ps, '=', ';').value, '=', ';') != Some(ToMap(ps))
  {
    hide NumberedPair, NumberedPairs, Separable, ToMap, Lists, PackResult, LoadResult;
    var ps := NumberedPairs(n);
    forall i, j | 0 <= i < j < |ps| ensures ps[i].key != ps[j].key {
      NumberedDistinct(i, j);
    }
    forall p | p in ps ensures Separable(p, '=', ';') && '=' !in p.value {
      var k :| 0 <= k < |ps| && ps[k] == p;
      NumberedSeparable(k);
    }
    ToMapIsListed(ps);
    PackRoundTrip(ps, ToMap(ps), '=', ';');
    PackResultSome(ps, '=', ';');
  }

  lemma PackResultSome(ps: seq<Pair>, f: char, s: char)
    requires ps != []
    ensures PackResult(ps, f, s).Some?
  {
  }

  /** A value that holds the first splitter makes the packed text unreadable. */
  lemma SplitterInValueRefused()
    ensures Unpack(Packed([Pair("key", "=")], '=', ';'), '=', ';') == None
  {
    UnpackPacked([Pair("key", "=")], '=', ';');
  }

  /** A value that holds the second splitter does not come back either, refused or not. */
  lemma SecondSplitterLost()
    ensures Unpack(Packed([Pair("a", "x;")], '=', ';'), '=', ';') == None
    ensures Unpack(Packed([Pair("a", "x;=")], '=', ';'), '=', ';').Some?
    ensures LoadResult(Packed([Pair("a", "x;=")], '=', ';'), '=', ';') != Some(map["a" := "x;="])
  {
    var p, q := Pair("a", "x;"), Pair("a", "x;=");
    assert p.value[1] == ';' && q.value[1] == ';' && q in [q];
    assert Inside([p], '=') == 0 && Inside([p], ';') == 1 by {
      InsideOne(p, '=');
      InsideOne(p, ';');
    }
    assert Inside([q], '=') == 1 && Inside([q], ';') == 1 by {
      InsideOne(q, '=');
      InsideOne(q, ';');
    }
    assert !Separable(q, '=', ';');
    assert Lists([q], map["a" := "x;="]);
    hide Inside, LoadResult, Unpack, Packed, Separable, Lists;
    UnpackPacked([p], '=', ';');
    UnpackPacked([q], '=', ';');
    PackRoundTrip([q], map["a" := "x;="], '=', ';');
  }

  lemma InsideOne(p: Pair, c: char)
    ensures Inside([p], c) == Count(p.key, c) + Count(p.value, c)
  {
  }

  lemma LoadStep(records: seq<string>, f: char)
    requires records != []
    ensures Settable(Unpaired(records, f), 0, map[])
         == Settable(Unpaired(records[1..], f), 0, map[])[Unpair(records[0], f).0 := Unpair(records[0], f).1]
  {
    hide Unpaired, Unpair, Settable;
    UnpairedEven(records[1..], f);
    UnpairedLast(records, 0, f);
    assert records[0..] == records;
    SettableAppend(Unpaired(records[1..], f), 0, Unpair(records[0], f).0, Unpair(records[0], f).1, map[]);
  }

  const IGNORE_PAIRS: seq<Pair> := [Pair("", "=="), Pair(IGNORE, IGNORE)]

  lemma IgnorePacked()
    ensures Packed(IGNORE_PAIRS, '=', IGNORE[0]) == Terminated(["===", "", "=", ""], IGNORE[0])
    ensures Inside(IGNORE_PAIRS, '=') == Inside(IGNORE_PAIRS, IGNORE[0])
  {
    var s := IGNORE[0];
    var p, q := Pair("", "=="), Pair(IGNORE, IGNORE);
    assert IGNORE_PAIRS == [p] + [q] && IGNORE_PAIRS[1..] == [q] && [q][1..] == [];
    assert Record(p, '=') == "===" && Record(q, '=') == [s] + "=" + [s];
    assert Packed([q], '=', s) == [s] + "=" + [s] + [s] by {
      PackedAppend([], q, '=', s);
      assert [] + [q] == [q];
    }
    PackedAppend([p], q, '=', s);
    PackedAppend([], p, '=', s);
    assert [] + [p] == [p];
    assert Packed(IGNORE_PAIRS, '=', s) == "===" + [s] + ([s] + "=" + [s] + [s]);
    IgnoreInside();
    var fields := ["===", "", "=", ""];
    assert fields[1..] == ["", "=", ""] && fields[1..][1..] == ["=", ""] && fields[1..][1..][1..] == [""];
    assert fields[1..][1..][1..][1..] == [];
    assert Terminated([""], s) == [s];
    assert Terminated(["=", ""], s) == "=" + [s] + [s];
    assert Terminated(["", "=", ""], s) == [s] + ("=" + [s] + [s]);
  }

  lemma IgnoreInside()
    ensures Inside(IGNORE_PAIRS, '=') == Inside(IGNORE_PAIRS, IGNORE[0])
  {
    var s := IGNORE[0];
    var q := Pair(IGNORE, IGNORE);
    assert IGNORE_PAIRS[1..] == [q] && [q][1..] == [];
    CountTwo('=', '=');
    CountTwo(s, '=');
    CountTwo('=', s);
    CountTwo(s, s);
    InsideOne(q, '=');
    InsideOne(q, s);
    assert Inside([q], '=') == 0 && Inside([q], s) == 2;
    assert forall c :: Inside(IGNORE_PAIRS, c) == Count("", c) + Count("==", c) + Inside([q], c);
    assert "==" == ['=', '='];
  }

  lemma CountTwo(a: char, c: char)
    ensures Count([a], c) == (if a == c then 1 else 0) && Count([a, a], c) == if a == c then 2 else 0
  {
    assert [a][1..] == [] && [a, a][1..] == [a];
  }

  /** With the ignore byte as second splitter a table can come back whose texts hold it: a record without a key is
      read as exactly that byte. */
  lemma IgnoreByteSplits()
    ensures var t := map["" := "==", IGNORE := IGNORE];
      && Lists(IGNORE_PAIRS, t) && !Separable(IGNORE_PAIRS[1], '=', IGNORE[0])
      && LoadResult(Packed(IGNORE_PAIRS, '=', IGNORE[0]), '=', IGNORE[0]) == Some(t)
  {
    var s := IGNORE[0];
    var t := map["" := "==", IGNORE := IGNORE];
    var fields := ["===", "", "=", ""];
    assert Lists(IGNORE_PAIRS, t) by {
      assert IGNORE_PAIRS[0].key == "" && IGNORE_PAIRS[1].key == IGNORE;
    }
    IgnorePacked();
    UnpackPacked(IGNORE_PAIRS, '=', s);
    hide Split, Settable, Unpaired, Terminated, Packed, Inside, Unpack;
    forall k | 0 <= k < |fields| ensures Free(fields[k], 0, |fields[k]|, s) {
    }
    SplitTerminated(fields, s);
    IgnoreLoaded();
    UnpackSome(Packed(IGNORE_PAIRS, '=', s), '=', s);
  }

  lemma UnpackSome(data: string, f: char, s: char)
    requires Unpack(data, f, s).Some?
    ensures Unpack(data, f, s).value == Unpaired(Split(data, s), f)
  {
  }

  lemma IgnoreLoaded()
    ensures Settable(Unpaired(["===", "", "=", ""], '='), 0, map[]) == map["" := "==", IGNORE := IGNORE]
  {
    var fields := ["===", "", "=", ""];
    assert Unpair("===", '=') == ("", "==") && Unpair("", '=') == (IGNORE, IGNORE) && Unpair("=", '=') == ("", "");
    assert Settable(Unpaired([], '='), 0, map[]) == map[];
    hide Settable, Unpaired, Unpair;
    LoadStep(fields, '=');
    LoadStep(fields[1..], '=');
    LoadStep(fields[1..][1..], '=');
    LoadStep(fields[1..][1..][1..], '=');
    assert fields[1..][1..][1..][1..] == [];
  }
}
