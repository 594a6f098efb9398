/** Lua values as the JSON module sees them. */
module JsonValue {
  import opened Text

  datatype Key = Index(i: int) | Name(s: string)

  /** A table is a finite map. There is a single empty table, and a table never holds nil. */
  datatype Value =
    | Nil
    | Boolean(b: bool)
    | Number(x: real)
    | String(s: string)
    | Table(fields: map<Key, Value>)

  /** The two C conversions behind `tonumber` and `string.format("%.14g", x)`. */
  datatype Library = Library(tonumber: string -> Option<real>, format: real -> string)

  /** The table assignment `t[k] = v`: assigning nil removes the key. */
  function Assign(t: map<Key, Value>, k: Key, v: Value): map<Key, Value> {
    if v.Nil? then t - {k} else t[k := v]
  }

  /** The table read `t[k]`: an absent key reads as nil. */
  function Read(t: map<Key, Value>, k: Key): Value {
    if k in t then t[k] else Nil
  }

  datatype Member = Member(name: string, value: Value)

  /** What an array literal denotes: its n-th element under index n, nulls left out. */
  function ArrayTable(vs: seq<Value>): map<Key, Value> {
    map i | 0 <= i < |vs| && vs[i] != Nil :: Index(i + 1) := vs[i]
  }

  /** The value of the last member called `name`, nil if there is none. */
  function LastValue(ms: seq<Member>, name: string): Value {
    if ms == [] then Nil
    else if ms[|ms| - 1].name == name then ms[|ms| - 1].value
    else LastValue(ms[..|ms| - 1], name)
  }

  function Names(ms: seq<Member>): set<string> {
    set m | m in ms :: m.name
  }

  /** What an object literal denotes: the last member of each name wins, and a null removes. */
  function ObjectTable(ms: seq<Member>): map<Key, Value> {
    map name | name in Names(ms) && LastValue(ms, name) != Nil :: Name(name) := LastValue(ms, name)
  }

  lemma ArrayTableRead(vs: seq<Value>, i: int)
    ensures Read(ArrayTable(vs), Index(i)) == if 1 <= i <= |vs| then vs[i - 1] else Nil
  {
    if 1 <= i <= |vs| && vs[i - 1] != Nil {
      assert Index((i - 1) + 1) in ArrayTable(vs);
    }
  }

  lemma LastValueAbsent(ms: seq<Member>, name: string)
    requires name !in Names(ms)
    ensures LastValue(ms, name) == Nil
  {
    if ms != [] {
      assert ms[|ms| - 1] in ms;
      assert Names(ms[..|ms| - 1]) <= Names(ms);
      LastValueAbsent(ms[..|ms| - 1], name);
    }
  }

  lemma ObjectTableRead(ms: seq<Member>, name: string)
    ensures Read(ObjectTable(ms), Name(name)) == LastValue(ms, name)
  {
    if name !in Names(ms) {
      LastValueAbsent(ms, name);
    }
  }

  lemma ArrayTableExtend(vs: seq<Value>, v: Value)
    ensures Assign(ArrayTable(vs), Index(|vs| + 1), v) == ArrayTable(vs + [v])
  {
    var t, u := Assign(ArrayTable(vs), Index(|vs| + 1), v), ArrayTable(vs + [v]);
    forall k: Key ensures Read(t, k) == Read(u, k) && (k in t <==> k in u) {
      if k.Index? {
        ArrayTableRead(vs, k.i);
        ArrayTableRead(vs + [v], k.i);
      }
    }
  }

  lemma ObjectTableExtend(ms: seq<Member>, m: Member)
    ensures Assign(ObjectTable(ms), Name(m.name), m.value) == ObjectTable(ms + [m])
  {
    var t, u := Assign(ObjectTable(ms), Name(m.name), m.value), ObjectTable(ms + [m]);
    forall k: Key ensures Read(t, k) == Read(u, k) && (k in t <==> k in u) {
      if k.Name? {
        ObjectTableRead(ms, k.s);
        ObjectTableRead(ms + [m], k.s);
        assert (ms + [m])[..|ms|] == ms;
      }
    }
  }

  /** The assignments `res[n] = v`, `res[n + 1] = ...` of the array loop. */
  function AssignElements(res: map<Key, Value>, n: int, vs: seq<Value>): map<Key, Value>
    decreases |vs|
  {
    if vs == [] then res else AssignElements(Assign(res, Index(n), vs[0]), n + 1, vs[1..])
  }

  /** The assignments `res[key] = val` of the object loop. */
  function AssignMembers(res: map<Key, Value>, ms: seq<Member>): map<Key, Value>
    decreases |ms|
  {
    if ms == [] then res else AssignMembers(Assign(res, Name(ms[0].name), ms[0].value), ms[1..])
  }

  /** The array loop builds the denoted table. */
  lemma {:induction false} AssignElementsFrom(done: seq<Value>, vs: seq<Value>)
    ensures AssignElements(ArrayTable(done), |done| + 1, vs) == ArrayTable(done + vs)
    decreases |vs|
  {
    if vs == [] {
      assert done + vs == done;
    } else {
      ArrayTableExtend(done, vs[0]);
      AssignElementsFrom(done + [vs[0]], vs[1..]);
      assert done + [vs[0]] + vs[1..] == done + vs;
    }
  }

  /** The object loop builds the denoted table: later members win and nulls remove. */
  lemma {:induction false} AssignMembersFrom(done: seq<Member>, ms: seq<Member>)
    ensures AssignMembers(ObjectTable(done), ms) == ObjectTable(done + ms)
    decreases |ms|
  {
    if ms == [] {
      assert done + ms == done;
    } else {
      ObjectTableExtend(done, ms[0]);
      AssignMembersFrom(done + [ms[0]], ms[1..]);
      assert done + [ms[0]] + ms[1..] == done + ms;
    }
  }

  lemma AssignElementsIsTable(vs: seq<Value>)
    ensures AssignElements(map[], 1, vs) == ArrayTable(vs)
  {
    assert ArrayTable([]) == map[];
    AssignElementsFrom([], vs);
    assert [] + vs == vs;
  }

  lemma AssignMembersIsTable(ms: seq<Member>)
    ensures AssignMembers(map[], ms) == ObjectTable(ms)
  {
    assert ObjectTable([]) == map[];
    AssignMembersFrom([], ms);
    assert [] + ms == ms;
  }
}
