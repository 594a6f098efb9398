/** `json.encode` on a heap of Lua tables that may be shared or cyclic. */
module JsonEncoder {
  import opened Text
  import opened JsonValue
  import opened JsonPrinter

  // --- The heap --------------------------------------------------------------

  type Ref = nat

  datatype LuaNumber = Finite(x: real) | Infinite(negative: bool) | NaN

  datatype LuaValue =
    | LNil
    | LBool(b: bool)
    | LNumber(n: LuaNumber)
    | LString(s: string)
    | LTable(r: Ref)
    | LOther

  /** `KFloat` is a number key that is not an integer, `KOther` any other key. */
  datatype LuaKey = KInt(i: int) | KFloat(x: real) | KString(s: string) | KOther(id: nat) {
    predicate IsNumber() {
      KInt? || KFloat?
    }
  }

  datatype Slot = Slot(key: LuaKey, value: LuaValue)

  /** A table: its slots in the order in which `pairs` gives them, and the border that `#` returns. */
  datatype LuaTable = LuaTable(slots: seq<Slot>, border: nat) {
    /** The raw read `t[k]`. */
    function Get(k: LuaKey): LuaValue {
      Find(slots, k)
    }

    /** The test of `encode_table` for treating the table as an array. */
    predicate IsArray() {
      Get(KInt(1)) != LNil || slots == []
    }
  }

  type Heap = map<Ref, LuaTable>

  function Find(slots: seq<Slot>, k: LuaKey): LuaValue {
    if slots == [] then LNil
    else if slots[0].key == k then slots[0].value
    else Find(slots[1..], k)
  }

  /** Keys are distinct, no slot holds nil, and the border is one that Lua may report. */
  ghost predicate TableValid(t: LuaTable) {
    && (forall j, k :: 0 <= j < k < |t.slots| ==> t.slots[j].key != t.slots[k].key)
    && (forall k :: 0 <= k < |t.slots| ==> t.slots[k].value != LNil)
    && (t.border == 0 || t.Get(KInt(t.border)) != LNil) && t.Get(KInt(t.border + 1)) == LNil
  }

  ghost predicate Allocated(h: Heap, v: LuaValue) {
    v.LTable? ==> v.r in h
  }

  ghost predicate HeapValid(h: Heap) {
    forall r :: r in h ==>
      TableValid(h[r]) && forall k :: 0 <= k < |h[r].slots| ==> Allocated(h, h[r].slots[k].value)
  }

  lemma {:induction false} FindSlot(slots: seq<Slot>, k: LuaKey)
    ensures Find(slots, k) == LNil || exists j :: 0 <= j < |slots| && slots[j] == Slot(k, Find(slots, k))
  {
    if slots != [] && slots[0].key != k {
      FindSlot(slots[1..], k);
      if Find(slots, k) != LNil {
        var j :| 0 <= j < |slots[1..]| && slots[1..][j] == Slot(k, Find(slots, k));
        assert slots[j + 1] == Slot(k, Find(slots, k));
      }
    }
  }

  lemma {:induction false} SlotFound(slots: seq<Slot>, j: nat)
    requires j < |slots| && forall i, k :: 0 <= i < k < |slots| ==> slots[i].key != slots[k].key
    ensures Find(slots, slots[j].key) == slots[j].value
  {
    if j > 0 {
      SlotFound(slots[1..], j - 1);
    }
  }

  /** Bound on the integer keys, so that walking upwards ends. */
  function MaxKey(slots: seq<Slot>): (m: int)
    ensures forall k :: 0 <= k < |slots| && slots[k].key.KInt? ==> slots[k].key.i <= m
  {
    if slots == [] then 0
    else
      var m := MaxKey(slots[1..]);
      if slots[0].key.KInt? && slots[0].key.i > m then slots[0].key.i else m
  }

  /** What `ipairs` yields from index `i` on. */
  function Ipairs(t: LuaTable, i: int): (r: seq<LuaValue>)
    ensures forall k :: 0 <= k < |r| ==> r[k] == t.Get(KInt(i + k)) && r[k] != LNil
    ensures t.Get(KInt(i + |r|)) == LNil
    decreases MaxKey(t.slots) + 1 - i
  {
    FindSlot(t.slots, KInt(i));
    if t.Get(KInt(i)) == LNil then [] else [t.Get(KInt(i))] + Ipairs(t, i + 1)
  }

  lemma IpairsAllocated(h: Heap, r: Ref, k: nat)
    requires HeapValid(h) && r in h && k < |Ipairs(h[r], 1)|
    ensures Allocated(h, Ipairs(h[r], 1)[k])
  {
    FindSlot(h[r].slots, KInt(1 + k));
  }

  // --- The encoder as a function ---------------------------------------------

  datatype EncodeError = CircularReference | MixedKeys | SparseArray | UnexpectedNumber | UnexpectedType

  datatype Encoded<+T> = Done(value: T) | Failed(error: EncodeError)

  /** `encode(val, stack)`: `stack` holds the tables being encoded. The recursion ends because every
      nested table leaves fewer tables off the stack. */
  function Encode(lib: Library, h: Heap, v: LuaValue, stack: set<Ref>): Encoded<string>
    requires HeapValid(h) && Allocated(h, v)
    decreases h.Keys - stack, 1
  {
    match v
    case LNil => Done("null")
    case LBool(b) => Done(if b then "true" else "false")
    case LNumber(n) => if n.Finite? then Done(lib.format(n.x)) else Failed(UnexpectedNumber)
    case LString(s) => Done(EncodeString(s))
    case LTable(r) => EncodeTable(lib, h, r, stack)
    case LOther => Failed(UnexpectedType)
  }

  function EncodeTable(lib: Library, h: Heap, r: Ref, stack: set<Ref>): Encoded<string>
    requires HeapValid(h) && r in h
    decreases h.Keys - stack, 0
  {
    if r in stack then Failed(CircularReference)
    else if h[r].IsArray() then
      if exists k :: 0 <= k < |h[r].slots| && !h[r].slots[k].key.IsNumber() then Failed(MixedKeys)
      else if |h[r].slots| != h[r].border then Failed(SparseArray)
      else
        var vs := Ipairs(h[r], 1);
        assert forall k :: 0 <= k < |vs| ==> Allocated(h, vs[k]) by {
          forall k | 0 <= k < |vs| ensures Allocated(h, vs[k]) {
            IpairsAllocated(h, r, k);
          }
        }
        match EncodeItems(lib, h, vs, stack + {r}, [])
        case Failed(e) => Failed(e)
        case Done(texts) => Done("[" + Join(texts, ",") + "]")
    else
      match EncodeSlots(lib, h, h[r].slots, stack + {r}, [])
      case Failed(e) => Failed(e)
      case Done(texts) => Done("{" + Join(texts, ",") + "}")
  }

  /** The loop over `ipairs`, with the texts collected so far. */
  function EncodeItems(lib: Library, h: Heap, vs: seq<LuaValue>, stack: set<Ref>, res: seq<string>)
    : Encoded<seq<string>>
    requires HeapValid(h) && forall k :: 0 <= k < |vs| ==> Allocated(h, vs[k])
    decreases h.Keys - stack, 2, |vs|
  {
    if vs == [] then Done(res)
    else
      match Encode(lib, h, vs[0], stack)
      case Failed(e) => Failed(e)
      case Done(text) => EncodeItems(lib, h, vs[1..], stack, res + [text])
  }

  /** The loop over `pairs`, with the texts collected so far. */
  function EncodeSlots(lib: Library, h: Heap, slots: seq<Slot>, stack: set<Ref>, res: seq<string>)
    : Encoded<seq<string>>
    requires HeapValid(h) && forall k :: 0 <= k < |slots| ==> Allocated(h, slots[k].value)
    decreases h.Keys - stack, 2, |slots|
  {
    if slots == [] then Done(res)
    else if !slots[0].key.KString? then Failed(MixedKeys)
    else
      match Encode(lib, h, slots[0].value, stack)
      case Failed(e) => Failed(e)
      case Done(text) =>
        EncodeSlots(lib, h, slots[1..], stack, res + [EncodeString(slots[0].key.s) + ":" + text])
  }

  // --- The encoder as it runs ------------------------------------------------

  /** The recursion of `encode` with the one table `stack` that all calls share and mutate. */
  class Encoder {
    const lib: Library
    const heap: Heap
    var stack: set<Ref>

    constructor (lib: Library, heap: Heap)
      ensures this.lib == lib && this.heap == heap && stack == {}
    {
      this.lib := lib;
      this.heap := heap;
      stack := {};
    }

    method EncodeValue(v: LuaValue) returns (r: Encoded<string>)
      requires HeapValid(heap) && Allocated(heap, v)
      modifies this
      ensures r == Encode(lib, heap, v, old(stack))
      ensures r.Done? ==> stack == old(stack)
      decreases heap.Keys - stack, 1
    {
      match v
      case LNil => return Done("null");
      case LBool(b) => return Done(if b then "true" else "false");
      case LNumber(n) =>
        if !n.Finite? {
          return Failed(UnexpectedNumber);
        }
        return Done(lib.format(n.x));
      case LString(s) => return Done(EncodeString(s));
      case LTable(ref) => r := EncodeTableAt(ref);
      case LOther => return Failed(UnexpectedType);
    }

    method EncodeTableAt(r: Ref) returns (out: Encoded<string>)
      requires HeapValid(heap) && r in heap
      modifies this
      ensures out == EncodeTable(lib, heap, r, old(stack))
      ensures out.Done? ==> stack == old(stack)
      decreases heap.Keys - stack, 0
    {
      if r in stack {
        return Failed(CircularReference);
      }
      stack := stack + {r};
      var val, res := heap[r], [];
      if val.IsArray() {
        var n := 0;
        while n < |val.slots|
          invariant 0 <= n <= |val.slots|
          invariant forall k :: 0 <= k < n ==> val.slots[k].key.IsNumber()
        {
          if !val.slots[n].key.IsNumber() {
            return Failed(MixedKeys);
          }
          n := n + 1;
        }
        if n != val.border {
          return Failed(SparseArray);
        }
        var vs := Ipairs(val, 1);
        forall k | 0 <= k < |vs| ensures Allocated(heap, vs[k]) {
          IpairsAllocated(heap, r, k);
        }
        for i := 0 to |vs|
          invariant stack == old(stack) + {r}
          invariant EncodeItems(lib, heap, vs, old(stack) + {r}, [])
                 == EncodeItems(lib, heap, vs[i..], old(stack) + {r}, res)
        {
          var text := EncodeValue(vs[i]);
          if text.Failed? {
            return Failed(text.error);
          }
          res := res + [text.value];
          assert vs[i..][1..] == vs[i + 1..];
        }
        stack := stack - {r};
        return Done("[" + Join(res, ",") + "]");
      } else {
        for i := 0 to |val.slots|
          invariant stack == old(stack) + {r}
          invariant EncodeSlots(lib, heap, val.slots, old(stack) + {r}, [])
                 == EncodeSlots(lib, heap, val.slots[i..], old(stack) + {r}, res)
        {
          var slot := val.slots[i];
          if !slot.key.KString? {
            return Failed(MixedKeys);
          }
          var key := EncodeValue(LString(slot.key.s));
          var text := EncodeValue(slot.value);
          if text.Failed? {
            return Failed(text.error);
          }
          res := res + [key.value + ":" + text.value];
          assert val.slots[i..][1..] == val.slots[i + 1..];
        }
        stack := stack - {r};
        return Done("{" + Join(res, ",") + "}");
      }
    }
  }

  /** `json.encode`. */
  method EncodeTop(lib: Library, heap: Heap, v: LuaValue) returns (r: Encoded<string>)
    requires HeapValid(heap) && Allocated(heap, v)
    ensures r == Encode(lib, heap, v, {})
  {
    var e := new Encoder(lib, heap);
    r := e.EncodeValue(v);
  }
}
