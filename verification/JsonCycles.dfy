/** When `json.encode` succeeds, what it then prints, and when it reports a circular reference. */
module JsonCycles {
  import opened Text
  import opened JsonValue
  import opened JsonPrinter
  import opened JsonEncoder
  import JsonParser

  // --- Unfolding -------------------------------------------------------------

  /** `d` is the finite tree that walking from `v` unfolds: list tables through `ipairs`, others through
      `pairs` with string keys. */
  ghost predicate Unfolds(h: Heap, v: LuaValue, d: Doc)
    decreases d
  {
    match v
    case LNil => d == Null
    case LBool(b) => d == Bool(b)
    case LNumber(n) => n.Finite? && d == Num(n.x)
    case LString(s) => d == Str(s)
    case LOther => false
    case LTable(r) =>
      r in h &&
      if h[r].IsArray() then
        var vs := Ipairs(h[r], 1);
        d.Arr? && |d.docs| == |vs| && forall k :: 0 <= k < |vs| ==> Unfolds(h, vs[k], d.docs[k])
      else
        var slots := h[r].slots;
        && d.Obj? && |d.fields| == |slots|
        && forall k :: 0 <= k < |slots| ==>
             slots[k].key == KString(d.fields[k].name) && Unfolds(h, slots[k].value, d.fields[k].value)
  }

  /** A successful encoding is the text of a finite unfolding. */
  lemma {:induction false} EncodeUnfolds(lib: Library, h: Heap, v: LuaValue, stack: set<Ref>) returns (d: Doc)
    requires HeapValid(h) && Allocated(h, v) && Encode(lib, h, v, stack).Done?
    ensures Unfolds(h, v, d) && Encode(lib, h, v, stack) == Done(DocText(lib, d))
    decreases h.Keys - stack, 1
  {
    hide EncodeItems, EncodeSlots, Ipairs, Find, Join;
    match v
    case LNil => d := Null;
    case LBool(b) => d := Bool(b);
    case LNumber(n) => d := Num(n.x);
    case LString(s) => d := Str(s);
    case LTable(r) =>
      if h[r].IsArray() {
        var vs := Ipairs(h[r], 1);
        forall k | 0 <= k < |vs| ensures Allocated(h, vs[k]) {
          IpairsAllocated(h, r, k);
        }
        var docs := ItemsUnfold(lib, h, vs, stack + {r}, []);
        assert [] + DocTexts(lib, docs) == DocTexts(lib, docs);
        d := Arr(docs);
      } else {
        var fields := SlotsUnfold(lib, h, h[r].slots, stack + {r}, []);
        assert [] + FieldTexts(lib, fields) == FieldTexts(lib, fields);
        d := Obj(fields);
      }
  }

  lemma {:induction false} ItemsUnfold(
      lib: Library, h: Heap, vs: seq<LuaValue>, stack: set<Ref>, res: seq<string>) returns (docs: seq<Doc>)
    requires HeapValid(h) && forall k :: 0 <= k < |vs| ==> Allocated(h, vs[k])
    requires EncodeItems(lib, h, vs, stack, res).Done?
    ensures |docs| == |vs| && forall k :: 0 <= k < |vs| ==> Unfolds(h, vs[k], docs[k])
    ensures EncodeItems(lib, h, vs, stack, res) == Done(res + DocTexts(lib, docs))
    decreases h.Keys - stack, 2, |vs|
  {
    hide Encode, Unfolds, DocText;
    if vs == [] {
      docs := [];
      assert res + [] == res;
    } else {
      var d := EncodeUnfolds(lib, h, vs[0], stack);
      var text := DocText(lib, d);
      var rest := ItemsUnfold(lib, h, vs[1..], stack, res + [text]);
      docs := [d] + rest;
      assert docs[1..] == rest;
      assert res + [text] + DocTexts(lib, rest) == res + DocTexts(lib, docs);
    }
  }

  lemma {:induction false} SlotsUnfold(
      lib: Library, h: Heap, slots: seq<Slot>, stack: set<Ref>, res: seq<string>) returns (fields: seq<Field>)
    requires HeapValid(h) && forall k :: 0 <= k < |slots| ==> Allocated(h, slots[k].value)
    requires EncodeSlots(lib, h, slots, stack, res).Done?
    ensures |fields| == |slots| && forall k :: 0 <= k < |slots| ==>
      slots[k].key == KString(fields[k].name) && Unfolds(h, slots[k].value, fields[k].value)
    ensures EncodeSlots(lib, h, slots, stack, res) == Done(res + FieldTexts(lib, fields))
    decreases h.Keys - stack, 2, |slots|
  {
    hide Encode, Unfolds, DocText, EncodeString;
    if slots == [] {
      fields := [];
      assert res + [] == res;
    } else {
      var d := EncodeUnfolds(lib, h, slots[0].value, stack);
      var f := Field(slots[0].key.s, d);
      var text := FieldText(lib, f);
      var rest := SlotsUnfold(lib, h, slots[1..], stack, res + [text]);
      fields := [f] + rest;
      assert fields[1..] == rest;
      assert res + [text] + FieldTexts(lib, rest) == res + FieldTexts(lib, fields);
    }
  }

  // --- What the encoder checks -----------------------------------------------

  /** The values that encoding the table visits. */
  ghost function Walked(t: LuaTable): seq<LuaValue> {
    if t.IsArray() then Ipairs(t, 1) else seq(|t.slots|, k requires 0 <= k < |t.slots| => t.slots[k].value)
  }

  predicate Printable(v: LuaValue) {
    !v.LOther? && (v.LNumber? ==> v.n.Finite?)
  }

  /** The table passes the checks on its keys and its length. */
  ghost predicate Checked(t: LuaTable) {
    if t.IsArray() then (forall k :: 0 <= k < |t.slots| ==> t.slots[k].key.IsNumber()) && |t.slots| == t.border
    else forall k :: 0 <= k < |t.slots| ==> t.slots[k].key.KString?
  }

  /** The table can be encoded as far as it alone is concerned. */
  ghost predicate Accepted(h: Heap, r: Ref) {
    r in h && Checked(h[r]) && forall v :: v in Walked(h[r]) ==> Printable(v)
  }

  lemma WalkedAllocated(h: Heap, r: Ref)
    requires HeapValid(h) && r in h
    ensures forall v :: v in Walked(h[r]) ==> Allocated(h, v)
  {
    forall v | v in Walked(h[r]) ensures Allocated(h, v) {
      var k :| 0 <= k < |Walked(h[r])| && Walked(h[r])[k] == v;
      if h[r].IsArray() {
        IpairsAllocated(h, r, k);
      }
    }
  }

  // --- One level of the encoder ----------------------------------------------

  lemma {:induction false} ItemsOutcome(
      lib: Library, h: Heap, vs: seq<LuaValue>, stack: set<Ref>, res: seq<string>)
    requires HeapValid(h) && forall k :: 0 <= k < |vs| ==> Allocated(h, vs[k])
    ensures EncodeItems(lib, h, vs, stack, res).Done? <==> forall v :: v in vs ==> Encode(lib, h, v, stack).Done?
    ensures var e := EncodeItems(lib, h, vs, stack, res);
      e.Failed? ==> exists v :: v in vs && Encode(lib, h, v, stack) == Failed(e.error)
    decreases |vs|
  {
    hide Encode, HeapValid;
    if vs != [] {
      assert vs[0] in vs && forall v :: v in vs <==> v == vs[0] || v in vs[1..];
      var first := Encode(lib, h, vs[0], stack);
      if first.Done? {
        ItemsOutcome(lib, h, vs[1..], stack, res + [first.value]);
      }
    }
  }

  lemma {:induction false} SlotsOutcome(
      lib: Library, h: Heap, slots: seq<Slot>, stack: set<Ref>, res: seq<string>)
    requires HeapValid(h) && forall k :: 0 <= k < |slots| ==> Allocated(h, slots[k].value)
    ensures EncodeSlots(lib, h, slots, stack, res).Done? <==>
      forall x :: x in slots ==> x.key.KString? && Encode(lib, h, x.value, stack).Done?
    ensures var e := EncodeSlots(lib, h, slots, stack, res);
      e.Failed? ==>
        || (exists x :: x in slots && Encode(lib, h, x.value, stack) == Failed(e.error))
        || (e.error == MixedKeys && exists x :: x in slots && !x.key.KString?)
    decreases |slots|
  {
    hide Encode, EncodeString, HeapValid;
    if slots != [] {
      assert slots[0] in slots && forall x :: x in slots <==> x == slots[0] || x in slots[1..];
      var first := Encode(lib, h, slots[0].value, stack);
      if slots[0].key.KString? && first.Done? {
        SlotsOutcome(lib, h, slots[1..], stack, res + [EncodeString(slots[0].key.s) + ":" + first.value]);
      }
    }
  }

  /** A table off the stack is encoded exactly if it passes its checks and everything it visits is encoded; it
      reports a circular reference only as one of the visited values does. */
  lemma TableOutcome(lib: Library, h: Heap, r: Ref, stack: set<Ref>)
    requires HeapValid(h) && r in h && r !in stack
    requires forall v :: v in Walked(h[r]) ==> Allocated(h, v)
    ensures Encode(lib, h, LTable(r), stack).Done? <==>
      Checked(h[r]) && forall v :: v in Walked(h[r]) ==> Encode(lib, h, v, stack + {r}).Done?
    ensures var e := Encode(lib, h, LTable(r), stack);
      e.Failed? ==>
        || (exists v :: v in Walked(h[r]) && Encode(lib, h, v, stack + {r}) == Failed(e.error))
        || (!Checked(h[r]) && e.error != CircularReference)
  {
    hide EncodeItems, EncodeSlots, Ipairs, Find;
    var t, S := h[r], stack + {r};
    if t.IsArray() {
      var vs := Ipairs(t, 1);
      assert vs == Walked(t);
      ItemsOutcome(lib, h, vs, S, []);
    } else {
      SlotsOutcome(lib, h, t.slots, S, []);
      ObjectOutcome(lib, h, t, S);
    }
  }

  lemma ObjectOutcome(lib: Library, h: Heap, t: LuaTable, stack: set<Ref>)
    requires HeapValid(h) && !t.IsArray() && forall k :: 0 <= k < |t.slots| ==> Allocated(h, t.slots[k].value)
    ensures forall v :: v in Walked(t) ==> Allocated(h, v)
    ensures (forall x :: x in t.slots ==> x.key.KString?) <==> Checked(t)
    ensures forall x :: x in t.slots ==> x.value in Walked(t)
    ensures forall v :: v in Walked(t) ==> exists x :: x in t.slots && x.value == v
  {
    forall v | v in Walked(t) ensures exists x :: x in t.slots && x.value == v {
      var k :| 0 <= k < |Walked(t)| && Walked(t)[k] == v;
      assert t.slots[k] in t.slots;
    }
    forall x | x in t.slots ensures x.value in Walked(t) {
      var k :| 0 <= k < |t.slots| && t.slots[k] == x;
      assert Walked(t)[k] == x.value;
    }
  }

  // --- Which error, and which text -------------------------------------------

  /** The encoding of everything that is no table, and of a table on the stack. */
  lemma LeafExactly(lib: Library, h: Heap, v: LuaValue, stack: set<Ref>)
    requires HeapValid(h) && Allocated(h, v)
    ensures Encode(lib, h, LNil, stack) == Done("null")
    ensures Encode(lib, h, LBool(true), stack) == Done("true") && Encode(lib, h, LBool(false), stack) == Done("false")
    ensures v.LString? ==> Encode(lib, h, v, stack) == Done(EncodeString(v.s))
    ensures v.LNumber? ==>
      Encode(lib, h, v, stack) == if v.n.Finite? then Done(lib.format(v.n.x)) else Failed(UnexpectedNumber)
    ensures v == LOther ==> Encode(lib, h, v, stack) == Failed(UnexpectedType)
    ensures v.LTable? && v.r in stack ==> Encode(lib, h, v, stack) == Failed(CircularReference)
  {
    hide EncodeItems, EncodeSlots;
  }

  /** The checks of the array branch come before anything is encoded: a key that is no number, then a count of keys
      that is not the border. */
  lemma ArrayChecks(lib: Library, h: Heap, r: Ref, stack: set<Ref>)
    requires HeapValid(h) && r in h && r !in stack && (h[r].Get(KInt(1)) != LNil || h[r].slots == [])
    ensures var slots := h[r].slots;
      && ((exists k :: 0 <= k < |slots| && !slots[k].key.KInt? && !slots[k].key.KFloat?) ==>
            Encode(lib, h, LTable(r), stack) == Failed(MixedKeys))
      && ((forall k :: 0 <= k < |slots| ==> slots[k].key.KInt? || slots[k].key.KFloat?) && |slots| != h[r].border ==>
            Encode(lib, h, LTable(r), stack) == Failed(SparseArray))
  {
    hide EncodeItems, EncodeSlots, Find, Ipairs;
    var slots := h[r].slots;
    if k :| 0 <= k < |slots| && !slots[k].key.KInt? && !slots[k].key.KFloat? {
      assert !slots[k].key.IsNumber();
    }
  }

  /** A table that passes these checks is encoded element by element, up to the first that fails. */
  lemma ArrayExactly(lib: Library, h: Heap, r: Ref, stack: set<Ref>, texts: seq<string>)
    requires HeapValid(h) && r in h && r !in stack && (h[r].Get(KInt(1)) != LNil || h[r].slots == [])
    requires |h[r].slots| == h[r].border
    requires forall k :: 0 <= k < |h[r].slots| ==> h[r].slots[k].key.KInt? || h[r].slots[k].key.KFloat?
    requires var vs := Ipairs(h[r], 1);
      && |texts| <= |vs| && (forall k :: 0 <= k < |vs| ==> Allocated(h, vs[k]))
      && forall k :: 0 <= k < |texts| ==> Encode(lib, h, vs[k], stack + {r}) == Done(texts[k])
    ensures var vs := Ipairs(h[r], 1);
      if |texts| == |vs| then Encode(lib, h, LTable(r), stack) == Done("[" + Join(texts, ",") + "]")
      else Encode(lib, h, vs[|texts|], stack + {r}).Failed? ==>
        Encode(lib, h, LTable(r), stack) == Encode(lib, h, vs[|texts|], stack + {r})
  {
    ItemsExactly(lib, h, Ipairs(h[r], 1), stack + {r}, [], texts);
    assert [] + texts == texts;
    hide EncodeItems, EncodeSlots, Find, Ipairs, Join;
  }

  lemma {:induction false} ItemsExactly(
      lib: Library, h: Heap, vs: seq<LuaValue>, stack: set<Ref>, res: seq<string>, texts: seq<string>)
    requires HeapValid(h) && (forall k :: 0 <= k < |vs| ==> Allocated(h, vs[k])) && |texts| <= |vs|
    requires forall k :: 0 <= k < |texts| ==> Encode(lib, h, vs[k], stack) == Done(texts[k])
    ensures |texts| == |vs| ==> EncodeItems(lib, h, vs, stack, res) == Done(res + texts)
    ensures |texts| < |vs| ==>
      match Encode(lib, h, vs[|texts|], stack)
      case Failed(e) => EncodeItems(lib, h, vs, stack, res) == Failed(e)
      case Done(_) => true
    decreases |vs|
  {
    hide Encode, HeapValid;
    if texts == [] {
      assert res + texts == res;
    } else {
      ItemsExactly(lib, h, vs[1..], stack, res + [texts[0]], texts[1..]);
      assert res + [texts[0]] + texts[1..] == res + texts;
    }
  }

  /** The object branch goes slot by slot, the key before the value, up to the first that fails; a key that is no
      string is only found there. */
  lemma ObjectExactly(lib: Library, h: Heap, r: Ref, stack: set<Ref>, texts: seq<string>)
    requires HeapValid(h) && r in h && r !in stack && h[r].Get(KInt(1)) == LNil && h[r].slots != []
    requires var slots := h[r].slots;
      && |texts| <= |slots| && (forall k :: 0 <= k < |slots| ==> Allocated(h, slots[k].value))
      && forall k :: 0 <= k < |texts| ==>
           slots[k].key.KString? && Encode(lib, h, slots[k].value, stack + {r}) == Done(texts[k])
    ensures var slots := h[r].slots;
      if |texts| == |slots| then
        Encode(lib, h, LTable(r), stack) == Done("{" + Join(SlotTexts(slots, texts), ",") + "}")
      else if !slots[|texts|].key.KString? then Encode(lib, h, LTable(r), stack) == Failed(MixedKeys)
      else Encode(lib, h, slots[|texts|].value, stack + {r}).Failed? ==>
        Encode(lib, h, LTable(r), stack) == Encode(lib, h, slots[|texts|].value, stack + {r})
  {
    var slots := h[r].slots;
    SlotsExactly(lib, h, slots, stack + {r}, [], texts);
    assert |texts| == |slots| ==> [] + SlotTexts(slots, texts) == SlotTexts(slots, texts);
    hide EncodeItems, EncodeSlots, Find, Ipairs, Join, EncodeString, SlotTexts;
  }

  /** The members of an object: each key, a colon, and the text of its value. */
  function SlotTexts(slots: seq<Slot>, texts: seq<string>): (r: seq<string>)
    requires |texts| <= |slots| && forall k :: 0 <= k < |texts| ==> slots[k].key.KString?
    ensures |r| == |texts| && forall k :: 0 <= k < |r| ==> r[k] == EncodeString(slots[k].key.s) + ":" + texts[k]
  {
    seq(|texts|, k requires 0 <= k < |texts| => EncodeString(slots[k].key.s) + ":" + texts[k])
  }

  lemma {:induction false} SlotsExactly(
      lib: Library, h: Heap, slots: seq<Slot>, stack: set<Ref>, res: seq<string>, texts: seq<string>)
    requires HeapValid(h) && (forall k :: 0 <= k < |slots| ==> Allocated(h, slots[k].value)) && |texts| <= |slots|
    requires forall k :: 0 <= k < |texts| ==>
      slots[k].key.KString? && Encode(lib, h, slots[k].value, stack) == Done(texts[k])
    ensures |texts| == |slots| ==> EncodeSlots(lib, h, slots, stack, res) == Done(res + SlotTexts(slots, texts))
    ensures |texts| < |slots| ==>
      if !slots[|texts|].key.KString? then EncodeSlots(lib, h, slots, stack, res) == Failed(MixedKeys)
      else
        match Encode(lib, h, slots[|texts|].value, stack)
        case Failed(e) => EncodeSlots(lib, h, slots, stack, res) == Failed(e)
        case Done(_) => true
    decreases |slots|
  {
    hide Encode, HeapValid, EncodeString, SlotTexts;
    if texts == [] {
      assert res + SlotTexts(slots, texts) == res;
    } else {
      var text := EncodeString(slots[0].key.s) + ":" + texts[0];
      SlotsExactly(lib, h, slots[1..], stack, res + [text], texts[1..]);
      assert |texts| == |slots| ==>
        res + [text] + SlotTexts(slots[1..], texts[1..]) == res + SlotTexts(slots, texts);
    }
  }

  // --- Cycles ----------------------------------------------------------------

  /** Encoding the table at `r` visits the table `c`. */
  ghost predicate Visits(h: Heap, r: Ref, c: Ref) {
    r in h && LTable(c) in Walked(h[r])
  }

  /** A chain of tables, each visited by the one before. */
  ghost predicate IsPath(h: Heap, p: seq<Ref>) {
    p != [] && forall k :: 0 <= k < |p| - 1 ==> Visits(h, p[k], p[k + 1])
  }

  ghost predicate Repeats(p: seq<Ref>) {
    exists j, k :: 0 <= j < k < |p| && p[j] == p[k]
  }

  /** Some chain from the value comes back to a table it has passed. */
  ghost predicate CycleReachable(h: Heap, v: LuaValue) {
    v.LTable? && exists p :: IsPath(h, p) && p[0] == v.r && Repeats(p)
  }

  /** The value is printable, and so is every table that a chain from it reaches. */
  ghost predicate AllAccepted(h: Heap, v: LuaValue) {
    Printable(v) && (v.LTable? ==> forall p :: IsPath(h, p) && p[0] == v.r ==> Accepted(h, p[|p| - 1]))
  }

  /** The outcome for anything but a table off the stack. */
  lemma LeafOutcome(lib: Library, h: Heap, v: LuaValue, stack: set<Ref>)
    requires HeapValid(h) && Allocated(h, v)
    ensures var e := Encode(lib, h, v, stack);
      && (e.Done? ==> Printable(v))
      && (!v.LTable? ==> (e.Done? <==> Printable(v)) && e != Failed(CircularReference))
      && (v.LTable? && v.r in stack ==> e == Failed(CircularReference))
  {
    hide EncodeItems, EncodeSlots;
  }

  /** A failure is either a circular reference, met along a chain that ends on the stack or on a table of the chain
      itself, or the fault of the table at the end of a chain, or of a value that is no table. */
  lemma {:induction false} FailureReason(lib: Library, h: Heap, v: LuaValue, stack: set<Ref>)
    returns (p: seq<Ref>)
    requires HeapValid(h) && Allocated(h, v) && Encode(lib, h, v, stack).Failed?
    ensures var e := Encode(lib, h, v, stack).error;
      if !v.LTable? then !Printable(v) && e != CircularReference
      else
        && IsPath(h, p) && p[0] == v.r
        && if e == CircularReference then p[|p| - 1] in stack || Repeats(p) else !Accepted(h, p[|p| - 1])
    decreases h.Keys - stack
  {
    hide Encode, Walked, Checked, HeapValid, Repeats, IsPath;
    LeafOutcome(lib, h, v, stack);
    if !v.LTable? {
      return [];
    }
    var r := v.r;
    p := [r];
    SinglePath(h, r);
    if r !in stack {
      WalkedAllocated(h, r);
      TableOutcome(lib, h, r, stack);
      var e := Encode(lib, h, v, stack);
      if c :| c in Walked(h[r]) && Encode(lib, h, c, stack + {r}) == Failed(e.error) {
        var q := FailureReason(lib, h, c, stack + {r});
        if c.LTable? {
          p := [r] + q;
          PathNotEmpty(h, q);
          ExtendPath(h, r, q);
        } else {
          LeafOutcome(lib, h, c, stack + {r});
        }
      }
    }
  }

  lemma PathNotEmpty(h: Heap, q: seq<Ref>)
    requires IsPath(h, q)
    ensures q != [] && q[|q| - 1] in q
  {
  }

  lemma SinglePath(h: Heap, r: Ref)
    ensures IsPath(h, [r])
  {
  }

  lemma ExtendPath(h: Heap, r: Ref, q: seq<Ref>)
    requires IsPath(h, q)
    ensures Visits(h, r, q[0]) ==> IsPath(h, [r] + q)
    ensures Repeats([r] + q) <==> Repeats(q) || r in q
  {
    hide Visits;
    var p := [r] + q;
    forall k | 0 <= k < |p| - 1 && Visits(h, r, q[0]) ensures Visits(h, p[k], p[k + 1]) {
      if k > 0 {
        assert Visits(h, q[k - 1], q[(k - 1) + 1]);
      }
    }
    if Repeats(q) {
      var j, k :| 0 <= j < k < |q| && q[j] == q[k];
      assert p[j + 1] == p[k + 1];
    }
    if r in q {
      var k :| 0 <= k < |q| && q[k] == r;
      assert p[0] == p[k + 1];
    }
    if Repeats(p) {
      var j, k :| 0 <= j < k < |p| && p[j] == p[k];
      assert q[k - 1] == p[k];
      if j > 0 {
        assert q[j - 1] == p[j];
      }
    }
  }

  lemma PathRest(h: Heap, p: seq<Ref>)
    requires IsPath(h, p) && |p| > 1
    ensures IsPath(h, p[1..]) && Visits(h, p[0], p[1])
  {
    hide Visits;
    var q := p[1..];
    assert Visits(h, p[0], p[0 + 1]);
    forall k | 0 <= k < |q| - 1 ensures Visits(h, q[k], q[k + 1]) {
      assert Visits(h, p[k + 1], p[k + 1 + 1]);
    }
  }

  /** A successful encoding met only accepted tables along any chain, none of them twice, and none of the stack. */
  lemma {:induction false} SuccessIsAcyclic(lib: Library, h: Heap, stack: set<Ref>, p: seq<Ref>)
    requires HeapValid(h) && IsPath(h, p) && p[0] in h
    requires Encode(lib, h, LTable(p[0]), stack).Done?
    ensures (forall k :: 0 <= k < |p| ==> p[k] !in stack && Accepted(h, p[k])) && !Repeats(p)
    decreases |p|
  {
    PathNotEmpty(h, p);
    hide EncodeItems, EncodeSlots, Ipairs, Find, Walked, Checked, IsPath;
    var r := p[0];
    assert r !in stack;
    WalkedAllocated(h, r);
    TableOutcome(lib, h, r, stack);
    hide Encode, EncodeTable, HeapValid;
    forall v | v in Walked(h[r]) ensures Printable(v) {
      LeafOutcome(lib, h, v, stack + {r});
    }
    assert Accepted(h, r);
    if |p| > 1 {
      var q := p[1..];
      PathRest(h, p);
      SuccessIsAcyclic(lib, h, stack + {r}, q);
      assert p == [r] + q && forall k :: 0 <= k < |q| ==> q[k] !in stack + {r};
      ExtendPath(h, r, q);
    }
  }

  /** On every heap, shared or cyclic: encoding succeeds exactly if all it reaches is accepted and no cycle is
      reachable, and a circular reference is reported only if there is one. */
  lemma EncodeSucceedsExactly(lib: Library, h: Heap, v: LuaValue)
    requires HeapValid(h) && Allocated(h, v)
    ensures Encode(lib, h, v, {}).Done? <==> AllAccepted(h, v) && !CycleReachable(h, v)
    ensures Encode(lib, h, v, {}) == Failed(CircularReference) ==> CycleReachable(h, v)
  {
    assert forall p :: IsPath(h, p) ==> p != [];
    hide Encode, HeapValid, Accepted, IsPath, Repeats;
    LeafOutcome(lib, h, v, {});
    if Encode(lib, h, v, {}).Failed? {
      var p := FailureReason(lib, h, v, {});
    } else if v.LTable? {
      forall p | IsPath(h, p) && p[0] == v.r ensures Accepted(h, p[|p| - 1]) && !Repeats(p) {
        SuccessIsAcyclic(lib, h, {}, p);
      }
    }
  }

  /** If all that the value reaches is accepted, encoding raises "circular reference" exactly if a cycle is reachable
      from the value, and otherwise succeeds. */
  lemma CircularExactly(lib: Library, h: Heap, v: LuaValue)
    requires HeapValid(h) && Allocated(h, v) && AllAccepted(h, v)
    ensures CycleReachable(h, v) <==> Encode(lib, h, v, {}) == Failed(CircularReference)
    ensures !CycleReachable(h, v) <==> Encode(lib, h, v, {}).Done?
  {
    hide Encode, HeapValid, Accepted, Repeats;
    EncodeSucceedsExactly(lib, h, v);
    if Encode(lib, h, v, {}).Failed? {
      var p := FailureReason(lib, h, v, {});
    }
  }

  // --- Well-formed tables ----------------------------------------------------

  /** A table the encoder prints in full: the keys are 1 to n, or they are all strings. */
  ghost predicate IsProperList(t: LuaTable) {
    && (forall k :: 0 <= k < |t.slots| ==> t.slots[k].key.KInt? && 1 <= t.slots[k].key.i <= |t.slots|)
    && forall i :: 1 <= i <= |t.slots| ==> t.Get(KInt(i)) != LNil
  }

  ghost predicate IsProperObject(t: LuaTable) {
    t.slots != [] && forall k :: 0 <= k < |t.slots| ==> t.slots[k].key.KString?
  }

  lemma ProperListWalk(t: LuaTable)
    requires TableValid(t) && IsProperList(t)
    ensures t.IsArray() && t.border == |t.slots| == |Ipairs(t, 1)|
  {
    var n, m := |t.slots|, |Ipairs(t, 1)|;
    assert t.Get(KInt(1 + m)) == LNil;
    if m > 0 {
      assert Ipairs(t, 1)[m - 1] == t.Get(KInt(1 + (m - 1)));
      FindSlot(t.slots, KInt(m));
    }
    assert m == n;
    FindSlot(t.slots, KInt(t.border));
    assert t.border < n ==> t.Get(KInt(t.border + 1)) != LNil;
    assert n > 0 ==> t.Get(KInt(1)) != LNil;
  }

  lemma ProperObjectWalk(t: LuaTable)
    requires TableValid(t) && IsProperObject(t)
    ensures !t.IsArray()
  {
    FindSlot(t.slots, KInt(1));
  }

  lemma ListWalkedIsStored(t: LuaTable, v: LuaValue)
    requires TableValid(t) && IsProperList(t)
    ensures v in Ipairs(t, 1) <==> exists k :: 0 <= k < |t.slots| && t.slots[k].value == v
  {
    hide Find;
    ProperListWalk(t);
    var vs := Ipairs(t, 1);
    if v in vs {
      var i :| 0 <= i < |vs| && vs[i] == v;
      FindSlot(t.slots, KInt(1 + i));
    }
    if k :| 0 <= k < |t.slots| && t.slots[k].value == v {
      SlotFound(t.slots, k);
      var i := t.slots[k].key.i - 1;
      assert vs[i] == t.Get(KInt(1 + i));
    }
  }

  /** A proper table passes the checks, and the visited values are the stored values. */
  lemma ProperIsChecked(t: LuaTable, v: LuaValue)
    requires TableValid(t) && (IsProperList(t) || IsProperObject(t))
    ensures Checked(t)
    ensures v in Walked(t) <==> exists k :: 0 <= k < |t.slots| && t.slots[k].value == v
  {
    hide Find, Ipairs;
    if IsProperList(t) {
      ProperListWalk(t);
      ListWalkedIsStored(t, v);
    } else {
      ProperObjectWalk(t);
      if k :| 0 <= k < |t.slots| && t.slots[k].value == v {
        assert Walked(t)[k] == v;
      }
    }
  }

  // --- Round trip from the heap ----------------------------------------------

  /** The table value of an unfolding, without sharing. */
  ghost function DocValue(d: Doc): Value
    decreases d, 1
  {
    match d
    case Null => Nil
    case Bool(b) => Boolean(b)
    case Num(x) => Number(x)
    case Str(s) => String(s)
    case Arr(docs) => Table(ArrayTable(DocValues(docs)))
    case Obj(fields) => Table(ObjectTable(FieldValues(fields)))
  }

  ghost function DocValues(docs: seq<Doc>): (r: seq<Value>)
    ensures |r| == |docs| && forall k :: 0 <= k < |docs| ==> r[k] == DocValue(docs[k])
    decreases docs, 0
  {
    if docs == [] then [] else [DocValue(docs[0])] + DocValues(docs[1..])
  }

  ghost function FieldValues(fields: seq<Field>): (r: seq<Member>)
    ensures |r| == |fields|
    ensures forall k :: 0 <= k < |fields| ==> r[k] == JsonValue.Member(fields[k].name, DocValue(fields[k].value))
    decreases fields, 0
  {
    if fields == [] then []
    else [JsonValue.Member(fields[0].name, DocValue(fields[0].value))] + FieldValues(fields[1..])
  }

  lemma ArrayTableKeys(vs: seq<Value>)
    requires forall k :: 0 <= k < |vs| ==> vs[k] != Nil
    ensures forall key :: key in ArrayTable(vs) <==> key.Index? && 1 <= key.i <= |vs|
    ensures forall k :: 0 <= k < |vs| ==> Index(k + 1) in ArrayTable(vs) && ArrayTable(vs)[Index(k + 1)] == vs[k]
  {
    forall key ensures key in ArrayTable(vs) <==> key.Index? && 1 <= key.i <= |vs| {
      if key.Index? {
        ArrayTableRead(vs, key.i);
        if 1 <= key.i <= |vs| {
          assert vs[key.i - 1] != Nil;
        }
      }
    }
    forall k | 0 <= k < |vs|
      ensures Index(k + 1) in ArrayTable(vs) && ArrayTable(vs)[Index(k + 1)] == vs[k]
    {
      ArrayTableRead(vs, k + 1);
    }
  }

  lemma ObjectTableKeys(ms: seq<Member>)
    requires forall k :: 0 <= k < |ms| ==> ms[k].value != Nil
    requires forall i, j :: 0 <= i < j < |ms| ==> ms[i].name != ms[j].name
    ensures forall key :: key in ObjectTable(ms) <==>
      key.Name? && exists k :: 0 <= k < |ms| && ms[k].name == key.s
    ensures forall k :: 0 <= k < |ms| ==>
      Name(ms[k].name) in ObjectTable(ms) && ObjectTable(ms)[Name(ms[k].name)] == ms[k].value
  {
    forall k | 0 <= k < |ms|
      ensures Name(ms[k].name) in ObjectTable(ms) && ObjectTable(ms)[Name(ms[k].name)] == ms[k].value
    {
      LastOfDistinct(ms, k);
      ObjectTableRead(ms, ms[k].name);
    }
  }

  /** What a value of a valid heap unfolds to represents that unfolding's table value. */
  lemma {:induction false} UnfoldingRepresents(h: Heap, v: LuaValue, d: Doc)
    requires HeapValid(h) && Unfolds(h, v, d)
    ensures Represents(DocValue(d), d) && (v != LNil ==> d != Null && DocValue(d) != Nil)
    decreases d, 1
  {
    hide ArrayTable, ObjectTable, Ipairs, Find;
    match v
    case LTable(r) =>
      if h[r].IsArray() {
        UnfoldingOfList(h, r, d);
      } else {
        UnfoldingOfObject(h, r, d);
      }
    case _ =>
  }

  lemma {:induction false} UnfoldingOfList(h: Heap, r: Ref, d: Doc)
    requires HeapValid(h) && Unfolds(h, LTable(r), d) && h[r].IsArray()
    ensures Represents(DocValue(d), d) && d != Null && DocValue(d) != Nil
    decreases d, 0
  {
    hide ArrayTable, ObjectTable, Ipairs, Find, Represents, HeapValid;
    var vs := Ipairs(h[r], 1);
    forall k | 0 <= k < |d.docs|
      ensures Represents(DocValue(d.docs[k]), d.docs[k]) && d.docs[k] != Null && DocValue(d.docs[k]) != Nil
    {
      UnfoldingRepresents(h, vs[k], d.docs[k]);
    }
    RepresentsList(d.docs);
  }

  lemma {:induction false} UnfoldingOfObject(h: Heap, r: Ref, d: Doc)
    requires HeapValid(h) && Unfolds(h, LTable(r), d) && !h[r].IsArray()
    ensures Represents(DocValue(d), d) && d != Null && DocValue(d) != Nil
    decreases d, 0
  {
    hide ArrayTable, ObjectTable, Ipairs, Find, Represents, HeapValid, Unfolds, DocValue;
    ObjectShape(h, r, d);
    var t, ms := h[r], FieldValues(d.fields);
    forall k | 0 <= k < |d.fields|
      ensures Represents(DocValue(d.fields[k].value), d.fields[k].value)
      ensures d.fields[k].value != Null && DocValue(d.fields[k].value) != Nil
    {
      UnfoldingRepresents(h, t.slots[k].value, d.fields[k].value);
    }
    forall i, j | 0 <= i < j < |ms| ensures ms[i].name != ms[j].name {
      assert ms[i].name == d.fields[i].name && ms[j].name == d.fields[j].name;
    }
    ObjectTableKeys(ms);
    RepresentsObject(d, ms);
    ObjectValue(d);
  }

  lemma ObjectValue(d: Doc)
    requires d.Obj?
    ensures DocValue(d) == Table(ObjectTable(FieldValues(d.fields)))
  {
  }

  lemma ObjectShape(h: Heap, r: Ref, d: Doc)
    requires HeapValid(h) && Unfolds(h, LTable(r), d) && !h[r].IsArray()
    ensures r in h && var slots := h[r].slots;
      && d.Obj? && slots != [] && |d.fields| == |slots|
      && (forall i, j :: 0 <= i < j < |slots| ==> d.fields[i].name != d.fields[j].name)
      && forall k :: 0 <= k < |slots| ==> slots[k].value != LNil && Unfolds(h, slots[k].value, d.fields[k].value)
  {
    hide Find;
    var slots := h[r].slots;
    assert TableValid(h[r]);
    forall i, j | 0 <= i < j < |slots| ensures d.fields[i].name != d.fields[j].name {
      assert slots[i].key != slots[j].key;
    }
  }

  lemma RepresentsList(docs: seq<Doc>)
    requires forall k :: 0 <= k < |docs| ==>
      Represents(DocValue(docs[k]), docs[k]) && docs[k] != Null && DocValue(docs[k]) != Nil
    ensures Represents(DocValue(Arr(docs)), Arr(docs))
  {
    hide ArrayTable;
    ArrayTableKeys(DocValues(docs));
  }

  lemma RepresentsObject(d: Doc, ms: seq<Member>)
    requires d.Obj? && d.fields != [] && |ms| == |d.fields|
    requires forall k :: 0 <= k < |ms| ==> ms[k] == JsonValue.Member(d.fields[k].name, DocValue(d.fields[k].value))
    requires forall k :: 0 <= k < |ms| ==>
      d.fields[k].value != Null && Represents(DocValue(d.fields[k].value), d.fields[k].value)
    requires forall i, j :: 0 <= i < j < |ms| ==> ms[i].name != ms[j].name
    requires forall key :: key in ObjectTable(ms) <==>
      key.Name? && exists k :: 0 <= k < |ms| && ms[k].name == key.s
    requires forall k :: 0 <= k < |ms| ==>
      Name(ms[k].name) in ObjectTable(ms) && ObjectTable(ms)[Name(ms[k].name)] == ms[k].value
    ensures Represents(Table(ObjectTable(ms)), d)
  {
    hide ObjectTable;
    forall key ensures key in ObjectTable(ms) <==>
      key.Name? && exists k :: 0 <= k < |d.fields| && d.fields[k].name == key.s
    {
      if key.Name? && exists k :: 0 <= k < |ms| && ms[k].name == key.s {
        var k :| 0 <= k < |ms| && ms[k].name == key.s;
        assert d.fields[k].name == key.s;
      }
      if key.Name? && exists k :: 0 <= k < |d.fields| && d.fields[k].name == key.s {
        var k :| 0 <= k < |d.fields| && d.fields[k].name == key.s;
        assert ms[k].name == key.s;
      }
    }
    forall j, k | 0 <= j < k < |d.fields| ensures d.fields[j].name != d.fields[k].name {
      assert ms[j].name != ms[k].name;
    }
    forall k | 0 <= k < |d.fields|
      ensures Name(d.fields[k].name) in ObjectTable(ms)
      ensures ObjectTable(ms)[Name(d.fields[k].name)] == DocValue(d.fields[k].value)
    {
      assert ms[k].name == d.fields[k].name;
    }
  }

  /** Whatever heap value is encoded without an error, decoding the text gives its unfolded value. */
  lemma EncodeDecode(lib: Library, h: Heap, v: LuaValue, text: string) returns (d: Doc)
    requires HeapValid(h) && Allocated(h, v) && Encode(lib, h, v, {}) == Done(text)
    ensures Unfolds(h, v, d) && text == DocText(lib, d)
    ensures AllFaithful(lib, d) ==> JsonParser.Decode(lib, text) == JsonParser.Decoded.Value(DocValue(d))
  {
    hide HeapValid, Encode, Unfolds, DocText, DocValue, AllFaithful, JsonParser.Decode, Represents;
    d := EncodeUnfolds(lib, h, v, {});
    UnfoldingRepresents(h, v, d);
    if AllFaithful(lib, d) {
      RoundTrip(lib, DocValue(d), d);
    }
  }

  // --- Tables that are not lists ---------------------------------------------

  function KeySet(slots: seq<Slot>): set<LuaKey> {
    set k | 0 <= k < |slots| :: slots[k].key
  }

  lemma {:induction false} KeyCount(slots: seq<Slot>)
    requires forall j, k :: 0 <= j < k < |slots| ==> slots[j].key != slots[k].key
    ensures |KeySet(slots)| == |slots|
  {
    if slots != [] {
      var rest := slots[1..];
      KeyCount(rest);
      assert slots[0].key !in KeySet(rest);
      assert KeySet(slots) == KeySet(rest) + {slots[0].key} by {
        forall key ensures key in KeySet(slots) <==> key in KeySet(rest) + {slots[0].key} {
          if k :| 0 <= k < |slots| && slots[k].key == key {
            assert k > 0 ==> rest[k - 1].key == key;
          }
          if k :| 0 <= k < |rest| && rest[k].key == key {
            assert slots[k + 1].key == key;
          }
        }
      }
    }
  }

  lemma {:induction false} IntegerKeys(n: nat) returns (ks: set<LuaKey>)
    ensures |ks| == n && forall key :: key in ks <==> key.KInt? && 1 <= key.i <= n
  {
    if n == 0 {
      ks := {};
    } else {
      var below := IntegerKeys(n - 1);
      ks := below + {KInt(n)};
    }
  }

  lemma SubsetOfSameSize<T>(a: set<T>, b: set<T>)
    requires a <= b && |a| == |b|
    ensures a == b
  {
    if x :| x in b && x !in a {
      assert a <= b - {x} && |b - {x}| == |b| - 1;
      SubsetSize(a, b - {x});
      assert false;
    }
  }

  lemma {:induction false} SubsetSize<T>(a: set<T>, b: set<T>)
    requires a <= b
    ensures |a| <= |b|
    decreases |a|
  {
    if x :| x in a {
      SubsetSize(a - {x}, b - {x});
    }
  }

  /** A table that the array branch accepts is printed in full exactly if its keys are 1 to n. The length
      check `n ~= #val` does not establish that, because `#` may be any border. */
  lemma AcceptedArrayComplete(t: LuaTable)
    requires TableValid(t) && t.IsArray() && |t.slots| == t.border
    ensures |Ipairs(t, 1)| == |t.slots| <==> IsProperList(t)
  {
    hide Find;
    var n := |t.slots|;
    if IsProperList(t) {
      ProperListWalk(t);
    }
    if |Ipairs(t, 1)| == n {
      var ks := IntegerKeys(n);
      forall i | 1 <= i <= n ensures t.Get(KInt(i)) != LNil && KInt(i) in KeySet(t.slots) {
        assert Ipairs(t, 1)[i - 1] == t.Get(KInt(1 + (i - 1)));
        FindSlot(t.slots, KInt(i));
      }
      assert ks <= KeySet(t.slots);
      KeyCount(t.slots);
      SubsetOfSameSize(ks, KeySet(t.slots));
      assert forall k :: 0 <= k < n ==> t.slots[k].key in KeySet(t.slots);
    }
  }

  const SPARSE: seq<Slot> :=
    [Slot(KInt(1), LBool(true)), Slot(KInt(3), LBool(true)), Slot(KInt(5), LBool(true))]

  lemma SparseReads()
    ensures var t := LuaTable(SPARSE, 3);
      && t.Get(KInt(1)) == LBool(true) && t.Get(KInt(2)) == LNil
      && t.Get(KInt(3)) == LBool(true) && t.Get(KInt(4)) == LNil
  {
    assert SPARSE[1..] == [Slot(KInt(3), LBool(true)), Slot(KInt(5), LBool(true))];
    assert SPARSE[1..][1..] == [Slot(KInt(5), LBool(true))];
    assert SPARSE[1..][1..][1..] == [];
  }

  lemma SparseWalk()
    ensures Ipairs(LuaTable(SPARSE, 3), 1) == [LBool(true)]
    ensures LuaTable(SPARSE, 3).IsArray()
  {
    SparseReads();
    hide Find;
    assert Ipairs(LuaTable(SPARSE, 3), 2) == [];
  }

  /** Keys 1, 3 and 5 with border 3: the encoder accepts the table and prints its first element only. */
  lemma SparseArrayAccepted(lib: Library)
    ensures var t := LuaTable(SPARSE, 3);
      HeapValid(map[0 := t]) && !IsProperList(t) && Encode(lib, map[0 := t], LTable(0), {}) == Done("[true]")
  {
    SparseReads();
    SparseWalk();
    hide Find, Ipairs;
    var t := LuaTable(SPARSE, 3);
    var h := map[0 := t];
    assert !IsProperList(t) by {
      assert SPARSE[2].key == KInt(5);
    }
    assert HeapValid(h);
    var vs := [LBool(true)];
    assert {} + {0} == {0};
    assert EncodeItems(lib, h, vs, {0}, []) == Done(["true"]) by {
      assert vs[1..] == [];
      assert [] + ["true"] == ["true"];
    }
    hide EncodeItems, Encode;
    assert EncodeTable(lib, h, 0, {}) == Done("[" + Join(["true"], ",") + "]");
    assert Join(["true"], ",") == "true" && "[" + "true" + "]" == "[true]";
    SparseTop(lib, h);
  }

  lemma SparseTop(lib: Library, h: Heap)
    requires HeapValid(h) && 0 in h
    ensures Encode(lib, h, LTable(0), {}) == EncodeTable(lib, h, 0, {})
  {
  }
}
