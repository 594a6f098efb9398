/** What `json.encode` prints is a JSON text of RFC 8259. */
module JsonOutput {
  import opened Text
  import opened JsonValue
  import opened JsonSyntax
  import opened JsonAgreement
  import opened JsonPrinter
  import opened JsonRfc
  import JsonStrings
  import E = JsonEncoder
  import JsonCycles

  /** Every number in `d` is printed as a number of RFC 8259 section 6. */
  ghost predicate NumbersRfc(lib: Library, d: Doc) {
    match d
    case Num(x) => IsRfcNumber(lib.format(x))
    case Arr(docs) => forall k :: 0 <= k < |docs| ==> NumbersRfc(lib, docs[k])
    case Obj(fields) => forall k :: 0 <= k < |fields| ==> NumbersRfc(lib, fields[k].value)
    case _ => true
  }

  lemma CharsRfc(s: string)
    ensures JsonStrings.RfcItems(CharItems(s)) && ItemsInRange(CharItems(s))
  {
    hide CharItem, ItemWellFormed, IsHighHex;
    forall item | item in CharItems(s)
      ensures ItemWellFormed(item) && !item.Pair? && (item.Unicode? ==> !IsHighHex(item.hex))
    {
      var k :| 0 <= k < |s| && CharItems(s)[k] == item;
      CharItemText(s[k]);
      NoPair(s[k]);
    }
    NoPairing(CharItems(s));
  }

  lemma NoPair(c: char)
    ensures !CharItem(c).Pair?
  {
  }

  /** Without high surrogates nothing is paired. */
  lemma {:induction false} NoPairing(items: seq<Item>)
    requires forall item :: item in items ==> !item.Pair? && (item.Unicode? ==> !IsHighHex(item.hex))
    ensures JsonStrings.Pairing(items) == items && ItemsInRange(items)
  {
    hide IsHighHex;
    if items != [] {
      assert items[0] in items && items == [items[0]] + items[1..];
      NoPairing(items[1..]);
    }
  }

  lemma {:induction false} TreeOfRfc(lib: Library, d: Doc)
    requires NumbersRfc(lib, d)
    ensures RfcTree(TreeOf(lib, d)) && InRange(TreeOf(lib, d))
    decreases d, 1
  {
    hide IsRfcNumber, JsonStrings.RfcItems, ItemsInRange;
    match d
    case Str(s) => CharsRfc(s);
    case Arr(docs) => ElementsOfRfc(lib, docs);
    case Obj(fields) => MembersOfRfc(lib, fields);
    case _ =>
  }

  lemma {:induction false} ElementsOfRfc(lib: Library, docs: seq<Doc>)
    requires forall k :: 0 <= k < |docs| ==> NumbersRfc(lib, docs[k])
    ensures RfcElements(ElementsOf(lib, docs)) && ElementsInRange(ElementsOf(lib, docs))
    ensures docs != [] ==> !ElementsOf(lib, docs).NoElement?
    decreases docs, 0
  {
    hide RfcTree, InRange, TreeOf, NumbersRfc;
    if docs != [] {
      TreeOfRfc(lib, docs[0]);
      ElementsOfRfc(lib, docs[1..]);
    }
  }

  lemma {:induction false} MembersOfRfc(lib: Library, fields: seq<Field>)
    requires forall k :: 0 <= k < |fields| ==> NumbersRfc(lib, fields[k].value)
    ensures RfcMembers(MembersOf(lib, fields)) && MembersInRange(MembersOf(lib, fields))
    ensures fields != [] ==> !MembersOf(lib, fields).NoMember?
    decreases fields, 0
  {
    hide RfcTree, InRange, TreeOf, NumbersRfc, JsonStrings.RfcItems, ItemsInRange;
    if fields != [] {
      var f := fields[0];
      TreeOfRfc(lib, f.value);
      CharsRfc(f.name);
      assert RfcEntry(EntryOf(lib, f));
      MembersOfRfc(lib, fields[1..]);
    }
  }

  /** Whatever the encoder prints without an error is the text of a derivation by the letter of RFC 8259, with no pair
      of escapes out of range, as long as the numbers are printed as the standard writes them. */
  lemma EncodedIsRfc(lib: Library, h: E.Heap, v: E.LuaValue, text: string) returns (d: Doc, t: Tree)
    requires E.HeapValid(h) && E.Allocated(h, v) && E.Encode(lib, h, v, {}) == E.Done(text)
    ensures JsonCycles.Unfolds(h, v, d) && TreeText(t) == text
    ensures NumbersRfc(lib, d) ==> RfcTree(t) && InRange(t)
  {
    hide E.HeapValid, E.Encode, JsonCycles.Unfolds, RfcTree, InRange, NumbersRfc, TreeOf, DocText, TreeText;
    d := JsonCycles.EncodeUnfolds(lib, h, v, {});
    t := TreeOf(lib, d);
    TreeOfText(lib, d);
    if NumbersRfc(lib, d) {
      TreeOfRfc(lib, d);
    }
  }

  lemma {:induction false} NaturalIsInt(n: nat)
    ensures IsInt(Natural(n)) && (n > 0 ==> Natural(n)[0] != '0')
  {
    if n < 10 {
      assert Natural(n) == [Digit(n)];
    } else {
      NaturalIsInt(n / 10);
      assert Natural(n) == Natural(n / 10) + [Digit(n % 10)];
      assert Natural(n)[0] == Natural(n / 10)[0];
      assert forall k :: 0 <= k < |Natural(n)| ==> Natural(n)[k] in Natural(n);
    }
  }

  /** Integers of up to 14 digits are printed as the standard writes them. */
  lemma IntegersRfc(lib: Library, n: int)
    requires CIntegers(lib) && -100000000000000 < n < 100000000000000
    ensures IsRfcNumber(lib.format(n as real))
  {
    var whole := Natural(if n < 0 then -n else n);
    NaturalIsInt(if n < 0 then -n else n);
    var sign := if n < 0 then "-" else "";
    hide IsInt, Natural;
    var t := lib.format(n as real);
    assert t == Integer(n) == sign + whole;
    assert sign + whole + "" + "" == sign + whole;
    assert NumberParts(t, sign, whole, "", "");
  }
}
