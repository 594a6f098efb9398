/** Derivations by position: `XAt(s, i, x)` says that the text of `x` stands in `s` at `i`, spelled
    out character by character. This form has no concatenations, so the parser proofs use it. */
module JsonSpans {
  import opened Text
  import opened JsonSyntax

  function ItemLength(item: Item): nat {
    match item
    case Raw(_) => 1
    case Short(_) => 2
    case Unicode(h) => 2 + |h|
    case Pair(h, l) => 4 + |h| + |l|
  }

  function ItemsLength(items: seq<Item>): nat {
    if items == [] then 0 else ItemLength(items[0]) + ItemsLength(items[1..])
  }

  function StringLength(items: seq<Item>): nat {
    ItemsLength(items) + 2
  }

  function TreeLength(t: Tree): nat {
    match t
    case Numeral(token) => |token|
    case Literal(word) => |word|
    case Quoted(items) => StringLength(items)
    case Array(es) => 1 + ElementsLength(es)
    case Object(ms) => 1 + MembersLength(ms)
  }

  function ElementsLength(es: Elements): nat {
    match es
    case NoElement(w) => |w| + 1
    case LastElement(w1, v, w2) => |w1| + TreeLength(v) + |w2| + 1
    case MoreElements(w1, v, w2, rest) => |w1| + TreeLength(v) + |w2| + 1 + ElementsLength(rest)
  }

  function EntryLength(e: Entry): nat {
    |e.before| + StringLength(e.name) + |e.left| + 1 + |e.right| + TreeLength(e.value)
  }

  function MembersLength(ms: Members): nat {
    match ms
    case NoMember(w) => |w| + 1
    case LastMember(e, w) => EntryLength(e) + |w| + 1
    case MoreMembers(e, w, rest) => EntryLength(e) + |w| + 1 + MembersLength(rest)
  }

  predicate CharAt(s: string, i: nat, c: char) {
    i < |s| && s[i] == c
  }

  ghost predicate EscapeAt(s: string, i: nat, hex: string) {
    CharAt(s, i, '\\') && CharAt(s, i + 1, 'u') && At(s, i + 2, hex)
  }

  ghost predicate ItemAt(s: string, i: nat, item: Item) {
    match item
    case Raw(c) => CharAt(s, i, c)
    case Short(c) => CharAt(s, i, '\\') && CharAt(s, i + 1, c)
    case Unicode(h) => EscapeAt(s, i, h)
    case Pair(h, l) => EscapeAt(s, i, h) && EscapeAt(s, i + 2 + |h|, l)
  }

  ghost predicate ItemsAt(s: string, i: nat, items: seq<Item>)
    decreases |items|
  {
    if items == [] then i <= |s|
    else ItemAt(s, i, items[0]) && ItemsAt(s, i + ItemLength(items[0]), items[1..])
  }

  ghost predicate StringAt(s: string, i: nat, items: seq<Item>) {
    CharAt(s, i, '"') && ItemsAt(s, i + 1, items) && CharAt(s, i + 1 + ItemsLength(items), '"')
  }

  ghost predicate TreeAt(s: string, i: nat, t: Tree)
    decreases t, 0
  {
    match t
    case Numeral(token) => At(s, i, token)
    case Literal(word) => At(s, i, word)
    case Quoted(items) => StringAt(s, i, items)
    case Array(es) => CharAt(s, i, '[') && ElementsAt(s, i + 1, es)
    case Object(ms) => CharAt(s, i, '{') && MembersAt(s, i + 1, ms)
  }

  /** A value between two runs of space. */
  ghost predicate SpacedAt(s: string, i: nat, w1: string, v: Tree, w2: string)
    decreases v, 1
  {
    At(s, i, w1) && TreeAt(s, i + |w1|, v) && At(s, i + |w1| + TreeLength(v), w2)
  }

  ghost predicate ElementsAt(s: string, i: nat, es: Elements)
    decreases es, 0
  {
    match es
    case NoElement(w) => At(s, i, w) && CharAt(s, i + |w|, ']')
    case LastElement(w1, v, w2) =>
      SpacedAt(s, i, w1, v, w2) && CharAt(s, i + |w1| + TreeLength(v) + |w2|, ']')
    case MoreElements(w1, v, w2, rest) =>
      && SpacedAt(s, i, w1, v, w2) && CharAt(s, i + |w1| + TreeLength(v) + |w2|, ',')
      && ElementsAt(s, i + |w1| + TreeLength(v) + |w2| + 1, rest)
  }

  /** An entry followed by a run of space. */
  ghost predicate EntryAt(s: string, i: nat, e: Entry, w: string)
    decreases e, 0
  {
    var i1 := i + |e.before|;
    var i2 := i1 + StringLength(e.name);
    var i3 := i2 + |e.left|;
    && At(s, i, e.before) && StringAt(s, i1, e.name) && At(s, i2, e.left) && CharAt(s, i3, ':')
    && SpacedAt(s, i3 + 1, e.right, e.value, w)
  }

  ghost predicate MembersAt(s: string, i: nat, ms: Members)
    decreases ms, 0
  {
    match ms
    case NoMember(w) => At(s, i, w) && CharAt(s, i + |w|, '}')
    case LastMember(e, w) => EntryAt(s, i, e, w) && CharAt(s, i + EntryLength(e) + |w|, '}')
    case MoreMembers(e, w, rest) =>
      && EntryAt(s, i, e, w) && CharAt(s, i + EntryLength(e) + |w|, ',')
      && MembersAt(s, i + EntryLength(e) + |w| + 1, rest)
  }

  // --- The two forms agree ---------------------------------------------------

  lemma At3(s: string, i: nat, a: string, b: string, c: string)
    ensures At(s, i, a + b + c) <==> At(s, i, a) && At(s, i + |a|, b) && At(s, i + |a| + |b|, c)
  {
    AtAppend(s, i, a + b, c);
    AtAppend(s, i, a, b);
  }

  lemma AtChar(s: string, i: nat, c: char)
    ensures At(s, i, [c]) <==> CharAt(s, i, c)
  {
    AtSlice(s, i, [c]);
  }

  lemma AtClosed(s: string, i: nat, a: string, c: char)
    ensures At(s, i, a + [c]) <==> At(s, i, a) && CharAt(s, i + |a|, c)
  {
    AtAppend(s, i, a, [c]);
    AtChar(s, i + |a|, c);
  }

  lemma AtSeparated(s: string, i: nat, a: string, c: char, b: string)
    ensures At(s, i, a + [c] + b) <==> At(s, i, a) && CharAt(s, i + |a|, c) && At(s, i + |a| + 1, b)
  {
    AtAppend(s, i, a + [c], b);
    AtClosed(s, i, a, c);
  }

  lemma AtOpened(s: string, i: nat, c: char, b: string)
    ensures At(s, i, [c] + b) <==> CharAt(s, i, c) && At(s, i + 1, b)
  {
    AtAppend(s, i, [c], b);
    AtChar(s, i, c);
  }

  lemma TwoChars(s: string, i: nat, c: char, d: char)
    ensures At(s, i, [c, d]) <==> CharAt(s, i, c) && CharAt(s, i + 1, d)
  {
    AtSlice(s, i, [c, d]);
  }

  lemma EscapeSpan(s: string, i: nat, hex: string)
    ensures |EscapeText(hex)| == 2 + |hex|
    ensures At(s, i, EscapeText(hex)) <==> EscapeAt(s, i, hex)
  {
    TwoChars(s, i, '\\', 'u');
    AtAppend(s, i, "\\u", hex);
  }

  lemma PairSpan(s: string, i: nat, h: string, l: string)
    ensures |EscapeText(h) + EscapeText(l)| == 4 + |h| + |l|
    ensures At(s, i, EscapeText(h) + EscapeText(l)) <==> EscapeAt(s, i, h) && EscapeAt(s, i + 2 + |h|, l)
  {
    AtAppend(s, i, EscapeText(h), EscapeText(l));
    EscapeSpan(s, i, h);
    EscapeSpan(s, i + 2 + |h|, l);
  }

  lemma ItemSpan(s: string, i: nat, item: Item)
    ensures |ItemText(item)| == ItemLength(item)
    ensures At(s, i, ItemText(item)) <==> ItemAt(s, i, item)
  {
    match item
    case Raw(c) => AtChar(s, i, c);
    case Short(c) => TwoChars(s, i, '\\', c);
    case Unicode(h) => EscapeSpan(s, i, h);
    case Pair(h, l) => PairSpan(s, i, h, l);
  }

  lemma {:induction false} ItemsSpan(s: string, i: nat, items: seq<Item>)
    ensures |ItemsText(items)| == ItemsLength(items)
    ensures At(s, i, ItemsText(items)) <==> ItemsAt(s, i, items)
    decreases |items|
  {
    if items != [] {
      ItemSpan(s, i, items[0]);
      ItemsSpan(s, i + ItemLength(items[0]), items[1..]);
      AtAppend(s, i, ItemText(items[0]), ItemsText(items[1..]));
    }
  }

  lemma StringSpan(s: string, i: nat, items: seq<Item>)
    ensures |StringText(items)| == StringLength(items)
    ensures At(s, i, StringText(items)) <==> StringAt(s, i, items)
  {
    ItemsSpan(s, i + 1, items);
    AtClosed(s, i, ['"'] + ItemsText(items), '"');
    AtOpened(s, i, '"', ItemsText(items));
  }

  /** A text stands at a position exactly when its derivation does. */
  lemma {:induction false} TreeSpan(s: string, i: nat, t: Tree)
    ensures |TreeText(t)| == TreeLength(t)
    ensures At(s, i, TreeText(t)) <==> TreeAt(s, i, t)
    decreases t, 0
  {
    match t
    case Numeral(_) =>
    case Literal(_) =>
    case Quoted(items) => StringSpan(s, i, items);
    case Array(es) =>
      ElementsSpan(s, i + 1, es);
      AtOpened(s, i, '[', ElementsText(es));
    case Object(ms) =>
      MembersSpan(s, i + 1, ms);
      AtOpened(s, i, '{', MembersText(ms));
  }

  lemma {:induction false} SpacedSpan(s: string, i: nat, w1: string, v: Tree, w2: string)
    ensures |w1 + TreeText(v) + w2| == |w1| + TreeLength(v) + |w2|
    ensures At(s, i, w1 + TreeText(v) + w2) <==> SpacedAt(s, i, w1, v, w2)
    decreases v, 1
  {
    TreeSpan(s, i + |w1|, v);
    At3(s, i, w1, TreeText(v), w2);
  }

  lemma {:induction false} ElementsSpan(s: string, i: nat, es: Elements)
    ensures |ElementsText(es)| == ElementsLength(es)
    ensures At(s, i, ElementsText(es)) <==> ElementsAt(s, i, es)
    decreases es, 0
  {
    match es
    case NoElement(w) =>
      AtClosed(s, i, w, ']');
    case LastElement(w1, v, w2) =>
      SpacedSpan(s, i, w1, v, w2);
      AtClosed(s, i, w1 + TreeText(v) + w2, ']');
    case MoreElements(w1, v, w2, rest) =>
      SpacedSpan(s, i, w1, v, w2);
      ElementsSpan(s, i + |w1| + TreeLength(v) + |w2| + 1, rest);
      AtSeparated(s, i, w1 + TreeText(v) + w2, ',', ElementsText(rest));
  }

  /** The name of an entry between its two runs of space. */
  lemma NameSpan(s: string, i: nat, w1: string, name: seq<Item>, w2: string)
    ensures |w1 + StringText(name) + w2| == |w1| + StringLength(name) + |w2|
    ensures At(s, i, w1 + StringText(name) + w2) <==>
      At(s, i, w1) && StringAt(s, i + |w1|, name) && At(s, i + |w1| + StringLength(name), w2)
  {
    StringSpan(s, i + |w1|, name);
    At3(s, i, w1, StringText(name), w2);
  }

  lemma {:induction false} EntrySpan(s: string, i: nat, e: Entry, w: string)
    ensures |EntryText(e) + w| == EntryLength(e) + |w|
    ensures At(s, i, EntryText(e) + w) <==> EntryAt(s, i, e, w)
    decreases e, 0
  {
    var head, tail := e.before + StringText(e.name) + e.left, e.right + TreeText(e.value) + w;
    var i3 := i + |e.before| + StringLength(e.name) + |e.left|;
    NameSpan(s, i, e.before, e.name, e.left);
    SpacedSpan(s, i3 + 1, e.right, e.value, w);
    assert EntryText(e) + w == head + [':'] + tail;
    AtSeparated(s, i, head, ':', tail);
  }

  lemma {:induction false} MembersSpan(s: string, i: nat, ms: Members)
    ensures |MembersText(ms)| == MembersLength(ms)
    ensures At(s, i, MembersText(ms)) <==> MembersAt(s, i, ms)
    decreases ms, 0
  {
    match ms
    case NoMember(w) =>
      AtClosed(s, i, w, '}');
    case LastMember(e, w) =>
      EntrySpan(s, i, e, w);
      AtClosed(s, i, EntryText(e) + w, '}');
    case MoreMembers(e, w, rest) =>
      EntrySpan(s, i, e, w);
      MembersSpan(s, i + EntryLength(e) + |w| + 1, rest);
      AtSeparated(s, i, EntryText(e) + w, ',', MembersText(rest));
  }
}
