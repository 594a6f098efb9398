/** The tokenizer `split_msg` of libbacteria/net.c and its C++ wrapper. */
module Splitter {
  import opened Text
  import opened CStrings

  /** `max_splitted`. */
  const MAX_SPLITTED: nat := 120

  // --- Specification ---------------------------------------------------------

  /** The parts of `s` from `from` on that a `c` terminates, in order. */
  function FieldsFrom(s: string, from: nat, c: char): seq<string>
    requires from <= |s|
    decreases |s| - from
  {
    match Strchr(s, from, c)
    case None => []
    case Some(i) => [s[from..i]] + FieldsFrom(s, i + 1, c)
  }

  /** Where the text after the last `c` starts. */
  function TailStart(s: string, from: nat, c: char): (r: nat)
    requires from <= |s|
    ensures from <= r <= |s|
    decreases |s| - from
  {
    match Strchr(s, from, c)
    case None => from
    case Some(i) => TailStart(s, i + 1, c)
  }

  /** Split on `c` up to its last occurrence, then on carriage returns; the rest is dropped. */
  function TokensFrom(s: string, from: nat, c: char): seq<string>
    requires from <= |s|
  {
    FieldsFrom(s, from, c) + FieldsFrom(s, TailStart(s, from, c), '\r')
  }

  /** The cap by its number: all tokens, or the first 120. */
  lemma SplitCapped(s: string, c: char)
    ensures |Split(s, c)| == (if |TokensFrom(s, 0, c)| <= 120 then |TokensFrom(s, 0, c)| else 120)
    ensures Split(s, c) <= TokensFrom(s, 0, c)
  {
  }

  /** The specification of `split_msg`: the first 120 of those tokens. */
  function Split(s: string, c: char): seq<string> {
    var tokens := TokensFrom(s, 0, c);
    if |tokens| <= MAX_SPLITTED then tokens else tokens[..MAX_SPLITTED]
  }

  /** Each field followed by its terminator. */
  function Terminated(fields: seq<string>, c: char): string {
    if fields == [] then "" else fields[0] + [c] + Terminated(fields[1..], c)
  }

  ghost predicate AllFree(fields: seq<string>, c: char) {
    forall k :: 0 <= k < |fields| ==> Free(fields[k], 0, |fields[k]|, c)
  }

  lemma AppendSlices(s: string, i: nat, j: nat, k: nat)
    requires i <= j < k <= |s|
    ensures s[i..j] + [s[j]] + s[j + 1..k] == s[i..k]
  {
  }

  /** Fields and tail decompose the text, and neither holds a separator. */
  lemma {:induction false} FieldsDecompose(s: string, from: nat, c: char)
    requires from <= |s|
    ensures Terminated(FieldsFrom(s, from, c), c) == s[from..TailStart(s, from, c)]
    ensures AllFree(FieldsFrom(s, from, c), c) && Free(s, TailStart(s, from, c), |s|, c)
    decreases |s| - from
  {
    hide Strchr;
    StrchrFirst(s, from, c);
    match Strchr(s, from, c)
    case None =>
    case Some(i) =>
      var fields, rest := FieldsFrom(s, from, c), FieldsFrom(s, i + 1, c);
      FieldsDecompose(s, i + 1, c);
      assert fields[1..] == rest;
      AppendSlices(s, from, i, TailStart(s, i + 1, c));
      forall k | 0 <= k < |fields| ensures Free(fields[k], 0, |fields[k]|, c) {
        if k > 0 {
          assert fields[k] == rest[k - 1];
        }
      }
  }

  /** ... and they are the only decomposition. */
  lemma {:induction false} FieldsUnique(s: string, from: nat, fields: seq<string>, c: char)
    requires AllFree(fields, c) && At(s, from, Terminated(fields, c))
    requires Free(s, from + |Terminated(fields, c)|, |s|, c)
    ensures FieldsFrom(s, from, c) == fields
    ensures TailStart(s, from, c) == from + |Terminated(fields, c)|
    decreases |fields|
  {
    hide Strchr;
    if fields == [] {
      StrchrIsNone(s, from, c);
    } else {
      var f, rest := fields[0], Terminated(fields[1..], c);
      var i := from + |f|;
      AtAppend(s, from, f + [c], rest);
      AtAppend(s, from, f, [c]);
      AtChars(s, from, f);
      AtSlice(s, from, f);
      AtSlice(s, i, [c]);
      assert s[i] == c;
      StrchrIs(s, from, c, i);
      assert AllFree(fields[1..], c) by {
        forall k | 0 <= k < |fields[1..]| ensures Free(fields[1..][k], 0, |fields[1..][k]|, c) {
          assert fields[1..][k] == fields[k + 1];
        }
      }
      FieldsUnique(s, i + 1, fields[1..], c);
    }
  }

  /** What the tokenizer makes of a text whose fields are all terminated. */
  lemma SplitTerminated(fields: seq<string>, c: char)
    requires AllFree(fields, c)
    ensures Split(Terminated(fields, c), c) == if |fields| <= 120 then fields else fields[..120]
  {
    var s := Terminated(fields, c);
    AtSlice(s, 0, s);
    FieldsUnique(s, 0, fields, c);
    assert FieldsFrom(s, |s|, '\r') == [];
    assert fields + [] == fields;
  }

  lemma {:induction false} TerminatedSplit(fields: seq<string>, n: nat, c: char)
    requires n <= |fields|
    ensures Terminated(fields, c) == Terminated(fields[..n], c) + Terminated(fields[n..], c)
    decreases n
  {
    if n == 0 {
      assert fields[0..] == fields;
    } else {
      TerminatedSplit(fields[1..], n - 1, c);
      assert fields[..n][1..] == fields[1..][..n - 1];
      AppendAssociative(fields[0] + [c], Terminated(fields[..n][1..], c), Terminated(fields[n..], c));
    }
  }

  lemma {:induction false} FieldsFreeOf(s: string, from: nat, sep: char, c: char)
    requires from <= |s| && Free(s, from, |s|, c)
    ensures AllFree(FieldsFrom(s, from, sep), c)
    decreases |s| - from
  {
    hide Strchr;
    match Strchr(s, from, sep)
    case None =>
    case Some(i) =>
      FieldsFreeOf(s, i + 1, sep, c);
      var fields, rest := FieldsFrom(s, from, sep), FieldsFrom(s, i + 1, sep);
      forall k | 0 <= k < |fields| ensures Free(fields[k], 0, |fields[k]|, c) {
        if k > 0 {
          assert fields[k] == rest[k - 1];
        }
      }
  }

  /** The tokens with their separators rebuild the text up to some position `end`: the first `n` were cut at
      `c`, the others at a carriage return. No token holds a `c`, and below the cap nothing after `end`
      is a separator. */
  lemma SplitRebuilds(s: string, c: char) returns (n: nat, end: nat)
    ensures n <= |Split(s, c)| && end <= |s|
    ensures Terminated(Split(s, c)[..n], c) + Terminated(Split(s, c)[n..], '\r') == s[..end]
    ensures AllFree(Split(s, c), c) && AllFree(Split(s, c)[n..], '\r')
    ensures |Split(s, c)| <= 120
    ensures |Split(s, c)| < 120 ==> Free(s, end, |s|, c) && Free(s, end, |s|, '\r')
  {
    hide FieldsFrom, TailStart, Terminated;
    var m := TailStart(s, 0, c);
    var fs, gs := FieldsFrom(s, 0, c), FieldsFrom(s, m, '\r');
    var t, cut := TailStart(s, m, '\r'), Split(s, c);
    FieldsDecompose(s, 0, c);
    FieldsDecompose(s, m, '\r');
    FieldsFreeOf(s, m, '\r', c);
    forall k | 0 <= k < |cut| ensures Free(cut[k], 0, |cut[k]|, c) {
      assert cut[k] == if k < |fs| then fs[k] else gs[k - |fs|];
    }
    n := if |fs| <= MAX_SPLITTED then |fs| else MAX_SPLITTED;
    var l := |cut| - n;
    assert cut[..n] == fs[..n] && cut[n..] == gs[..l];
    TerminatedSplit(fs, n, c);
    TerminatedSplit(gs, l, '\r');
    var A, B := Terminated(fs[..n], c), Terminated(gs[..l], '\r');
    if n < |fs| {
      assert B == "" by { TerminatedEmpty('\r'); assert gs[..0] == []; }
      end := |A|;
      assert A == (A + Terminated(fs[n..], c))[..end] == s[0..m][..end] == s[..end];
    } else {
      end := m + |B|;
      assert fs[..n] == fs && A == s[..m];
      assert B == (B + Terminated(gs[l..], '\r'))[..|B|] == s[m..t][..|B|] == s[m..end];
      if l == |gs| {
        assert gs[..l] == gs;
      }
    }
  }

  lemma TerminatedEmpty(c: char)
    ensures Terminated([], c) == ""
  {
  }

  // --- The loop --------------------------------------------------------------

  /** One pass: the token before the next `c`, or before the next carriage return when there is no `c`. */
  lemma TokensStep(s: string, from: nat, c: char)
    requires from <= |s|
    ensures match Strchr(s, from, c)
      case Some(i) => TokensFrom(s, from, c) == [s[from..i]] + TokensFrom(s, i + 1, c)
      case None =>
        match Strchr(s, from, '\r')
        case Some(i) => TokensFrom(s, from, c) == [s[from..i]] + TokensFrom(s, i + 1, c)
        case None => TokensFrom(s, from, c) == []
  {
    hide Strchr;
    match Strchr(s, from, c)
    case Some(i) =>
    case None =>
      StrchrFirst(s, from, c);
      match Strchr(s, from, '\r')
      case Some(i) => StrchrIsNone(s, i + 1, c);
      case None =>
  }

  /** `split_msg`. The tokens go through the buffer `str2` of `msgLen` bytes, so the caller has to
      pass at least the length of the text. */
  method SplitMsg(buf: CString, schar: char, msgLen: nat) returns (splitted: seq<string>)
    requires schar != '\0' && |buf| <= msgLen
    ensures splitted == Split(buf, schar)
    ensures forall t :: t in splitted ==> |t| < msgLen
  {
    hide Strchr, FieldsFrom, TailStart, TokensFrom;
    splitted := [];
    var at := 0;
    while true
      invariant at <= |buf| && |splitted| < MAX_SPLITTED
      invariant splitted + TokensFrom(buf, at, schar) == TokensFrom(buf, 0, schar)
      invariant forall t :: t in splitted ==> |t| < msgLen
      decreases |buf| - at
    {
      TokensStep(buf, at, schar);
      var str := Strchr(buf, at, schar);
      if str.None? {
        str := Strchr(buf, at, '\r');
      }
      if str.None? {
        break;
      }
      var str2 := buf[at..str.value];
      splitted := splitted + [str2];
      at := str.value + 1;
      if |splitted| >= MAX_SPLITTED {
        assert splitted == TokensFrom(buf, 0, schar)[..MAX_SPLITTED];
        break;
      }
    }
  }

  /** `split::split`: a buffer size of 0 stands for the length of the text. */
  method SplitVector(buf: CString, schar: char, bufsize: nat) returns (rt: seq<string>)
    requires schar != '\0' && (bufsize == 0 || |buf| <= bufsize)
    ensures rt == Split(buf, schar)
  {
    var size := if bufsize == 0 then |buf| else bufsize;
    var splitted := SplitMsg(buf, schar, size);
    rt := [];
    for i := 0 to |splitted|
      invariant rt == splitted[..i]
    {
      rt := rt + [splitted[i]];
    }
  }
}
