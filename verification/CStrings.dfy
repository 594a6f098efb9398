/** C strings and character buffers. A C string is the text before its NUL. */
module CStrings {
  import opened Text

  type CString = s: string | forall c :: c in s ==> c != '\0'

  /** `strchr(s + from, c)` for a character other than NUL: the next `c`, if any. */
  function Strchr(s: string, from: nat, c: char): (r: Option<nat>)
    requires from <= |s|
    ensures r.Some? ==> from <= r.value < |s| && s[r.value] == c
    decreases |s| - from
  {
    if from == |s| then None
    else if s[from] == c then Some(from)
    else Strchr(s, from + 1, c)
  }

  predicate Free(s: string, from: nat, to: nat, c: char)
    requires from <= to <= |s|
  {
    forall k :: from <= k < to ==> s[k] != c
  }

  lemma {:induction false} StrchrFirst(s: string, from: nat, c: char)
    requires from <= |s|
    ensures match Strchr(s, from, c)
      case Some(i) => Free(s, from, i, c)
      case None => Free(s, from, |s|, c)
    decreases |s| - from
  {
    if from < |s| && s[from] != c {
      StrchrFirst(s, from + 1, c);
    }
  }

  lemma {:induction false} StrchrIs(s: string, from: nat, c: char, i: nat)
    requires from <= i < |s| && s[i] == c && Free(s, from, i, c)
    ensures Strchr(s, from, c) == Some(i)
    decreases i - from
  {
    if from < i {
      StrchrIs(s, from + 1, c, i);
    }
  }

  lemma StrchrIsNone(s: string, from: nat, c: char)
    requires from <= |s| && Free(s, from, |s|, c)
    ensures Strchr(s, from, c) == None
  {
  }

  /** `realloc`: the common prefix survives. */
  method Realloc(a: array<char>, n: nat) returns (b: array<char>)
    ensures fresh(b) && b.Length == n
    ensures forall k :: 0 <= k < n && k < a.Length ==> b[k] == a[k]
  {
    b := new char[n](_ => '\0');
    for i := 0 to if n < a.Length then n else a.Length
      invariant forall k :: 0 <= k < i ==> b[k] == a[k]
    {
      b[i] := a[i];
    }
  }

  /** `memcpy(a + at, s, |s|)`. */
  method Copy(a: array<char>, at: nat, s: string)
    requires at + |s| <= a.Length
    modifies a
    ensures forall k :: 0 <= k < a.Length ==> a[k] == if at <= k < at + |s| then s[k - at] else old(a[k])
  {
    for i := 0 to |s|
      invariant forall k :: 0 <= k < a.Length ==>
        a[k] == if at <= k < at + i then s[k - at] else old(a[k])
    {
      a[at + i] := s[i];
    }
  }

  /** `strcpy(a + at, s)`, which also writes the NUL. */
  method Strcpy(a: array<char>, at: nat, s: CString)
    requires at + |s| < a.Length
    modifies a
    ensures forall k :: 0 <= k < a.Length ==>
      a[k] == if at <= k < at + |s| then s[k - at] else if k == at + |s| then '\0' else old(a[k])
  {
    Copy(a, at, s + ['\0']);
  }
}
