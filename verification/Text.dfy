/** Text helpers shared by the JSON, wire and peer models.
    A text is a `string` whose characters stand for bytes. */
module Text {

  datatype Option<+T> = None | Some(value: T)

  ghost predicate SameChar(s: string, i: nat, part: string, k: nat)
    requires k < |part| && i + k < |s|
  {
    s[i + k] == part[k]
  }

  /** `part` occurs in `s` at position `i`. `SameChar` keeps the quantifier from unfolding unasked. */
  ghost predicate At(s: string, i: nat, part: string) {
    i + |part| <= |s| && forall k: nat :: k < |part| ==> SameChar(s, i, part, k)
  }

  /** Occurring at `i` is being the slice at `i`. */
  lemma AtSlice(s: string, i: nat, part: string)
    ensures At(s, i, part) <==> i + |part| <= |s| && s[i..i + |part|] == part
  {
    if At(s, i, part) {
      forall k | 0 <= k < |part| ensures s[i..i + |part|][k] == part[k] {
        assert SameChar(s, i, part, k);
      }
    }
    if i + |part| <= |s| && s[i..i + |part|] == part {
      forall k: nat | k < |part| ensures SameChar(s, i, part, k) {
        assert s[i..i + |part|][k] == part[k];
      }
    }
  }

  lemma AtChars(s: string, i: nat, part: string)
    requires At(s, i, part)
    ensures forall k :: i <= k < i + |part| ==> s[k] == part[k - i]
  {
    forall k | i <= k < i + |part| ensures s[k] == part[k - i] {
      assert SameChar(s, i, part, k - i);
    }
  }

  lemma AtAppend(s: string, i: nat, a: string, b: string)
    ensures At(s, i, a + b) <==> At(s, i, a) && At(s, i + |a|, b)
  {
    if At(s, i, a + b) {
      forall k: nat | k < |a| ensures SameChar(s, i, a, k) {
        assert SameChar(s, i, a + b, k);
      }
      var j := i + |a|;
      forall k: nat | k < |b| ensures SameChar(s, j, b, k) {
        assert SameChar(s, i, a + b, |a| + k);
      }
    }
    if At(s, i, a) && At(s, i + |a|, b) {
      forall k: nat | k < |a + b| ensures SameChar(s, i, a + b, k) {
        assert if k < |a| then SameChar(s, i, a, k) else SameChar(s, i + |a|, b, k - |a|);
      }
    }
  }

  lemma AppendAssociative(a: string, b: string, c: string)
    ensures a + b + c == a + (b + c)
  {
  }

  /** The texts of `parts` with `separator` between neighbours (Lua's `table.concat`). */
  function Join(parts: seq<string>, separator: string): string {
    if parts == [] then ""
    else if |parts| == 1 then parts[0]
    else parts[0] + separator + Join(parts[1..], separator)
  }

  lemma JoinIs(a: string, rest: seq<string>, separator: string)
    ensures Join([], separator) == "" && Join([a], separator) == a
    ensures rest != [] ==> Join([a] + rest, separator) == a + separator + Join(rest, separator)
  {
    assert ([a] + rest)[1..] == rest;
  }

  function Digit(d: int): (c: char)
    requires 0 <= d < 10
    ensures '0' <= c <= '9'
  {
    ('0' as int + d) as char
  }

  predicate IsDigit(c: char) {
    '0' <= c <= '9'
  }

  /** Decimal digits of a natural number without leading zeros, as `%d` prints them. */
  function Natural(n: nat): (s: string)
    ensures s != "" && forall c :: c in s ==> IsDigit(c)
  {
    if n < 10 then [Digit(n)] else Natural(n / 10) + [Digit(n % 10)]
  }

  /** The decimal digits by their letters, the last one last. */
  lemma NaturalText(q: nat, d: nat)
    requires d < 10
    ensures Natural(d) == ["0123456789"[d]]
    ensures q > 0 ==> Natural(10 * q + d) == Natural(q) + ["0123456789"[d]]
  {
    assert (10 * q + d) / 10 == q && (10 * q + d) % 10 == d;
    assert Digit(d) == "0123456789"[d];
  }

  lemma DigitLetters(c: char)
    ensures IsDigit(c) <==> c in "0123456789"
  {
    if IsDigit(c) {
      var d := c as int - '0' as int;
      assert c == "0123456789"[d];
    }
  }

  function Integer(n: int): string {
    if n < 0 then "-" + Natural(-n) else Natural(n)
  }

  /** The longest digit prefix read as a number, which is what `atoi` does on unsigned text. */
  function ReadNatural(s: string, acc: nat := 0): nat {
    if s == "" || !IsDigit(s[0]) then acc
    else ReadNatural(s[1..], 10 * acc + (s[0] as int - '0' as int))
  }

  function ReadInteger(s: string): int {
    if s != "" && s[0] == '-' then 0 - ReadNatural(s[1..]) else ReadNatural(s)
  }

  lemma {:induction false} ReadNaturalAppend(s: string, t: string, acc: nat)
    requires forall c :: c in s ==> IsDigit(c)
    ensures ReadNatural(s + t, acc) == ReadNatural(t, ReadNatural(s, acc))
  {
    if s == "" {
      assert s + t == t;
    } else {
      assert IsDigit(s[0]);
      assert (s + t)[1..] == s[1..] + t;
      ReadNaturalAppend(s[1..], t, 10 * acc + (s[0] as int - '0' as int));
    }
  }

  /** Reading undoes printing, whatever non-digit text follows. */
  lemma {:induction false} ReadNaturalInverse(n: nat, rest: string)
    requires rest == "" || !IsDigit(rest[0])
    ensures ReadNatural(Natural(n) + rest) == n
  {
    if n < 10 {
      assert ([Digit(n)] + rest)[1..] == rest;
    } else {
      var last := [Digit(n % 10)];
      calc {
        ReadNatural(Natural(n) + rest);
        { assert Natural(n) + rest == Natural(n / 10) + (last + rest); }
        ReadNatural(Natural(n / 10) + (last + rest));
        { ReadNaturalAppend(Natural(n / 10), last + rest, 0); }
        ReadNatural(last + rest, ReadNatural(Natural(n / 10)));
        { assert Natural(n / 10) + "" == Natural(n / 10); ReadNaturalInverse(n / 10, ""); }
        ReadNatural(last + rest, n / 10);
        { assert (last + rest)[1..] == rest; }
        n;
      }
    }
  }

  lemma ReadIntegerInverse(n: int)
    ensures ReadInteger(Integer(n)) == n
  {
    if n < 0 {
      ReadNaturalInverse(-n, "");
      assert Integer(n)[1..] == Natural(-n) == Natural(-n) + "";
    } else {
      ReadNaturalInverse(n, "");
      assert Natural(n) + "" == Natural(n);
      assert Natural(n)[0] in Natural(n);
    }
  }
}
