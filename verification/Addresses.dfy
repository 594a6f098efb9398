/** Joining texts with separators: `join_data` and `join_addresses` of libbacteria/net.c. */
module Addresses {
  import opened Text
  import opened CStrings
  import opened Splitter

  /** `SPLITADDRCHAR`. */
  const SPLIT_ADDR_CHAR: char := ';'

  function JoinedData(a: string, b: string, c: char): string {
    a + [c] + b + [c]
  }

  /** The separator-interleaved addresses. */
  function Joined(addresses: seq<string>): string {
    Join(addresses, [SPLIT_ADDR_CHAR])
  }

  lemma {:induction false} JoinAppend(parts: seq<string>, p: string, sep: string)
    requires parts != []
    ensures Join(parts + [p], sep) == Join(parts, sep) + sep + p
    decreases |parts|
  {
    if |parts| == 1 {
      assert (parts + [p])[1..] == [p];
    } else {
      JoinAppend(parts[1..], p, sep);
      assert (parts + [p])[1..] == parts[1..] + [p];
      var head := parts[0] + sep;
      assert head + (Join(parts[1..], sep) + sep + p) == head + Join(parts[1..], sep) + sep + p;
    }
  }

  lemma {:induction false} JoinedIsTerminated(addresses: seq<string>)
    requires addresses != []
    ensures Joined(addresses) + [SPLIT_ADDR_CHAR] == Terminated(addresses, SPLIT_ADDR_CHAR)
    decreases |addresses|
  {
    if |addresses| > 1 {
      JoinedIsTerminated(addresses[1..]);
      AppendAssociative(addresses[0] + [SPLIT_ADDR_CHAR], Joined(addresses[1..]), [SPLIT_ADDR_CHAR]);
    } else {
      assert addresses[1..] == [];
      assert addresses[0] + [SPLIT_ADDR_CHAR] + "" == addresses[0] + [SPLIT_ADDR_CHAR];
    }
  }

  /** The joined text written out, from the back. */
  lemma JoinedText(addresses: seq<string>, address: string)
    ensures Joined([address]) == address
    ensures addresses != [] ==> Joined(addresses + [address]) == Joined(addresses) + ";" + address
  {
    if addresses != [] {
      JoinAppend(addresses, address, ";");
    }
  }

  method JoinData(a: CString, b: CString, splitChar: char) returns (ret: array<char>)
    ensures fresh(ret) && ret[..] == JoinedData(a, b, splitChar) + ['\0']
  {
    var sA, sB := |a|, |b|;
    ret := new char[sA + sB + 3](_ => '\0');
    Copy(ret, 0, a);
    ret[sA] := splitChar;
    Copy(ret, sA + 1, b);
    ret[sA + sB + 1] := splitChar;
    ret[sA + sB + 2] := '\0';
    ghost var text := JoinedData(a, b, splitChar) + ['\0'];
    assert forall k :: 0 <= k < ret.Length ==> ret[k] == text[k];
  }

  /** The variadic `join_addresses`. Each pass copies an address with its NUL behind the separator written
      last, then overwrites that NUL with the next separator. */
  method JoinAddresses(args: seq<CString>) returns (pRet: array<char>)
    requires args != []
    ensures fresh(pRet) && pRet[..] == Joined(args) + ['\0']
  {
    hide Join;
    var addr := args[0];
    var cSize := |addr|;
    pRet := new char[cSize + 1](_ => '\0');
    Strcpy(pRet, 0, addr);
    pRet[cSize] := SPLIT_ADDR_CHAR;
    var i := 1;
    assert Joined(args[..1]) == addr by { JoinOne(args); }
    assert pRet[..cSize] == addr;
    while i < |args|
      invariant 1 <= i <= |args| && fresh(pRet)
      invariant 0 <= cSize < pRet.Length && pRet[cSize] == SPLIT_ADDR_CHAR
      invariant pRet[..cSize] == Joined(args[..i])
    {
      addr := args[i];
      ghost var done := pRet[..cSize];
      var addrSize := |addr| + 1;
      pRet := Realloc(pRet, addrSize + cSize + 1);
      Strcpy(pRet, cSize + 1, addr);
      JoinAppend(args[..i], addr, [SPLIT_ADDR_CHAR]);
      assert args[..i + 1] == args[..i] + [addr];
      ghost var text := done + [SPLIT_ADDR_CHAR] + addr;
      assert forall k :: 0 <= k < cSize + addrSize ==> pRet[k] == text[k];
      cSize := cSize + addrSize;
      pRet[cSize] := SPLIT_ADDR_CHAR;
      assert pRet[..cSize] == text;
      i := i + 1;
    }
    assert args[..|args|] == args;
    ghost var text := pRet[..cSize];
    pRet := Realloc(pRet, cSize + 1);
    pRet[cSize] := '\0';
    assert pRet[..] == text + ['\0'];
  }

  lemma JoinOne(args: seq<string>)
    requires args != []
    ensures Joined(args[..1]) == args[0]
  {
  }

  lemma {:induction false} JoinedIsCString(args: seq<CString>)
    ensures '\0' !in Joined(args)
  {
    if |args| > 1 {
      JoinedIsCString(args[1..]);
    }
  }

  /** `lua_join_addresses`: a pairwise fold of the variadic function. None is nil, for no argument. */
  method LuaJoinAddresses(args: seq<CString>) returns (r: Option<CString>)
    ensures r == if args == [] then None else Some(Joined(args))
  {
    var pAddr: Option<CString> := None;
    for c := 0 to |args|
      invariant pAddr == if c == 0 then None else Some(Joined(args[..c]))
    {
      var argument := args[c];
      var list := if pAddr.None? then [argument] else [pAddr.value, argument];
      var addr := JoinAddresses(list);
      JoinedIsCString(list);
      assert args[..c + 1] == args[..c] + [argument];
      if c > 0 {
        JoinAppend(args[..c], argument, [SPLIT_ADDR_CHAR]);
        JoinAppend([pAddr.value], argument, [SPLIT_ADDR_CHAR]);
        assert list == [pAddr.value] + [argument];
      }
      assert addr[..addr.Length - 1] == Joined(list);
      pAddr := Some(addr[..addr.Length - 1]);
    }
    assert args[..|args|] == args;
    return pAddr;
  }

  /** Splitting joined data gives the two texts back exactly if neither holds the separator. */
  lemma SplitJoinedData(a: string, b: string, c: char)
    ensures Split(JoinedData(a, b, c), c) == [a, b] <==> c !in a && c !in b
  {
    var parts := [a, b];
    assert parts[1..] == [b] && parts[1..][1..] == [];
    assert JoinedData(a, b, c) == Terminated(parts, c) by {
      assert Terminated([b], c) == b + [c] by {
        assert b + [c] + "" == b + [c];
      }
      assert Terminated(parts, c) == a + [c] + Terminated([b], c);
      AppendAssociative(a + [c], b, [c]);
    }
    assert AllFree(parts, c) <==> c !in a && c !in b by {
      assert parts[0] == a && parts[1] == b;
    }
    if AllFree(parts, c) {
      SplitTerminated(parts, c);
    } else {
      var n, end := SplitRebuilds(JoinedData(a, b, c), c);
    }
  }

  /** Splitting joined addresses with one more separator gives them back exactly if there are at most 120 and none
      holds the separator. */
  lemma SplitJoinedAddresses(args: seq<string>)
    requires args != []
    ensures Split(Joined(args) + ";", ';') == args <==> |args| <= 120 && forall k :: 0 <= k < |args| ==> ';' !in args[k]
  {
    assert AllFree(args, ';') <==> forall k :: 0 <= k < |args| ==> ';' !in args[k];
    hide Split, AllFree;
    JoinedIsTerminated(args);
    if AllFree(args, SPLIT_ADDR_CHAR) {
      SplitTerminated(args, SPLIT_ADDR_CHAR);
    } else {
      var n, end := SplitRebuilds(Joined(args) + [SPLIT_ADDR_CHAR], SPLIT_ADDR_CHAR);
    }
  }
}
