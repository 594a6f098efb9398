/** The client of src/client/main.cpp: parsing the server's texts and keeping the table of peers. */
module PeerClient {
  import opened Text
  import opened CStrings
  import opened Splitter
  import opened PeerTable

  /** `peer_pair_t`. */
  datatype Peer = Peer(ip: string, port: Port)

  /** The buffer size of `read`. */
  const READ_SIZE: nat := 1024

  // --- Parsing ---------------------------------------------------------------

  function SkipBlanks(s: string): string {
    if s != "" && (s[0] == ' ' || 9 <= s[0] as int <= 13) then SkipBlanks(s[1..]) else s
  }

  /** `atoi`: leading blanks, an optional sign, then digits up to the first other character. */
  function Atoi(s: string): int {
    var t := SkipBlanks(s);
    if t != "" && t[0] == '-' then 0 - ReadNatural(t[1..])
    else if t != "" && t[0] == '+' then ReadNatural(t[1..])
    else ReadNatural(t)
  }

  /** The conversion of an `int` to `uint16_t`. */
  function ToPort(s: string): Port {
    Atoi(s) % 65536
  }

  /** One address of the listing: `substr` around the first colon. Without a colon `npos` makes both parts the
      whole text. */
  function ParseEntry(address: string): Peer {
    match Strchr(address, 0, ':')
    case None => Peer(address, ToPort(address))
    case Some(i) => Peer(address[..i], ToPort(address[i + 1..]))
  }

  function ParseEntries(addresses: seq<string>): (r: seq<Peer>)
    ensures |r| == |addresses| && forall k :: 0 <= k < |r| ==> r[k] == ParseEntry(addresses[k])
  {
    if addresses == [] then [] else [ParseEntry(addresses[0])] + ParseEntries(addresses[1..])
  }

  /** The peers of a listing, in order. */
  function Peers(list: string): seq<Peer> {
    ParseEntries(Split(list, ';'))
  }

  /** The parsing in `self_bind` of `[ip:port]: text`; None is the exception `substr` throws on an empty text.
      The subtractions wrap around to lengths that reach the end of the text. */
  function ParseEcho(t: string): Option<Peer> {
    if t == "" then None
    else
      var colon, bracket := Strchr(t, 0, ':'), Strchr(t, 0, ']');
      var ip := if colon.Some? && colon.value >= 1 then t[1..colon.value] else t[1..];
      var from := if colon.Some? then colon.value + 1 else 0;
      var port := if bracket.Some? && bracket.value >= from then t[from..bracket.value] else t[from..];
      Some(Peer(ip, ToPort(port)))
  }

  /** How the client knows an address. */
  function PeerOf(x: Address): Peer {
    Peer(Dotted(x), x.port)
  }

  // --- The printed forms -----------------------------------------------------

  lemma NaturalDigits(n: nat)
    ensures forall k :: 0 <= k < |Natural(n)| ==> IsDigit(Natural(n)[k])
  {
    forall k | 0 <= k < |Natural(n)| ensures IsDigit(Natural(n)[k]) {
      assert Natural(n)[k] in Natural(n);
    }
  }

  lemma AtoiNatural(n: nat)
    ensures Atoi(Natural(n)) == n
  {
    NaturalDigits(n);
    ReadNaturalInverse(n, "");
    assert Natural(n) + "" == Natural(n);
    assert SkipBlanks(Natural(n)) == Natural(n);
  }

  /** `atoi` on blanks, a sign, digits, and any text that does not go on with a digit. */
  lemma AtoiText(blanks: string, sign: string, n: nat, rest: string)
    requires forall k :: 0 <= k < |blanks| ==> blanks[k] in " \t\n\r" || blanks[k] as int in {11, 12}
    requires sign in ["", "+", "-"] && (rest == "" || rest[0] !in "0123456789")
    ensures sign == "-" ==> Atoi(blanks + sign + Natural(n) + rest) == 0 - n
    ensures sign != "-" ==> Atoi(blanks + sign + Natural(n) + rest) == n
  {
    if rest != "" {
      DigitLetters(rest[0]);
    }
    NaturalDigits(n);
    ReadNaturalInverse(n, rest);
    hide Natural, ReadNatural, SkipBlanks;
    var digits := Natural(n) + rest;
    var t := sign + digits;
    assert digits[0] == Natural(n)[0] && IsDigit(digits[0]);
    assert blanks + sign + Natural(n) + rest == blanks + t;
    SignRead(blanks, sign, digits);
  }

  lemma SignRead(blanks: string, sign: string, digits: string)
    requires forall k :: 0 <= k < |blanks| ==> blanks[k] in " \t\n\r" || blanks[k] as int in {11, 12}
    requires sign in ["", "+", "-"] && digits != "" && IsDigit(digits[0])
    ensures sign == "-" ==> Atoi(blanks + (sign + digits)) == 0 - ReadNatural(digits)
    ensures sign != "-" ==> Atoi(blanks + (sign + digits)) == ReadNatural(digits)
  {
    hide ReadNatural, SkipBlanks;
    var t := sign + digits;
    assert t[0] == if sign == "" then digits[0] else sign[0];
    assert sign != "" ==> t[1..] == digits;
    assert sign == "" ==> t == digits;
    BlanksSkipped(blanks, t);
  }

  lemma {:induction false} BlanksSkipped(blanks: string, t: string)
    requires forall k :: 0 <= k < |blanks| ==> blanks[k] in " \t\n\r" || blanks[k] as int in {11, 12}
    requires t != "" && t[0] != ' ' && !(9 <= t[0] as int <= 13)
    ensures SkipBlanks(blanks + t) == t
  {
    if blanks == "" {
      assert blanks + t == t;
    } else {
      assert (blanks + t)[0] == blanks[0] && (blanks + t)[1..] == blanks[1..] + t;
      BlanksSkipped(blanks[1..], t);
    }
  }

  /** The two parts of an entry, with the port taken modulo 2^16; without a colon both are the whole text. */
  lemma EntryCut(ip: string, port: string)
    requires ':' !in ip
    ensures ParseEntry(ip + ":" + port) == Peer(ip, Atoi(port) % 65536)
    ensures ParseEntry(ip) == Peer(ip, Atoi(ip) % 65536)
  {
    hide Atoi;
    var s := ip + ":" + port;
    StrchrIs(s, 0, ':', |ip|);
    assert s[..|ip|] == ip && s[|ip| + 1..] == port;
    StrchrIsNone(ip, 0, ':');
  }

  predicate DigitsAndDots(s: string) {
    forall k :: 0 <= k < |s| ==> IsDigit(s[k]) || s[k] == '.'
  }

  lemma DottedShape(x: Address)
    ensures DigitsAndDots(Dotted(x))
  {
    NaturalDigits(x.a);
    NaturalDigits(x.b);
    NaturalDigits(x.c);
    NaturalDigits(x.d);
    hide Natural;
    var ab := Natural(x.a) + "." + Natural(x.b);
    assert DigitsAndDots(ab);
    var abc := ab + "." + Natural(x.c);
    assert DigitsAndDots(abc);
    assert Dotted(x) == abc + "." + Natural(x.d);
  }

  lemma EntryParses(x: Address)
    ensures ParseEntry(Entry(x)) == PeerOf(x)
  {
    DottedShape(x);
    AtoiNatural(x.port);
    hide Natural, Dotted, Atoi;
    var ip, port := Dotted(x), Natural(x.port);
    var s := Entry(x);
    assert s == ip + ":" + port;
    assert s[|ip|] == ':' && forall k :: 0 <= k < |ip| ==> s[k] == ip[k];
    StrchrIs(s, 0, ':', |ip|);
    assert s[..|ip|] == ip && s[|ip| + 1..] == port;
  }

  lemma EntryShape(x: Address)
    ensures Free(Entry(x), 0, |Entry(x)|, ';') && Free(Entry(x), 0, |Entry(x)|, ']')
  {
    DottedShape(x);
    NaturalDigits(x.port);
    hide Natural, Dotted;
    var ip, port := Dotted(x), Natural(x.port);
    var s := Entry(x);
    assert s == ip + ":" + port;
    forall k | 0 <= k < |s| ensures s[k] != ';' && s[k] != ']' {
      assert s[k] == if k < |ip| then ip[k] else if k == |ip| then ':' else port[k - |ip| - 1];
    }
  }

  lemma {:induction false} EntriesAt(users: seq<User>)
    ensures |Entries(users)| == |users|
    ensures forall k :: 0 <= k < |users| ==> Entries(users)[k] == Entry(users[k].address)
  {
    hide Entry;
    if users != [] {
      EntriesAt(users[1..]);
    }
  }

  function PeersOf(users: seq<User>): seq<Peer> {
    seq(|users|, k requires 0 <= k < |users| => PeerOf(users[k].address))
  }

  /** The client reads a listing of up to 120 users back to exactly those users, in order. */
  lemma ListingParses(users: seq<User>)
    requires |users| <= 120
    ensures Peers(Listing(users)) == PeersOf(users)
  {
    hide Entry, PeerOf, ParseEntry, Split, Terminated;
    var es := Entries(users);
    EntriesAt(users);
    forall k | 0 <= k < |es| ensures Free(es[k], 0, |es[k]|, ';') {
      EntryShape(users[k].address);
    }
    SplitTerminated(es, ';');
    forall k | 0 <= k < |es| ensures ParseEntry(es[k]) == PeerOf(users[k].address) {
      EntryParses(users[k].address);
    }
  }

  lemma EchoParts(ip: string, port: string, text: string, t: string)
    requires t == "[" + (ip + ":" + port) + "]: " + text + "\n"
    ensures |t| > |ip| + |port| + 2
    ensures t[0] == '[' && t[|ip| + 1] == ':' && t[|ip| + |port| + 2] == ']'
    ensures forall k :: 1 <= k < |ip| + 1 ==> t[k] == ip[k - 1]
    ensures forall k :: |ip| + 2 <= k < |ip| + |port| + 2 ==> t[k] == port[k - |ip| - 2]
  {
    var e := ip + ":" + port;
    assert t == ("[" + e + "]: ") + (text + "\n");
    var head := "[" + e + "]: ";
    assert forall k :: 0 <= k < |head| ==> t[k] == head[k];
    assert forall k :: 1 <= k < |e| + 1 ==> head[k] == e[k - 1];
  }

  /** The echo line gives the sender's own address back, whatever text it carries. */
  lemma EchoParses(client: Address, text: string)
    ensures ParseEcho(Echo(client, text)) == Some(PeerOf(client))
  {
    var ip, port, t := Dotted(client), Natural(client.port), Echo(client, text);
    DottedShape(client);
    NaturalDigits(client.port);
    AtoiNatural(client.port);
    EchoText(client, text);
    hide Natural, Dotted, Atoi, ParseEcho, Echo;
    EchoParts(ip, port, text, t);
    EchoFinds(ip, port, t);
  }

  lemma EchoFinds(ip: string, port: string, t: string)
    requires |t| > |ip| + |port| + 2
    requires t[0] == '[' && t[|ip| + 1] == ':' && t[|ip| + |port| + 2] == ']'
    requires forall k :: 1 <= k < |ip| + 1 ==> t[k] == ip[k - 1]
    requires forall k :: |ip| + 2 <= k < |ip| + |port| + 2 ==> t[k] == port[k - |ip| - 2]
    requires DigitsAndDots(ip) && DigitsAndDots(port)
    ensures ParseEcho(t) == Some(Peer(ip, ToPort(port)))
  {
    hide Strchr, Atoi;
    StrchrIs(t, 0, ':', |ip| + 1);
    StrchrIs(t, 0, ']', |ip| + |port| + 2);
    assert t[1..|ip| + 1] == ip && t[|ip| + 2..|ip| + |port| + 2] == port;
  }

  lemma EchoText(client: Address, text: string)
    ensures Echo(client, text) == "[" + (Dotted(client) + ":" + Natural(client.port)) + "]: " + text + "\n"
  {
    hide Dotted, Natural;
  }

  // --- Sizes -----------------------------------------------------------------

  function Pow10(k: nat): nat {
    if k == 0 then 1 else 10 * Pow10(k - 1)
  }

  lemma {:induction false} NaturalLength(n: nat, k: nat)
    requires k > 0 && n < Pow10(k)
    ensures |Natural(n)| <= k
  {
    if k > 1 && n >= 10 {
      NaturalLength(n / 10, k - 1);
    } else if k == 1 {
      assert Pow10(1) == 10 * Pow10(0) == 10;
    }
  }

  lemma EntryLength(x: Address)
    ensures |Entry(x)| <= 21
  {
    assert Pow10(1) == 10 && Pow10(2) == 100 && Pow10(3) == 1000 && Pow10(4) == 10000 && Pow10(5) == 100000;
    NaturalLength(x.a, 3);
    NaturalLength(x.b, 3);
    NaturalLength(x.c, 3);
    NaturalLength(x.d, 3);
    NaturalLength(x.port, 5);
  }

  lemma {:induction false} ListingLength(users: seq<User>)
    ensures |Listing(users)| <= 22 * |users|
  {
    hide Entry;
    if users != [] {
      EntryLength(users[0].address);
      ListingLength(users[1..]);
      assert Entries(users)[1..] == Entries(users[1..]);
    }
  }

  // --- Identity --------------------------------------------------------------

  lemma NaturalInjective(m: nat, n: nat)
    requires Natural(m) == Natural(n)
    ensures m == n
  {
    AtoiNatural(m);
    AtoiNatural(n);
  }

  lemma DottedFields(x: Address)
    ensures FieldsFrom(Dotted(x), 0, '.') == [Natural(x.a), Natural(x.b), Natural(x.c)]
    ensures Dotted(x)[TailStart(Dotted(x), 0, '.')..] == Natural(x.d)
  {
    NaturalDigits(x.a);
    NaturalDigits(x.b);
    NaturalDigits(x.c);
    NaturalDigits(x.d);
    hide Natural;
    var fields, s := [Natural(x.a), Natural(x.b), Natural(x.c)], Dotted(x);
    assert fields[1..] == [Natural(x.b), Natural(x.c)] && fields[1..][1..] == [Natural(x.c)];
    assert fields[1..][1..][1..] == [];
    var head := Terminated(fields, '.');
    assert Terminated(fields[1..][1..], '.') == Natural(x.c) + "." by {
      assert Natural(x.c) + ['.'] + "" == Natural(x.c) + ".";
    }
    assert Terminated(fields[1..], '.') == Natural(x.b) + "." + (Natural(x.c) + ".");
    assert head == Natural(x.a) + "." + (Natural(x.b) + "." + (Natural(x.c) + "."));
    assert s == head + Natural(x.d);
    assert s[..|head|] == head && s[|head|..] == Natural(x.d);
    AtSlice(s, 0, head);
    forall k | |head| <= k < |s| ensures s[k] != '.' {
      assert s[k] == Natural(x.d)[k - |head|];
    }
    FieldsUnique(s, 0, fields, '.');
  }

  /** Two socket addresses with the same printed peer are the same, so they never share a map key. */
  lemma PeerInjective(x: Address, y: Address)
    requires PeerOf(x) == PeerOf(y)
    ensures x == y
  {
    hide Natural, Dotted;
    DottedFields(x);
    DottedFields(y);
    assert [Natural(x.a), Natural(x.b), Natural(x.c)] == [Natural(y.a), Natural(y.b), Natural(y.c)];
    assert [Natural(x.a), Natural(x.b), Natural(x.c)][0] == Natural(y.a);
    assert [Natural(x.a), Natural(x.b), Natural(x.c)][1] == Natural(y.b);
    assert [Natural(x.a), Natural(x.b), Natural(x.c)][2] == Natural(y.c);
    NaturalInjective(x.a, y.a);
    NaturalInjective(x.b, y.b);
    NaturalInjective(x.c, y.c);
    NaturalInjective(x.d, y.d);
  }

  // --- From server to client -------------------------------------------------

  /** In every reachable server state the listing sent for the next datagram fits the client's buffer with its
      NUL, stays below the token cap, and is read back to exactly the live users in order, each
      under a key of its own. */
  lemma ListingReachesClient(ds: seq<Datagram>, d: Datagram)
    ensures var alive := Alive(Run(ds), d.timenow);
      && |Listing(alive)| <= 242 < READ_SIZE == 1024
      && |Split(Listing(alive), ';')| == |alive| <= 11
      && Peers(Listing(alive)) == PeersOf(alive)
      && forall j, k :: 0 <= j < k < |alive| ==> PeerOf(alive[j].address) != PeerOf(alive[k].address)
  {
    hide Alive, Run, Listing, PeerOf, Split;
    var alive := Alive(Run(ds), d.timenow);
    EveryRun(ds);
    AliveMeaning(Run(ds), d.timenow);
    ListingLength(alive);
    ListingParses(alive);
    forall j, k | 0 <= j < k < |alive| ensures PeerOf(alive[j].address) != PeerOf(alive[k].address) {
      if PeerOf(alive[j].address) == PeerOf(alive[k].address) {
        PeerInjective(alive[j].address, alive[k].address);
      }
    }
  }

  // --- The client's table ----------------------------------------------------

  /** What becomes of the ping to a listed peer: it cannot be sent, nothing but an empty text or an error comes
      back, or the peer answers at a time. */
  datatype Answer = SendFails | NoAnswer | Answers(time: int)

  /** The number of peers before the first from `from` on to which nothing can be sent. */
  function Reached(n: nat, from: nat, answers: nat -> Answer): (r: nat)
    requires from <= n
    ensures from <= r <= n
    ensures forall k :: from <= k < r ==> !answers(k).SendFails?
    ensures r < n ==> answers(r).SendFails?
    decreases n - from
  {
    if from == n || answers(from).SendFails? then from else Reached(n, from + 1, answers)
  }

  /** The bindings after peers `from`, `from + 1`, ... have been waited for. */
  function Answered(peers: seq<Peer>, from: nat, answers: nat -> Answer, m: map<Peer, int>): map<Peer, int>
    requires from <= |peers|
    decreases |peers| - from
  {
    if from == |peers| then m
    else Answered(peers, from + 1, answers, if answers(from).Answers? then m[peers[from] := answers(from).time] else m)
  }

  /** One round of the client: the peers up to the first failing send, then, if there was none, the sender of the
      final message. */
  function AfterRound(peers: seq<Peer>, answers: nat -> Answer, last: Option<(Peer, int)>, m: map<Peer, int>):
    map<Peer, int>
  {
    var n := Reached(|peers|, 0, answers);
    var m' := Answered(peers[..n], 0, answers, m);
    if n == |peers| && last.Some? then m'[last.value.0 := last.value.1] else m'
  }

  /** The last peer from `from` on that is called `p` and has answered. */
  function LastAnswer(peers: seq<Peer>, from: nat, answers: nat -> Answer, p: Peer): (r: Option<nat>)
    requires from <= |peers|
    ensures r.Some? ==> from <= r.value < |peers| && peers[r.value] == p && answers(r.value).Answers?
    ensures var k := if r.Some? then r.value + 1 else from;
      forall j :: k <= j < |peers| && peers[j] == p ==> !answers(j).Answers?
    decreases |peers| - from
  {
    if from == |peers| then None
    else
      var later := LastAnswer(peers, from + 1, answers, p);
      if later.Some? then later
      else if peers[from] == p && answers(from).Answers? then Some(from)
      else None
  }

  /** A peer is bound to the time of the last answer under its name, or as before if there was none. */
  lemma {:induction false} AnsweredMeaning(
      peers: seq<Peer>, from: nat, answers: nat -> Answer, m: map<Peer, int>, p: Peer)
    requires from <= |peers|
    ensures var r := Answered(peers, from, answers, m);
      match LastAnswer(peers, from, answers, p)
      case Some(k) => p in r && r[p] == answers(k).time
      case None => (p in r <==> p in m) && (p in m ==> r[p] == m[p])
    decreases |peers| - from
  {
    if from < |peers| {
      var m' := if answers(from).Answers? then m[peers[from] := answers(from).time] else m;
      AnsweredMeaning(peers, from + 1, answers, m', p);
    }
  }

  /** How `r` binds `p` after a round over distinct peers that started with `m`. */
  ghost predicate RoundBinds(
      peers: seq<Peer>, answers: nat -> Answer, last: Option<(Peer, int)>,
      m: map<Peer, int>, r: map<Peer, int>, p: Peer)
  {
    var n := Reached(|peers|, 0, answers);
    if n == |peers| && last.Some? && last.value.0 == p then p in r && r[p] == last.value.1
    else if exists k: nat :: k < n && peers[k] == p && answers(k).Answers? then
      p in r && forall k: nat :: k < n && peers[k] == p && answers(k).Answers? ==> r[p] == answers(k).time
    else (p in r <==> p in m) && (p in m ==> r[p] == m[p])
  }

  lemma RoundMeaning(peers: seq<Peer>, answers: nat -> Answer, last: Option<(Peer, int)>, m: map<Peer, int>, p: Peer)
    requires forall j, k :: 0 <= j < k < |peers| ==> peers[j] != peers[k]
    ensures var n := Reached(|peers|, 0, answers);
      var r := AfterRound(peers, answers, last, m);
      if n == |peers| && last.Some? && last.value.0 == p then p in r && r[p] == last.value.1
      else if exists k: nat :: k < n && peers[k] == p && answers(k).Answers? then
        p in r && forall k: nat :: k < n && peers[k] == p && answers(k).Answers? ==> r[p] == answers(k).time
      else (p in r <==> p in m) && (p in m ==> r[p] == m[p])
    ensures RoundBinds(peers, answers, last, m, AfterRound(peers, answers, last, m), p)
  {
    var n := Reached(|peers|, 0, answers);
    AnsweredMeaning(peers[..n], 0, answers, m, p);
  }

  /** From the server's run to the client's table. A client that is sent the listing of any reachable server state
      has bound after its round exactly the live users that answered before the first failing send, each to the
      time of its answer, and, if no send failed, the sender of the final message; all else is as before. */
  lemma RoundOnListing(
      ds: seq<Datagram>, d: Datagram, answers: nat -> Answer, last: Option<(Peer, int)>, m: map<Peer, int>, p: Peer)
    ensures var alive := Alive(Run(ds), d.timenow);
      RoundBinds(PeersOf(alive), answers, last, m, AfterRound(Peers(Listing(alive)), answers, last, m), p)
  {
    ListingReachesClient(ds, d);
    var peers := PeersOf(Alive(Run(ds), d.timenow));
    hide Alive, Run, Listing, PeerOf, Split, Peers, AfterRound, Reached, RoundBinds;
    RoundMeaning(peers, answers, last, m, p);
  }

  function FreshPeers(m: map<Peer, int>, timenow: int, s: int): map<Peer, int> {
    map p | p in m && timenow - m[p] <= s :: m[p]
  }

  /** What the expiry keeps: the peers whose last ping is at most `s` old, each with its time. */
  lemma FreshPeersMeaning(m: map<Peer, int>, timenow: int, s: int, p: Peer)
    ensures p in FreshPeers(m, timenow, s) <==> p in m && timenow - m[p] <= s
    ensures p in FreshPeers(m, timenow, s) ==> FreshPeers(m, timenow, s)[p] == m[p]
  {
  }

  class Client {
    /** `users_map`, with the time of the last ping as the only payload. */
    var usersMap: map<Peer, int>

    constructor ()
      ensures usersMap == map[]
    {
      usersMap := map[];
    }

    /** `delByPing`: erase one stale entry and start over until a pass finds none. The map's own iteration
        order is left open. */
    method DelByPing(s: int, timenow: int)
      modifies this
      ensures usersMap == FreshPeers(old(usersMap), timenow, s)
    {
      var erased := true;
      while erased
        invariant FreshPeers(usersMap, timenow, s) == FreshPeers(old(usersMap), timenow, s)
        invariant !erased ==> forall p :: p in usersMap ==> timenow - usersMap[p] <= s
        decreases |usersMap|, erased
      {
        erased := false;
        if p :| p in usersMap && timenow - usersMap[p] > s {
          assert |usersMap.Keys - {p}| == |usersMap.Keys| - 1;
          assert (usersMap - {p}).Keys == usersMap.Keys - {p};
          usersMap := usersMap - {p};
          erased := true;
        }
      }
    }

    /** `getUsers` after the listing has arrived: bind every listed peer that answers, up to the first to which
        nothing can be sent; if there is none, bind the sender of the final message, if one arrives. */
    method GetUsers(list: CString, answers: nat -> Answer, last: Option<(Peer, int)>)
      modifies this
      ensures usersMap == AfterRound(Peers(list), answers, last, old(usersMap))
    {
      hide Split;
      var addresses := SplitVector(list, ';', |list|);
      ghost var peers := Peers(list);
      ghost var n := Reached(|peers|, 0, answers);
      for i := 0 to |addresses|
        invariant i <= n
        invariant Answered(peers[..n], 0, answers, old(usersMap)) == Answered(peers[..n], i, answers, usersMap)
      {
        var peer := ParseEntry(addresses[i]);
        match answers(i) {
          case SendFails => return;
          case NoAnswer =>
          case Answers(t) => usersMap := usersMap[peer := t];
        }
      }
      match last
      case None =>
      case Some((p, t)) =>
        if p !in usersMap {
          usersMap := usersMap[p := 0];
        }
        usersMap := usersMap[p := t];
    }
  }
}
