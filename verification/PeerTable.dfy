/** The UDP peer table of src/async_serv.cpp and the text it sends. */
module PeerTable {
  import opened Text
  import opened Splitter

  /** The fields of `sockaddr_in` that `operator==` compares; the family is always AF_INET. */
  type Octet = n: int | 0 <= n < 256
  type Port = n: int | 0 <= n < 65536
  datatype Address = Address(a: Octet, b: Octet, c: Octet, d: Octet, port: Port)

  /** `serv::user`: `lastPing` is the time of insertion, because the refresh in the listing loop reaches
      a copy only. */
  datatype User = User(address: Address, lastPing: int)

  /** One received datagram with the two clock readings made while it is handled. */
  datatype Datagram = Datagram(client: Address, text: string, timenow: int, inserted: int)

  const TIMEOUT := 120
  const MAX_USERS := 10

  // --- Specification ---------------------------------------------------------

  predicate Stale(u: User, timenow: int) {
    timenow - u.lastPing > TIMEOUT
  }

  /** The users that have not timed out, in order. */
  function Alive(users: seq<User>, timenow: int): seq<User> {
    if users == [] then []
    else (if Stale(users[0], timenow) then [] else [users[0]]) + Alive(users[1..], timenow)
  }

  predicate Knows(users: seq<User>, client: Address) {
    exists k :: 0 <= k < |users| && users[k].address == client
  }

  /** The table after one datagram. */
  function Step(users: seq<User>, d: Datagram): seq<User> {
    var alive := Alive(users, d.timenow);
    if Knows(alive, d.client) then alive
    else (if |alive| > MAX_USERS then [] else alive) + [User(d.client, d.inserted)]
  }

  /** The table after a run of datagrams from the empty table. */
  function Run(ds: seq<Datagram>): seq<User> {
    if ds == [] then [] else Step(Run(ds[..|ds| - 1]), ds[|ds| - 1])
  }

  /** `inet_ntoa`. */
  function Dotted(x: Address): string {
    Natural(x.a) + "." + Natural(x.b) + "." + Natural(x.c) + "." + Natural(x.d)
  }

  function Entry(x: Address): string {
    Dotted(x) + ":" + Natural(x.port)
  }

  function Entries(users: seq<User>): seq<string> {
    if users == [] then [] else [Entry(users[0].address)] + Entries(users[1..])
  }

  /** The reply: one `ip:port;` for each user. */
  function Listing(users: seq<User>): string {
    Terminated(Entries(users), ';')
  }

  /** The line that echoes a datagram. */
  function Echo(client: Address, text: string): string {
    "[" + Entry(client) + "]: " + text + "\n"
  }

  // --- Filtering -------------------------------------------------------------

  lemma {:induction false} AliveAppend(a: seq<User>, b: seq<User>, timenow: int)
    ensures Alive(a + b, timenow) == Alive(a, timenow) + Alive(b, timenow)
  {
    if a == [] {
      assert a + b == b;
    } else {
      assert (a + b)[1..] == a[1..] + b;
      AliveAppend(a[1..], b, timenow);
    }
  }

  lemma AliveOne(u: User, timenow: int)
    ensures Alive([], timenow) == []
    ensures Alive([u], timenow) == if timenow - u.lastPing <= 120 then [u] else []
  {
    assert [u][1..] == [];
  }

  lemma {:induction false} AliveAll(users: seq<User>, timenow: int)
    requires forall k :: 0 <= k < |users| ==> !Stale(users[k], timenow)
    ensures Alive(users, timenow) == users
  {
    if users != [] {
      AliveAll(users[1..], timenow);
    }
  }

  lemma EraseStale(users: seq<User>, i: nat, timenow: int)
    requires i < |users| && Stale(users[i], timenow)
    ensures Alive(users[..i] + users[i + 1..], timenow) == Alive(users, timenow)
  {
    var rest := users[i..];
    AliveAppend(users[..i], users[i + 1..], timenow);
    AliveAppend(users[..i], rest, timenow);
    assert users == users[..i] + rest && rest[1..] == users[i + 1..];
  }

  /** Membership, order and size after expiry. */
  lemma {:induction false} AliveMeaning(users: seq<User>, timenow: int)
    ensures |Alive(users, timenow)| <= |users|
    ensures forall u :: u in Alive(users, timenow) <==> u in users && timenow - u.lastPing <= 120
    ensures Distinct(users) ==> Distinct(Alive(users, timenow))
  {
    if users != [] {
      var u0, rest := users[0], users[1..];
      AliveMeaning(rest, timenow);
      assert forall u :: u in users <==> u == u0 || u in rest;
      if Distinct(users) {
        assert Distinct(rest) by {
          forall j, k | 0 <= j < k < |rest| ensures rest[j].address != rest[k].address {
            assert rest[j] == users[j + 1] && rest[k] == users[k + 1];
          }
        }
        if !Stale(u0, timenow) {
          var tail := Alive(rest, timenow);
          forall k | 0 <= k < |tail| ensures tail[k].address != u0.address {
            assert tail[k] in rest;
            var j :| 0 <= j < |rest| && rest[j] == tail[k];
            assert rest[j] == users[j + 1];
          }
        }
      }
    }
  }

  ghost predicate Distinct(users: seq<User>) {
    forall j, k :: 0 <= j < k < |users| ==> users[j].address != users[k].address
  }

  // --- The server ------------------------------------------------------------

  class Server {
    var users: seq<User>

    constructor ()
      ensures users == []
    {
      users := [];
    }

    /** The lambda `delByPing`: erase the first stale user and start over until a pass finds none. */
    method DelByPing(timenow: int)
      modifies this
      ensures users == Alive(old(users), timenow)
    {
      var deleted := true;
      while deleted
        invariant Alive(users, timenow) == Alive(old(users), timenow)
        invariant !deleted ==> forall k :: 0 <= k < |users| ==> !Stale(users[k], timenow)
        decreases |users|, deleted
      {
        ghost var before := users;
        deleted := false;
        var it := 0;
        while it < |users|
          invariant it <= |users| && !deleted
          invariant forall k :: 0 <= k < it ==> !Stale(users[k], timenow)
          invariant users == before
        {
          if Stale(users[it], timenow) {
            EraseStale(users, it, timenow);
            users := users[..it] + users[it + 1..];
            deleted := true;
            break;
          }
          it := it + 1;
        }
      }
      AliveAll(users, timenow);
    }

    /** The UDP branch of the event loop: echo, expire, list, and insert an unknown sender, after a flush if
        the table has more than ten users. */
    method OnDatagram(d: Datagram) returns (echo: string, list: string)
      modifies this
      ensures users == Step(old(users), d)
      ensures echo == Echo(d.client, d.text)
      ensures list == Listing(Alive(old(users), d.timenow))
    {
      hide Alive, Terminated, Entry;
      echo := "[" + Entry(d.client) + "]: " + d.text + "\n";
      var userExists := false;
      list := "";
      DelByPing(d.timenow);
      ghost var alive := users;
      var i := 0;
      ListingEmpty();
      while i < |users|
        invariant i <= |users| && users == alive
        invariant userExists <==> exists k :: 0 <= k < i && users[k].address == d.client
        invariant list == Listing(users[..i])
      {
        var u := users[i];
        if u.address == d.client {
          userExists := true;
        }
        ListingAppend(users[..i], u);
        assert users[..i + 1] == users[..i] + [u];
        list := list + Entry(u.address) + ";";
        i := i + 1;
      }
      assert alive[..i] == alive;
      assert userExists <==> Knows(alive, d.client);
      if !userExists {
        if |users| > MAX_USERS {
          users := [];
        }
        users := users + [User(d.client, d.inserted)];
      }
    }
  }

  lemma ListingEmpty()
    ensures Listing([]) == ""
  {
  }

  lemma {:induction false} ListingAppend(users: seq<User>, u: User)
    ensures Listing(users + [u]) == Listing(users) + Entry(u.address) + ";"
  {
    hide Entry;
    if users == [] {
      assert users + [u] == [u];
      assert Entries([u]) == [Entry(u.address)];
      assert Entries([u])[1..] == [];
    } else {
      ListingAppend(users[1..], u);
      assert (users + [u])[1..] == users[1..] + [u];
      assert Entries(users)[1..] == Entries(users[1..]);
      assert Entries(users + [u])[1..] == Entries(users[1..] + [u]);
      var head, rest := Entry(users[0].address) + [';'], Listing(users[1..]);
      AppendAssociative(head, rest + Entry(u.address), ";");
      AppendAssociative(head, rest, Entry(u.address));
    }
  }

  /** The texts of the server written out: an entry per user at the end of the listing, and the echoed line. */
  lemma ServerTexts(users: seq<User>, u: User, text: string)
    ensures var x := u.address;
      var ip := Natural(x.a) + "." + Natural(x.b) + "." + Natural(x.c) + "." + Natural(x.d);
      && Listing([]) == "" && Listing(users + [u]) == Listing(users) + ip + ":" + Natural(x.port) + ";"
      && Echo(x, text) == "[" + ip + ":" + Natural(x.port) + "]: " + text + "\n"
  {
    ListingEmpty();
    ListingAppend(users, u);
    var x := u.address;
    hide Listing, Natural, Dotted;
    var rest := ":" + Natural(x.port);
    assert Entry(x) == Dotted(x) + rest;
    AppendAssociative(Listing(users), Dotted(x), rest);
    assert Dotted(x) == Natural(x.a) + "." + Natural(x.b) + "." + Natural(x.c) + "." + Natural(x.d) by {
      DottedIs(x);
    }
  }

  lemma DottedIs(x: Address)
    ensures Dotted(x) == Natural(x.a) + "." + Natural(x.b) + "." + Natural(x.c) + "." + Natural(x.d)
  {
    hide Natural;
  }

  // --- Every run -------------------------------------------------------------

  function Occurrences(users: seq<User>, client: Address): nat {
    if users == [] then 0
    else (if users[0].address == client then 1 else 0) + Occurrences(users[1..], client)
  }

  lemma {:induction false} OccurrencesOnce(users: seq<User>, client: Address)
    requires Distinct(users)
    ensures Occurrences(users, client) == if Knows(users, client) then 1 else 0
  {
    if users != [] {
      var rest := users[1..];
      assert forall k :: 0 <= k < |rest| ==> rest[k] == users[k + 1];
      OccurrencesOnce(rest, client);
      if k :| 0 <= k < |users| && users[k].address == client {
        assert k > 0 ==> rest[k - 1].address == client;
      }
      if k :| 0 <= k < |rest| && rest[k].address == client {
        assert users[k + 1].address == client;
      }
    }
  }

  /** What holds of the table after every datagram. */
  ghost predicate Inv(users: seq<User>) {
    Distinct(users) && |users| <= MAX_USERS + 1
  }

  /** One datagram keeps the invariant and leaves its sender in the table exactly once. The live users stay in
      front, in their order, with at most the sender behind them; only an unknown sender that finds the
      table full replaces them all. */
  lemma StepKeepsInv(users: seq<User>, d: Datagram)
    requires Inv(users)
    ensures Inv(Step(users, d)) && Occurrences(Step(users, d), d.client) == 1
    ensures forall u :: u in Step(users, d) ==>
      (u in users && d.timenow - u.lastPing <= 120) || u == User(d.client, d.inserted)
    ensures var alive, next := Alive(users, d.timenow), Step(users, d);
      if Knows(alive, d.client) || |alive| <= 10 then alive <= next && |next| <= |alive| + 1
      else next == [User(d.client, d.inserted)]
    ensures |Alive(users, d.timenow)| <= 10 ==>
      forall u :: u in users && d.timenow - u.lastPing <= 120 ==> u in Step(users, d)
  {
    hide Alive;
    var alive, next := Alive(users, d.timenow), Step(users, d);
    AliveMeaning(users, d.timenow);
    if !Knows(alive, d.client) {
      assert next[|next| - 1].address == d.client;
    }
    OccurrencesOnce(next, d.client);
  }

  /** In every run: no two entries share a socket address, there are never more than 11, the latest sender is
      in the table exactly once, every entry was inserted by a datagram of its own address, and only the
      latest sender's entry can be older than the timeout. */
  lemma {:induction false} EveryRun(ds: seq<Datagram>)
    ensures Inv(Run(ds)) && |Run(ds)| <= 11
    ensures forall j, k :: 0 <= j < k < |Run(ds)| ==> Run(ds)[j].address != Run(ds)[k].address
    ensures ds != [] ==> Occurrences(Run(ds), ds[|ds| - 1].client) == 1
    ensures forall u :: u in Run(ds) ==> exists d :: d in ds && u == User(d.client, d.inserted)
    ensures forall u :: u in Run(ds) ==>
      ds[|ds| - 1].timenow - u.lastPing <= 120 || u == User(ds[|ds| - 1].client, ds[|ds| - 1].inserted)
    decreases |ds|
  {
    hide Step;
    if ds != [] {
      var front, d := ds[..|ds| - 1], ds[|ds| - 1];
      EveryRun(front);
      StepKeepsInv(Run(front), d);
      forall u | u in Run(ds) ensures exists e :: e in ds && u == User(e.client, e.inserted) {
        if u in Run(front) {
          var e :| e in front && u == User(e.client, e.inserted);
          assert e in ds;
        } else {
          assert d in ds;
        }
      }
    }
  }

  /** One datagram by the numbers: a live sender changes nothing but the expiry; an unknown one is added behind the
      live users, and all of these are dropped exactly if there are eleven or more. */
  lemma StepExactly(users: seq<User>, d: Datagram)
    ensures var alive, next := Alive(users, d.timenow), Step(users, d);
      if exists u :: u in users && u.address == d.client && d.timenow - u.lastPing <= 120 then next == alive
      else if |alive| >= 11 then next == [User(d.client, d.inserted)]
      else next == alive + [User(d.client, d.inserted)]
  {
    hide Alive;
    var alive := Alive(users, d.timenow);
    AliveMeaning(users, d.timenow);
    if u :| u in users && u.address == d.client && d.timenow - u.lastPing <= 120 {
      assert u in alive;
      var k :| 0 <= k < |alive| && alive[k] == u;
      assert alive[k].address == d.client;
    } else {
      assert forall k :: 0 <= k < |alive| ==> alive[k] in alive;
    }
  }

  /** `n` datagrams at one time from as many ports. */
  function Arrivals(n: nat): (ds: seq<Datagram>)
    requires n <= 65536
    ensures |ds| == n && forall k :: 0 <= k < n ==> ds[k] == Datagram(Address(127, 0, 0, 1, k), "", 0, 0)
  {
    if n == 0 then [] else Arrivals(n - 1) + [Datagram(Address(127, 0, 0, 1, n - 1), "", 0, 0)]
  }

  lemma {:induction false} TableFills(n: nat)
    requires n <= 11
    ensures |Run(Arrivals(n))| == n
    ensures forall k :: 0 <= k < n ==> Run(Arrivals(n))[k] == User(Address(127, 0, 0, 1, k), 0)
  {
    hide Step, Alive;
    if n > 0 {
      TableFills(n - 1);
      var users, d := Run(Arrivals(n - 1)), Arrivals(n)[n - 1];
      assert Arrivals(n)[..n - 1] == Arrivals(n - 1);
      AliveAll(users, 0);
      StepExactly(users, d);
      assert forall u :: u in users ==> u.address != d.client;
    }
  }

  /** Eleven users are reached, and the twelfth replaces them all. */
  lemma TwelfthFlushes()
    ensures |Run(Arrivals(11))| == 11
    ensures Run(Arrivals(12)) == [User(Address(127, 0, 0, 1, 11), 0)]
  {
    hide Step, Alive;
    TableFills(11);
    var users, d := Run(Arrivals(11)), Arrivals(12)[11];
    assert Arrivals(12)[..11] == Arrivals(11);
    AliveAll(users, 0);
    StepExactly(users, d);
    assert forall u :: u in users ==> u.address != d.client;
  }

  /** The refresh for a known sender has no effect: after a datagram the sender's entry carries the time of
      this datagram exactly if no live entry of the sender carries another time. */
  lemma RefreshOnlyByInsertion(users: seq<User>, d: Datagram)
    requires Inv(users)
    ensures User(d.client, d.inserted) in Step(users, d) <==>
      forall u :: u in Alive(users, d.timenow) && u.address == d.client ==> u.lastPing == d.inserted
  {
    hide Alive;
    var alive, next := Alive(users, d.timenow), Step(users, d);
    AliveMeaning(users, d.timenow);
    if k :| 0 <= k < |alive| && alive[k].address == d.client {
      assert alive[k] in alive;
    } else {
      assert next[|next| - 1] == User(d.client, d.inserted);
    }
  }

  /** A sender that keeps sending every 60 seconds is not in the listing it gets at 180. */
  lemma ActiveSenderExpires(x: Address)
    ensures var ds := [Datagram(x, "", 0, 0), Datagram(x, "", 60, 60), Datagram(x, "", 120, 120)];
      Run(ds) == [User(x, 0)] && Listing(Alive(Run(ds), 180)) == ""
  {
    var d1, d2, d3 := Datagram(x, "", 0, 0), Datagram(x, "", 60, 60), Datagram(x, "", 120, 120);
    var t := [User(x, 0)];
    assert [d1][..0] == [] && [d1, d2][..1] == [d1] && [d1, d2, d3][..2] == [d1, d2];
    assert Alive(t, 60) == t && Alive(t, 120) == t by {
      AliveAll(t, 60);
      AliveAll(t, 120);
    }
    assert t[0].address == x;
    assert Run([]) == [];
    assert Run([d1]) == t;
    assert Run([d1, d2]) == Step(Run([d1]), d2) == t;
    assert Run([d1, d2, d3]) == Step(Run([d1, d2]), d3) == t;
    assert Alive(t, 180) == [] by {
      assert t[1..] == [];
    }
  }
}
