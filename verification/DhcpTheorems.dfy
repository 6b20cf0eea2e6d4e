// What the lease list and the pool guarantee: addresses and clients are unique over
// every run, and when that fails.
module DhcpTheorems {
  import opened Words
  import opened DhcpLeases

  /** In one /24 network the stored form orders addresses as one would expect. */
  lemma RawOrder(a: u32, b: u32)
    requires a / 0x100 == b / 0x100
    ensures Less(a, b) <==> a < b
  {
    assert a == a / 0x100 * 0x100 + a % 0x100;
    assert b == b / 0x100 * 0x100 + b % 0x100;
    Middle(a);
    Middle(b);
    var n := a / 0x100;
    var rest := n % 0x100 * 0x1_0000 + n / 0x100 % 0x100 * 0x100 + n / 0x1_0000;
    assert Raw(a) == a % 0x100 * 0x100_0000 + rest && Raw(b) == b % 0x100 * 0x100_0000 + rest;
  }

  lemma Middle(a: u32)
    ensures a / 0x1_0000 == a / 0x100 / 0x100 && a / 0x100_0000 == a / 0x100 / 0x1_0000
  {
  }

  /** The pool lies in the server's network and does not hold its address; its
      last octet is below 255 unless the configured pool already went that far. */
  lemma PollSetIsSound(poll: Poll, ip: u32)
    ensures var p := PollSet(poll, ip);
            && OneNet(p) && p.start / 0x100 == ip / 0x100 && !(p.start <= ip <= p.end)
            && p.end - p.start <= MAX_LEASE
            && (p.end % 0x100 == 255 <==> p == poll && poll.enable && poll.end % 0x100 == 255)
  {
    var p := PollSet(poll, ip);
    assert ip == ip / 0x100 * 0x100 + ip % 0x100;
    if p != poll || !poll.enable {
      SameNet(ip / 0x100, p.start - ip / 0x100 * 0x100);
      SameNet(ip / 0x100, p.end - ip / 0x100 * 0x100);
    }
  }

  /** Which addresses the pool holds: those configured, if they may be used as they
      are, and otherwise MAX_LEASE of them, right behind the server's address or
      right before it. */
  lemma PoolIs(poll: Poll, ip: u32)
    requires poll.start <= poll.end
    ensures var p := PollSet(poll, ip);
            if && poll.enable && poll.start / 0x100 == ip / 0x100 == poll.end / 0x100
               && !(poll.start <= ip <= poll.end) && poll.end - poll.start <= MAX_LEASE
            then p == poll
            else !p.enable && p.end - p.start + 1 == MAX_LEASE
                 && (if ip % 0x100 < 0x80 then p.start == ip + 1 else p.end == ip - 1)
  {
    assert ip == ip / 0x100 * 0x100 + ip % 0x100;
  }

  lemma SameNet(net: int, octet: int)
    requires 0 <= octet < 0x100
    ensures (net * 0x100 + octet) / 0x100 == net && (net * 0x100 + octet) % 0x100 == octet
  {
  }

  // ---------------------------------------------------------------- invariant

  ghost predicate Ascending(list: seq<Lease>) {
    forall i, j :: 0 <= i < j < |list| ==> list[i].ip < list[j].ip
  }

  ghost predicate Within(list: seq<Lease>, lo: int, hi: int) {
    forall i :: 0 <= i < |list| ==> lo <= list[i].ip <= hi
  }

  ghost predicate DistinctMacs(list: seq<Lease>) {
    forall i, j :: 0 <= i < j < |list| ==> list[i].mac != list[j].mac
  }

  /** A pool in one /24 network whose last address is not .255, nor 0.0.0.0. */
  ghost predicate GoodPool(p: Poll) {
    OneNet(p) && p.end % 0x100 < 255 && 0 < p.start
  }

  ghost predicate Leased(list: seq<Lease>, a: int) {
    exists i :: 0 <= i < |list| && list[i].ip == a
  }

  /** No address and no client twice, all in the pool, in order. */
  ghost predicate Good(st: State) {
    && GoodPool(st.pool) && st.pool.start <= st.plus <= st.pool.end
    && Ascending(st.list) && Within(st.list, st.pool.start, st.pool.end) && DistinctMacs(st.list)
  }

  /** Addresses from the pool, or just behind it, compare as numbers. */
  lemma PoolOrder(p: Poll, a: u32, b: u32)
    requires GoodPool(p) && p.start <= a <= p.end + 1 && p.start <= b <= p.end + 1
    ensures Less(a, b) <==> a < b
    ensures a <= p.end ==> Inc(a) == a + 1
  {
    assert p.start == p.start / 0x100 * 0x100 + p.start % 0x100;
    assert p.end == p.start / 0x100 * 0x100 + p.end % 0x100;
    SameNet(p.start / 0x100, a - p.start / 0x100 * 0x100);
    SameNet(p.start / 0x100, b - p.start / 0x100 * 0x100);
    hide Raw;
    RawOrder(a, b);
  }

  lemma TailOf(list: seq<Lease>, lo: int, hi: int)
    requires list != [] && Ascending(list) && Within(list, lo, hi)
    ensures Ascending(list[1..]) && Within(list[1..], list[0].ip + 1, hi)
  {
    assert forall i :: 0 <= i < |list| - 1 ==> list[1..][i] == list[i + 1];
  }

  lemma LeasedTail(list: seq<Lease>, a: int)
    requires list != []
    ensures Leased(list, a) <==> list[0].ip == a || Leased(list[1..], a)
  {
    var t := list[1..];
    assert list[0].ip == a ==> Leased(list, a);
    if Leased(t, a) {
      var i :| 0 <= i < |t| && t[i].ip == a;
      assert list[i + 1].ip == a;
    }
    if Leased(list, a) && list[0].ip != a {
      var i :| 0 <= i < |list| && list[i].ip == a;
      assert t[i - 1].ip == a;
    }
  }

  /** from is the lowest address from lo on that is not leased. */
  ghost predicate Lowest(list: seq<Lease>, lo: int, from: int) {
    lo <= from && !Leased(list, from) && forall x :: lo <= x < from ==> Leased(list, x)
  }

  /** plus ends on the lowest unleased address from where it was, or stays inside
      the pool if the client is found on the way. */
  lemma {:induction false} ScanPlus(p: Poll, list: seq<Lease>, lo: int, mac: nat, plus: u32, first: u32, flag: bool)
    requires GoodPool(p) && p.start <= lo && Ascending(list) && Within(list, lo, p.end) && p.start <= plus <= p.end + 1
    ensures var r := ScanList(list, mac, plus, first, flag);
            p.start <= r.plus <= p.end + 1 && (r.NotFound? ==> Lowest(list, plus, r.plus))
    ensures var r := ScanList(list, mac, plus, first, flag);
            r.Found? && plus <= p.end ==> r.plus <= p.end
    decreases |list|
  {
    hide Less, Inc, Leased, Ascending, Within;
    if list == [] {
      NoneLeased(plus);
    } else {
      TailOf(list, lo, p.end);
      HeadIn(list, lo, p.end);
      var h := list[0].ip;
      PoolOrder(p, h, h);
      var plus' := if h == plus then Inc(plus) else plus;
      var gap := flag || Less(first, h);
      var first' := if gap then first else Inc(first);
      ScanPlus(p, list[1..], h + 1, mac, plus', first', gap);
      var r := ScanList(list[1..], mac, plus', first', gap);
      forall x
        ensures Leased(list, x) <==> h == x || Leased(list[1..], x)
        ensures Leased(list[1..], x) ==> h < x
      {
        LeasedTail(list, x);
        if Leased(list[1..], x) { LeasedIn(list[1..], h + 1, p.end, x); }
      }
      assert plus < h ==> !Leased(list[1..], plus);
      if h == plus && r.Found? {
        FoundIn(list[1..], mac, plus', first', gap, h + 1, p.end);
      }
    }
  }

  lemma NoneLeased(a: int)
    ensures !Leased([], a)
  {
  }

  lemma HeadIn(list: seq<Lease>, lo: int, hi: int)
    requires list != [] && Within(list, lo, hi)
    ensures lo <= list[0].ip <= hi
  {
  }

  lemma LeasedIn(list: seq<Lease>, lo: int, hi: int, a: int)
    requires Within(list, lo, hi) && Leased(list, a)
    ensures lo <= a <= hi
  {
  }

  /** The client's lease lies behind. */
  lemma FoundIn(list: seq<Lease>, mac: nat, plus: u32, first: u32, flag: bool, lo: int, hi: int)
    requires Within(list, lo, hi) && ScanList(list, mac, plus, first, flag).Found?
    ensures lo <= hi
  {
    var i := ScanList(list, mac, plus, first, flag).i;
    assert lo <= list[i].ip <= hi;
  }

  /** first ends on the lowest unleased address of the pool. */
  lemma {:induction false} ScanFirst(p: Poll, list: seq<Lease>, mac: nat, plus: u32, first: u32, flag: bool)
    requires GoodPool(p) && Ascending(list) && p.start <= first <= p.end + 1
    requires if flag then Within(list, first + 1, p.end) else Within(list, first, p.end)
    ensures var r := ScanList(list, mac, plus, first, flag);
            r.NotFound? ==> first <= r.first <= p.end + 1 && Lowest(list, first, r.first)
    decreases |list|
  {
    hide Less, Inc, Leased, Ascending, Within;
    if list == [] {
      NoneLeased(first);
    } else {
      TailOf(list, if flag then first + 1 else first, p.end);
      HeadIn(list, if flag then first + 1 else first, p.end);
      var h := list[0].ip;
      PoolOrder(p, first, h);
      var gap := flag || Less(first, h);
      var first' := if gap then first else Inc(first);
      Wider(list[1..], h + 1, if gap then first' + 1 else first', p.end);
      ScanFirst(p, list[1..], mac, if h == plus then Inc(plus) else plus, first', gap);
      forall x
        ensures Leased(list, x) <==> h == x || Leased(list[1..], x)
        ensures Leased(list[1..], x) ==> h < x
      {
        LeasedTail(list, x);
        if Leased(list[1..], x) { LeasedIn(list[1..], h + 1, p.end, x); }
      }
      assert first < h ==> !Leased(list[1..], first);
    }
  }

  lemma Wider(list: seq<Lease>, lo: int, lo': int, hi: int)
    requires Within(list, lo, hi) && lo' <= lo
    ensures Within(list, lo', hi)
  {
  }

  /** A lease for an address that nobody has goes to its place. */
  lemma {:induction false} InsertGood(p: Poll, list: seq<Lease>, lo: int, l: Lease)
    requires GoodPool(p) && p.start <= lo && Ascending(list) && Within(list, lo, p.end)
    requires lo <= l.ip <= p.end && !Leased(list, l.ip)
    ensures Ascending(InsertLease(list, l)) && Within(InsertLease(list, l), lo, p.end)
    ensures forall x :: x in InsertLease(list, l) <==> x == l || x in list
    decreases |list|
  {
    if list != [] {
      PoolOrder(p, l.ip, list[0].ip);
      hide Less, Leased;
      LeasedTail(list, l.ip);
      TailOf(list, lo, p.end);
      var t := list[1..];
      assert list == [list[0]] + t;
      if list[0].ip < l.ip {
        InsertGood(p, t, list[0].ip + 1, l);
        ConsAscending(list[0], InsertLease(t, l), p.end);
      } else {
        assert forall i :: 0 <= i < |list| ==> l.ip < list[i].ip;
        ConsAscending(l, list, p.end);
      }
    }
  }

  lemma ConsAscending(l: Lease, t: seq<Lease>, hi: int)
    requires Ascending(t) && Within(t, l.ip + 1, hi)
    ensures Ascending([l] + t)
  {
  }

  lemma {:induction false} InsertMacs(list: seq<Lease>, l: Lease)
    requires DistinctMacs(list) && forall i :: 0 <= i < |list| ==> list[i].mac != l.mac
    ensures DistinctMacs(InsertLease(list, l))
    ensures forall i :: 0 <= i < |InsertLease(list, l)| ==>
              InsertLease(list, l)[i] == l || InsertLease(list, l)[i] in list
  {
    if list != [] && !Less(l.ip, list[0].ip) {
      var t := list[1..];
      assert forall i :: 0 <= i < |t| ==> t[i] == list[i + 1];
      InsertMacs(t, l);
    }
  }

  lemma WithoutGood(list: seq<Lease>, i: nat, lo: int, hi: int)
    requires i < |list| && Ascending(list) && Within(list, lo, hi) && DistinctMacs(list)
    ensures Ascending(Without(list, i)) && Within(Without(list, i), lo, hi) && DistinctMacs(Without(list, i))
  {
    var r := Without(list, i);
    assert forall k :: 0 <= k < |r| ==> r[k] == list[if k < i then k else k + 1];
  }

  // ----------------------------------------------------------------- theorems

  /** What the search yields in a good state. */
  lemma Candidates(st: State, mac: nat)
    requires Good(st)
    ensures var r := ScanList(st.list, mac, st.plus, st.pool.start, false);
            && st.pool.start <= r.plus <= st.pool.end + 1 && (r.Found? ==> r.plus <= st.pool.end)
            && (r.NotFound? ==> Lowest(st.list, st.plus, r.plus) && Lowest(st.list, st.pool.start, r.first)
                                && r.first <= st.pool.end + 1)
  {
    hide ScanList;
    ScanPlus(st.pool, st.list, st.pool.start, mac, st.plus, st.pool.start, false);
    ScanFirst(st.pool, st.list, mac, st.plus, st.pool.start, false);
  }

  /** The address chosen for a client without a lease, if there is one. */
  ghost function Chosen(st: State, mac: nat): u32 {
    var r := ScanList(st.list, mac, st.plus, st.pool.start, false);
    if r.Found? then 0
    else if Less(st.pool.end, r.plus) then r.first else if st.list == [] then st.pool.start else r.plus
  }

  /** A new client gets an address that nobody has; it gets none if and only if
      every address of the pool is leased. */
  lemma ChosenIsFree(st: State, mac: nat)
    requires Good(st) && forall i :: 0 <= i < |st.list| ==> st.list[i].mac != mac
    ensures var c := Chosen(st, mac);
            && (Less(st.pool.end, c) <==> forall x :: st.pool.start <= x <= st.pool.end ==> Leased(st.list, x))
            && st.pool.start <= c <= st.pool.end + 1
            && (!Less(st.pool.end, c) ==> c <= st.pool.end && !Leased(st.list, c))
  {
    hide ScanList, Less, Leased, Ascending, Within, DistinctMacs;
    Candidates(st, mac);
    var r := ScanList(st.list, mac, st.plus, st.pool.start, false);
    PoolOrder(st.pool, st.pool.end, r.plus);
    PoolOrder(st.pool, st.pool.end, r.first);
    PoolOrder(st.pool, st.pool.end, st.pool.start);
    if st.list == [] {
      forall x
        ensures !Leased(st.list, x)
      {
        NoneLeased(x);
      }
    }
  }

  /** Every message keeps the list good. */
  lemma HandleGood(st: State, mac: nat, timer: u32, released: bool)
    requires Good(st)
    ensures Good(Handle(st, mac, timer, released).0) && Handle(st, mac, timer, released).0.pool == st.pool
  {
    hide ScanList, Less, Ascending, Within, DistinctMacs, Without, InsertLease;
    Candidates(st, mac);
    var r := ScanList(st.list, mac, st.plus, st.pool.start, false);
    if r.Found? {
      WithoutGood(st.list, r.i, st.pool.start, st.pool.end);
      RenewGood(st.list, r.i, timer, st.pool.start, st.pool.end);
    } else {
      ChosenIsFree(st, mac);
      var c := Chosen(st, mac);
      PoolOrder(st.pool, c, st.pool.end);
      PoolOrder(st.pool, st.pool.end, c);
      if c <= st.pool.end {
        InsertGood(st.pool, st.list, st.pool.start, Lease(c, mac, timer));
        InsertMacs(st.list, Lease(c, mac, timer));
      }
    }
  }

  lemma RenewGood(list: seq<Lease>, i: nat, timer: u32, lo: int, hi: int)
    requires i < |list| && Ascending(list) && Within(list, lo, hi) && DistinctMacs(list)
    ensures var r := list[i := list[i].(timer := timer)];
            Ascending(r) && Within(r, lo, hi) && DistinctMacs(r)
  {
  }

  /** What a client is told: the address of its own lease, once there is one. */
  lemma AnswerIsLeased(st: State, mac: nat, timer: u32)
    requires Good(st)
    ensures var (st', a) := Handle(st, mac, timer, false);
            if a.Answered? then Lease(a.client, mac, timer) in st'.list
            else forall x :: st.pool.start <= x <= st.pool.end ==> Leased(st.list, x)
  {
    hide ScanList, Less, Ascending, DistinctMacs, InsertLease, Leased;
    Candidates(st, mac);
    var r := ScanList(st.list, mac, st.plus, st.pool.start, false);
    if r.Found? {
      PoolOrder(st.pool, st.pool.end, st.list[r.i].ip);
      assert st.list[r.i := st.list[r.i].(timer := timer)][r.i] == Lease(st.list[r.i].ip, mac, timer);
    } else {
      ChosenIsFree(st, mac);
      var c := Chosen(st, mac);
      if c <= st.pool.end && !Less(st.pool.end, c) {
        InsertGood(st.pool, st.list, st.pool.start, Lease(c, mac, timer));
      }
    }
  }

  /** Which address a new client gets: the first one of the pool if nothing is leased,
      otherwise the lowest free one from the cursor on, or from the start of the pool
      if there is none.  The cursor then stands behind it. */
  lemma NextAddress(st: State, mac: nat, timer: u32)
    requires Good(st) && forall i :: 0 <= i < |st.list| ==> st.list[i].mac != mac
    ensures var (st', a) := Handle(st, mac, timer, false);
            && (a == Nak ==> st'.plus == st.pool.start)
            && (a.Answered? ==>
                  && st'.plus == (if a.client == st.pool.end then st.pool.start else a.client + 1)
                  && if st.list == [] then a.client == st.pool.start
                     else Lowest(st.list, if exists x :: st.plus <= x <= st.pool.end && !Leased(st.list, x)
                                          then st.plus else st.pool.start, a.client))
  {
    hide ScanList, Less, Ascending, Within, DistinctMacs, InsertLease, Leased, Inc;
    Candidates(st, mac);
    ChosenIsFree(st, mac);
    var r := ScanList(st.list, mac, st.plus, st.pool.start, false);
    PoolOrder(st.pool, st.pool.end, r.plus);
    if st.list == [] { NoneLeased(st.plus); }
    var c := Chosen(st, mac);
    PoolOrder(st.pool, c, c);
  }

  /** A client with a lease moves the cursor over the leases in front of its own that
      the cursor stands on, whether it renews or releases. */
  lemma RenewalMovesCursor(st: State, i: nat, timer: u32, released: bool)
    requires Good(st) && i < |st.list|
    ensures Lowest(st.list[..i], st.plus, Handle(st, st.list[i].mac, timer, released).0.plus)
  {
    var mac := st.list[i].mac;
    ScanToOwn(st.list, i, mac, st.plus, st.pool.start, false);
    ScanPlus(st.pool, st.list[..i], st.pool.start, mac, st.plus, st.pool.start, false);
    hide ScanList, Less, Leased;
  }

  lemma {:induction false} ScanToOwn(list: seq<Lease>, i: nat, mac: nat, plus: u32, first: u32, flag: bool)
    requires i < |list| && list[i].mac == mac && forall j :: 0 <= j < i ==> list[j].mac != mac
    ensures ScanList(list, mac, plus, first, flag).Found?
    ensures ScanList(list[..i], mac, plus, first, flag).NotFound?
    ensures ScanList(list, mac, plus, first, flag).plus == ScanList(list[..i], mac, plus, first, flag).plus
    decreases i
  {
    if i > 0 {
      assert list[..i][1..] == list[1..][..i - 1];
      var gap := flag || Less(first, list[0].ip);
      ScanToOwn(list[1..], i - 1, mac, if list[0].ip == plus then Inc(plus) else plus,
                if gap then first else Inc(first), gap);
    }
  }

  /** A client that has a lease is told that address, as often as it asks, and
      loses it when it releases it. */
  lemma KnownKeepsAddress(st: State, i: nat, timer: u32)
    requires Good(st) && i < |st.list|
    ensures var (st', a) := Handle(st, st.list[i].mac, timer, false);
            a == Answered(st.list[i].ip) && st'.list == st.list[i := st.list[i].(timer := timer)]
    ensures Handle(st, st.list[i].mac, timer, true).0.list == Without(st.list, i)
  {
    hide ScanList, Less, Ascending;
    var r := ScanList(st.list, st.list[i].mac, st.plus, st.pool.start, false);
    assert r.Found? && r.i == i;
    PoolOrder(st.pool, st.pool.end, st.list[i].ip);
  }

  lemma {:induction false} InsertIn(list: seq<Lease>, x: Lease, l: Lease)
    ensures l in InsertLease(list, x) <==> l == x || l in list
    decreases |list|
  {
    hide Less;
    if list != [] {
      assert list == [list[0]] + list[1..];
      InsertIn(list[1..], x, l);
    }
  }

  /** No message touches the lease of another client. */
  lemma OthersUntouched(st: State, mac: nat, timer: u32, released: bool, l: Lease)
    requires l.mac != mac
    ensures l in Handle(st, mac, timer, released).0.list <==> l in st.list
  {
    hide ScanList, InsertLease, Less;
    var r := ScanList(st.list, mac, st.plus, st.pool.start, false);
    if r.Found? {
      assert st.list == st.list[..r.i] + [st.list[r.i]] + st.list[r.i + 1..];
      assert st.list[r.i := st.list[r.i].(timer := timer)] ==
             st.list[..r.i] + [st.list[r.i].(timer := timer)] + st.list[r.i + 1..];
    } else {
      forall client: u32
        ensures l in InsertLease(st.list, Lease(client, mac, timer)) <==> l in st.list
      {
        InsertIn(st.list, Lease(client, mac, timer), l);
      }
    }
  }

  /** A release ends the client's lease and no other; nothing is answered, unless a
      client without a lease sends it while all addresses are leased. */
  lemma ReleaseEnds(st: State, mac: nat, timer: u32)
    requires Good(st)
    ensures var (st', a) := Handle(st, mac, timer, true);
            && (forall l :: l in st'.list <==> l in st.list && l.mac != mac)
            && (a == Nak <==> (forall l :: l in st.list ==> l.mac != mac)
                              && forall x :: st.pool.start <= x <= st.pool.end ==> Leased(st.list, x))
            && (a != Nak ==> a == Answered(0))
  {
    forall l | l in Handle(st, mac, timer, true).0.list
      ensures l.mac != mac
    {
      Forgotten(st, mac, timer, l);
    }
    forall l: Lease | l.mac != mac
      ensures l in Handle(st, mac, timer, true).0.list <==> l in st.list
    {
      OthersUntouched(st, mac, timer, true, l);
    }
    ReleaseAnswer(st, mac, timer);
  }

  lemma ReleaseAnswer(st: State, mac: nat, timer: u32)
    requires Good(st)
    ensures var a := Handle(st, mac, timer, true).1;
            && (a == Nak <==> (forall l :: l in st.list ==> l.mac != mac)
                              && forall x :: st.pool.start <= x <= st.pool.end ==> Leased(st.list, x))
            && (a != Nak ==> a == Answered(0))
  {
    hide ScanList, Less, Ascending, DistinctMacs, InsertLease, Leased;
    var r := ScanList(st.list, mac, st.plus, st.pool.start, false);
    if r.Found? {
      assert st.list[r.i] in st.list;
      PoolOrder(st.pool, st.pool.end, st.list[r.i].ip);
    } else {
      ChosenIsFree(st, mac);
    }
  }

  lemma Forgotten(st: State, mac: nat, timer: u32, l: Lease)
    requires Good(st) && l in Handle(st, mac, timer, true).0.list
    ensures l.mac != mac
  {
    hide ScanList, Less, Ascending;
    var r := ScanList(st.list, mac, st.plus, st.pool.start, false);
    if r.Found? { PoolOrder(st.pool, st.pool.end, st.list[r.i].ip); }
  }

  /** The leases of r are leases of list, with another time to live. */
  ghost predicate From(r: seq<Lease>, list: seq<Lease>) {
    forall i :: 0 <= i < |r| ==> HasLease(list, r[i].ip, r[i].mac)
  }

  ghost predicate HasLease(list: seq<Lease>, ip: u32, mac: nat) {
    exists j :: 0 <= j < |list| && list[j].ip == ip && list[j].mac == mac
  }

  /** What is left after a tick is what was there. */
  lemma {:induction false} TickGood(list: seq<Lease>, lo: int, hi: int)
    requires Ascending(list) && Within(list, lo, hi) && DistinctMacs(list)
    ensures Ascending(Tick(list)) && Within(Tick(list), lo, hi) && DistinctMacs(Tick(list)) && From(Tick(list), list)
    decreases |list|
  {
    hide Ascending, Within, DistinctMacs, From, Tick;
    if list == [] {
      TickNothing(lo, hi);
    } else {
      var h := list[0].(timer := (list[0].timer - 1) % 0x1_0000_0000);
      TailOf(list, lo, hi);
      HeadIn(list, lo, hi);
      MacsTail(list);
      TickGood(list[1..], list[0].ip + 1, hi);
      FromTail(Tick(list[1..]), list);
      TickIs(list);
      Wider(Tick(list[1..]), list[0].ip + 1, lo, hi);
      ConsAscending(h, Tick(list[1..]), hi);
      ConsWithin(h, Tick(list[1..]), lo, hi);
      ConsMacs(h, Tick(list[1..]));
      ConsFrom(h, Tick(list[1..]), list);
    }
  }

  lemma TickNothing(lo: int, hi: int)
    ensures Tick([]) == [] && Ascending([]) && Within([], lo, hi) && DistinctMacs([]) && From([], [])
  {
  }

  lemma MacsTail(list: seq<Lease>)
    requires list != [] && DistinctMacs(list)
    ensures DistinctMacs(list[1..]) && forall i :: 0 <= i < |list[1..]| ==> list[1..][i].mac != list[0].mac
  {
    assert forall i :: 0 <= i < |list| - 1 ==> list[1..][i] == list[i + 1];
  }

  lemma FromTail(r: seq<Lease>, list: seq<Lease>)
    requires list != [] && From(r, list[1..])
    requires forall i :: 0 <= i < |list[1..]| ==> list[1..][i].mac != list[0].mac
    ensures From(r, list) && forall i :: 0 <= i < |r| ==> r[i].mac != list[0].mac
  {
    forall i | 0 <= i < |r|
      ensures r[i].mac != list[0].mac && HasLease(list, r[i].ip, r[i].mac)
    {
      assert HasLease(list[1..], r[i].ip, r[i].mac);
      var j :| 0 <= j < |list[1..]| && list[1..][j].ip == r[i].ip && list[1..][j].mac == r[i].mac;
      assert list[1..][j] == list[j + 1];
    }
  }

  lemma ConsFrom(l: Lease, t: seq<Lease>, list: seq<Lease>)
    requires From(t, list) && list != [] && l.ip == list[0].ip && l.mac == list[0].mac
    ensures From([l] + t, list)
  {
    assert HasLease(list, l.ip, l.mac) by { assert list[0].ip == l.ip; }
    hide HasLease;
    forall i | 0 <= i < |[l] + t|
      ensures HasLease(list, ([l] + t)[i].ip, ([l] + t)[i].mac)
    {
      if i > 0 { assert ([l] + t)[i] == t[i - 1]; }
    }
  }

  lemma TickIs(list: seq<Lease>)
    requires list != []
    ensures || Tick(list) == Tick(list[1..])
            || Tick(list) == [list[0].(timer := (list[0].timer - 1) % 0x1_0000_0000)] + Tick(list[1..])
  {
    assert [] + Tick(list[1..]) == Tick(list[1..]);
  }

  lemma ConsWithin(l: Lease, t: seq<Lease>, lo: int, hi: int)
    requires Within(t, lo, hi) && lo <= l.ip <= hi
    ensures Within([l] + t, lo, hi)
  {
  }

  lemma ConsMacs(l: Lease, t: seq<Lease>)
    requires DistinctMacs(t) && forall i :: 0 <= i < |t| ==> t[i].mac != l.mac
    ensures DistinctMacs([l] + t)
  {
  }

  lemma TimerGood(st: State, maxStations: nat)
    requires Good(st)
    ensures Good(st.(list := CoarseTimer(st.list, maxStations)))
  {
    hide Tick, Without, Ascending, Within, DistinctMacs;
    TickGood(st.list, st.pool.start, st.pool.end);
    var l := Tick(st.list);
    if |l| >= maxStations && |l| >= 2 {
      WithoutGood(l, Oldest(l, 1, 1), st.pool.start, st.pool.end);
    }
  }

  // --------------------------------------------------------------------- runs

  // ---------------------------------------------------- which lease is removed

  lemma {:induction false} OldestIs(list: seq<Lease>, best: nat, i: nat)
    requires 0 < best < i <= |list| || best == i == 1 < |list|
    requires forall j :: 0 < j < i ==> list[best].timer <= list[j].timer
    ensures var k := Oldest(list, best, i);
            0 < k < |list| && forall j :: 0 < j < |list| ==> list[k].timer <= list[j].timer
    decreases |list| - i
  {
    if i < |list| {
      OldestIs(list, if list[i].timer < list[best].timer then i else best, i + 1);
    }
  }

  /** The timer tick removes one lease too many as soon as maxStations are left;
      it has the least time left of all if and only if some lease behind the head
      of the list has no more time left than the head. */
  lemma RemovesOldestIff(list: seq<Lease>, maxStations: nat)
    requires |Tick(list)| >= maxStations && |Tick(list)| >= 2
    ensures var l := Tick(list);
            exists k :: 0 < k < |l| && CoarseTimer(list, maxStations) == Without(l, k)
              && ((forall j :: 0 <= j < |l| ==> l[k].timer <= l[j].timer)
                  <==> exists j :: 0 < j < |l| && l[j].timer <= l[0].timer)
  {
    var l := Tick(list);
    OldestIs(l, 1, 1);
    var k := Oldest(l, 1, 1);
    assert CoarseTimer(list, maxStations) == Without(l, k);
  }

  datatype Event = Dhcp(mac: nat, timer: u32, released: bool) | Second(maxStations: nat)

  function Step(st: State, e: Event): State {
    match e
    case Dhcp(mac, timer, released) => Handle(st, mac, timer, released).0
    case Second(maxStations) => st.(list := CoarseTimer(st.list, maxStations))
  }

  function Run(st: State, es: seq<Event>): State
    decreases |es|
  {
    if es == [] then st else Run(Step(st, es[0]), es[1..])
  }

  lemma {:induction false} RunGood(st: State, es: seq<Event>)
    requires Good(st)
    ensures Good(Run(st, es)) && Run(st, es).pool == st.pool
    decreases |es|
  {
    hide Good, Handle, CoarseTimer;
    if es != [] {
      match es[0] {
        case Dhcp(mac, timer, released) => HandleGood(st, mac, timer, released);
        case Second(maxStations) => TimerGood(st, maxStations);
      }
      RunGood(Step(st, es[0]), es[1..]);
    }
  }

  /** Over any run no address is leased twice, nor to the server, and no client
      holds two: for every server address, whatever pool is configured, unless
      that pool ends with .255. */
  lemma LeasesAreUnique(poll: Poll, ip: u32, es: seq<Event>)
    requires PollSet(poll, ip).end % 0x100 != 255 && 0x100 <= ip
    ensures var st := Run(Start(poll, ip), es);
            && Ascending(st.list) && DistinctMacs(st.list)
            && (forall i :: 0 <= i < |st.list| ==> st.pool.start <= st.list[i].ip <= st.pool.end && st.list[i].ip != ip)
  {
    hide PollSet, Run;
    PollSetIsSound(poll, ip);
    PollPositive(poll, ip);
    RunGood(Start(poll, ip), es);
  }

  /** These clients ask for an address, one after the other. */
  function Asks(macs: seq<nat>, time: u32): seq<Event> {
    if macs == [] then [] else [Dhcp(macs[0], time, false)] + Asks(macs[1..], time)
  }

  /** Each of them is told one. */
  ghost predicate AllAnswered(st: State, macs: seq<nat>, time: u32)
    decreases |macs|
  {
    macs == []
    || (&& Handle(st, macs[0], time, false).1.Answered?
        && AllAnswered(Handle(st, macs[0], time, false).0, macs[1..], time))
  }

  /** So many leases are needed before no address is left. */
  lemma {:induction false} AllLeasedNeeds(list: seq<Lease>, lo: int, hi: int)
    requires Ascending(list) && Within(list, lo, hi) && forall x :: lo <= x <= hi ==> Leased(list, x)
    ensures hi - lo + 1 <= |list|
    decreases |list|
  {
    if lo <= hi {
      assert Leased(list, hi);
      var n := |list| - 1;
      assert list[n].ip == hi;
      forall x | lo <= x <= hi - 1
        ensures Leased(list[..n], x)
      {
        assert Leased(list, x);
        var i :| 0 <= i < |list| && list[i].ip == x;
        assert list[..n][i] == list[i];
      }
      AllLeasedNeeds(list[..n], lo, hi - 1);
    }
  }

  lemma {:induction false} InsertSize(list: seq<Lease>, l: Lease)
    ensures |InsertLease(list, l)| == |list| + 1
  {
    hide Less;
    if list != [] { InsertSize(list[1..], l); }
  }

  ghost predicate Unknown(list: seq<Lease>, mac: nat) { forall l :: l in list ==> l.mac != mac }

  /** A new client is served as long as there are fewer leases than addresses. */
  lemma OneServed(st: State, mac: nat, time: u32)
    requires Good(st) && Unknown(st.list, mac) && |st.list| < st.pool.end - st.pool.start + 1
    ensures var (st', a) := Handle(st, mac, time, false);
            a.Answered? && |st'.list| == |st.list| + 1 && Lease(a.client, mac, time) in st'.list
  {
    AnswerIsLeased(st, mac, time);
    if forall x :: st.pool.start <= x <= st.pool.end ==> Leased(st.list, x) {
      AllLeasedNeeds(st.list, st.pool.start, st.pool.end);
    }
    hide ScanList, InsertLease, Less, Ascending, Within, DistinctMacs, Leased;
    var r := ScanList(st.list, mac, st.plus, st.pool.start, false);
    if r.NotFound? {
      forall client: u32
        ensures |InsertLease(st.list, Lease(client, mac, time))| == |st.list| + 1
      {
        InsertSize(st.list, Lease(client, mac, time));
      }
    }
  }

  /** As many new clients as there are addresses free all get one. */
  lemma {:induction false} EveryoneServed(st: State, macs: seq<nat>, time: u32)
    requires Good(st) && |st.list| + |macs| <= st.pool.end - st.pool.start + 1
    requires forall i, j :: 0 <= i < j < |macs| ==> macs[i] != macs[j]
    requires forall i :: 0 <= i < |macs| ==> Unknown(st.list, macs[i])
    ensures AllAnswered(st, macs, time) && |Run(st, Asks(macs, time)).list| == |st.list| + |macs|
    decreases |macs|
  {
    hide Good, Handle;
    if macs != [] {
      var st' := Handle(st, macs[0], time, false).0;
      OneServed(st, macs[0], time);
      HandleGood(st, macs[0], time, false);
      var rest := macs[1..];
      forall i | 0 <= i < |rest|
        ensures Unknown(st'.list, rest[i])
      {
        assert rest[i] == macs[i + 1] && Unknown(st.list, macs[i + 1]);
        forall l | l in st'.list
          ensures l.mac != rest[i]
        {
          if l.mac == rest[i] { OthersUntouched(st, macs[0], time, false, l); }
        }
      }
      EveryoneServed(st', rest, time);
      assert Asks(macs, time)[1..] == Asks(rest, time);
    }
  }

  /** From dhcps_start on, with no pool configured or one that cannot be used, the
      first MAX_LEASE clients all get an address. */
  lemma DefaultPoolServes(poll: Poll, ip: u32, macs: seq<nat>, time: u32)
    requires 0x100 <= ip && poll.start <= poll.end
    requires !(poll.enable && poll.start / 0x100 == ip / 0x100 == poll.end / 0x100
               && !(poll.start <= ip <= poll.end) && poll.end - poll.start <= MAX_LEASE)
    requires |macs| <= MAX_LEASE && forall i, j :: 0 <= i < j < |macs| ==> macs[i] != macs[j]
    ensures AllAnswered(Start(poll, ip), macs, time) && |Run(Start(poll, ip), Asks(macs, time)).list| == |macs|
  {
    PoolIs(poll, ip);
    PollSetIsSound(poll, ip);
    PollPositive(poll, ip);
    hide PollSet;
    var p := PollSet(poll, ip);
    assert p.end % 0x100 < 255;
    StartGood(poll, ip);
    EveryoneServed(Start(poll, ip), macs, time);
  }

  // ------------------------------------------------------------------ lease times

  /** Time passes, and at most as many stations are there as may be. */
  function Seconds(n: nat, maxStations: nat): seq<Event> {
    if n == 0 then [] else [Second(maxStations)] + Seconds(n - 1, maxStations)
  }

  /** l is on the list, and no other lease of its client is. */
  ghost predicate Only(list: seq<Lease>, l: Lease) {
    l in list && forall x :: x in list && x.mac == l.mac ==> x == l
  }

  lemma {:induction false} TickHas(list: seq<Lease>, l: Lease)
    requires l in list && l.timer > 1
    ensures l.(timer := l.timer - 1) in Tick(list)
    decreases |list|
  {
    if list[0] != l {
      assert list == [list[0]] + list[1..];
      TickHas(list[1..], l);
    }
  }

  lemma {:induction false} TickOrigin(list: seq<Lease>, l: Lease)
    requires l in Tick(list)
    ensures l.timer > 0 && l.(timer := (l.timer + 1) % 0x1_0000_0000) in list
    decreases |list|
  {
    var t: u32 := (list[0].timer - 1) % 0x1_0000_0000;
    assert list == [list[0]] + list[1..];
    if t == 0 || l != list[0].(timer := t) {
      TickOrigin(list[1..], l);
    } else {
      assert l.(timer := (l.timer + 1) % 0x1_0000_0000) == list[0];
    }
  }

  lemma {:induction false} TickShorter(list: seq<Lease>)
    ensures |Tick(list)| <= |list|
  {
    if list != [] { TickShorter(list[1..]); }
  }

  lemma OneSecond(list: seq<Lease>, l: Lease)
    ensures Only(list, l) && l.timer > 1 ==> Only(Tick(list), l.(timer := l.timer - 1))
    ensures Only(list, l) && l.timer == 1 ==> Unknown(Tick(list), l.mac)
    ensures Unknown(list, l.mac) ==> Unknown(Tick(list), l.mac)
  {
    hide Tick;
    if Only(list, l) && l.timer > 1 { TickHas(list, l); }
    forall x | x in Tick(list)
      ensures x.timer > 0 && x.(timer := (x.timer + 1) % 0x1_0000_0000) in list
    {
      TickOrigin(list, x);
    }
  }

  /** A lease that is not renewed lasts exactly as many seconds as it was given. */
  lemma {:induction false} LeaseLasts(st: State, l: Lease, n: nat, maxStations: nat)
    requires |st.list| < maxStations && (Unknown(st.list, l.mac) || (Only(st.list, l) && 0 < l.timer))
    ensures var r := Run(st, Seconds(n, maxStations)).list;
            if Only(st.list, l) && n < l.timer then l.(timer := l.timer - n) in r else Unknown(r, l.mac)
    decreases n
  {
    hide Only, Unknown, Tick, Step;
    NotOnly(st.list, l);
    if n > 0 {
      var st' := Step(st, Second(maxStations));
      SecondIsTick(st, maxStations);
      OneSecond(st.list, l);
      NotOnly(st'.list, l);
      assert Seconds(n, maxStations)[1..] == Seconds(n - 1, maxStations);
      if Only(st.list, l) && l.timer > 1 {
        var l' := l.(timer := l.timer - 1);
        NotOnly(st'.list, l');
        LeaseLasts(st', l', n - 1, maxStations);
      } else {
        LeaseLasts(st', l, n - 1, maxStations);
      }
    }
  }

  lemma SecondIsTick(st: State, maxStations: nat)
    requires |st.list| < maxStations
    ensures Step(st, Second(maxStations)).list == Tick(st.list) && |Tick(st.list)| <= |st.list|
  {
    TickShorter(st.list);
  }

  lemma NotOnly(list: seq<Lease>, l: Lease)
    ensures Unknown(list, l.mac) ==> !Only(list, l)
    ensures Only(list, l) ==> l in list
  {
  }

  lemma PollPositive(poll: Poll, ip: u32)
    requires 0x100 <= ip
    ensures 0 < PollSet(poll, ip).start
  {
    hide PollSet;
    PollSetIsSound(poll, ip);
    var p := PollSet(poll, ip);
    assert p.start >= 0x100 * (p.start / 0x100) == 0x100 * (ip / 0x100) >= 0x100;
  }

  // -------------------------------------------------- pools that end with .255

  /** Clients 0, 1, 2, ... ask one after the other. */
  function Clients(from: nat, n: nat): seq<Event>
    requires from <= n
    decreases n - from
  {
    if from == n then [] else [Dhcp(from, 1, false)] + Clients(from + 1, n)
  }

  /** Client i + k has address start + i + k. */
  function Ladder(start: nat, i: nat, n: nat): (r: seq<Lease>)
    requires i <= n && start + n <= 0x1_0000_0000
    ensures |r| == n - i && forall k :: 0 <= k < n - i ==> r[k] == Lease(start + i + k, i + k, 1)
    decreases n - i
  {
    if i == n then [] else [Lease(start + i, i, 1)] + Ladder(start, i + 1, n)
  }

  lemma {:induction false} ScanAbove(list: seq<Lease>, mac: nat, plus: u32, first: u32, flag: bool)
    requires forall k :: 0 <= k < |list| ==> list[k].mac != mac && list[k].ip != plus
    ensures ScanList(list, mac, plus, first, flag).NotFound? && ScanList(list, mac, plus, first, flag).plus == plus
    decreases |list|
  {
    hide Less;
    if list != [] {
      var gap := flag || Less(first, list[0].ip);
      ScanAbove(list[1..], mac, plus, if gap then first else Inc(first), gap);
    }
  }

  /** plus steps over a lease with its address. */
  lemma ScanOver(l: Lease, rest: seq<Lease>, mac: nat, first: u32, flag: bool) returns (first': u32, gap: bool)
    requires l.mac != mac && l.ip < 0xffff_ffff
    ensures var r, q := ScanList([l] + rest, mac, l.ip, first, flag), ScanList(rest, mac, l.ip + 1, first', gap);
            q.NotFound? ==> r.NotFound? && r.plus == q.plus
  {
    hide Less;
    assert ([l] + rest)[1..] == rest;
    gap := flag || Less(first, l.ip);
    first' := if gap then first else Inc(first);
  }

  lemma {:induction false} ScanUp(start: nat, i: nat, n: nat, first: u32, flag: bool)
    requires i <= n && start + n < 0x1_0000_0000
    ensures var r := ScanList(Ladder(start, i, n), n, start + i, first, flag); r.NotFound? && r.plus == start + n
    decreases n - i
  {
    if i < n {
      hide ScanList;
      var first', gap := ScanOver(Lease(start + i, i, 1), Ladder(start, i + 1, n), n, first, flag);
      ScanUp(start, i + 1, n, first', gap);
    }
  }

  lemma {:induction false} InsertLast(list: seq<Lease>, l: Lease)
    requires forall k :: 0 <= k < |list| ==> list[k].ip <= l.ip && list[k].ip / 0x100 == l.ip / 0x100
    ensures InsertLease(list, l) == list + [l]
    decreases |list|
  {
    if list != [] {
      RawOrder(l.ip, list[0].ip);
      hide Raw;
      assert list == [list[0]] + list[1..];
      InsertLast(list[1..], l);
    }
  }

  lemma LadderNext(start: nat, n: nat)
    requires start + n + 1 <= 0x1_0000_0000
    ensures Ladder(start, 0, n + 1) == Ladder(start, 0, n) + [Lease(start + n, n, 1)]
  {
  }

  /** After n clients have asked, the first n addresses are leased. */
  function Filled(pool: Poll, n: nat): State
    requires pool.start + n <= pool.end + 1
  {
    State(Ladder(pool.start, 0, n), if n <= pool.end - pool.start then pool.start + n else pool.start, pool)
  }

  lemma FillOne(pool: Poll, n: nat)
    requires OneNet(pool) && 0 < pool.start && pool.end < 0xffff_ffff && pool.start + n <= pool.end
    ensures Step(Filled(pool, n), Dhcp(n, 1, false)) == Filled(pool, n + 1)
  {
    hide Less, ScanList, InsertLease, Ladder, OneNet;
    FillParts(pool, n);
  }

  /** What the next client's message meets and does. */
  lemma FillParts(pool: Poll, n: nat)
    requires OneNet(pool) && 0 < pool.start && pool.end < 0xffff_ffff && pool.start + n <= pool.end
    ensures var a, list := pool.start + n, Ladder(pool.start, 0, n);
            && ScanList(list, n, a, pool.start, false).NotFound? && ScanList(list, n, a, pool.start, false).plus == a
            && !Less(pool.end, a) && Inc(a) == a + 1 && (list == [] ==> a == pool.start)
            && InsertLease(list, Lease(a, n, 1)) == Ladder(pool.start, 0, n + 1)
  {
    hide Less, Raw, ScanList, InsertLease;
    var a, list := pool.start + n, Ladder(pool.start, 0, n);
    InNet(pool, a);
    forall k | 0 <= k < n
      ensures list[k].ip / 0x100 == a / 0x100
    {
      InNet(pool, list[k].ip);
    }
    InsertLast(list, Lease(a, n, 1));
    LadderNext(pool.start, n);
    RawOrder(pool.end, a);
    ScanAbove(list, n, a, pool.start, false);
  }

  lemma InNet(pool: Poll, a: int)
    requires OneNet(pool) && pool.start <= a <= pool.end
    ensures a / 0x100 == pool.end / 0x100
  {
    assert pool.start == pool.start / 0x100 * 0x100 + pool.start % 0x100;
    assert pool.end == pool.start / 0x100 * 0x100 + pool.end % 0x100;
    SameNet(pool.start / 0x100, a - pool.start / 0x100 * 0x100);
  }

  lemma {:induction false} FillRun(pool: Poll, from: nat, n: nat)
    requires OneNet(pool) && 0 < pool.start && pool.end < 0xffff_ffff && from <= n && pool.start + n <= pool.end + 1
    ensures Run(Filled(pool, from), Clients(from, n)) == Filled(pool, n)
    decreases n - from
  {
    hide Filled, Step;
    if from < n {
      FillOne(pool, from);
      assert Clients(from, n)[1..] == Clients(from + 1, n);
      FillRun(pool, from + 1, n);
    }
  }

  /** The client after the last gets an address outside the pool if that ends
      with .255: the next address compares as smaller than the end. */
  lemma OneTooMany(pool: Poll)
    requires OneNet(pool) && 0 < pool.start && pool.end < 0xffff_ffff && pool.end % 0x100 == 255
    ensures var n := pool.end - pool.start + 1;
            Handle(Filled(pool, n), n, 1, false).1 == Answered(pool.end + 1)
            && Leased(Handle(Filled(pool, n), n, 1, false).0.list, pool.end + 1)
  {
    hide Less, ScanList, InsertLease, Leased, Ladder, OneNet;
    LastParts(pool);
  }

  lemma LastParts(pool: Poll)
    requires OneNet(pool) && 0 < pool.start && pool.end < 0xffff_ffff && pool.end % 0x100 == 255
    ensures var n, a := pool.end - pool.start + 1, pool.end + 1;
            var list := Ladder(pool.start, 0, n);
            && n > 0 && list != [] && ScanList(list, n, pool.start, pool.start, false).NotFound?
            && ScanList(list, n, pool.start, pool.start, false).plus == a
            && !Less(pool.end, a) && Leased(InsertLease(list, Lease(a, n, 1)), a)
  {
    hide Less, ScanList, InsertLease, Leased;
    var n := pool.end - pool.start + 1;
    ScanUp(pool.start, 0, n, pool.start, false);
    NextNet(pool.end);
    InsertHas(Ladder(pool.start, 0, n), Lease(pool.end + 1, n, 1));
  }

  lemma NextNet(a: u32)
    requires a % 0x100 == 255 && a < 0xffff_ffff
    ensures !Less(a, a + 1) && Inc(a + 1) != 0 && a + 1 != 0
  {
    assert a == a / 0x100 * 0x100 + 255;
    SameNet(a / 0x100 + 1, 0);
    assert (a + 1) % 0x100 == 0;
    Middle(a + 1);
    assert Raw(a + 1) < 0x100_0000;
  }

  lemma {:induction false} InsertHas(list: seq<Lease>, l: Lease)
    ensures Leased(InsertLease(list, l), l.ip)
    decreases |list|
  {
    if list == [] || Less(l.ip, list[0].ip) {
      assert InsertLease(list, l)[0] == l;
    } else {
      InsertHas(list[1..], l);
      LeasedTail(InsertLease(list, l), l.ip);
      assert InsertLease(list, l)[1..] == InsertLease(list[1..], l);
    }
  }

  ghost predicate StaysInPool(poll: Poll, ip: u32, es: seq<Event>) {
    var st := Run(Start(poll, ip), es);
    Within(st.list, st.pool.start, st.pool.end)
  }

  /** The exact condition: leases stay in the pool over every run if and only if
      the pool does not end with .255. */
  lemma InPoolIff(poll: Poll, ip: u32)
    requires 0x100 <= ip < 0xffff_ff00
    ensures (forall es :: StaysInPool(poll, ip, es)) <==> PollSet(poll, ip).end % 0x100 != 255
  {
    PollSetIsSound(poll, ip);
    PollPositive(poll, ip);
    var pool := PollSet(poll, ip);
    hide PollSet, Run, Within;
    if pool.end % 0x100 != 255 {
      forall es
        ensures StaysInPool(poll, ip, es)
      {
        StartGood(poll, ip);
        RunGood(Start(poll, ip), es);
      }
    } else {
      BelowTop(pool.end, ip);
      Overflows(pool, Start(poll, ip));
      var n := pool.end - pool.start + 1;
      assert !StaysInPool(poll, ip, Clients(0, n) + [Dhcp(n, 1, false)]);
    }
  }

  lemma StartGood(poll: Poll, ip: u32)
    requires GoodPool(PollSet(poll, ip))
    ensures Good(Start(poll, ip))
  {
  }

  lemma BelowTop(a: u32, ip: u32)
    requires a / 0x100 == ip / 0x100 && ip < 0xffff_ff00
    ensures a < 0xffff_ffff
  {
  }

  lemma Overflows(pool: Poll, st: State)
    requires OneNet(pool) && 0 < pool.start && pool.end < 0xffff_ffff && pool.end % 0x100 == 255
    requires st == State([], pool.start, pool)
    ensures var n := pool.end - pool.start + 1;
            var last := Run(st, Clients(0, n) + [Dhcp(n, 1, false)]);
            last.pool == pool && !Within(last.list, pool.start, pool.end)
  {
    var n := pool.end - pool.start + 1;
    assert Ladder(pool.start, 0, 0) == [];
    assert st == Filled(pool, 0);
    FillRun(pool, 0, n);
    RunAppend(st, Clients(0, n), Dhcp(n, 1, false));
    OneTooMany(pool);
    hide Handle, Filled, Run;
    var last := Step(Run(st, Clients(0, n)), Dhcp(n, 1, false));
    var i :| 0 <= i < |last.list| && last.list[i].ip == pool.end + 1;
    HandlePool(Filled(pool, n), n);
  }

  lemma HandlePool(st: State, mac: nat)
    ensures Handle(st, mac, 1, false).0.pool == st.pool
  {
  }

  lemma {:induction false} RunAppend(st: State, es: seq<Event>, e: Event)
    ensures Run(st, es + [e]) == Step(Run(st, es), e)
    decreases |es|
  {
    hide Step;
    if es == [] {
      assert [] + [e] == [e] && [e][1..] == [];
    } else {
      assert (es + [e])[1..] == es[1..] + [e];
      RunAppend(Step(st, es[0]), es[1..], e);
    }
  }

  /** Two clients that come one second apart, and room for two: the second one
      loses its lease, though the first one's ends sooner. */
  lemma YoungerRemovedExample(pool: Poll, a: nat, b: nat, time: u32)
    requires OneNet(pool) && 0 < pool.start < pool.end && a != b && 2 < time
    ensures var es := [Dhcp(a, time, false), Second(2), Dhcp(b, time, false), Second(2)];
            var st := Run(State([], pool.start, pool), es);
            st.list == [Lease(pool.start, a, time - 2)]
  {
    hide Handle, CoarseTimer;
    var st0 := State([], pool.start, pool);
    var e1, e2, e3 := Dhcp(a, time, false), Second(2), Dhcp(b, time, false);
    FirstClient(pool, a, time);
    OneLeft(Lease(pool.start, a, time));
    var st2 := State([Lease(pool.start, a, time - 1)], pool.start + 1, pool);
    SecondClient(pool, a, b, time, st2);
    TwoLeft(Lease(pool.start, a, time - 1), Lease(pool.start + 1, b, time));
    assert Step(Step(st0, e1), e2) == st2;
    assert Step(Step(st2, e3), e2).list == [Lease(pool.start, a, time - 2)];
    assert [e1, e2, e3, e2][1..] == [e2, e3, e2] && [e2, e3, e2][1..] == [e3, e2] && [e3, e2][1..] == [e2];
    assert Run(st2, [e3, e2]) == Run(Step(st2, e3), [e2]) == Run(Step(Step(st2, e3), e2), []);
    assert Run(st0, [e1, e2, e3, e2]) == Run(Step(st0, e1), [e2, e3, e2]) == Run(st2, [e3, e2]);
  }

  lemma FirstClient(pool: Poll, a: nat, time: u32)
    requires OneNet(pool) && 0 < pool.start < pool.end
    ensures Handle(State([], pool.start, pool), a, time, false).0 ==
            State([Lease(pool.start, a, time)], pool.start + 1, pool)
  {
    RawOrder(pool.end, pool.start);
    hide Less;
  }

  lemma SecondClient(pool: Poll, a: nat, b: nat, time: u32, st: State)
    requires OneNet(pool) && 0 < pool.start < pool.end && a != b && 1 < time
    requires st == State([Lease(pool.start, a, time - 1)], pool.start + 1, pool)
    ensures var st' := Handle(st, b, time, false).0;
            st'.list == [Lease(pool.start, a, time - 1), Lease(pool.start + 1, b, time)]
  {
    RawOrder(pool.end, pool.start + 1);
    RawOrder(pool.start, pool.start);
    RawOrder(pool.start + 1, pool.start);
    hide Less;
    var l := Lease(pool.start, a, time - 1);
    assert [l][1..] == [];
    assert ScanList([l], b, pool.start + 1, pool.start, false) == NotFound(pool.start + 1, pool.start + 1);
    assert InsertLease([l], Lease(pool.start + 1, b, time)) == [l] + InsertLease([], Lease(pool.start + 1, b, time));
  }

  lemma OneLeft(l: Lease)
    requires l.timer > 1
    ensures CoarseTimer([l], 2) == [l.(timer := l.timer - 1)]
  {
    assert [l][1..] == [];
    assert Tick([l]) == [l.(timer := l.timer - 1)];
  }

  lemma TwoLeft(l: Lease, m: Lease)
    requires l.timer > 1 && m.timer > 1
    ensures CoarseTimer([l, m], 2) == [l.(timer := l.timer - 1)]
  {
    assert [l, m][1..] == [m] && [m][1..] == [];
    assert Tick([m]) == [m.(timer := m.timer - 1)];
    var r := [l.(timer := l.timer - 1), m.(timer := m.timer - 1)];
    assert Tick([l, m]) == r;
    OldestIs(r, 1, 1);
    assert Without(r, 1) == [r[0]];
  }
}
