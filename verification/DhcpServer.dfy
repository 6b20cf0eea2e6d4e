// dhcpserver.c itself: the loops over plist, and the static variables they keep.
module DhcpServer {
  import opened Words
  import opened DhcpLeases

  /** node_insert_to_list; k is where the new node stands. */
  method NodeInsertToList(phead: seq<Lease>, pinsert: Lease) returns (list: seq<Lease>, k: nat)
    ensures list == InsertLease(phead, pinsert)
    ensures k <= |phead| && list == phead[..k] + [pinsert] + phead[k..]
    ensures Without(list, k) == phead
  {
    hide Less, InsertLease;
    var i := 0;
    assert phead[0..] == phead;
    while i < |phead| && !Less(pinsert.ip, phead[i].ip)
      invariant 0 <= i <= |phead|
      invariant InsertLease(phead, pinsert) == phead[..i] + InsertLease(phead[i..], pinsert)
    {
      InsertSkip(phead, pinsert, i);
      i := i + 1;
    }
    InsertStop(phead, pinsert, i);
    list, k := phead[..i] + [pinsert] + phead[i..], i;
    assert phead[..i] + phead[i..] == phead;
  }

  lemma InsertSkip(list: seq<Lease>, l: Lease, i: nat)
    requires i < |list| && !Less(l.ip, list[i].ip)
    ensures list[..i] + InsertLease(list[i..], l) == list[..i + 1] + InsertLease(list[i + 1..], l)
  {
    assert list[i..][1..] == list[i + 1..];
  }

  lemma InsertStop(list: seq<Lease>, l: Lease, i: nat)
    requires i <= |list| && (i < |list| ==> Less(l.ip, list[i].ip))
    ensures list[..i] + InsertLease(list[i..], l) == list[..i] + [l] + list[i..]
  {
  }

  /** Where the rest of a scan leads, the first i leases done. */
  ghost function Rest(list: seq<Lease>, i: nat, mac: nat, plus: u32, first: u32, flag: bool): Scan
    requires i <= |list|
  {
    match ScanList(list[i..], mac, plus, first, flag)
    case Found(k, p) => Found(i + k, p)
    case NotFound(p, f) => NotFound(p, f)
  }

  lemma RestStep(list: seq<Lease>, i: nat, mac: nat, plus: u32, first: u32, flag: bool)
    requires i < |list|
    ensures list[i].mac == mac ==> Rest(list, i, mac, plus, first, flag) == Found(i, plus)
    ensures list[i].mac != mac ==>
              var gap := flag || Less(first, list[i].ip);
              Rest(list, i, mac, plus, first, flag) ==
              Rest(list, i + 1, mac, if list[i].ip == plus then Inc(plus) else plus,
                   if gap then first else Inc(first), gap)
  {
    hide Less, Inc;
    assert list[i..][1..] == list[i + 1..];
  }

  lemma RestEnds(list: seq<Lease>, mac: nat, plus: u32, first: u32, flag: bool)
    ensures Rest(list, |list|, mac, plus, first, flag) == NotFound(plus, first)
    ensures Rest(list, 0, mac, plus, first, flag) == ScanList(list, mac, plus, first, flag)
  {
    assert list[0..] == list;
  }

  class Server {
    var plist: seq<Lease>
    var clientAddress: u32
    var clientAddressPlus: u32
    var dhcpsPoll: Poll

    ghost function View(): State
      reads this
    {
      State(plist, clientAddressPlus, dhcpsPoll)
    }

    /** dhcps_start with an empty list. */
    constructor (poll: Poll, ip: u32)
      ensures View() == Start(poll, ip)
    {
      plist := [];
      dhcpsPoll := PollSet(poll, ip);
      clientAddressPlus := PollSet(poll, ip).start;
      clientAddress := 0;
    }

    /** The search of parse_msg; tells the client's node, if it has one, and the
        first unused address otherwise. */
    method FindClient(chaddr: nat, leaseTimer: u32) returns (node: int, firstAddress: u32)
      modifies `plist, `clientAddress, `clientAddressPlus
      ensures var r := ScanList(old(plist), chaddr, old(clientAddressPlus), dhcpsPoll.start, false);
              && clientAddressPlus == r.plus
              && (if r.Found? then node == r.i && plist == old(plist)[r.i := old(plist)[r.i].(timer := leaseTimer)]
                                   && clientAddress == old(plist)[r.i].ip
                  else node == -1 && plist == old(plist) && firstAddress == r.first
                       && clientAddress == if old(plist) == [] then dhcpsPoll.start else r.plus)
    {
      hide Less, Inc, ScanList, Rest;
      firstAddress, clientAddress := dhcpsPoll.start, clientAddressPlus;
      var flag, i := false, 0;
      RestEnds(plist, chaddr, clientAddressPlus, firstAddress, flag);
      if plist == [] {
        clientAddress := dhcpsPoll.start;
        return -1, firstAddress;
      }
      while i < |plist|
        invariant 0 <= i <= |plist| && plist == old(plist) && clientAddress == clientAddressPlus
        invariant Rest(plist, i, chaddr, clientAddressPlus, firstAddress, flag) ==
                  ScanList(plist, chaddr, old(clientAddressPlus), dhcpsPoll.start, false)
      {
        RestStep(plist, i, chaddr, clientAddressPlus, firstAddress, flag);
        if plist[i].mac == chaddr {
          clientAddress := plist[i].ip;
          plist := plist[i := plist[i].(timer := leaseTimer)];
          return i, firstAddress;
        } else if plist[i].ip == clientAddressPlus {
          clientAddressPlus := Inc(clientAddressPlus);
          clientAddress := clientAddressPlus;
        }
        if !flag {
          // search the first unused address
          if Less(firstAddress, plist[i].ip) {
            flag := true;
          } else {
            firstAddress := Inc(firstAddress);
          }
        }
        i := i + 1;
      }
      RestEnds(plist, chaddr, clientAddressPlus, firstAddress, flag);
      node := -1;
    }

    /** parse_msg; released: parse_options says DHCPS_STATE_RELEASE. */
    method ParseMsg(chaddr: nat, leaseTimer: u32, released: bool) returns (answer: Answer)
      modifies this
      ensures (View(), answer) == Handle(old(View()), chaddr, leaseTimer, released)
    {
      hide Less, Inc, ScanList, InsertLease;
      var node, firstAddress := FindClient(chaddr, leaseTimer);
      if node == -1 {
        if Less(dhcpsPoll.end, clientAddressPlus) {
          clientAddress := firstAddress;
        }
        if Less(dhcpsPoll.end, clientAddress) {
          clientAddressPlus := dhcpsPoll.start;
        } else {
          plist, node := NodeInsertToList(plist, Lease(clientAddress, chaddr, leaseTimer));
          clientAddressPlus := if clientAddress == dhcpsPoll.end then dhcpsPoll.start else Inc(clientAddress);
        }
      } else {
        RenewThenRemove(old(plist), node, leaseTimer);
      }
      // POOL_CHECK
      if Less(dhcpsPoll.end, clientAddress) || clientAddress == 0 {
        if node >= 0 {
          plist := Without(plist, node);
        }
        return Nak;
      }
      if released {
        if node >= 0 {
          plist := Without(plist, node);
        }
        clientAddress := 0;
        return Answered(0);
      }
      return Answered(clientAddress);
    }

    /** dhcps_coarse_tmr.  When it removes a lease, the source takes for granted that
        two are left. */
    method CoarseTmr(maxStations: nat)
      requires |Tick(plist)| >= maxStations ==> |Tick(plist)| >= 2
      modifies `plist
      ensures plist == CoarseTimer(old(plist), maxStations)
    {
      var i := 0;
      TickStart(plist);
      while i < |plist|
        invariant 0 <= i <= |plist|
        invariant plist[..i] + Tick(plist[i..]) == Tick(old(plist))
        decreases |plist| - i
      {
        var t: u32 := (plist[i].timer - 1) % 0x1_0000_0000;
        TickStep(plist, i, t);
        if t == 0 {
          plist := Without(plist, i);
        } else {
          plist := plist[i := plist[i].(timer := t)];
          i := i + 1;
        }
      }
      TickEnd(plist);
      if i >= maxStations {
        KillOldestDhcpsPool();
      }
    }

    /** kill_oldest_dhcps_pool: one lease with the least time left goes, but never
        the first of the list. */
    method KillOldestDhcpsPool()
      requires |plist| >= 2
      modifies `plist
      ensures plist == Without(old(plist), Oldest(old(plist), 1, 1))
      ensures exists k :: 0 < k < |old(plist)| && plist == Without(old(plist), k)
                && forall j :: 0 < j < |old(plist)| ==> old(plist)[k].timer <= old(plist)[j].timer
    {
      var min, p := 1, 1;
      while p < |plist|
        invariant 1 <= min < |plist| && 1 <= p <= |plist|
        invariant Oldest(plist, min, p) == Oldest(plist, 1, 1)
        invariant forall j :: 0 < j < p ==> plist[min].timer <= plist[j].timer
      {
        if plist[p].timer < plist[min].timer {
          min := p;
        }
        p := p + 1;
      }
      plist := Without(plist, min);
    }

    /** dhcp_search_ip_on_mac */
    method SearchIpOnMac(mac: nat) returns (found: bool, ip: u32)
      ensures found <==> exists i :: 0 <= i < |plist| && plist[i].mac == mac
      ensures found ==> exists i :: 0 <= i < |plist| && plist[i].mac == mac && plist[i].ip == ip
    {
      found, ip := false, 0;
      var i := 0;
      while i < |plist|
        invariant 0 <= i <= |plist| && !found
        invariant forall j :: 0 <= j < i ==> plist[j].mac != mac
      {
        if plist[i].mac == mac {
          return true, plist[i].ip;
        }
        i := i + 1;
      }
    }
  }

  /** A renewed lease that goes is gone. */
  lemma RenewThenRemove(list: seq<Lease>, i: nat, timer: u32)
    requires i < |list|
    ensures Without(list[i := list[i].(timer := timer)], i) == Without(list, i)
  {
  }

  lemma TickStart(list: seq<Lease>)
    ensures list[..0] + Tick(list[0..]) == Tick(list)
  {
    assert list[0..] == list;
  }

  lemma TickStep(list: seq<Lease>, i: nat, t: u32)
    requires i < |list| && t == (list[i].timer - 1) % 0x1_0000_0000
    ensures t == 0 ==> var r := Without(list, i); r[..i] + Tick(r[i..]) == list[..i] + Tick(list[i..])
    ensures t != 0 ==>
              var r := list[i := list[i].(timer := t)]; r[..i + 1] + Tick(r[i + 1..]) == list[..i] + Tick(list[i..])
  {
    assert list[i..][1..] == list[i + 1..];
    if t == 0 {
      assert Without(list, i)[i..] == list[i + 1..] && Without(list, i)[..i] == list[..i];
    } else {
      var r := list[i := list[i].(timer := t)];
      assert r[i + 1..] == list[i + 1..] && r[..i + 1] == list[..i] + [list[i].(timer := t)];
    }
  }

  lemma TickEnd(list: seq<Lease>)
    ensures list[..|list|] + Tick(list[|list|..]) == list
  {
  }
}
