// The lease list of dhcpserver.c: how an address is chosen for a client, how the
// list is kept, and the pool that dhcps_poll_set computes.
//
// Addresses are in host order here; the code compares them as they are stored,
// in network order on a little-endian machine, which Raw computes.
module DhcpLeases {
  import opened Words

  const MAX_LEASE: int := 100   // DHCPS_MAX_LEASE

  datatype Lease = Lease(ip: u32, mac: nat, timer: u32)

  /** htonl */
  function Raw(a: u32): u32 {
    a % 0x100 * 0x100_0000 + a / 0x100 % 0x100 * 0x1_0000 + a / 0x1_0000 % 0x100 * 0x100 + a / 0x100_0000
  }

  /** How the code orders addresses. */
  predicate Less(a: u32, b: u32) { Raw(a) < Raw(b) }

  /** addr++ in host order */
  function Inc(a: u32): u32 { (a + 1) % 0x1_0000_0000 }

  // ---------------------------------------------------------------- the pool

  /** dhcps_poll: the addresses that may be leased. */
  datatype Poll = Poll(enable: bool, start: u32, end: u32)

  /** dhcps_poll_set for a server at ip. */
  function PollSet(poll: Poll, ip: u32): Poll {
    var ok := poll.enable
              && !(poll.start <= ip <= poll.end)
              && poll.start / 0x100 == ip / 0x100 && poll.end / 0x100 == ip / 0x100
              && (poll.end - poll.start) % 0x1_0000_0000 <= MAX_LEASE;
    if ok then poll
    else
      var net, local := ip / 0x100 * 0x100, ip % 0x100;
      var first := if local >= 0x80 then local - MAX_LEASE else local + 1;
      Poll(false, net + first, net + first + MAX_LEASE - 1)
  }

  /** A pool inside one /24 network. */
  ghost predicate OneNet(p: Poll) {
    p.start <= p.end && p.start / 0x100 == p.end / 0x100
  }

  // ---------------------------------------------------------------- the list

  /** node_insert_to_list */
  function InsertLease(list: seq<Lease>, l: Lease): seq<Lease> {
    if list == [] || Less(l.ip, list[0].ip) then [l] + list else [list[0]] + InsertLease(list[1..], l)
  }

  /** What the search through the list finds: the client's own lease, or the
      candidates for a new one. */
  datatype Scan = Found(i: nat, plus: u32) | NotFound(plus: u32, first: u32)

  /** The loop of parse_msg: plus steps over leases it meets, first counts up
      until flag says that it is unused. */
  function ScanList(list: seq<Lease>, mac: nat, plus: u32, first: u32, flag: bool): (r: Scan)
    ensures r.Found? ==> r.i < |list| && list[r.i].mac == mac
    ensures r.NotFound? ==> forall i :: 0 <= i < |list| ==> list[i].mac != mac
  {
    if list == [] then NotFound(plus, first)
    else if list[0].mac == mac then Found(0, plus)
    else
      var plus' := if list[0].ip == plus then Inc(plus) else plus;
      var gap := flag || Less(first, list[0].ip);
      match ScanList(list[1..], mac, plus', if gap then first else Inc(first), gap)
      case Found(i, p) => Found(i + 1, p)
      case NotFound(p, f) => NotFound(p, f)
  }

  /** The list, client_address_plus and the pool. */
  datatype State = State(list: seq<Lease>, plus: u32, pool: Poll)

  datatype Answer = Nak | Answered(client: u32)

  function Without(list: seq<Lease>, i: nat): seq<Lease>
    requires i < |list|
  {
    list[..i] + list[i + 1..]
  }

  /** parse_msg for a message with the magic cookie; released: parse_options says
      DHCPS_STATE_RELEASE. */
  function Handle(st: State, mac: nat, timer: u32, released: bool): (State, Answer) {
    match ScanList(st.list, mac, st.plus, st.pool.start, false)
    case Found(i, plus) =>
      var client := st.list[i].ip;
      if Less(st.pool.end, client) || client == 0 then (st.(list := Without(st.list, i), plus := plus), Nak)
      else if released then (st.(list := Without(st.list, i), plus := plus), Answered(0))
      else (st.(list := st.list[i := st.list[i].(timer := timer)], plus := plus), Answered(client))
    case NotFound(plus, first) =>
      var client := if Less(st.pool.end, plus) then first else if st.list == [] then st.pool.start else plus;
      if Less(st.pool.end, client) then (st.(plus := st.pool.start), Nak)
      else
        var plus' := if client == st.pool.end then st.pool.start else Inc(client);
        if client == 0 then (st.(plus := plus'), Nak)
        else if released then (st.(plus := plus'), Answered(0))
        else (st.(list := InsertLease(st.list, Lease(client, mac, timer)), plus := plus'), Answered(client))
  }

  /** One tick of dhcps_coarse_tmr: leases that run out go. */
  function Tick(list: seq<Lease>): seq<Lease> {
    if list == [] then []
    else
      var t: u32 := (list[0].timer - 1) % 0x1_0000_0000;
      (if t == 0 then [] else [list[0].(timer := t)]) + Tick(list[1..])
  }

  /** The lease that kill_oldest_dhcps_pool picks: never the first. */
  function Oldest(list: seq<Lease>, best: nat, i: nat): (k: nat)
    requires best < |list|
    ensures k < |list| && (0 < best && 0 < i ==> 0 < k)
    decreases |list| - i
  {
    if i >= |list| then best
    else Oldest(list, if list[i].timer < list[best].timer then i else best, i + 1)
  }

  /** dhcps_coarse_tmr */
  function CoarseTimer(list: seq<Lease>, maxStations: nat): seq<Lease> {
    var l := Tick(list);
    if |l| >= maxStations && |l| >= 2 then Without(l, Oldest(l, 1, 1)) else l
  }

  /** dhcps_start: an empty list, and the pool for the server's address. */
  function Start(poll: Poll, ip: u32): State {
    State([], PollSet(poll, ip).start, PollSet(poll, ip))
  }
}
