// The resolver tables of dns.c: queries under way in dns_table, callers waiting
// for them in dns_requests.  Source ports, names on the wire and the cached
// addresses are not modelled; IPv6 is off, so there is no second query.
module DnsTable {
  import opened Words

  const MAX_RETRIES: nat := 4   // DNS_MAX_RETRIES

  datatype Phase = UNUSED | ASKING | DONE

  datatype Entry = Entry(state: Phase, name: nat, txid: nat, serverIdx: nat, tmr: u8, retries: u8, seqno: u8, ttl: nat)

  /** dns_requests: found is who waits, idx the query waited for. */
  datatype Req = Free | Waiting(found: nat, idx: nat)

  /** servers tells which of the DNS servers are set; accepted and called are the
      callers that got ERR_INPROGRESS and the callbacks made. */
  datatype State = State(table: seq<Entry>, reqs: seq<Req>, seqno: u8, servers: seq<bool>,
                         accepted: multiset<nat>, called: seq<nat>)

  // ------------------------------------------------------------------ searches

  function FirstFree(reqs: seq<Req>): (r: nat)
    ensures r <= |reqs| && (r < |reqs| ==> reqs[r] == Free) && forall i :: 0 <= i < r ==> reqs[i] != Free
  {
    if reqs == [] || reqs[0] == Free then 0 else 1 + FirstFree(reqs[1..])
  }

  predicate Asks(e: Entry, name: nat) { e.state == ASKING && e.name == name }

  function FirstAsking(table: seq<Entry>, name: nat): (r: nat)
    ensures r <= |table| && (r < |table| ==> Asks(table[r], name)) && forall i :: 0 <= i < r ==> !Asks(table[i], name)
  {
    if table == [] || Asks(table[0], name) then 0 else 1 + FirstAsking(table[1..], name)
  }

  function FirstUnused(table: seq<Entry>): (r: nat)
    ensures r <= |table| && (r < |table| ==> table[r].state == UNUSED)
    ensures forall i :: 0 <= i < r ==> table[i].state != UNUSED
  {
    if table == [] || table[0].state == UNUSED then 0 else 1 + FirstUnused(table[1..])
  }

  function Age(e: Entry, seqno: u8): u8 { (seqno - e.seqno) % 0x100 }

  /** The oldest completed entry from i on, if it is older than lseq. */
  function OldestDone(table: seq<Entry>, seqno: u8, i: nat, lseq: u8, lseqi: nat): (r: nat)
    requires i <= |table| && lseqi <= |table| && (lseqi < |table| ==> table[lseqi].state == DONE)
    ensures r <= |table| && (r < |table| ==> table[r].state == DONE)
    decreases |table| - i
  {
    if i == |table| then lseqi
    else if table[i].state == DONE && Age(table[i], seqno) > lseq then
      OldestDone(table, seqno, i + 1, Age(table[i], seqno), i)
    else OldestDone(table, seqno, i + 1, lseq, lseqi)
  }

  /** The entry for a new query, or |table|. */
  function Slot(table: seq<Entry>, seqno: u8): (r: nat)
    ensures r <= |table| && (r < |table| ==> table[r].state != ASKING)
  {
    if FirstUnused(table) < |table| then FirstUnused(table) else OldestDone(table, seqno, 0, 0, |table|)
  }

  // --------------------------------------------------------------- operations

  /** dns_call_found: everybody who waits for idx is called, in order. */
  function Due(reqs: seq<Req>, idx: nat): seq<nat> {
    if reqs == [] then []
    else (if reqs[0].Waiting? && reqs[0].idx == idx then [reqs[0].found] else []) + Due(reqs[1..], idx)
  }

  function Flush(reqs: seq<Req>, idx: nat): (r: seq<Req>)
    ensures |r| == |reqs|
    ensures forall i :: 0 <= i < |r| ==> r[i] == if reqs[i].Waiting? && reqs[i].idx == idx then Free else reqs[i]
  {
    if reqs == [] then []
    else [if reqs[0].Waiting? && reqs[0].idx == idx then Free else reqs[0]] + Flush(reqs[1..], idx)
  }

  function CallFound(st: State, idx: nat): State {
    st.(reqs := Flush(st.reqs, idx), called := st.called + Due(st.reqs, idx))
  }

  /** dns_check_entry on a new entry: ask server 0. */
  function Ask(e: Entry, txid: nat): Entry {
    e.(txid := txid, state := ASKING, serverIdx := 0, tmr := 1, retries := 0)
  }

  datatype Outcome = ERR_INPROGRESS | ERR_MEM

  /** dns_enqueue for caller found; txid comes from dns_create_txid, pcb tells
      whether a UDP pcb could be had. */
  function Enqueue(st: State, name: nat, found: nat, txid: nat, pcb: bool): (State, Outcome) {
    var dup, r := FirstAsking(st.table, name), FirstFree(st.reqs);
    if dup < |st.table| && r < |st.reqs| then
      (st.(reqs := st.reqs[r := Waiting(found, dup)], accepted := st.accepted + multiset{found}), ERR_INPROGRESS)
    else
      var i := Slot(st.table, st.seqno);
      if i >= |st.table| || r == |st.reqs| then (st, ERR_MEM)
      else
        var e := st.table[i].(name := name, seqno := st.seqno);
        if !pcb then (st.(table := st.table[i := e.(state := UNUSED)]), ERR_MEM)
        else
          (st.(table := st.table[i := Ask(e, txid)], reqs := st.reqs[r := Waiting(found, i)],
               seqno := (st.seqno + 1) % 0x100, accepted := st.accepted + multiset{found}), ERR_INPROGRESS)
  }

  /** Skip DNS servers with zero address. */
  function SkipUnset(servers: seq<bool>, s: nat): (r: nat)
    ensures s <= r && (s < |servers| ==> r < |servers|)
    ensures r + 1 < |servers| ==> servers[r + 1]
    decreases |servers| - s
  {
    if s + 1 < |servers| && !servers[s + 1] then SkipUnset(servers, s + 1) else s
  }

  /** dns_check_entry */
  function CheckEntry(st: State, i: nat): State
    requires i < |st.table|
  {
    var e := st.table[i];
    match e.state
    case ASKING =>
      var tmr: u8 := (e.tmr - 1) % 0x100;
      if tmr != 0 then st.(table := st.table[i := e.(tmr := tmr)])
      else
        var retries: u8 := (e.retries + 1) % 0x100;
        if retries != MAX_RETRIES then st.(table := st.table[i := e.(tmr := retries, retries := retries)])
        else
          var s := SkipUnset(st.servers, e.serverIdx);
          if s + 1 < |st.servers| then
            st.(table := st.table[i := e.(tmr := 1, retries := 0, serverIdx := s + 1)])
          else
            CallFound(st, i).(table := st.table[i := e.(tmr := 0, retries := retries, serverIdx := s, state := UNUSED)])
    case DONE =>
      if e.ttl <= 1 then st.(table := st.table[i := e.(ttl := 0, state := UNUSED)])
      else st.(table := st.table[i := e.(ttl := e.ttl - 1)])
    case UNUSED => st
  }

  /** dns_tmr: dns_check_entries from i on. */
  function CheckFrom(st: State, i: nat): State
    requires i <= |st.table|
    decreases |st.table| - i
  {
    if i == |st.table| then st else CheckFrom(CheckEntry(st, i), i + 1)
  }

  /** What a response turns out to be. */
  datatype Response = BadFlags | Rejected | Answer(ttl: nat)

  predicate AsksWith(e: Entry, txid: nat) { e.state == ASKING && e.txid == txid }

  function FirstWith(table: seq<Entry>, txid: nat): (r: nat)
    ensures r <= |table| && (r < |table| ==> AsksWith(table[r], txid))
    ensures forall i :: 0 <= i < r ==> !AsksWith(table[i], txid)
  {
    if table == [] || AsksWith(table[0], txid) then 0 else 1 + FirstWith(table[1..], txid)
  }

  /** dns_recv */
  function Recv(st: State, txid: nat, resp: Response): State {
    var i := FirstWith(st.table, txid);
    if i == |st.table| || resp.BadFlags? then st
    else
      var st' := CallFound(st, i);
      match resp
      case Answer(ttl) =>
        st'.(table := st.table[i := st.table[i].(ttl := ttl, state := if ttl == 0 then UNUSED else DONE)])
      case _ => st'.(table := st.table[i := st.table[i].(state := UNUSED)])
  }

  /** What dns_create_txid guarantees. */
  ghost predicate Unique(table: seq<Entry>, txid: nat) {
    forall i :: 0 <= i < |table| ==> !AsksWith(table[i], txid)
  }

  /** dns_create_txid: the first of the numbers drawn that no query uses. */
  function TxidFrom(table: seq<Entry>, draws: seq<nat>): nat {
    if draws == [] then 0 else if FirstWith(table, draws[0]) == |table| then draws[0] else TxidFrom(table, draws[1..])
  }

  lemma {:induction false} TxidIsUnique(table: seq<Entry>, draws: seq<nat>)
    requires exists k :: 0 <= k < |draws| && FirstWith(table, draws[k]) == |table|
    ensures Unique(table, TxidFrom(table, draws))
    decreases |draws|
  {
    if FirstWith(table, draws[0]) == |table| {
      assert forall i :: 0 <= i < |table| ==> !AsksWith(table[i], draws[0]);
    } else {
      var k :| 0 <= k < |draws| && FirstWith(table, draws[k]) == |table|;
      assert draws[1..][k - 1] == draws[k];
      TxidIsUnique(table, draws[1..]);
    }
  }

  /** dns_init */
  function Start(table: nat, reqs: nat, servers: seq<bool>): State {
    State(seq(table, _ => Entry(UNUSED, 0, 0, 0, 0, 0, 0, 0)), seq(reqs, _ => Free), 0, servers, multiset{}, [])
  }
}
