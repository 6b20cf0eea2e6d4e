// dns.c: the tables dns_table and dns_requests updated in place.
module DnsClient {
  import opened Words
  import opened DnsTable

  /** What flushing does from the front, one request at a time. */
  lemma {:induction false} DueSnoc(reqs: seq<Req>, idx: nat, i: nat)
    requires i < |reqs|
    ensures Due(reqs[..i + 1], idx) ==
      Due(reqs[..i], idx) + if reqs[i].Waiting? && reqs[i].idx == idx then [reqs[i].found] else []
    decreases i
  {
    if i == 0 {
      assert reqs[..1][1..] == [];
    } else {
      var q := reqs[1..];
      DueSnoc(q, idx, i - 1);
      assert reqs[..i + 1][1..] == q[..i] && reqs[..i][1..] == q[..i - 1];
    }
  }

  lemma DueNone(reqs: seq<Req>, idx: nat)
    ensures Due(reqs[..0], idx) == []
  {
  }

  class Resolver {
    const table: array<Entry>
    const requests: array<Req>
    const servers: array<bool>
    var seqno: u8
    ghost var accepted: multiset<nat>
    ghost var called: seq<nat>

    /** Both are counted in eight bits. */
    ghost predicate Valid() {
      table.Length < 0x100 && servers.Length < 0x100
    }

    ghost function View(): State
      reads this, table, requests, servers
    {
      State(table[..], requests[..], seqno, servers[..], accepted, called)
    }

    /** dns_init */
    constructor (entries: nat, waiting: nat, set': seq<bool>)
      requires entries < 0x100 && |set'| < 0x100
      ensures Valid() && fresh(table) && fresh(requests) && fresh(servers)
      ensures View() == Start(entries, waiting, set')
    {
      table := new Entry[entries](_ => Entry(UNUSED, 0, 0, 0, 0, 0, 0, 0));
      requests := new Req[waiting](_ => Free);
      servers := new bool[|set'|](i requires 0 <= i < |set'| => set'[i]);
      seqno, accepted, called := 0, multiset{}, [];
      new;
      assert table[..] == seq(entries, _ => Entry(UNUSED, 0, 0, 0, 0, 0, 0, 0));
      assert requests[..] == seq(waiting, _ => Free);
      assert servers[..] == set';
    }

    /** dns_call_found */
    method NotifyAll(idx: nat)
      requires Valid()
      modifies this`called, requests
      ensures View() == CallFound(old(View()), idx)
    {
      hide Due, Flush;
      ghost var before := requests[..];
      DueNone(before, idx);
      for i := 0 to requests.Length
        invariant called == old(called) + Due(before[..i], idx)
        invariant forall k :: i <= k < |before| ==> requests[k] == before[k]
        invariant forall k :: 0 <= k < i ==>
          requests[k] == if before[k].Waiting? && before[k].idx == idx then Free else before[k]
      {
        DueSnoc(before, idx, i);
        if requests[i].Waiting? && requests[i].idx == idx {
          called := called + [requests[i].found];
          requests[i] := Free;
        }
      }
      assert before[..requests.Length] == before;
      assert requests[..] == Flush(before, idx);
    }

    /** dns_create_txid draws numbers until one is new. */
    method CreateTxid(draws: seq<nat>) returns (txid: nat)
      requires Valid()
      requires exists k :: 0 <= k < |draws| && FirstWith(table[..], draws[k]) == table.Length
      ensures txid == TxidFrom(table[..], draws)
    {
      var k := 0;
      while true
        invariant 0 <= k < |draws|
        invariant TxidFrom(table[..], draws[k..]) == TxidFrom(table[..], draws)
        invariant exists j :: k <= j < |draws| && FirstWith(table[..], draws[j]) == table.Length
        decreases |draws| - k
      {
        txid := draws[k];
        var used := Find(txid);
        if used == table.Length {
          return;
        }
        k := k + 1;
        assert draws[k - 1..][1..] == draws[k..];
      }
    }

    /** The query under way that has this txid. */
    method Find(txid: nat) returns (i: nat)
      ensures i == FirstWith(table[..], txid)
    {
      i := 0;
      while i < table.Length && !(table[i].state == ASKING && table[i].txid == txid)
        invariant i <= table.Length
        invariant forall k :: 0 <= k < i ==> !AsksWith(table[k], txid)
      {
        i := i + 1;
      }
      FirstOnly(table[..], txid, i);
    }

    /** dns_check_entry for a query under way or completed. */
    method CheckOne(i: nat)
      requires Valid() && i < table.Length
      modifies this`called, requests, table
      ensures View() == CheckEntry(old(View()), i)
    {
      ghost var st := View();
      var e := table[i];
      if e.state == ASKING {
        e := e.(tmr := (e.tmr - 1) % 0x100);
        if e.tmr == 0 {
          e := e.(retries := (e.retries + 1) % 0x100);
          if e.retries == MAX_RETRIES {
            var s := SkipServers(e.serverIdx);
            if s + 1 < servers.Length && servers[s + 1] {
              e := e.(serverIdx := s + 1, tmr := 1, retries := 0);
            } else {
              NotifyAll(i);
              e := e.(serverIdx := s, state := UNUSED);
            }
          } else {
            e := e.(tmr := e.retries);
          }
        }
      } else if e.state == DONE {
        e := e.(ttl := if e.ttl == 0 then 0 else e.ttl - 1);
        if e.ttl == 0 {
          e := e.(state := UNUSED);
        }
      }
      table[i] := e;
      assert table[..] == st.table[i := e];
    }

    method SkipServers(first: nat) returns (s: nat)
      ensures s == SkipUnset(servers[..], first)
    {
      s := first;
      while s + 1 < servers.Length && !servers[s + 1]
        invariant first <= s && SkipUnset(servers[..], first) == SkipUnset(servers[..], s)
      {
        s := s + 1;
      }
    }

    /** dns_check_entries */
    method CheckEntries()
      requires Valid()
      modifies this`called, requests, table
      ensures View() == CheckFrom(old(View()), 0)
    {
      ghost var st := View();
      for i := 0 to table.Length
        invariant CheckFrom(st, 0) == CheckFrom(View(), i)
      {
        CheckOne(i);
      }
    }

    /** dns_recv */
    method Receive(txid: nat, resp: Response)
      requires Valid()
      modifies this`called, requests, table
      ensures View() == Recv(old(View()), txid, resp)
    {
      ghost var st := View();
      var i := Find(txid);
      if i == table.Length || resp.BadFlags? {
        return;
      }
      table[i] := table[i].(state := DONE);
      if resp.Answer? {
        table[i] := table[i].(ttl := resp.ttl);
      }
      NotifyAll(i);
      if resp.Rejected? || resp.ttl == 0 {
        table[i] := table[i].(state := UNUSED);
      }
      assert table[..] == st.table[i := table[i]];
    }

    /** A waiting place for one more caller. */
    method FreeRequest() returns (r: nat)
      ensures r == FirstFree(requests[..])
    {
      r := 0;
      while r < requests.Length && requests[r] != Free
        invariant r <= requests.Length && forall k :: 0 <= k < r ==> requests[k] != Free
      {
        r := r + 1;
      }
    }

    /** The entry for a new query: unused, or completed longest ago. */
    method FindSlot() returns (i: nat)
      requires Valid()
      ensures i == Slot(table[..], seqno)
    {
      var lseq: u8, lseqi: nat := 0, table.Length;
      i := 0;
      while i < table.Length && table[i].state != UNUSED
        invariant i <= table.Length && lseqi <= table.Length
        invariant lseqi < table.Length ==> table[lseqi].state == DONE
        invariant forall k :: 0 <= k < i ==> table[k].state != UNUSED
        invariant OldestDone(table[..], seqno, 0, 0, table.Length) == OldestDone(table[..], seqno, i, lseq, lseqi)
      {
        if table[i].state == DONE {
          var age: u8 := (seqno - table[i].seqno) % 0x100;
          if age > lseq {
            lseq, lseqi := age, i;
          }
        }
        i := i + 1;
      }
      if i == table.Length {
        i := lseqi;
      }
    }

    /** The duplicate search of dns_enqueue: every query for this name is tried
        until a place to wait is found. */
    method JoinDuplicate(name: nat, found: nat) returns (joined: bool)
      requires Valid()
      modifies this`accepted, requests
      ensures var dup, r := FirstAsking(old(table[..]), name), FirstFree(old(requests[..]));
        && joined == (dup < table.Length && r < requests.Length)
        && accepted == old(accepted) + (if joined then multiset{found} else multiset{})
        && requests[..] == if joined then old(requests[..])[r := Waiting(found, dup)] else old(requests[..])
    {
      ghost var waiting := requests[..];
      joined := false;
      for i := 0 to table.Length
        invariant requests[..] == waiting && accepted == old(accepted)
        invariant FirstFree(waiting) < |waiting| ==> forall k :: 0 <= k < i ==> !Asks(table[k], name)
      {
        if table[i].state == ASKING && table[i].name == name {
          var r := FreeRequest();
          if r < requests.Length {
            requests[r] := Waiting(found, i);
            accepted := accepted + multiset{found};
            joined := true;
            return;
          }
        }
      }
    }

    /** dns_enqueue; pcb tells whether a UDP pcb could be had. */
    method Query(name: nat, found: nat, draws: seq<nat>, pcb: bool) returns (err: Outcome)
      requires Valid()
      requires exists k :: 0 <= k < |draws| && FirstWith(table[..], draws[k]) == table.Length
      modifies this, requests, table
      ensures (View(), err) == Enqueue(old(View()), name, found, TxidFrom(old(table[..]), draws), pcb)
      ensures Unique(old(table[..]), TxidFrom(old(table[..]), draws))
    {
      hide FirstAsking, FirstFree, Slot, FirstWith, TxidFrom, Unique;
      TxidIsUnique(table[..], draws);
      var joined := JoinDuplicate(name, found);
      if joined {
        return ERR_INPROGRESS;
      }
      assert View() == old(View());
      var i := FindSlot();
      if i == table.Length {
        return ERR_MEM;
      }
      var r := FreeRequest();
      if r == requests.Length {
        return ERR_MEM;
      }
      if !pcb {
        table[i] := table[i].(name := name, seqno := seqno, state := UNUSED);
        assert table[..] == old(table[..])[i := table[i]];
        return ERR_MEM;
      }
      var txid := CreateTxid(draws);
      UseEntry(i, r, name, found, txid);
      return ERR_INPROGRESS;
    }

    /** The entry is filled and the query sent. */
    method UseEntry(i: nat, r: nat, name: nat, found: nat, txid: nat)
      requires i < table.Length && r < requests.Length
      modifies this, requests, table
      ensures table[..] == old(table[..])[i := Ask(old(table[i]).(name := name, seqno := old(seqno)), txid)]
      ensures requests[..] == old(requests[..])[r := Waiting(found, i)]
      ensures seqno == (old(seqno) + 1) % 0x100 && accepted == old(accepted) + multiset{found} && called == old(called)
    {
      requests[r] := Waiting(found, i);
      table[i] := table[i].(name := name, seqno := seqno);
      seqno := (seqno + 1) % 0x100;
      table[i] := table[i].(txid := txid, state := ASKING, serverIdx := 0, tmr := 1, retries := 0);
      accepted := accepted + multiset{found};
    }
  }

  lemma {:induction false} FirstOnly(table: seq<Entry>, txid: nat, i: nat)
    requires i <= |table| && (forall k :: 0 <= k < i ==> !AsksWith(table[k], txid))
    requires i < |table| ==> AsksWith(table[i], txid)
    ensures i == FirstWith(table, txid)
  {
  }
}
