// What the resolver tables guarantee: every accepted caller is called exactly once,
// and in bounded time.
module DnsTheorems {
  import opened Words
  import opened DnsTable

  // ----------------------------------------------------------------- invariant

  /** The callers that wait. */
  function Pending(reqs: seq<Req>): multiset<nat> {
    if reqs == [] then multiset{}
    else (if reqs[0].Waiting? then multiset{reqs[0].found} else multiset{}) + Pending(reqs[1..])
  }

  /** Every accepted caller waits, or has been called, exactly once. */
  ghost predicate Conserved(st: State) {
    st.accepted == Pending(st.reqs) + multiset(st.called)
  }

  /** Who waits, waits for a query that is under way. */
  ghost predicate Attached(table: seq<Entry>, reqs: seq<Req>) {
    forall r :: 0 <= r < |reqs| && reqs[r].Waiting? ==>
      reqs[r].idx < |table| && table[reqs[r].idx].state == ASKING
  }

  /** The timers of a query under way. */
  predicate Timed(e: Entry, servers: nat) {
    e.state == ASKING ==>
      e.serverIdx < servers && e.retries < MAX_RETRIES && 1 <= e.tmr <= (if e.retries == 0 then 1 else e.retries)
  }

  ghost predicate TxidsDistinct(table: seq<Entry>) {
    forall i, j :: 0 <= i < j < |table| && table[i].state == ASKING && table[j].state == ASKING ==>
      table[i].txid != table[j].txid
  }

  /** No name is asked for twice at the same time. */
  ghost predicate NamesDistinct(table: seq<Entry>) {
    forall i, j :: 0 <= i < j < |table| && table[i].state == ASKING && table[j].state == ASKING ==>
      table[i].name != table[j].name
  }

  ghost predicate TableGood(table: seq<Entry>, servers: nat) {
    TxidsDistinct(table) && NamesDistinct(table) && forall i :: 0 <= i < |table| ==> Timed(table[i], servers)
  }

  ghost predicate Good(st: State) {
    Conserved(st) && Attached(st.table, st.reqs) && TableGood(st.table, |st.servers|) && 0 < |st.servers|
  }

  lemma {:induction false} PendingSet(reqs: seq<Req>, r: nat, found: nat, idx: nat)
    requires r < |reqs| && reqs[r] == Free
    ensures Pending(reqs[r := Waiting(found, idx)]) == Pending(reqs) + multiset{found}
    decreases |reqs|
  {
    var w := Waiting(found, idx);
    if r == 0 {
      assert reqs[0 := w][1..] == reqs[1..];
    } else {
      assert reqs[r := w][1..] == reqs[1..][r - 1 := w];
      PendingSet(reqs[1..], r - 1, found, idx);
    }
  }

  lemma {:induction false} PendingFlush(reqs: seq<Req>, idx: nat)
    ensures Pending(reqs) == Pending(Flush(reqs, idx)) + multiset(Due(reqs, idx))
    decreases |reqs|
  {
    if reqs != [] {
      var q := Flush(reqs, idx);
      assert q[1..] == Flush(reqs[1..], idx);
      PendingFlush(reqs[1..], idx);
      var d := if reqs[0].Waiting? && reqs[0].idx == idx then [reqs[0].found] else [];
      assert multiset(d + Due(reqs[1..], idx)) == multiset(d) + multiset(Due(reqs[1..], idx));
    }
  }

  lemma CallFoundConserved(st: State, idx: nat)
    requires Conserved(st)
    ensures Conserved(CallFound(st, idx))
  {
    hide Pending, Flush, Due;
    PendingFlush(st.reqs, idx);
    assert multiset(st.called + Due(st.reqs, idx)) == multiset(st.called) + multiset(Due(st.reqs, idx));
  }

  /** An entry may change if it keeps its txid or takes a new one. */
  lemma ReplaceEntry(table: seq<Entry>, i: nat, e: Entry, servers: nat)
    requires TableGood(table, servers) && i < |table| && Timed(e, servers)
    requires e.state == ASKING ==>
      || (Unique(table, e.txid) && FirstAsking(table, e.name) == |table|)
      || (table[i].state == ASKING && e.txid == table[i].txid && e.name == table[i].name)
    ensures TableGood(table[i := e], servers)
  {
    hide Timed;
    assert e.state == ASKING && table[i].state != ASKING ==> forall j :: 0 <= j < |table| ==> !Asks(table[j], e.name);
  }

  lemma FlushAttached(table: seq<Entry>, reqs: seq<Req>, i: nat, e: Entry)
    requires Attached(table, reqs) && i < |table|
    ensures Attached(table[i := e], Flush(reqs, i))
  {
  }

  /** An entry leaves ASKING after its callers were called. */
  lemma CompleteGood(st: State, i: nat, e: Entry)
    requires Good(st) && i < |st.table| && e.state != ASKING
    ensures Good(CallFound(st, i).(table := st.table[i := e]))
  {
    hide Conserved, Attached, TableGood, Flush, Due;
    CallFoundConserved(st, i);
    SameHistory(CallFound(st, i), CallFound(st, i).(table := st.table[i := e]));
    ReplaceEntry(st.table, i, e, |st.servers|);
    FlushAttached(st.table, st.reqs, i, e);
  }

  lemma SameHistory(st: State, st': State)
    requires Conserved(st) && st'.accepted == st.accepted && st'.reqs == st.reqs && st'.called == st.called
    ensures Conserved(st')
  {
  }

  lemma NewCaller(st: State, st': State, r: nat, found: nat, idx: nat)
    requires Conserved(st) && r < |st.reqs| && st.reqs[r] == Free && st'.called == st.called
    requires st'.reqs == st.reqs[r := Waiting(found, idx)] && st'.accepted == st.accepted + multiset{found}
    ensures Conserved(st')
  {
    hide Pending;
    PendingSet(st.reqs, r, found, idx);
  }

  lemma EnqueueConserved(st: State, name: nat, found: nat, txid: nat, pcb: bool)
    requires Conserved(st)
    ensures Conserved(Enqueue(st, name, found, txid, pcb).0)
  {
    hide Conserved, FirstAsking, FirstFree, Slot, Ask;
    var st' := Enqueue(st, name, found, txid, pcb).0;
    var dup, r, i := FirstAsking(st.table, name), FirstFree(st.reqs), Slot(st.table, st.seqno);
    if st'.reqs == st.reqs && st'.accepted == st.accepted {
      SameHistory(st, st');
    } else if dup < |st.table| && r < |st.reqs| {
      NewCaller(st, st', r, found, dup);
    } else {
      NewCaller(st, st', r, found, i);
    }
  }

  lemma EnqueueAttached(st: State, name: nat, found: nat, txid: nat, pcb: bool)
    requires Attached(st.table, st.reqs)
    ensures var st' := Enqueue(st, name, found, txid, pcb).0; Attached(st'.table, st'.reqs)
  {
    hide FirstAsking, FirstFree, Slot;
  }

  lemma EnqueueTable(st: State, name: nat, found: nat, txid: nat, pcb: bool)
    requires TableGood(st.table, |st.servers|) && Unique(st.table, txid) && 0 < |st.servers|
    ensures TableGood(Enqueue(st, name, found, txid, pcb).0.table, |st.servers|)
  {
    hide TableGood, Unique, FirstAsking, FirstFree, Slot;
    var i := Slot(st.table, st.seqno);
    if i < |st.table| {
      var e := st.table[i].(name := name, seqno := st.seqno);
      if FirstAsking(st.table, name) == |st.table| {
        ReplaceEntry(st.table, i, Ask(e, txid), |st.servers|);
      }
      ReplaceEntry(st.table, i, e.(state := UNUSED), |st.servers|);
    }
  }

  lemma EnqueueGood(st: State, name: nat, found: nat, txid: nat, pcb: bool)
    requires Good(st) && Unique(st.table, txid)
    ensures var st' := Enqueue(st, name, found, txid, pcb).0;
      Good(st') && |st'.table| == |st.table| && st'.servers == st.servers
  {
    hide Conserved, Attached, TableGood, Unique, FirstAsking, FirstFree, Slot, Ask;
    EnqueueConserved(st, name, found, txid, pcb);
    EnqueueAttached(st, name, found, txid, pcb);
    EnqueueTable(st, name, found, txid, pcb);
  }

  /** A tick that does not end the query at i. */
  predicate Ends(st: State, i: nat)
    requires i < |st.table|
  {
    var e := st.table[i];
    && e.state == ASKING && e.tmr == 1 && e.retries == MAX_RETRIES - 1
    && SkipUnset(st.servers, e.serverIdx) + 1 >= |st.servers|
  }

  lemma CheckEntryTable(st: State, i: nat)
    requires TableGood(st.table, |st.servers|) && i < |st.table| && !Ends(st, i)
    ensures var st' := CheckEntry(st, i);
      && st' == st.(table := st'.table) && TableGood(st'.table, |st.servers|)
      && st'.table == st.table[i := st'.table[i]] && (st.table[i].state == ASKING ==> st'.table[i].state == ASKING)
  {
    hide CallFound, TableGood, Unique, FirstAsking, SkipUnset;
    TimedAt(st.table, |st.servers|, i);
    var e := st.table[i];
    var st' := CheckEntry(st, i);
    assert st'.table == st.table[i := st'.table[i]];
    ReplaceEntry(st.table, i, st'.table[i], |st.servers|);
  }

  lemma TimedAt(table: seq<Entry>, servers: nat, i: nat)
    requires TableGood(table, servers) && i < |table|
    ensures Timed(table[i], servers)
  {
  }

  lemma StillAttached(table: seq<Entry>, reqs: seq<Req>, i: nat, e: Entry)
    requires Attached(table, reqs) && i < |table| && (table[i].state == ASKING ==> e.state == ASKING)
    ensures Attached(table[i := e], reqs)
  {
  }

  /** When the last server has been asked MAX_RETRIES times. */
  lemma EndsBy(st: State, i: nat)
    requires i < |st.table| && Ends(st, i)
    ensures exists e: Entry :: e.state == UNUSED && CheckEntry(st, i) == CallFound(st, i).(table := st.table[i := e])
  {
    hide CallFound, SkipUnset;
    var e := st.table[i].(tmr := 0, retries := MAX_RETRIES, serverIdx := SkipUnset(st.servers, st.table[i].serverIdx),
                          state := UNUSED);
    assert CheckEntry(st, i) == CallFound(st, i).(table := st.table[i := e]);
  }

  lemma CheckEntryGood(st: State, i: nat)
    requires Good(st) && i < |st.table|
    ensures var st' := CheckEntry(st, i);
      Good(st') && |st'.table| == |st.table| && st'.servers == st.servers && st'.accepted == st.accepted
  {
    hide Conserved, Attached, TableGood, CallFound, Ends, CheckEntry;
    if Ends(st, i) {
      EndsBy(st, i);
      var e: Entry :| e.state == UNUSED && CheckEntry(st, i) == CallFound(st, i).(table := st.table[i := e]);
      CompleteGood(st, i, e);
      CallFoundFrame(st, i);
    } else {
      CheckEntryTable(st, i);
      StillAttached(st.table, st.reqs, i, CheckEntry(st, i).table[i]);
      SameHistory(st, CheckEntry(st, i));
    }
  }

  lemma CallFoundFrame(st: State, i: nat)
    ensures var st' := CallFound(st, i);
      st'.table == st.table && st'.servers == st.servers && st'.accepted == st.accepted && st'.seqno == st.seqno
  {
  }

  lemma {:induction false} CheckFromGood(st: State, i: nat)
    requires Good(st) && i <= |st.table|
    ensures var st' := CheckFrom(st, i);
      Good(st') && |st'.table| == |st.table| && st'.servers == st.servers && st'.accepted == st.accepted
    decreases |st.table| - i
  {
    hide Good, CheckEntry;
    if i < |st.table| {
      CheckEntryGood(st, i);
      CheckFromGood(CheckEntry(st, i), i + 1);
    }
  }

  lemma RecvGood(st: State, txid: nat, resp: Response)
    requires Good(st)
    ensures var st' := Recv(st, txid, resp);
      Good(st') && |st'.table| == |st.table| && st'.servers == st.servers && st'.accepted == st.accepted
  {
    hide Good, CallFound, FirstWith;
    var i := FirstWith(st.table, txid);
    if i < |st.table| && !resp.BadFlags? {
      var e := st.table[i];
      CompleteGood(st, i, if resp.Answer? then e.(ttl := resp.ttl, state := if resp.ttl == 0 then UNUSED else DONE)
                          else e.(state := UNUSED));
      CallFoundFrame(st, i);
    }
  }

  /** A response for a query under way is passed on at once to everybody who waits
      for that query and to nobody else.  If its flags are bad, nobody is told and
      the query goes on as if it had not come. */
  lemma AnsweredAtOnce(st: State, i: nat, resp: Response)
    requires Good(st) && i < |st.table| && st.table[i].state == ASKING
    ensures resp.BadFlags? ==> Recv(st, st.table[i].txid, resp) == st
    ensures !resp.BadFlags? ==>
      var st' := Recv(st, st.table[i].txid, resp);
      && st'.called == st.called + Due(st.reqs, i) && |st'.reqs| == |st.reqs|
      && (forall r :: 0 <= r < |st.reqs| ==>
           st'.reqs[r] == if st.reqs[r].Waiting? && st.reqs[r].idx == i then Free else st.reqs[r])
      && (forall r :: 0 <= r < |st.reqs| && st.reqs[r].Waiting? && st.reqs[r].idx == i ==>
           st.reqs[r].found in Due(st.reqs, i))
      && st'.table == st.table[i := st'.table[i]]
      && (st'.table[i].state == DONE <==> resp.Answer? && resp.ttl > 0) && st'.table[i].state != ASKING
      && st'.table[i].name == st.table[i].name && (resp.Answer? ==> st'.table[i].ttl == resp.ttl)
  {
    hide Conserved, Attached, NamesDistinct;
    var k := FirstWith(st.table, st.table[i].txid);
    assert AsksWith(st.table[i], st.table[i].txid);
    assert k <= i && AsksWith(st.table[k], st.table[i].txid) && k == i;
    forall r | 0 <= r < |st.reqs| && st.reqs[r].Waiting? && st.reqs[r].idx == i
      ensures st.reqs[r].found in Due(st.reqs, i)
    {
      DueHas(st.reqs, i, r);
    }
  }

  lemma {:induction false} DueHas(reqs: seq<Req>, idx: nat, r: nat)
    requires r < |reqs| && reqs[r].Waiting? && reqs[r].idx == idx
    ensures reqs[r].found in Due(reqs, idx)
    decreases |reqs|
  {
    if r > 0 {
      DueHas(reqs[1..], idx, r - 1);
    }
  }

  // ------------------------------------------------------- which queries are refused

  lemma {:induction false} OldestDoneIs(table: seq<Entry>, seqno: u8, i: nat, lseq: u8, lseqi: nat)
    requires i <= |table| && lseqi <= |table| && (lseqi == |table| ==> lseq == 0)
    requires lseqi < |table| ==> table[lseqi].state == DONE && Age(table[lseqi], seqno) == lseq > 0
    ensures var r := OldestDone(table, seqno, i, lseq, lseqi);
      && r <= |table|
      && (r == |table| <==>
           lseqi == |table| && forall j :: i <= j < |table| && table[j].state == DONE ==> Age(table[j], seqno) == 0)
      && (r < |table| ==> table[r].state == DONE && Age(table[r], seqno) >= lseq)
      && (r < |table| ==>
           forall j :: i <= j < |table| && table[j].state == DONE ==> Age(table[j], seqno) <= Age(table[r], seqno))
    decreases |table| - i
  {
    hide Age;
    if i < |table| {
      var here := table[i].state == DONE && Age(table[i], seqno) > lseq;
      OldestDoneIs(table, seqno, i + 1, if here then Age(table[i], seqno) else lseq, if here then i else lseqi);
    }
  }

  /** A query is refused if and only if nobody more can wait, or it needs an
      entry and no pcb is to be had, nothing is unused, and no completed entry is
      older than a multiple of 256 queries. */
  lemma RefusedIff(st: State, name: nat, found: nat, txid: nat, pcb: bool)
    ensures Enqueue(st, name, found, txid, pcb).1 == ERR_MEM <==>
      || (forall r :: 0 <= r < |st.reqs| ==> st.reqs[r] != Free)
      || (&& (forall i :: 0 <= i < |st.table| ==> !Asks(st.table[i], name))
          && (!pcb || forall i :: 0 <= i < |st.table| ==>
               st.table[i].state == ASKING || (st.table[i].state == DONE && Age(st.table[i], st.seqno) == 0)))
  {
    hide Age, Asks, OldestDone;
    OldestDoneIs(st.table, st.seqno, 0, 0, |st.table|);
  }

  /** A query that is refused changes nothing, but for one thing: if all it lacked is
      a pcb, what was kept in the entry meant for it is lost. */
  lemma RefusedKeeps(st: State, name: nat, found: nat, txid: nat, pcb: bool)
    requires Enqueue(st, name, found, txid, pcb).1 == ERR_MEM
    ensures var st', i := Enqueue(st, name, found, txid, pcb).0, Slot(st.table, st.seqno);
            && st' == st.(table := st'.table) && |st'.table| == |st.table|
            && (forall j :: 0 <= j < |st.table| && j != i ==> st'.table[j] == st.table[j])
            && (i < |st.table| ==>
                  if Free in st.reqs && !pcb then st'.table[i].state == UNUSED else st'.table[i] == st.table[i])
  {
    hide Asks, Slot;
    assert FirstFree(st.reqs) < |st.reqs| ==> Free in st.reqs;
  }

  /** The entry that a new query gets: an unused one if there is any, and otherwise
      the one completed longest ago. */
  lemma SlotIs(table: seq<Entry>, seqno: u8)
    requires Slot(table, seqno) < |table|
    ensures var i := Slot(table, seqno);
      if exists j :: 0 <= j < |table| && table[j].state == UNUSED then table[i].state == UNUSED
      else table[i].state == DONE
           && forall j :: 0 <= j < |table| && table[j].state == DONE ==> Age(table[j], seqno) <= Age(table[i], seqno)
  {
    hide Age;
    OldestDoneIs(table, seqno, 0, 0, |table|);
  }

  /** An accepted caller waits for a query under way for the name it asked for, and
      nobody else is moved. */
  lemma WaitsForItsName(st: State, name: nat, found: nat, txid: nat, pcb: bool) returns (r: nat)
    requires Enqueue(st, name, found, txid, pcb).1 == ERR_INPROGRESS
    ensures var st' := Enqueue(st, name, found, txid, pcb).0;
      && |st'.reqs| == |st.reqs| && r < |st.reqs| && st.reqs[r] == Free
      && st'.reqs[r].Waiting? && st'.reqs[r].found == found && st'.reqs[r].idx < |st'.table|
      && st'.table[st'.reqs[r].idx].state == ASKING && st'.table[st'.reqs[r].idx].name == name
      && (forall q :: 0 <= q < |st.reqs| && q != r ==> st'.reqs[q] == st.reqs[q])
  {
    hide Slot;
    r := FirstFree(st.reqs);
  }

  /** When the tries at one server are over, the next one asked is the first behind it
      that is set; if there is none, the query ends. */
  lemma NextServerAsked(st: State, i: nat)
    requires i < |st.table| && st.table[i].state == ASKING && st.table[i].serverIdx < |st.servers|
    requires st.table[i].tmr == 1 && st.table[i].retries == MAX_RETRIES - 1
    ensures |CheckEntry(st, i).table| == |st.table|
    ensures var e, e' := st.table[i], CheckEntry(st, i).table[i];
      if exists s :: e.serverIdx < s < |st.servers| && st.servers[s] then
        && e'.state == ASKING && e.serverIdx < e'.serverIdx < |st.servers| && st.servers[e'.serverIdx]
        && (forall s :: e.serverIdx < s < e'.serverIdx ==> !st.servers[s]) && e'.tmr == 1 && e'.retries == 0
      else e'.state == UNUSED
  {
    hide CallFound;
    SkippedUnset(st.servers, st.table[i].serverIdx);
    hide SkipUnset;
  }

  lemma {:induction false} SkippedUnset(servers: seq<bool>, s: nat)
    ensures forall k :: s < k <= SkipUnset(servers, s) && k < |servers| ==> !servers[k]
    decreases |servers| - s
  {
    if s + 1 < |servers| && !servers[s + 1] { SkippedUnset(servers, s + 1); }
  }

  // ---------------------------------------------------------------------- runs

  datatype Event = Query(name: nat, found: nat, txid: nat, pcb: bool) | Tick | Packet(txid: nat, resp: Response)

  ghost predicate Legal(st: State, ev: Event) { ev.Query? ==> Unique(st.table, ev.txid) }

  function Step(st: State, ev: Event): State {
    match ev
    case Query(name, found, txid, pcb) => Enqueue(st, name, found, txid, pcb).0
    case Tick => CheckFrom(st, 0)
    case Packet(txid, resp) => Recv(st, txid, resp)
  }

  function Run(st: State, evs: seq<Event>): State
    decreases |evs|
  {
    if evs == [] then st else Run(Step(st, evs[0]), evs[1..])
  }

  ghost predicate LegalRun(st: State, evs: seq<Event>)
    decreases |evs|
  {
    evs == [] || (Legal(st, evs[0]) && LegalRun(Step(st, evs[0]), evs[1..]))
  }

  lemma StepGood(st: State, ev: Event)
    requires Good(st) && Legal(st, ev)
    ensures Good(Step(st, ev)) && Step(st, ev).servers == st.servers && |Step(st, ev).table| == |st.table|
  {
    hide Good, Unique, Enqueue, CheckFrom, Recv;
    match ev
    case Query(name, found, txid, pcb) => EnqueueGood(st, name, found, txid, pcb);
    case Tick => CheckFromGood(st, 0);
    case Packet(txid, resp) => RecvGood(st, txid, resp);
  }

  /** Over any run every accepted caller waits for a query under way or has been
      called once for each request, and no two queries under way share a txid or a
      name. */
  lemma {:induction false} RunGood(st: State, evs: seq<Event>)
    requires Good(st) && LegalRun(st, evs)
    ensures var st' := Run(st, evs);
      && Conserved(st') && Attached(st'.table, st'.reqs)
      && TxidsDistinct(st'.table) && NamesDistinct(st'.table) && Good(st')
    decreases |evs|
  {
    hide Step, Legal, Conserved, Attached, TxidsDistinct, NamesDistinct;
    if evs != [] {
      StepGood(st, evs[0]);
      RunGood(Step(st, evs[0]), evs[1..]);
    }
  }

  lemma {:induction false} StartGood(table: nat, reqs: nat, servers: seq<bool>)
    requires servers != []
    ensures Good(Start(table, reqs, servers))
  {
    StartPending(reqs);
  }

  lemma {:induction false} StartPending(n: nat)
    ensures Pending(seq(n, _ => Free)) == multiset{}
  {
    if n > 0 {
      assert seq(n, _ => Free)[1..] == seq(n - 1, _ => Free);
      StartPending(n - 1);
    }
  }

  // ---------------------------------------------------- refusals over a whole run

  /** Unused, or handed out for the last query that was accepted. */
  predicate Fresh(e: Entry, seqno: u8) { e.state == UNUSED || Age(e, seqno) == 1 }

  ghost predicate Recent(st: State) {
    st.table == [] || exists i :: 0 <= i < |st.table| && Fresh(st.table[i], st.seqno)
  }

  lemma StillRecent(st: State, st': State)
    requires Recent(st) && |st'.table| == |st.table| && st'.seqno == st.seqno
    requires forall i :: 0 <= i < |st.table| && Fresh(st.table[i], st.seqno) ==> Fresh(st'.table[i], st.seqno)
    ensures Recent(st')
  {
    hide Fresh;
    if st.table != [] {
      var i :| 0 <= i < |st.table| && Fresh(st.table[i], st.seqno);
      assert Fresh(st'.table[i], st'.seqno);
    }
  }

  lemma EnqueueRecent(st: State, name: nat, found: nat, txid: nat, pcb: bool)
    requires Recent(st)
    ensures Recent(Enqueue(st, name, found, txid, pcb).0)
  {
    hide FirstAsking, FirstFree, Slot;
    var st', i := Enqueue(st, name, found, txid, pcb).0, Slot(st.table, st.seqno);
    if st'.table == st.table {
      StillRecent(st, st');
    } else {
      assert Fresh(st'.table[i], st'.seqno);
    }
  }

  lemma {:induction false} CheckFromRecent(st: State, i: nat)
    requires Recent(st) && i <= |st.table|
    ensures Recent(CheckFrom(st, i))
    decreases |st.table| - i
  {
    hide CallFound, SkipUnset, Recent;
    if i < |st.table| {
      CallFoundFrame(st, i);
      StillRecent(st, CheckEntry(st, i));
      CheckFromRecent(CheckEntry(st, i), i + 1);
    }
  }

  lemma StepRecent(st: State, ev: Event)
    requires Recent(st)
    ensures Recent(Step(st, ev))
  {
    hide Recent, Enqueue, CheckFrom, CallFound, FirstWith;
    match ev
    case Query(name, found, txid, pcb) => EnqueueRecent(st, name, found, txid, pcb);
    case Tick => CheckFromRecent(st, 0);
    case Packet(txid, resp) =>
      CallFoundFrame(st, FirstWith(st.table, txid));
      StillRecent(st, Recv(st, txid, resp));
  }

  lemma {:induction false} RunRecent(st: State, evs: seq<Event>)
    requires Recent(st)
    ensures Recent(Run(st, evs))
    decreases |evs|
  {
    hide Recent, Step;
    if evs != [] {
      StepRecent(st, evs[0]);
      RunRecent(Step(st, evs[0]), evs[1..]);
    }
  }

  /** Over any run: if a query is refused though somebody more can wait and a pcb
      is to be had, the query accepted last is still under way, and no entry is
      unused.  Completed entries alone never refuse one. */
  lemma RefusalNeedsQuery(table: nat, reqs: nat, servers: seq<bool>, evs: seq<Event>, name: nat, found: nat, txid: nat)
    requires 0 < table
    requires var st := Run(Start(table, reqs, servers), evs);
             && Free in st.reqs && Enqueue(st, name, found, txid, true).1 == ERR_MEM
    ensures var st := Run(Start(table, reqs, servers), evs);
            && (exists i :: 0 <= i < |st.table| && st.table[i].state == ASKING && Age(st.table[i], st.seqno) == 1)
            && (forall i :: 0 <= i < |st.table| ==>
                  st.table[i].state == ASKING || (st.table[i].state == DONE && Age(st.table[i], st.seqno) == 0))
  {
    hide Run, Enqueue, Age;
    var st0 := Start(table, reqs, servers);
    assert Fresh(st0.table[0], st0.seqno);
    RunRecent(st0, evs);
    var st := Run(st0, evs);
    RefusedIff(st, name, found, txid, true);
    RunSize(st0, evs);
    var i :| 0 <= i < |st.table| && Fresh(st.table[i], st.seqno);
    assert st.table[i].state == ASKING;
  }

  lemma {:induction false} RunSize(st: State, evs: seq<Event>)
    ensures |Run(st, evs).table| == |st.table|
    decreases |evs|
  {
    hide Step;
    if evs != [] {
      StepSize(st, evs[0]);
      RunSize(Step(st, evs[0]), evs[1..]);
    }
  }

  lemma StepSize(st: State, ev: Event)
    ensures |Step(st, ev).table| == |st.table|
  {
    hide FirstAsking, FirstFree, Slot, FirstWith, CallFound, CheckFrom;
    match ev
    case Query(_, _, _, _) =>
    case Tick => CheckFromSize(st, 0);
    case Packet(txid, _) => CallFoundFrame(st, FirstWith(st.table, txid));
  }

  lemma {:induction false} CheckFromSize(st: State, i: nat)
    requires i <= |st.table|
    ensures |CheckFrom(st, i).table| == |st.table|
    decreases |st.table| - i
  {
    hide CallFound, SkipUnset;
    if i < |st.table| {
      CallFoundFrame(st, i);
      CheckFromSize(CheckEntry(st, i), i + 1);
    }
  }

  /** n queries for name 1, each answered at once without an address. */
  function Rounds(n: nat): seq<Event> {
    if n == 0 then [] else [Query(1, 0, 0, true), Packet(0, Rejected)] + Rounds(n - 1)
  }

  /** Two entries and two places to wait: the first holds a completed answer that
      was handed out before all others, nobody waits. */
  ghost predicate OneAnswer(st: State, seqno: u8) {
    && |st.table| == 2 && st.table[0].state == DONE && st.table[0].seqno == 0 && st.table[1].state == UNUSED
    && st.reqs == [Free, Free] && st.seqno == seqno
  }

  lemma FirstOnly(st: State)
    ensures |st.table| == 2 && st.table[0].state == DONE && st.table[1].state == UNUSED ==>
              FirstUnused(st.table) == 1 && FirstAsking(st.table, 1) == 2
    ensures |st.table| == 2 && st.table[0].state == DONE && AsksWith(st.table[1], 0) ==> FirstWith(st.table, 0) == 1
    ensures st.reqs == [Free, Free] ==> FirstFree(st.reqs) == 0
  {
    var t := st.table;
    if |t| == 2 { assert t[1..] == [t[1]] && t[1..][1..] == []; }
  }

  /** The second entry is handed out. */
  lemma AskAgain(st: State, seqno: u8)
    requires OneAnswer(st, seqno)
    ensures var st' := Step(st, Query(1, 0, 0, true));
      && Legal(st, Query(1, 0, 0, true))
      && |st'.table| == 2 && st'.table[0] == st.table[0] && AsksWith(st'.table[1], 0) && st'.table[1].name == 1
      && st'.reqs == [Waiting(0, 1), Free] && st'.seqno == (seqno + 1) % 0x100
  {
    FirstOnly(st);
    hide FirstUnused, FirstAsking, FirstFree, OldestDone;
  }

  lemma OneRound(st: State, seqno: u8)
    requires OneAnswer(st, seqno)
    ensures var st' := Step(Step(st, Query(1, 0, 0, true)), Packet(0, Rejected));
            OneAnswer(st', (seqno + 1) % 0x100)
  {
    hide Enqueue;
    AskAgain(st, seqno);
    var st1 := Step(st, Query(1, 0, 0, true));
    FirstOnly(st1);
    hide FirstWith;
    assert Flush(st1.reqs, 1) == [Free, Free];
  }

  lemma {:induction false} ManyRounds(st: State, seqno: u8, n: nat)
    requires OneAnswer(st, seqno)
    ensures OneAnswer(Run(st, Rounds(n)), (seqno + n) % 0x100) && LegalRun(st, Rounds(n))
    decreases n
  {
    hide OneAnswer, Step, Legal;
    if n > 0 {
      var q, p := Query(1, 0, 0, true), Packet(0, Rejected);
      var rest := [p] + Rounds(n - 1);
      assert Rounds(n)[1..] == rest && rest[1..] == Rounds(n - 1);
      AskAgain(st, seqno);
      OneRound(st, seqno);
      AnyPacket(Step(st, q), p);
      ManyRounds(Step(Step(st, q), p), (seqno + 1) % 0x100, n - 1);
      assert ((seqno + 1) % 0x100 + (n - 1)) % 0x100 == (seqno + n) % 0x100;
    }
  }

  lemma AnyPacket(st: State, p: Event)
    requires p.Packet?
    ensures Legal(st, p)
  {
  }

  lemma FirstAsked(e: Entry, st1: State)
    requires e == Entry(UNUSED, 0, 0, 0, 0, 0, 0, 0) && st1 == Step(Start(2, 2, [true]), Query(0, 0, 0, true))
    ensures st1.table == [Ask(e, 0), e] && st1.reqs == [Waiting(0, 0), Free] && st1.seqno == 1
    ensures Legal(Start(2, 2, [true]), Query(0, 0, 0, true))
  {
    var st := Start(2, 2, [true]);
    assert st.table == [e, e] && st.reqs == [Free, Free];
    assert [e, e][1..] == [e] && [e][1..] == [];
    assert FirstAsking([e], 0) == 1;
    hide OldestDone;
  }

  lemma FirstAnswered()
    ensures var st, q, p := Start(2, 2, [true]), Query(0, 0, 0, true), Packet(0, Answer(1000));
            OneAnswer(Step(Step(st, q), p), 1) && Legal(st, q)
  {
    hide Enqueue, Start;
    var e := Entry(UNUSED, 0, 0, 0, 0, 0, 0, 0);
    var st1 := Step(Start(2, 2, [true]), Query(0, 0, 0, true));
    FirstAsked(e, st1);
    assert FirstWith(st1.table, 0) == 0;
    hide FirstWith;
    assert Flush(st1.reqs, 0) == [Free, Free];
  }

  lemma {:induction false} RunJoin(st: State, evs: seq<Event>, more: seq<Event>)
    ensures Run(st, evs + more) == Run(Run(st, evs), more)
    ensures LegalRun(st, evs + more) <==> LegalRun(st, evs) && LegalRun(Run(st, evs), more)
    decreases |evs|
  {
    hide Step, Legal;
    if evs == [] {
      assert evs + more == more;
    } else {
      assert (evs + more)[1..] == evs[1..] + more;
      RunJoin(Step(st, evs[0]), evs[1..], more);
    }
  }

  /** One name is resolved, then 254 queries for another are answered without an
      address, and it is asked for once more. */
  function ManyQueries(): seq<Event> {
    [Query(0, 0, 0, true), Packet(0, Answer(1000))] + Rounds(254) + [Query(1, 0, 0, true)]
  }

  /** The age is counted in eight bits: a run from dns_init after which a query for
      a third name is refused, though a place to wait is free and one of the two
      entries is completed. */
  lemma WrapExample(found: nat, txid: nat)
    ensures var st0, st := Start(2, 2, [true]), Run(Start(2, 2, [true]), ManyQueries());
      && LegalRun(st0, ManyQueries())
      && Free in st.reqs && |st.table| == 2 && st.table[0].state == DONE && st.table[1].state == ASKING
      && Enqueue(st, 2, found, txid, true).1 == ERR_MEM
  {
    hide Step, Enqueue, Rounds, Legal, OneAnswer;
    var st0, q, p := Start(2, 2, [true]), Query(0, 0, 0, true), Packet(0, Answer(1000));
    var st1 := FirstTwo();
    ManyRounds(st1, 1, 254);
    var st2 := Run(st1, Rounds(254));
    RunJoin(st0, [q, p], Rounds(254));
    RunJoin(st0, [q, p] + Rounds(254), [Query(1, 0, 0, true)]);
    LastRefused(st2, found, txid);
  }

  lemma FirstTwo() returns (st: State)
    ensures var q, p := Query(0, 0, 0, true), Packet(0, Answer(1000));
            && st == Run(Start(2, 2, [true]), [q, p]) && LegalRun(Start(2, 2, [true]), [q, p]) && OneAnswer(st, 1)
  {
    hide Step, Legal, OneAnswer, Start;
    var q, p := Query(0, 0, 0, true), Packet(0, Answer(1000));
    FirstAnswered();
    assert [q, p][1..] == [p] && [p][1..] == [];
    AnyPacket(Step(Start(2, 2, [true]), q), p);
    st := Step(Step(Start(2, 2, [true]), q), p);
    assert Run(st, []) == st && LegalRun(st, []);
    assert Run(Step(Start(2, 2, [true]), q), [p]) == st && LegalRun(Step(Start(2, 2, [true]), q), [p]);
  }

  lemma LastRefused(st2: State, found: nat, txid: nat)
    requires OneAnswer(st2, 0xff)
    ensures var q := [Query(1, 0, 0, true)];
      var st := Run(st2, q);
      && LegalRun(st2, q)
      && Free in st.reqs && |st.table| == 2 && st.table[0].state == DONE && st.table[1].state == ASKING
      && Enqueue(st, 2, found, txid, true).1 == ERR_MEM
  {
    hide Enqueue;
    AskAgain(st2, 0xff);
    assert [Query(1, 0, 0, true)][1..] == [];
    var st := Step(st2, Query(1, 0, 0, true));
    assert st.reqs[1] == Free;
    RefusedIff(st, 2, found, txid, true);
  }

  // ------------------------------------------------------------------ time bound

  /** The ticks left for the server that is asked now: it is asked again after
      1, 1, 2 and 3 ticks. */
  function TicksHere(tmr: nat, retries: nat): int {
    tmr + (if retries == 0 then 6 else if retries == 1 then 5 else if retries == 2 then 3 else 0)
  }

  /** The ticks that are left before the query is given up. */
  function Left(e: Entry, servers: nat): int {
    (servers - 1 - e.serverIdx) * 7 + TicksHere(e.tmr, e.retries)
  }

  /** req waits for a query with at most k ticks left, one less for the entries
      before i. */
  predicate Near(req: Req, table: seq<Entry>, servers: nat, k: int, i: nat) {
    && req.Waiting? && req.idx < |table|
    && Left(table[req.idx], servers) <= (if req.idx < i then k - 1 else k)
  }

  function Soon(reqs: seq<Req>, table: seq<Entry>, servers: nat, k: int, i: nat): multiset<nat>
    decreases |reqs|
  {
    if reqs == [] then multiset{}
    else (if Near(reqs[0], table, servers, k, i) then multiset{reqs[0].found} else multiset{}) +
         Soon(reqs[1..], table, servers, k, i)
  }

  lemma {:induction false} SoonGrows(reqs: seq<Req>, table: seq<Entry>, reqs': seq<Req>, table': seq<Entry>,
                                     servers: nat, k: int, i: nat, k': int, i': nat)
    requires |reqs'| == |reqs|
    requires forall r :: 0 <= r < |reqs| && Near(reqs[r], table, servers, k, i) ==>
      Near(reqs'[r], table', servers, k', i') && reqs'[r].found == reqs[r].found
    ensures Soon(reqs, table, servers, k, i) <= Soon(reqs', table', servers, k', i')
    decreases |reqs|
  {
    hide Near;
    if reqs != [] {
      var p, q := reqs[1..], reqs'[1..];
      assert forall r :: 0 <= r < |p| ==> p[r] == reqs[r + 1] && q[r] == reqs'[r + 1];
      SoonGrows(p, table, q, table', servers, k, i, k', i');
    }
  }

  /** Flushing idx takes away only callers that are called. */
  lemma {:induction false} SoonFlush(reqs: seq<Req>, table: seq<Entry>, servers: nat, k: int, i: nat, idx: nat)
    ensures Soon(reqs, table, servers, k, i) <= Soon(Flush(reqs, idx), table, servers, k, i) + multiset(Due(reqs, idx))
    decreases |reqs|
  {
    if reqs != [] {
      var q := Flush(reqs, idx);
      assert q[1..] == Flush(reqs[1..], idx);
      SoonFlush(reqs[1..], table, servers, k, i, idx);
      var d := if reqs[0].Waiting? && reqs[0].idx == idx then [reqs[0].found] else [];
      assert multiset(d + Due(reqs[1..], idx)) == multiset(d) + multiset(Due(reqs[1..], idx));
    }
  }

  /** The callers in old have been called or wait for queries that end soon. */
  ghost predicate Served(early: multiset<nat>, st: State, k: int, i: nat) {
    early <= multiset(st.called) + Soon(st.reqs, st.table, |st.servers|, k, i)
  }

  lemma ServedGrows(early: multiset<nat>, st: State, st': State, k: int, i: nat, k': int, i': nat)
    requires Served(early, st, k, i) && st'.called == st.called && st'.servers == st.servers && |st'.reqs| == |st.reqs|
    requires forall r :: 0 <= r < |st.reqs| && Near(st.reqs[r], st.table, |st.servers|, k, i) ==>
      Near(st'.reqs[r], st'.table, |st.servers|, k', i') && st'.reqs[r].found == st.reqs[r].found
    ensures Served(early, st', k', i')
  {
    hide Near, Soon;
    SoonGrows(st.reqs, st.table, st'.reqs, st'.table, |st.servers|, k, i, k', i');
  }

  lemma ServedFlush(early: multiset<nat>, st: State, k: int, i: nat, idx: nat)
    requires Served(early, st, k, i)
    ensures Served(early, CallFound(st, idx), k, i)
  {
    hide Soon, Flush, Due;
    SoonFlush(st.reqs, st.table, |st.servers|, k, i, idx);
    assert multiset(st.called + Due(st.reqs, idx)) == multiset(st.called) + multiset(Due(st.reqs, idx));
  }

  /** Completing the query at j serves its callers, and nobody else waits longer. */
  lemma ServedComplete(early: multiset<nat>, st: State, k: int, i: nat, j: nat, e: Entry, i': nat)
    requires Served(early, st, k, i) && j < |st.table| && (i' == i || (j == i && i' == i + 1))
    ensures Served(early, CallFound(st, j).(table := st.table[j := e]), k, i')
  {
    hide Served, Left, Flush, Due;
    ServedFlush(early, st, k, i, j);
    var mid := CallFound(st, j);
    ServedGrows(early, mid, mid.(table := st.table[j := e]), k, i, k, i');
  }

  /** Every tick takes one from what is left, or the query ends; it takes exactly
      one when all the DNS servers are set. */
  lemma TickTakesOne(st: State, i: nat)
    requires i < |st.table| && st.table[i].state == ASKING && Timed(st.table[i], |st.servers|) && !Ends(st, i)
    ensures var st' := CheckEntry(st, i);
      && |st'.table| == |st.table|
      && 1 <= Left(st'.table[i], |st.servers|) <= Left(st.table[i], |st.servers|) - 1
      && (AllSet(st.servers) ==> Left(st'.table[i], |st.servers|) == Left(st.table[i], |st.servers|) - 1)
  {
    hide CallFound;
  }

  predicate AllSet(servers: seq<bool>) { forall i :: 0 <= i < |servers| ==> servers[i] }

  lemma CheckEntryServes(early: multiset<nat>, st: State, i: nat, k: int)
    requires Good(st) && i < |st.table| && Served(early, st, k, i)
    ensures Served(early, CheckEntry(st, i), k, i + 1)
  {
    hide Served, Conserved, TableGood, CallFound, Ends, CheckEntry, Left, Timed;
    if Ends(st, i) {
      EndsBy(st, i);
      var e: Entry :| e.state == UNUSED && CheckEntry(st, i) == CallFound(st, i).(table := st.table[i := e]);
      ServedComplete(early, st, k, i, i, e, i + 1);
    } else {
      CheckEntryTable(st, i);
      TimedAt(st.table, |st.servers|, i);
      if st.table[i].state == ASKING { TickTakesOne(st, i); }
      ServedGrows(early, st, CheckEntry(st, i), k, i, k, i + 1);
    }
  }

  lemma {:induction false} CheckFromServes(early: multiset<nat>, st: State, i: nat, k: int)
    requires Good(st) && i <= |st.table| && Served(early, st, k, i)
    ensures Served(early, CheckFrom(st, i), k, |st.table|)
    decreases |st.table| - i
  {
    hide Good, Served, CheckEntry;
    if i < |st.table| {
      CheckEntryServes(early, st, i, k);
      CheckEntryGood(st, i);
      CheckFromServes(early, CheckEntry(st, i), i + 1, k);
    }
  }

  lemma EnqueueServes(early: multiset<nat>, st: State, name: nat, found: nat, txid: nat, pcb: bool, k: int)
    requires Attached(st.table, st.reqs) && Served(early, st, k, 0)
    ensures Served(early, Enqueue(st, name, found, txid, pcb).0, k, 0)
  {
    hide Served, Left, FirstAsking, FirstFree, Slot;
    ServedGrows(early, st, Enqueue(st, name, found, txid, pcb).0, k, 0, k, 0);
  }

  lemma RecvServes(early: multiset<nat>, st: State, txid: nat, resp: Response, k: int)
    requires Served(early, st, k, 0)
    ensures Served(early, Recv(st, txid, resp), k, 0)
  {
    hide Served, CallFound, FirstWith;
    var i := FirstWith(st.table, txid);
    if i < |st.table| && !resp.BadFlags? {
      var e := st.table[i];
      ServedComplete(early, st, k, 0, i,
        if resp.Answer? then e.(ttl := resp.ttl, state := if resp.ttl == 0 then UNUSED else DONE)
        else e.(state := UNUSED), 0);
    }
  }

  lemma StepServes(early: multiset<nat>, st: State, ev: Event, k: int)
    requires Good(st) && Served(early, st, k, 0)
    ensures Served(early, Step(st, ev), if ev == Tick then k - 1 else k, 0)
  {
    hide Served, Conserved, Attached, TableGood, Enqueue, CheckFrom, Recv, Left;
    match ev
    case Query(name, found, txid, pcb) => EnqueueServes(early, st, name, found, txid, pcb, k);
    case Tick =>
      CheckFromServes(early, st, 0, k);
      CheckFromGood(st, 0);
      ServedGrows(early, CheckFrom(st, 0), CheckFrom(st, 0), k, |st.table|, k - 1, 0);
    case Packet(txid, resp) => RecvServes(early, st, txid, resp, k);
  }

  function Ticks(evs: seq<Event>): nat {
    if evs == [] then 0 else (if evs[0] == Tick then 1 else 0) + Ticks(evs[1..])
  }

  lemma {:induction false} RunServes(early: multiset<nat>, st: State, evs: seq<Event>, k: int)
    requires Good(st) && LegalRun(st, evs) && Served(early, st, k, 0)
    ensures Served(early, Run(st, evs), k - Ticks(evs), 0) && Run(st, evs).servers == st.servers
    decreases |evs|
  {
    hide Step, Legal, Good, Served;
    if evs != [] {
      StepServes(early, st, evs[0], k);
      StepGood(st, evs[0]);
      RunServes(early, Step(st, evs[0]), evs[1..], if evs[0] == Tick then k - 1 else k);
    }
  }

  lemma {:induction false} AllSoon(reqs: seq<Req>, table: seq<Entry>, servers: nat)
    requires Attached(table, reqs) && TableGood(table, servers)
    ensures Soon(reqs, table, servers, 7 * servers, 0) == Pending(reqs)
    decreases |reqs|
  {
    hide TxidsDistinct, NamesDistinct;
    if reqs != [] {
      var q := reqs[1..];
      assert forall r :: 0 <= r < |q| ==> q[r] == reqs[r + 1];
      AllSoon(q, table, servers);
    }
  }

  lemma {:induction false} NoneOverdue(reqs: seq<Req>, table: seq<Entry>, servers: nat, k: int)
    requires Attached(table, reqs) && TableGood(table, servers) && k <= 0
    ensures Soon(reqs, table, servers, k, 0) == multiset{}
    decreases |reqs|
  {
    hide TxidsDistinct, NamesDistinct;
    if reqs != [] {
      var q := reqs[1..];
      assert forall r :: 0 <= r < |q| ==> q[r] == reqs[r + 1];
      NoneOverdue(q, table, servers, k);
    }
  }

  /** Whatever else happens, everybody accepted so far is called within seven
      ticks for each DNS server. */
  lemma CalledInTime(st: State, evs: seq<Event>)
    requires Good(st) && LegalRun(st, evs) && Ticks(evs) >= 7 * |st.servers|
    ensures st.accepted <= multiset(Run(st, evs).called)
  {
    hide Attached, TableGood, Soon, Pending, Run, LegalRun, Ticks;
    AllSoon(st.reqs, st.table, |st.servers|);
    var st', k := Run(st, evs), 7 * |st.servers| - Ticks(evs);
    RunServes(st.accepted, st, evs, 7 * |st.servers|);
    RunGood(st, evs);
    NoneOverdue(st'.reqs, st'.table, |st.servers|, k);
  }

  /** From dns_init on, a caller that asked once is called back exactly once, at the
      latest after seven ticks for each DNS server. */
  lemma CalledExactlyOnce(table: nat, reqs: nat, servers: seq<bool>, evs: seq<Event>, more: seq<Event>, found: nat)
    requires servers != [] && LegalRun(Start(table, reqs, servers), evs)
    requires LegalRun(Run(Start(table, reqs, servers), evs), more)
    requires var st := Run(Start(table, reqs, servers), evs);
             && st.accepted[found] == 1 && Run(st, more).accepted[found] == 1
    requires Ticks(more) >= 7 * |servers|
    ensures multiset(Run(Run(Start(table, reqs, servers), evs), more).called)[found] == 1
  {
    hide Good, Run, LegalRun, Ticks, Start;
    StartGood(table, reqs, servers);
    RunServers(Start(table, reqs, servers), evs);
    StartServers(table, reqs, servers);
    CalledOnceFrom(Start(table, reqs, servers), evs, more, found);
  }

  lemma StartServers(table: nat, reqs: nat, servers: seq<bool>)
    ensures Start(table, reqs, servers).servers == servers
  {
  }

  lemma {:induction false} RunServers(st: State, evs: seq<Event>)
    requires Good(st) && LegalRun(st, evs)
    ensures Run(st, evs).servers == st.servers
    decreases |evs|
  {
    hide Good, Step, Legal;
    if evs != [] {
      StepGood(st, evs[0]);
      RunServers(Step(st, evs[0]), evs[1..]);
    }
  }

  /** The same from any state that a run can be in. */
  lemma CalledOnceFrom(st: State, evs: seq<Event>, more: seq<Event>, found: nat)
    requires Good(st) && LegalRun(st, evs) && LegalRun(Run(st, evs), more)
    requires Run(st, evs).accepted[found] == 1 && Run(Run(st, evs), more).accepted[found] == 1
    requires Ticks(more) >= 7 * |Run(st, evs).servers|
    ensures multiset(Run(Run(st, evs), more).called)[found] == 1
  {
    hide Attached, TableGood, Run, LegalRun, Ticks, Pending;
    RunGood(st, evs);
    RunGood(Run(st, evs), more);
    CalledInTime(Run(st, evs), more);
  }

  // --------------------------------------------------------- the bound is reached

  /** dns_check_entries, entry by entry: nobody else touches the entry at i. */
  lemma {:induction false} CheckFromAt(st: State, j: nat, i: nat)
    requires i < j <= |st.table|
    ensures var st' := CheckFrom(st, j);
            |st'.table| == |st.table| && st'.table[i] == st.table[i] && st'.servers == st.servers
    decreases |st.table| - j
  {
    hide CallFound, SkipUnset;
    if j < |st.table| {
      CallFoundFrame(st, j);
      CheckFromAt(CheckEntry(st, j), j + 1, i);
    }
  }

  lemma {:induction false} TickAt(st: State, j: nat, i: nat)
    requires Good(st) && j <= i < |st.table| && st.table[i].state == ASKING && AllSet(st.servers)
    ensures var e, e' := st.table[i], (CheckFromGood(st, j); CheckFrom(st, j).table[i]);
      if Left(e, |st.servers|) > 1 then e'.state == ASKING && Left(e', |st.servers|) == Left(e, |st.servers|) - 1
      else e'.state == UNUSED
    decreases i - j
  {
    hide Conserved, Attached, CallFound, Left;
    CheckEntryGood(st, j);
    if j < i {
      CheckEntryElsewhere(st, j, i);
      TickAt(CheckEntry(st, j), j + 1, i);
    } else {
      TimedAt(st.table, |st.servers|, i);
      CheckFromAt(CheckEntry(st, i), i + 1, i);
      EndsIffOneLeft(st, i);
      if Ends(st, i) {
        EndsBy(st, i);
      } else {
        TickTakesOne(st, i);
        CheckEntryTable(st, i);
      }
    }
  }

  lemma CheckEntryElsewhere(st: State, j: nat, i: nat)
    requires j < |st.table| && i < |st.table| && i != j
    ensures |CheckEntry(st, j).table| == |st.table| && CheckEntry(st, j).table[i] == st.table[i]
  {
    hide SkipUnset;
  }

  lemma EndsIffOneLeft(st: State, i: nat)
    requires i < |st.table| && st.table[i].state == ASKING && Timed(st.table[i], |st.servers|) && AllSet(st.servers)
    ensures Ends(st, i) <==> Left(st.table[i], |st.servers|) == 1
  {
  }

  /** Time passes, and what comes has bad flags. */
  predicate Unanswered(evs: seq<Event>) {
    forall t :: 0 <= t < |evs| ==> evs[t] == Tick || (evs[t].Packet? && evs[t].resp.BadFlags?)
  }

  /** With every DNS server set and no response but such with bad flags, a query is
      given up by the last of the ticks it has left and not before. */
  lemma {:induction false} GivenUpExactly(st: State, evs: seq<Event>, i: nat)
    requires Good(st) && i < |st.table| && st.table[i].state == ASKING && AllSet(st.servers)
    requires Unanswered(evs) && Ticks(evs) <= Left(st.table[i], |st.servers|)
    ensures var st' := Run(st, evs);
      && |st'.table| == |st.table|
      && (st'.table[i].state == ASKING <==> Ticks(evs) < Left(st.table[i], |st.servers|))
    decreases |evs|
  {
    hide Good, Left, CheckFrom;
    AskingHasSome(st, i);
    if evs != [] {
      assert Unanswered(evs[1..]);
      if evs[0] == Tick {
        TickAt(st, 0, i);
        CheckFromGood(st, 0);
        if CheckFrom(st, 0).table[i].state == ASKING {
          GivenUpExactly(CheckFrom(st, 0), evs[1..], i);
        } else {
          NothingHappens(CheckFrom(st, 0), evs[1..]);
        }
      } else {
        GivenUpExactly(st, evs[1..], i);
      }
    }
  }

  lemma {:induction false} DoneAt(st: State, j: nat, i: nat)
    requires j <= i < |st.table| && st.table[i].state == DONE
    ensures var st' := CheckFrom(st, j);
      && |st'.table| == |st.table|
      && (if st.table[i].ttl <= 1 then st'.table[i].state == UNUSED
          else st'.table[i] == st.table[i].(ttl := st.table[i].ttl - 1))
    decreases i - j
  {
    hide CallFound, SkipUnset;
    if j < i {
      CheckEntryElsewhere(st, j, i);
      DoneAt(CheckEntry(st, j), j + 1, i);
    } else {
      CheckFromAt(CheckEntry(st, i), i + 1, i);
    }
  }

  /** An answer is kept for as many ticks as its time to live and no longer, as long
      as no query takes its entry. */
  lemma {:induction false} AnswerExpires(st: State, evs: seq<Event>, i: nat)
    requires i < |st.table| && st.table[i].state == DONE && 0 < st.table[i].ttl
    requires Unanswered(evs) && Ticks(evs) <= st.table[i].ttl
    ensures var st' := Run(st, evs);
      && |st'.table| == |st.table|
      && (if Ticks(evs) < st.table[i].ttl then st'.table[i] == st.table[i].(ttl := st.table[i].ttl - Ticks(evs))
          else st'.table[i].state == UNUSED)
    decreases |evs|
  {
    hide CheckFrom;
    if evs != [] {
      assert Unanswered(evs[1..]);
      if evs[0] == Tick {
        DoneAt(st, 0, i);
        if st.table[i].ttl > 1 {
          AnswerExpires(CheckFrom(st, 0), evs[1..], i);
        } else {
          NothingHappens(CheckFrom(st, 0), evs[1..]);
        }
      } else {
        AnswerExpires(st, evs[1..], i);
      }
    }
  }

  lemma {:induction false} NothingHappens(st: State, evs: seq<Event>)
    requires Unanswered(evs) && Ticks(evs) == 0
    ensures Run(st, evs) == st
    decreases |evs|
  {
    if evs != [] {
      assert Unanswered(evs[1..]);
      NothingHappens(st, evs[1..]);
    }
  }

  /** A new query has seven ticks for each DNS server. */
  lemma NewHasAll(st: State, name: nat, found: nat, txid: nat)
    requires FirstAsking(st.table, name) == |st.table|
    requires Enqueue(st, name, found, txid, true).1 == ERR_INPROGRESS
    ensures var i := Slot(st.table, st.seqno);
      && i < |st.table| && |Enqueue(st, name, found, txid, true).0.table| == |st.table|
      && Asks(Enqueue(st, name, found, txid, true).0.table[i], name)
      && Left(Enqueue(st, name, found, txid, true).0.table[i], |st.servers|) == 7 * |st.servers|
  {
    hide FirstAsking, Slot;
  }

  lemma AskingHasSome(st: State, i: nat)
    requires Good(st) && i < |st.table| && st.table[i].state == ASKING
    ensures 1 <= Left(st.table[i], |st.servers|)
  {
    TimedAt(st.table, |st.servers|, i);
  }
}
