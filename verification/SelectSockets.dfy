// The shared state of sockets.c and the regions that run under SYS_ARCH_PROTECT:
// the doubly linked select_cb_list, its change counter, the event counts and
// select_waiting of each open socket.  Each method is one region.
module SelectSockets {
  import opened SelectProtocol
  import opened SelectTheorems

  /** struct lwip_select_cb */
  class Node {
    const id: Id
    const want: Interest
    var signalled: bool
    var next: Node?
    var prev: Node?

    constructor (id: Id, want: Interest)
      ensures this.id == id && this.want == want && !signalled && next == null && prev == null
    {
      this.id, this.want := id, want;
      signalled, next, prev := false, null, null;
    }
  }

  ghost function Ids(q: seq<Node>): (ids: seq<Id>)
    ensures |ids| == |q| && forall i :: 0 <= i < |q| ==> ids[i] == q[i].id
  {
    if q == [] then [] else [q[0].id] + Ids(q[1..])
  }

  lemma {:induction false} WithoutAt(q: seq<Id>, k: nat)
    requires Distinct(q) && k < |q|
    ensures Without(q, q[k]) == q[..k] + q[k + 1..]
  {
    if k > 0 {
      assert q[0] != q[k];
      TailDistinct(q);
      hide Distinct;
      WithoutAt(q[1..], k - 1);
      ConsSlices(q, k);
    }
  }

  lemma TailDistinct(q: seq<Id>)
    requires Distinct(q) && q != []
    ensures Distinct(q[1..])
  {
  }

  lemma ConsSlices(q: seq<Id>, k: nat)
    requires 0 < k < |q|
    ensures [q[0]] + (q[1..][..k - 1] + q[1..][k..]) == q[..k] + q[k + 1..]
  {
  }

  class Sockets {
    var socks: map<Fd, Sock>      // the open ones
    var selectCbList: Node?
    var selectCbCtr: int

    /** The list, and what was last stored in every node that has been on it. */
    ghost var nodes: seq<Node>
    ghost var cb: map<Id, SelectCb>

    ghost predicate Valid()
      reads this, nodes
    {
      && Separate(nodes)
      && selectCbList == (if nodes == [] then null else nodes[0])
      && Chained(nodes) && AllStored(nodes)
    }

    ghost predicate Separate(q: seq<Node>) {
      Different(q) && forall i, j :: 0 <= i < j < |q| ==> q[i].id != q[j].id
    }

    ghost predicate Different(q: seq<Node>) {
      forall i, j :: 0 <= i < j < |q| ==> q[i] != q[j]
    }

    /** next and prev run through q in both directions. */
    ghost predicate Chained(q: seq<Node>)
      reads q
    {
      && (forall i {:trigger q[i]} :: 0 <= i < |q| ==> q[i].next == NextIn(q, i) && q[i].prev == PrevIn(q, i))
    }

    ghost function NextIn(q: seq<Node>, i: int): Node? {
      if 0 <= i && i + 1 < |q| then q[i + 1] else null
    }

    ghost function PrevIn(q: seq<Node>, i: int): Node? {
      if 0 < i <= |q| then q[i - 1] else null
    }

    ghost predicate AllStored(q: seq<Node>)
      reads `cb, q
    {
      forall i {:trigger q[i]} :: 0 <= i < |q| ==> q[i].id in cb && cb[q[i].id] == SelectCb(q[i].want, q[i].signalled)
    }

    /** The state that SelectProtocol speaks of. */
    ghost function View(): Shared
      reads this
    {
      Shared(socks, Ids(nodes), cb, selectCbCtr)
    }

    constructor (socks: map<Fd, Sock>)
      requires forall s :: s in socks ==> socks[s].waiting == 0
      ensures Valid() && View() == Shared(socks, [], map[], 0)
      ensures Initial(State(View(), map[], map[]))
    {
      this.socks, selectCbList, selectCbCtr := socks, null, 0;
      nodes, cb := [], map[];
    }

    /** lwip_select puts its node on top of the list. */
    method PutOnTop(n: Node)
      requires Valid() && n !in nodes && (forall i :: 0 <= i < |nodes| ==> nodes[i].id != n.id)
      requires n.next == null && n.prev == null && !n.signalled
      modifies this, n, nodes
      ensures Valid() && nodes == [n] + old(nodes) && View() == SelectProtocol.PutOnTop(old(View()), n.id, n.want)
    {
      hide Chained, Ids;
      LinkFirst(n);
      IdsCons(n, nodes);
      cb := cb[n.id := SelectCb(n.want, false)];
      ghost var r := [n] + nodes;
      assert forall i {:trigger r[i]} :: 0 < i < |r| ==> r[i] == nodes[i - 1];
      nodes := r;
      selectCbCtr := selectCbCtr + 1;
    }

    lemma IdsCons(n: Node, q: seq<Node>)
      ensures Ids([n] + q) == [n.id] + Ids(q)
    {
      assert ([n] + q)[1..] == q;
    }

    method LinkFirst(n: Node)
      requires Chained(nodes) && selectCbList == (if nodes == [] then null else nodes[0])
      requires Different(nodes)
      requires n !in nodes && n.next == null && n.prev == null
      modifies `selectCbList, n, nodes
      ensures Chained([n] + nodes) && selectCbList == n
      ensures forall i {:trigger nodes[i]} :: 0 <= i < |nodes| ==> nodes[i].signalled == old(nodes[i].signalled)
      ensures n.signalled == old(n.signalled)
    {
      n.next := selectCbList;
      if selectCbList != null {
        selectCbList.prev := n;
      }
      selectCbList := n;
      ghost var r := [n] + nodes;
      forall i | 0 <= i < |r|
        ensures r[i].next == NextIn(r, i) && r[i].prev == PrevIn(r, i)
      {
        if i > 0 {
          assert r[i] == nodes[i - 1];
        }
      }
    }

    /** lwip_select takes its node, number k of the list, off again. */
    method TakeOff(n: Node, ghost k: nat)
      requires Valid() && k < |nodes| && nodes[k] == n
      modifies this, nodes
      ensures Valid() && nodes == old(nodes[..k] + nodes[k + 1..])
      ensures View() == SelectProtocol.TakeOff(old(View()), n.id)
    {
      hide Chained, Ids, Without, Distinct, Separate;
      ListIds();
      WithoutAt(Ids(nodes), k);
      Unlink(n, k);
      IdsWithout(nodes, k);
      SeparateWithout(nodes, k);
      ghost var rest := nodes[..k] + nodes[k + 1..];
      assert forall i {:trigger rest[i]} :: 0 <= i < |rest| ==> rest[i] == nodes[if i < k then i else i + 1];
      nodes := rest;
      selectCbCtr := selectCbCtr + 1;
    }

    lemma SeparateWithout(q: seq<Node>, k: nat)
      requires Separate(q) && k < |q|
      ensures Separate(q[..k] + q[k + 1..]) && Different(q)
    {
    }

    lemma IdsWithout(q: seq<Node>, k: nat)
      requires k < |q|
      ensures Ids(q[..k] + q[k + 1..]) == Ids(q)[..k] + Ids(q)[k + 1..]
    {
      hide Ids;
    }

    method Unlink(n: Node, ghost k: nat)
      requires Chained(nodes) && selectCbList == (if nodes == [] then null else nodes[0])
      requires Different(nodes)
      requires k < |nodes| && nodes[k] == n
      modifies `selectCbList, nodes
      ensures var rest := nodes[..k] + nodes[k + 1..];
              Chained(rest) && selectCbList == (if rest == [] then null else rest[0])
      ensures forall i {:trigger nodes[i]} :: 0 <= i < |nodes| ==> nodes[i].signalled == old(nodes[i].signalled)
    {
      Bypass(n, k);
      ghost var rest := nodes[..k] + nodes[k + 1..];
      forall i | 0 <= i < |rest|
        ensures rest[i].next == NextIn(rest, i) && rest[i].prev == PrevIn(rest, i)
      {
        assert rest[i] == nodes[if i < k then i else i + 1];
      }
    }

    /** The writes: the neighbours, or the head of the list, skip the node. */
    method Bypass(n: Node, ghost k: nat)
      requires Chained(nodes) && selectCbList == (if nodes == [] then null else nodes[0])
      requires Different(nodes)
      requires k < |nodes| && nodes[k] == n
      modifies `selectCbList, nodes
      ensures forall i {:trigger nodes[i]} :: 0 <= i < |nodes| ==>
                && nodes[i].signalled == old(nodes[i].signalled)
                && nodes[i].next == (if i + 1 == k then NextIn(nodes, k) else NextIn(nodes, i))
                && nodes[i].prev == (if i == k + 1 then PrevIn(nodes, k) else PrevIn(nodes, i))
      ensures selectCbList == if k == 0 then NextIn(nodes, k) else old(selectCbList)
    {
      assert n.next == NextIn(nodes, k) && n.prev == PrevIn(nodes, k);
      if n.next != null {
        n.next.prev := n.prev;
      }
      if selectCbList == n {
        selectCbList := n.next;
      } else {
        n.prev.next := n.next;
      }
    }

    lemma ListIds()
      requires Valid()
      ensures Distinct(Ids(nodes)) && |Ids(nodes)| == |nodes|
      ensures forall i :: 0 <= i < |nodes| ==> Ids(nodes)[i] == nodes[i].id
    {
    }

    /** select_waiting++ for one socket; no if the socket is not valid. */
    method RaiseWaiting(i: Fd) returns (ok: bool)
      requires Valid()
      modifies `socks
      ensures Valid() && ok == (i in old(socks))
      ensures View() == if ok then old(View()).(socks := old(socks)[i := Raised(old(socks)[i])]) else old(View())
    {
      hide Chained, AllStored, Ids;
      ok := i in socks;
      if ok {
        socks := socks[i := socks[i].(waiting := socks[i].waiting + 1)];
      }
    }

    /** select_waiting-- */
    method LowerWaiting(i: Fd) returns (ok: bool)
      requires Valid()
      modifies `socks
      ensures Valid() && ok == (i in old(socks))
      ensures View() == if ok then old(View()).(socks := old(socks)[i := Lowered(old(socks)[i])]) else old(View())
    {
      hide Chained, AllStored, Ids;
      ok := i in socks;
      if ok && socks[i].waiting > 0 {
        socks := socks[i := socks[i].(waiting := socks[i].waiting - 1)];
      }
    }

    /** One socket's turn in lwip_selscan. */
    method PollSocket(i: Fd, want: Interest) returns (found: bool)
      requires Valid()
      ensures found == Poll(View(), want, i)
    {
      found := false;
      if !(i in want.readset) && !(i in want.writeset) && !(i in want.exceptset) {
        return;
      }
      if i in socks {
        var k := socks[i];
        if i in want.readset && (k.lastdata || k.rcvevent > 0) {
          found := true;
        }
        if i in want.writeset && k.sendevent {
          found := true;
        }
        if i in want.exceptset && k.errevent {
          found := true;
        }
      }
    }

    /** Test one node for socket s, and signal it. */
    method VisitNode(scb: Node, s: Fd, ghost i: nat)
      requires Valid() && i < |nodes| && nodes[i] == scb && s in socks
      modifies scb`signalled, `cb
      ensures Valid() && View() == Visit(old(View()), s, scb.id)
    {
      if !scb.signalled {
        var doSignal := false;
        var k := socks[s];
        if k.rcvevent > 0 && s in scb.want.readset {
          doSignal := true;
        }
        if k.sendevent && !doSignal && s in scb.want.writeset {
          doSignal := true;
        }
        if k.errevent && !doSignal && s in scb.want.exceptset {
          doSignal := true;
        }
        if doSignal {
          Signal(scb, i);
        }
      }
    }

    /** sem_signalled is set and the semaphore signalled. */
    method Signal(scb: Node, ghost k: nat)
      requires Valid() && k < |nodes| && nodes[k] == scb
      modifies scb`signalled, `cb
      ensures Valid() && scb.signalled && cb == old(cb)[scb.id := SelectCb(scb.want, true)]
    {
      scb.signalled := true;
      cb := cb[scb.id := SelectCb(scb.want, true)];
    }

    /** Where the callback stands, in SelectProtocol's terms. */
    ghost function Position(scb: Node?, last: int): At {
      if scb == null then Finished else Visited(scb.id, last)
    }

    /** event_callback up to the first SYS_ARCH_UNPROTECT after a visit. */
    method EventRegion(s: Fd, evt: Evt) returns (scb: Node?, last: int)
      requires Valid() && s in socks
      modifies `socks, nodes, `cb
      ensures Valid()
      ensures (View(), Position(scb, last)) == PostEvent(old(View()), s, evt)
      ensures scb != null ==> scb in nodes
    {
      hide SetEvent, Visit, Chained, AllStored;
      NoteEvent(s, evt);
      last := 0;
      if socks[s].waiting == 0 {
        // no one is waiting for this socket
        return null, last;
      }
      scb, last := StartOver(s);
    }

    method NoteEvent(s: Fd, evt: Evt)
      requires s in socks
      modifies `socks
      ensures socks == old(socks)[s := SetEvent(old(socks)[s], evt)]
      ensures socks[s].waiting == old(socks)[s].waiting
    {
      var k := socks[s];
      match evt {
        case RcvPlus => k := k.(rcvevent := k.rcvevent + 1);
        case RcvMinus => k := k.(rcvevent := k.rcvevent - 1);
        case SendPlus => k := k.(sendevent := true);
        case SendMinus => k := k.(sendevent := false);
        case Error => k := k.(errevent := true);
      }
      socks := socks[s := k];
    }

    /** again: begin with the first node. */
    method StartOver(s: Fd) returns (scb: Node?, last: int)
      requires Valid() && s in socks
      modifies nodes, `cb
      ensures Valid()
      ensures (View(), Position(scb, last)) == VisitAt(old(View()), s, 0)
      ensures scb != null ==> scb in nodes
    {
      ListIds();
      scb, last := selectCbList, selectCbCtr;
      if scb != null {
        VisitNode(scb, s, 0);
      }
    }

    /** event_callback, every later region: the list may have changed. */
    method NextRegion(s: Fd, scb0: Node, last0: int, ghost i: nat) returns (scb: Node?, last: int)
      requires Valid() && s in socks
      requires last0 == selectCbCtr ==> i < |nodes| && nodes[i] == scb0
      modifies nodes, `cb
      ensures Valid()
      ensures (View(), Position(scb, last)) == Continue(old(View()), s, scb0.id, last0)
      ensures scb != null ==> scb in nodes
    {
      ListIds();
      if last0 != selectCbCtr {
        scb, last := StartOver(s);
        return;
      }
      IndexAt(Ids(nodes), i);
      scb, last := scb0.next, selectCbCtr;
      if scb != null {
        VisitNode(scb, s, i + 1);
      }
    }
  }
}
