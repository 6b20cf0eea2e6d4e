// No wakeup is lost: in every interleaving, a select call that sleeps unsignalled
// on a socket with an event has an event_callback on its way to it.
module SelectTheorems {
  import opened SelectProtocol

  // ---------------------------------------------------------------- invariant

  predicate OnList(pc: Pc) { pc.Raise? || pc.Second? || pc.Asleep? || pc.Lower? || pc.Leave? }

  /** The call is counted in select_waiting of socket s. */
  predicate Counts(c: Sel, s: Fd) {
    && Wants(c.want, s) && s < c.want.maxfdp1
    && match c.pc
       case Raise(i) => s < i
       case Second(_, _) => true
       case Asleep => true
       case Lower(i, upto) => i <= s < upto
       case _ => false
  }

  function Waiters(sels: map<Id, Sel>, s: Fd): set<Id> {
    set t | t in sels && Counts(sels[t], s)
  }

  ghost predicate Distinct(q: seq<Id>) {
    forall i, j :: 0 <= i < j < |q| ==> q[i] != q[j]
  }

  ghost predicate ListInv(st: State) {
    && Distinct(st.sh.list)
    && (forall t :: t in st.sh.list <==> t in st.sels && OnList(st.sels[t].pc))
    && (forall t :: t in st.sh.list ==> t in st.sh.cb && st.sh.cb[t].want == st.sels[t].want)
  }

  ghost predicate WaitInv(st: State) {
    forall s :: s in st.sh.socks ==> st.sh.socks[s].waiting == |Waiters(st.sels, s)|
  }

  /** A callback that goes on behind a node goes on behind one that is on the
      list. */
  ghost predicate CallInv(st: State) {
    forall c :: c in st.calls && st.calls[c].at.Visited? ==>
      && st.calls[c].s in st.sh.socks && st.calls[c].at.last <= st.sh.ctr
      && (st.calls[c].at.last == st.sh.ctr ==> st.calls[c].at.node in st.sh.list)
  }

  /** The call found socket s idle after it went on the list, and will sleep. */
  predicate Cleared(c: Sel, s: Fd) {
    && Wants(c.want, s) && s < c.want.maxfdp1
    && match c.pc
       case Second(i, found) => !found && s < i
       case Asleep => true
       case _ => false
  }

  ghost predicate Exposed(st: State, t: Id, s: Fd) {
    && t in st.sels && t in st.sh.cb && !st.sh.cb[t].signalled
    && Cleared(st.sels[t], s) && s in st.sh.socks && Hit(st.sh.socks[s], st.sels[t].want, s)
  }

  /** Callback c, for socket s, has the node of t still before it. */
  ghost predicate OnItsWay(st: State, c: nat, t: Id, s: Fd) {
    && c in st.calls && st.calls[c].s == s && st.calls[c].at.Visited?
    && (st.calls[c].at.last != st.sh.ctr || IndexOf(st.sh.list, st.calls[c].at.node) < IndexOf(st.sh.list, t))
  }

  ghost predicate WakeInv(st: State) {
    forall t, s :: Exposed(st, t, s) ==> exists c :: OnItsWay(st, c, t, s)
  }

  /** select_waiting is lowered only where it was raised. */
  ghost predicate LowerInv(st: State) {
    forall t :: t in st.sels && st.sels[t].pc.Lower? ==> st.sels[t].pc.upto <= st.sels[t].want.maxfdp1
  }

  ghost predicate Inv(st: State) {
    ListInv(st) && WaitInv(st) && CallInv(st) && WakeInv(st) && LowerInv(st)
  }

  // -------------------------------------------------------------------- lists

  lemma {:induction false} IndexAt(q: seq<Id>, i: nat)
    requires Distinct(q) && i < |q|
    ensures IndexOf(q, q[i]) == i
  {
    if i > 0 {
      assert Distinct(q[1..]);
      IndexAt(q[1..], i - 1);
    }
  }

  lemma {:induction false} WithoutIs(q: seq<Id>, t: Id)
    requires Distinct(q)
    ensures Distinct(Without(q, t)) && forall x :: x in Without(q, t) <==> x in q && x != t
  {
    if q != [] {
      assert Distinct(q[1..]);
      assert forall i :: 0 <= i < |q| - 1 ==> q[1..][i] == q[i + 1];
      assert q == [q[0]] + q[1..];
      assert q[0] !in q[1..];
      WithoutIs(q[1..], t);
      if q[0] != t { DistinctCons(q[0], Without(q[1..], t)); }
    }
  }

  lemma DistinctCons(t: Id, q: seq<Id>)
    requires Distinct(q) && t !in q
    ensures Distinct([t] + q)
  {
  }

  // ------------------------------------------------------------------ counting

  /** How the count of waiters follows one call's move. */
  lemma WaitersMove(sels: map<Id, Sel>, t: Id, c: Sel, s: Fd)
    ensures |Waiters(sels[t := c], s)| ==
            |Waiters(sels, s)| - (if t in sels && Counts(sels[t], s) then 1 else 0) + (if Counts(c, s) then 1 else 0)
  {
    var rest := Waiters(sels, s) - {t};
    assert Waiters(sels, s) == if t in sels && Counts(sels[t], s) then rest + {t} else rest;
    assert Waiters(sels[t := c], s) == if Counts(c, s) then rest + {t} else rest;
  }

  /** A call that waits for s is counted. */
  lemma WaiterCounted(st: State, t: Id, s: Fd)
    requires WaitInv(st) && t in st.sels && Counts(st.sels[t], s) && s in st.sh.socks
    ensures st.sh.socks[s].waiting > 0
  {
    assert t in Waiters(st.sels, s);
  }

  // ---------------------------------------------------------------- callbacks

  /** What a visit changes. */
  lemma VisitIs(sh: Shared, s: Fd, i: nat)
    ensures var (sh', at) := VisitAt(sh, s, i);
            && sh'.list == sh.list && sh'.ctr == sh.ctr && sh'.socks == sh.socks && sh'.cb.Keys == sh.cb.Keys
            && (forall t :: t in sh.cb ==>
                  sh'.cb[t].want == sh.cb[t].want && (sh.cb[t].signalled ==> sh'.cb[t].signalled))
            && at == (if i < |sh.list| then Visited(sh.list[i], sh.ctr) else Finished)
            && (i < |sh.list| && sh.list[i] in sh.cb && s in sh.socks && Hit(sh.socks[s], sh.cb[sh.list[i]].want, s) ==>
                  sh'.cb[sh.list[i]].signalled)
  {
  }

  /** A call for socket s that moves to node i, where the node of t is not before
      i, leaves t signalled or still before it. */
  lemma VisitReaches(st: State, c: nat, s: Fd, i: nat, t: Id)
    requires ListInv(st) && s in st.sh.socks && t in st.sh.list && i <= IndexOf(st.sh.list, t)
    requires Hit(st.sh.socks[s], st.sh.cb[t].want, s)
    ensures var (sh, at) := VisitAt(st.sh, s, i);
            var st' := st.(sh := sh, calls := st.calls[c := Call(s, at)]);
            sh.cb[t].signalled || OnItsWay(st', c, t, s)
  {
    VisitIs(st.sh, s, i);
    IndexAt(st.sh.list, i);
    hide VisitAt;
  }

  // ------------------------------------------------------ steps of a callback

  /** A visit by call c, from a state where the others kept their promises. */
  lemma VisitKeeps(st: State, c: nat, s: Fd, i: nat)
    requires ListInv(st) && WaitInv(st) && CallInv(st) && LowerInv(st) && s in st.sh.socks
    requires forall t, s' :: Exposed(st, t, s') ==>
               (s' == s && i <= IndexOf(st.sh.list, t)) || exists c' :: c' != c && OnItsWay(st, c', t, s')
    ensures var (sh, at) := VisitAt(st.sh, s, i);
            Inv(st.(sh := sh, calls := st.calls[c := Call(s, at)]))
  {
    var (sh, at) := VisitAt(st.sh, s, i);
    var st' := st.(sh := sh, calls := st.calls[c := Call(s, at)]);
    VisitIs(st.sh, s, i);
    hide VisitAt;
    forall t, s' | Exposed(st', t, s')
      ensures exists c' :: OnItsWay(st', c', t, s')
    {
      assert Exposed(st, t, s');
      if c' :| c' != c && OnItsWay(st, c', t, s') {
        assert OnItsWay(st', c', t, s');
      } else {
        VisitReaches(st, c, s, i, t);
        assert OnItsWay(st', c, t, s');
      }
    }
  }

  lemma ResumeKeeps(st: State, c: nat)
    requires Inv(st) && Enabled(st, Resume(c))
    ensures Inv(Step(st, Resume(c)))
  {
    var k := st.calls[c];
    var i: nat := if k.at.last != st.sh.ctr then 0 else IndexOf(st.sh.list, k.at.node) + 1;
    hide Wants, Hit, VisitAt;
    forall t, s' | Exposed(st, t, s')
      ensures (s' == k.s && i <= IndexOf(st.sh.list, t)) || exists c' :: c' != c && OnItsWay(st, c', t, s')
    {
      var c' :| OnItsWay(st, c', t, s');
    }
    VisitKeeps(st, c, k.s, i);
    assert Step(st, Resume(c)) == st.(sh := VisitAt(st.sh, k.s, i).0,
                                      calls := st.calls[c := Call(k.s, VisitAt(st.sh, k.s, i).1)]);
  }

  lemma PostKeeps(st: State, c: nat, s: Fd, evt: Evt)
    requires Inv(st) && Enabled(st, Post(c, s, evt))
    ensures Inv(Step(st, Post(c, s, evt)))
  {
    var st1 := st.(sh := st.sh.(socks := st.sh.socks[s := SetEvent(st.sh.socks[s], evt)]));
    EventKeeps(st, c, s, evt);
    hide Wants, Hit, VisitAt, SetEvent;
    if st.sh.socks[s].waiting == 0 {
      NobodyWaits(st, st1, c, s);
    } else {
      VisitKeeps(st1, c, s, 0);
    }
  }

  /** Before the list is looked at: only calls that wait for s are exposed. */
  lemma EventKeeps(st: State, c: nat, s: Fd, evt: Evt)
    requires Inv(st) && Enabled(st, Post(c, s, evt))
    ensures var st1 := st.(sh := st.sh.(socks := st.sh.socks[s := SetEvent(st.sh.socks[s], evt)]));
            && ListInv(st1) && WaitInv(st1) && CallInv(st1) && LowerInv(st1)
            && forall t, s' :: Exposed(st1, t, s') ==>
                 (s' == s && st.sh.socks[s].waiting > 0) || exists c' :: c' != c && OnItsWay(st1, c', t, s')
  {
    var st1 := st.(sh := st.sh.(socks := st.sh.socks[s := SetEvent(st.sh.socks[s], evt)]));
    assert SetEvent(st.sh.socks[s], evt).waiting == st.sh.socks[s].waiting;
    forall t, s' | Exposed(st1, t, s')
      ensures (s' == s && st.sh.socks[s].waiting > 0) || exists c' :: c' != c && OnItsWay(st1, c', t, s')
    {
      if s' == s {
        WaiterCounted(st, t, s);
      } else {
        assert Exposed(st, t, s');
        var c' :| OnItsWay(st, c', t, s');
        assert OnItsWay(st1, c', t, s');
      }
    }
  }

  lemma NobodyWaits(st: State, st1: State, c: nat, s: Fd)
    requires ListInv(st1) && WaitInv(st1) && CallInv(st1) && LowerInv(st1)
    requires forall t, s' :: Exposed(st1, t, s') ==> exists c' :: c' != c && OnItsWay(st1, c', t, s')
    ensures Inv(st1.(calls := st1.calls[c := Call(s, Finished)]))
  {
    var st' := st1.(calls := st1.calls[c := Call(s, Finished)]);
    forall t, s' | Exposed(st', t, s')
      ensures exists c' :: OnItsWay(st', c', t, s')
    {
      assert Exposed(st1, t, s');
      var c' :| c' != c && OnItsWay(st1, c', t, s');
      assert OnItsWay(st', c', t, s');
    }
  }

  // ---------------------------------------------------- steps of lwip_select

  /** A call that moves on without touching what is shared. */
  lemma MoveKeeps(st: State, t: Id, pc: Pc)
    requires Inv(st) && t in st.sels && OnList(pc) == OnList(st.sels[t].pc)
    requires pc.Lower? ==> pc.upto <= st.sels[t].want.maxfdp1
    requires var c, c' := st.sels[t], st.sels[t].(pc := pc);
             && (forall s :: s in st.sh.socks ==> Counts(c', s) == Counts(c, s))
             && (forall s :: Cleared(c', s) ==> Cleared(c, s) || (s in st.sh.socks ==> !Hit(st.sh.socks[s], c.want, s)))
    ensures Inv(st.(sels := st.sels[t := st.sels[t].(pc := pc)]))
  {
    var c' := st.sels[t].(pc := pc);
    var st' := st.(sels := st.sels[t := c']);
    hide Wants, Hit, Counts, Cleared, Waiters;
    forall s | s in st.sh.socks
      ensures |Waiters(st'.sels, s)| == |Waiters(st.sels, s)|
    {
      WaitersMove(st.sels, t, c', s);
    }
    SameWakes(st, st');
  }

  /** Fewer calls are exposed, and the callbacks are where they were. */
  lemma SameWakes(st: State, st': State)
    requires WakeInv(st) && st'.calls == st.calls && st'.sh.list == st.sh.list && st'.sh.ctr == st.sh.ctr
    requires forall t, s :: Exposed(st', t, s) ==> Exposed(st, t, s)
    ensures WakeInv(st')
  {
    hide Exposed;
    forall t, s | Exposed(st', t, s)
      ensures exists c :: OnItsWay(st', c, t, s)
    {
      var c :| OnItsWay(st, c, t, s);
      assert OnItsWay(st', c, t, s);
    }
  }

  /** Changing the list sends every callback back to the start. */
  lemma RestartAll(st: State, st': State)
    requires WakeInv(st) && CallInv(st)
    requires st'.calls == st.calls && st'.sh.ctr > st.sh.ctr && st'.sh.socks == st.sh.socks
    requires forall t, s :: Exposed(st', t, s) ==> Exposed(st, t, s)
    ensures WakeInv(st') && CallInv(st')
  {
    hide Exposed;
    forall t, s | Exposed(st', t, s)
      ensures exists c :: OnItsWay(st', c, t, s)
    {
      var c :| OnItsWay(st, c, t, s);
      assert OnItsWay(st', c, t, s);
    }
  }

  lemma EnterKeeps(st: State, t: Id)
    requires Inv(st) && t in st.sels && st.sels[t].pc == Enter
    ensures Inv(Step(st, Advance(t)))
  {
    var c' := st.sels[t].(pc := Raise(0));
    var st' := Step(st, Advance(t));
    assert st' == st.(sh := PutOnTop(st.sh, t, c'.want), sels := st.sels[t := c']);
    assert t !in st.sh.list;
    DistinctCons(t, st.sh.list);
    forall s | s in st.sh.socks
      ensures |Waiters(st'.sels, s)| == |Waiters(st.sels, s)|
    {
      WaitersMove(st.sels, t, c', s);
    }
    hide Wants, Hit, Counts, Waiters;
    RestartAll(st, st');
  }

  lemma LeaveKeeps(st: State, t: Id)
    requires Inv(st) && t in st.sels && st.sels[t].pc == Leave
    ensures Inv(Step(st, Advance(t)))
  {
    var c' := st.sels[t].(pc := Returned);
    var st' := Step(st, Advance(t));
    assert st' == st.(sh := TakeOff(st.sh, t), sels := st.sels[t := c']);
    WithoutIs(st.sh.list, t);
    forall s | s in st.sh.socks
      ensures |Waiters(st'.sels, s)| == |Waiters(st.sels, s)|
    {
      WaitersMove(st.sels, t, c', s);
    }
    hide Wants, Hit, Counts, Waiters;
    RestartAll(st, st');
  }

  /** select_waiting of socket i changes along with the call's position. */
  lemma CountKeeps(st: State, t: Id, i: Fd, waiting: nat, pc: Pc)
    requires Inv(st) && t in st.sels && i in st.sh.socks && OnList(pc) == OnList(st.sels[t].pc)
    requires pc.Lower? ==> pc.upto <= st.sels[t].want.maxfdp1
    requires var c, c' := st.sels[t], st.sels[t].(pc := pc);
             && (forall s :: s in st.sh.socks && s != i ==> Counts(c', s) == Counts(c, s))
             && (forall s :: !Cleared(c', s))
             && waiting == st.sh.socks[i].waiting - (if Counts(c, i) then 1 else 0) + (if Counts(c', i) then 1 else 0)
    ensures Inv(st.(sh := st.sh.(socks := st.sh.socks[i := st.sh.socks[i].(waiting := waiting)]),
                    sels := st.sels[t := st.sels[t].(pc := pc)]))
  {
    hide Wants, Counts, Cleared, Waiters;
    var c' := st.sels[t].(pc := pc);
    var st' := st.(sh := st.sh.(socks := st.sh.socks[i := st.sh.socks[i].(waiting := waiting)]),
                   sels := st.sels[t := c']);
    forall s | s in st.sh.socks
      ensures st'.sh.socks[s].waiting == |Waiters(st'.sels, s)|
    {
      WaitersMove(st.sels, t, c', s);
    }
    SameWakes(st, st');
  }

  lemma RaiseKeeps(st: State, t: Id)
    requires Inv(st) && t in st.sels && st.sels[t].pc.Raise?
    ensures Inv(Step(st, Advance(t)))
  {
    hide Inv, Hit, Wants;
    var c, i := st.sels[t], st.sels[t].pc.i;
    if i < c.want.maxfdp1 && Wants(c.want, i) && i in st.sh.socks {
      CountKeeps(st, t, i, st.sh.socks[i].waiting + 1, Raise(i + 1));
    } else {
      MoveKeeps(st, t, AdvanceSel(st.sh, t, c).1);
    }
  }

  lemma LowerKeeps(st: State, t: Id)
    requires Inv(st) && t in st.sels && st.sels[t].pc.Lower?
    ensures Inv(Step(st, Advance(t)))
  {
    hide Inv, Hit, Wants;
    var c, i, upto := st.sels[t], st.sels[t].pc.i, st.sels[t].pc.upto;
    LowerWithin(st, t);
    if i < upto && Wants(c.want, i) && i in st.sh.socks {
      Counted(st, t, i);
      CountKeeps(st, t, i, st.sh.socks[i].waiting - 1, Lower(i + 1, upto));
    } else {
      MoveKeeps(st, t, AdvanceSel(st.sh, t, c).1);
    }
  }

  lemma LowerWithin(st: State, t: Id)
    requires Inv(st) && t in st.sels && st.sels[t].pc.Lower?
    ensures st.sels[t].pc.upto <= st.sels[t].want.maxfdp1
  {
  }

  lemma Counted(st: State, t: Id, s: Fd)
    requires Inv(st) && t in st.sels && Counts(st.sels[t], s) && s in st.sh.socks
    ensures st.sh.socks[s].waiting > 0
  {
    hide ListInv, CallInv, WakeInv, Counts;
    WaiterCounted(st, t, s);
  }

  lemma SecondKeeps(st: State, t: Id)
    requires Inv(st) && t in st.sels && st.sels[t].pc.Second?
    ensures Inv(Step(st, Advance(t)))
  {
    hide Inv, Hit, Wants;
    MoveKeeps(st, t, AdvanceSel(st.sh, t, st.sels[t]).1);
  }

  /** The steps off the list, and the wakeup. */
  lemma OtherKeeps(st: State, t: Id)
    requires Inv(st) && t in st.sels
    requires st.sels[t].pc.First? || st.sels[t].pc.Asleep? || st.sels[t].pc.Returned?
    ensures Inv(Step(st, Advance(t)))
  {
    hide Inv, Hit, Wants;
    MoveKeeps(st, t, AdvanceSel(st.sh, t, st.sels[t]).1);
  }

  lemma TimeOutKeeps(st: State, t: Id)
    requires Inv(st) && Enabled(st, TimeOut(t))
    ensures Inv(Step(st, TimeOut(t)))
  {
    hide Inv, Hit, Wants;
    MoveKeeps(st, t, Lower(0, st.sels[t].want.maxfdp1));
  }

  lemma BeginKeeps(st: State, t: Id, want: Interest, poll: bool, timed: bool)
    requires Inv(st) && Enabled(st, Begin(t, want, poll, timed))
    ensures Inv(Step(st, Begin(t, want, poll, timed)))
  {
    var c := Sel(want, poll, timed, First(0, false));
    var st' := Step(st, Begin(t, want, poll, timed));
    forall s | s in st.sh.socks
      ensures |Waiters(st'.sels, s)| == |Waiters(st.sels, s)|
    {
      WaitersMove(st.sels, t, c, s);
    }
    hide Wants, Hit, Counts, Waiters;
    SameWakes(st, st');
  }

  lemma KeepDataKeeps(st: State, s: Fd, b: bool)
    requires Inv(st) && Enabled(st, KeepData(s, b))
    ensures Inv(Step(st, KeepData(s, b)))
  {
    hide Wants, Counts, Waiters, Cleared;
    SameWakes(st, Step(st, KeepData(s, b)));
  }

  /** Every atomic step of every thread keeps the invariant. */
  lemma StepKeeps(st: State, a: Action)
    requires Inv(st) && Enabled(st, a)
    ensures Inv(Step(st, a))
  {
    hide Inv, Step;
    match a
    case Begin(t, want, poll, timed) => BeginKeeps(st, t, want, poll, timed);
    case Advance(t) =>
      match st.sels[t].pc {
        case Enter => EnterKeeps(st, t);
        case Raise(_) => RaiseKeeps(st, t);
        case Second(_, _) => SecondKeeps(st, t);
        case Lower(_, _) => LowerKeeps(st, t);
        case Leave => LeaveKeeps(st, t);
        case _ => OtherKeeps(st, t);
      }
    case TimeOut(t) => TimeOutKeeps(st, t);
    case Post(c, s, evt) => PostKeeps(st, c, s, evt);
    case Resume(c) => ResumeKeeps(st, c);
    case KeepData(s, b) => KeepDataKeeps(st, s, b);
  }

  lemma {:induction false} RunKeeps(st: State, acts: seq<Action>)
    requires Inv(st) && Possible(st, acts)
    ensures Inv(Run(st, acts))
    decreases |acts|
  {
    hide Inv, Step, Enabled;
    if acts != [] {
      StepKeeps(st, acts[0]);
      RunKeeps(Step(st, acts[0]), acts[1..]);
    }
  }

  // ----------------------------------------------------------- what it means

  /** No lost wakeup: in any interleaving, if a call sleeps unsignalled and a
      socket of its sets has an event it waits for, then a callback for that
      socket still has the call's node before it. */
  lemma NoLostWakeup(st0: State, acts: seq<Action>, t: Id, s: Fd)
    requires Initial(st0) && Possible(st0, acts)
    requires var st := Run(st0, acts);
             && t in st.sels && st.sels[t].pc == Asleep && (t in st.sh.cb ==> !st.sh.cb[t].signalled)
             && s < st.sels[t].want.maxfdp1 && s in st.sh.socks && Hit(st.sh.socks[s], st.sels[t].want, s)
    ensures exists c :: OnItsWay(Run(st0, acts), c, t, s)
  {
    InitialInv(st0);
    RunKeeps(st0, acts);
    hide Run, Possible;
    assert Exposed(Run(st0, acts), t, s);
  }

  /** For lwip_selscan a socket with data left from a read is ready too.  A call that
      sleeps though a socket of its sets is ready has a callback on its way to it,
      unless such data are all that there is. */
  lemma SleepsWhileReady(st0: State, acts: seq<Action>, t: Id, s: Fd)
    requires Initial(st0) && Possible(st0, acts)
    requires var st := Run(st0, acts);
             && t in st.sels && st.sels[t].pc == Asleep && (t in st.sh.cb ==> !st.sh.cb[t].signalled)
             && s < st.sels[t].want.maxfdp1 && s in st.sh.socks && Ready(st.sh.socks[s], st.sels[t].want, s)
    ensures var st := Run(st0, acts);
            || (exists c :: OnItsWay(st, c, t, s))
            || (st.sh.socks[s].lastdata && s in st.sels[t].want.readset && !Hit(st.sh.socks[s], st.sels[t].want, s))
  {
    hide Run, Possible;
    if Hit(Run(st0, acts).sh.socks[s], Run(st0, acts).sels[t].want, s) {
      NoLostWakeup(st0, acts, t, s);
    }
  }

  /** One idle socket, and nobody selects. */
  function OneSocket(): State {
    State(Shared(map[0 := Sock(0, false, false, false, 0)], [], map[], 0), map[], map[])
  }

  function Advances(n: nat): seq<Action> { if n == 0 then [] else [Advance(7)] + Advances(n - 1) }

  /** A call on that socket goes to sleep, and then a reader leaves part of a buffer
      behind. */
  function SleepThenKeep(): seq<Action> {
    [Begin(7, Interest(1, {0}, {}, {}), false, false)] + Advances(7) + [KeepData(0, true)]
  }

  /** That is the sleep not covered: the socket is ready, and no callback comes. */
  lemma KeptDataExample()
    ensures Initial(OneSocket()) && Possible(OneSocket(), SleepThenKeep())
    ensures var st := Run(OneSocket(), SleepThenKeep());
            && 7 in st.sels && st.sels[7].pc == Asleep && 7 in st.sh.cb && !st.sh.cb[7].signalled
            && 0 in st.sh.socks && Ready(st.sh.socks[0], st.sels[7].want, 0) && st.calls == map[]
  {
    hide Possible, Run;
    var b := Begin(7, Interest(1, {0}, {}, {}), false, false);
    var st1 := Step(OneSocket(), b);
    var st2 := FallsAsleep(st1);
    assert Enabled(st2, KeepData(0, true));
    RunJoin(st1, Advances(7), [KeepData(0, true)]);
    OneStep(st2, KeepData(0, true), []);
    OneStep(OneSocket(), b, Advances(7) + [KeepData(0, true)]);
    assert SleepThenKeep() == [b] + (Advances(7) + [KeepData(0, true)]);
    EndRun(Step(st2, KeepData(0, true)));
    assert [KeepData(0, true)] == [KeepData(0, true)] + [];
  }

  lemma EndRun(st: State)
    ensures Run(st, []) == st && Possible(st, [])
  {
  }

  lemma OneStep(st: State, a: Action, acts: seq<Action>)
    requires Enabled(st, a)
    ensures Run(st, [a] + acts) == Run(Step(st, a), acts)
    ensures Possible(st, [a] + acts) <==> Possible(Step(st, a), acts)
  {
    hide Step, Enabled;
    assert ([a] + acts)[1..] == acts;
  }

  lemma {:induction false} RunJoin(st: State, acts: seq<Action>, more: seq<Action>)
    ensures Run(st, acts + more) == Run(Run(st, acts), more)
    ensures Possible(st, acts + more) <==> Possible(st, acts) && Possible(Run(st, acts), more)
    decreases |acts|
  {
    hide Step, Enabled;
    if acts == [] {
      assert acts + more == more;
    } else {
      assert (acts + more)[1..] == acts[1..] + more;
      RunJoin(Step(st, acts[0]), acts[1..], more);
    }
  }

  /** The regions of the call, one after another. */
  lemma FallsAsleep(st1: State) returns (st2: State)
    requires st1 == Step(OneSocket(), Begin(7, Interest(1, {0}, {}, {}), false, false))
    ensures st2 == Run(st1, Advances(7)) && Possible(st1, Advances(7))
    ensures st2.calls == map[] && st2.sh.socks == map[0 := Sock(0, false, false, false, 1)]
    ensures var want := Interest(1, {0}, {}, {});
            st2.sels == map[7 := Sel(want, false, false, Asleep)] && st2.sh.cb == map[7 := SelectCb(want, false)]
  {
    hide Possible, Run;
    var want := Interest(1, {0}, {}, {});
    var idle, counted := Sock(0, false, false, false, 0), Sock(0, false, false, false, 1);
    var none := Shared(map[0 := idle], [], map[], 0);
    var on := Shared(map[0 := idle], [7], map[7 := SelectCb(want, false)], 1);
    var up := on.(socks := map[0 := counted]);
    st2 := Calls(up, Asleep);
    EndRun(st2);
    Moves(none, First(0, false), none, First(1, false), 6);
    Moves(none, First(1, false), none, Enter, 5);
    assert [7] + none.list == on.list && none.cb[7 := SelectCb(want, false)] == on.cb;
    Moves(none, Enter, on, Raise(0), 4);
    assert on.socks[0 := Raised(idle)] == up.socks && on.(socks := on.socks[0 := Raised(idle)]) == up;
    Moves(on, Raise(0), up, Raise(1), 3);
    Moves(up, Raise(1), up, Second(0, false), 2);
    Moves(up, Second(0, false), up, Second(1, false), 1);
    Moves(up, Second(1, false), up, Asleep, 0);
    assert st1 == Calls(none, First(0, false));
  }

  function Calls(sh: Shared, pc: Pc): State {
    State(sh, map[7 := Sel(Interest(1, {0}, {}, {}), false, false, pc)], map[])
  }

  lemma Moves(sh: Shared, pc: Pc, sh': Shared, pc': Pc, n: nat)
    requires AdvanceSel(sh, 7, Sel(Interest(1, {0}, {}, {}), false, false, pc)) == (sh', pc') && pc != Asleep
    ensures Run(Calls(sh, pc), Advances(n + 1)) == Run(Calls(sh', pc'), Advances(n))
    ensures Possible(Calls(sh, pc), Advances(n + 1)) <==> Possible(Calls(sh', pc'), Advances(n))
  {
    var st := Calls(sh, pc);
    assert Step(st, Advance(7)) == Calls(sh', pc');
    hide Step, AdvanceSel;
    OneStep(st, Advance(7), Advances(n));
  }

  // --------------------------------------------- the events of a run, counted

  predicate IsPost(a: Action, s: Fd, evt: Evt) { a.Post? && a.s == s && a.evt == evt }

  /** How often evt was posted for s. */
  function Posts(acts: seq<Action>, s: Fd, evt: Evt): nat {
    if acts == [] then 0 else (if IsPost(acts[0], s, evt) then 1 else 0) + Posts(acts[1..], s, evt)
  }

  /** Whether s can send: what was posted last decides. */
  function SendState(acts: seq<Action>, s: Fd, before: bool): bool {
    if acts == [] then before
    else SendState(acts[1..], s,
                   if IsPost(acts[0], s, SendPlus) then true
                   else if IsPost(acts[0], s, SendMinus) then false else before)
  }

  /** What one step does to the events of s. */
  lemma StepEvents(st: State, a: Action, s: Fd)
    requires Enabled(st, a) && s in st.sh.socks
    ensures s in Step(st, a).sh.socks
    ensures var k, k' := st.sh.socks[s], Step(st, a).sh.socks[s];
            && k'.rcvevent == k.rcvevent + (if IsPost(a, s, RcvPlus) then 1 else 0)
                              - (if IsPost(a, s, RcvMinus) then 1 else 0)
            && k'.sendevent == (IsPost(a, s, SendPlus) || (k.sendevent && !IsPost(a, s, SendMinus)))
            && k'.errevent == (k.errevent || IsPost(a, s, Error))
            && k'.lastdata == (if a.KeepData? && a.s == s then a.lastdata else k.lastdata)
  {
    hide Wants, Hit, Ready, Poll, VisitAt, Without, AdvanceSel;
    match a
    case Advance(t) => RegionEvents(st.sh, t, st.sels[t], s);
    case Post(c, s', evt) =>
      VisitIs(st.sh.(socks := st.sh.socks[s' := SetEvent(st.sh.socks[s'], evt)]), s', 0);
    case Resume(c) =>
      var k := st.calls[c];
      VisitIs(st.sh, k.s, if k.at.last != st.sh.ctr then 0 else IndexOf(st.sh.list, k.at.node) + 1);
    case _ =>
  }

  /** No region of lwip_select touches the events of a socket. */
  lemma RegionEvents(sh: Shared, t: Id, c: Sel, s: Fd)
    requires s in sh.socks
    ensures s in AdvanceSel(sh, t, c).0.socks
    ensures AdvanceSel(sh, t, c).0.socks[s] == sh.socks[s].(waiting := AdvanceSel(sh, t, c).0.socks[s].waiting)
  {
    hide Wants, Poll, Without;
  }

  /** The events of a socket are those that were posted: data and errors add up, and
      nothing else changes them. */
  lemma {:induction false} EventsAreCounted(st: State, acts: seq<Action>, s: Fd)
    requires Possible(st, acts) && s in st.sh.socks
    ensures s in Run(st, acts).sh.socks
    ensures var k, k' := st.sh.socks[s], Run(st, acts).sh.socks[s];
            && k'.rcvevent == k.rcvevent + Posts(acts, s, RcvPlus) - Posts(acts, s, RcvMinus)
            && k'.sendevent == SendState(acts, s, k.sendevent)
            && k'.errevent == (k.errevent || Posts(acts, s, Error) > 0)
    decreases |acts|
  {
    hide Step, Enabled;
    if acts != [] {
      StepEvents(st, acts[0], s);
      EventsAreCounted(Step(st, acts[0]), acts[1..], s);
    }
  }

  /** No posted event is lost: in any interleaving, if more data have come for a
      socket than were taken, or it can send, or an error was posted, and a call that
      selects for this sleeps, then the call has been signalled or a callback is on
      its way to it. */
  lemma NoLostEvent(st0: State, acts: seq<Action>, t: Id, s: Fd)
    requires Initial(st0) && Possible(st0, acts) && s in st0.sh.socks
    requires var st := Run(st0, acts);
             t in st.sels && st.sels[t].pc == Asleep && s < st.sels[t].want.maxfdp1
    requires var want, k := Run(st0, acts).sels[t].want, st0.sh.socks[s];
             || (s in want.readset && k.rcvevent + Posts(acts, s, RcvPlus) > Posts(acts, s, RcvMinus))
             || (s in want.writeset && SendState(acts, s, k.sendevent))
             || (s in want.exceptset && (k.errevent || Posts(acts, s, Error) > 0))
    ensures var st := Run(st0, acts);
            (t in st.sh.cb && st.sh.cb[t].signalled) || exists c :: OnItsWay(st, c, t, s)
  {
    hide Run, Possible, Posts, SendState, OnItsWay;
    EventsAreCounted(st0, acts, s);
    var st := Run(st0, acts);
    if !(t in st.sh.cb && st.sh.cb[t].signalled) {
      NoLostWakeup(st0, acts, t, s);
    }
  }

  // ------------------------------------------------------------- zero timeouts

  lemma {:induction false} PollKept(st: State, acts: seq<Action>)
    requires Possible(st, acts)
    requires forall t :: t in st.sels && st.sels[t].poll ==> !OnList(st.sels[t].pc) && st.sels[t].pc != Enter
    ensures forall t :: t in Run(st, acts).sels && Run(st, acts).sels[t].poll ==>
              !OnList(Run(st, acts).sels[t].pc) && Run(st, acts).sels[t].pc != Enter
    decreases |acts|
  {
    hide Wants, Poll, SetEvent, VisitAt, Without;
    if acts != [] {
      hide Enabled;
      PollKept(Step(st, acts[0]), acts[1..]);
    }
  }

  /** A call with a zero timeout never goes on the list, and so never sleeps. */
  lemma PollNeverSleeps(st0: State, acts: seq<Action>, t: Id)
    requires Initial(st0) && Possible(st0, acts) && t in Run(st0, acts).sels && Run(st0, acts).sels[t].poll
    ensures t !in Run(st0, acts).sh.list && Run(st0, acts).sels[t].pc != Asleep
  {
    PollKept(st0, acts);
    InitialInv(st0);
    RunKeeps(st0, acts);
    hide Run, Possible;
  }

  /** Where a call can be once a scan has found something: it does not go to sleep,
      and after the first scan it does not even go on the list. */
  predicate Awake(pc: Pc) { pc == Returned || (pc.First? && pc.found) }

  predicate AwakeOnList(pc: Pc) { pc == Returned || (pc.Second? && pc.found) || pc.Lower? || pc.Leave? }

  lemma {:induction false} FoundNeverSleeps(st: State, acts: seq<Action>, t: Id)
    requires Possible(st, acts) && t in st.sels
    ensures t in Run(st, acts).sels
    ensures Awake(st.sels[t].pc) ==> Awake(Run(st, acts).sels[t].pc)
    ensures AwakeOnList(st.sels[t].pc) ==> AwakeOnList(Run(st, acts).sels[t].pc)
    decreases |acts|
  {
    hide Wants, Poll, SetEvent, VisitAt, Without;
    if acts != [] {
      FoundNeverSleeps(Step(st, acts[0]), acts[1..], t);
    }
  }

  // ------------------------------------------------------ nothing for nothing

  /** What makes a socket of a call's sets worth waking it for. */
  predicate Happened(k: Sock, it: Interest, s: Fd) {
    || (s in it.readset && k.rcvevent > 0) || (s in it.writeset && k.sendevent) || (s in it.exceptset && k.errevent)
  }

  /** A call is signalled by a region of a callback for a socket of its sets, on
      which there is an event that it waits for, and by nothing else. */
  lemma SignalledForCause(st: State, a: Action, t: Id)
    requires Inv(st) && Enabled(st, a) && t in st.sh.cb && !st.sh.cb[t].signalled
    requires t in Step(st, a).sh.cb && Step(st, a).sh.cb[t].signalled
    ensures a.Post? || a.Resume?
    ensures var s := if a.Post? then a.s else st.calls[a.c].s;
            s in Step(st, a).sh.socks && Happened(Step(st, a).sh.socks[s], st.sh.cb[t].want, s)
  {
    hide Inv, Wants, Ready, Poll, SetEvent, Without, IndexOf;
  }

  /** lwip_selscan reports a socket only if it is in the call's sets and has an event
      or data left over. */
  lemma FoundForCause(st: State, t: Id)
    requires t in st.sels && (st.sels[t].pc.First? || st.sels[t].pc.Second?) && !st.sels[t].pc.found
    requires var pc := Step(st, Advance(t)).sels[t].pc; (pc.First? || pc.Second?) && pc.found
    ensures var s, want := st.sels[t].pc.i, st.sels[t].want;
            && s in st.sh.socks && s < want.maxfdp1
            && (Happened(st.sh.socks[s], want, s) || (s in want.readset && st.sh.socks[s].lastdata))
  {
  }

  lemma InitialInv(st: State)
    requires Initial(st)
    ensures Inv(st)
  {
    assert forall s :: Waiters(st.sels, s) == {};
  }

  /** No callback follows the link of a node that has left the list. */
  lemma NoStaleNode(st0: State, acts: seq<Action>, c: nat)
    requires Initial(st0) && Possible(st0, acts)
    requires var st := Run(st0, acts);
             c in st.calls && st.calls[c].at.Visited? && st.calls[c].at.last == st.sh.ctr
    ensures var st := Run(st0, acts);
            st.calls[c].at.node in st.sh.list && st.calls[c].at.node in st.sels
  {
    InitialInv(st0);
    RunKeeps(st0, acts);
    hide Run, Possible;
  }

  /** select_waiting counts exactly the calls that wait for the socket. */
  lemma WaitingIsExact(st0: State, acts: seq<Action>, s: Fd)
    requires Initial(st0) && Possible(st0, acts) && s in Run(st0, acts).sh.socks
    ensures Run(st0, acts).sh.socks[s].waiting == |Waiters(Run(st0, acts).sels, s)|
  {
    InitialInv(st0);
    RunKeeps(st0, acts);
    hide Run, Possible;
  }

  /** How many visits callback c still needs before t. */
  ghost function Distance(st: State, c: nat, t: Id): int
    requires c in st.calls && st.calls[c].at.Visited?
  {
    IndexOf(st.sh.list, t) -
    if st.calls[c].at.last != st.sh.ctr then -1 else IndexOf(st.sh.list, st.calls[c].at.node)
  }

  ghost function Alone(st: State, c: nat, n: nat): State
    decreases n
  {
    if n == 0 then st else Alone(Step(st, Resume(c)), c, n - 1)
  }

  /** And it gets there: left alone for as many regions as there are nodes up to
      t, the callback signals t. */
  lemma {:induction false} WakesUp(st: State, c: nat, t: Id, s: Fd)
    requires Inv(st) && Exposed(st, t, s) && OnItsWay(st, c, t, s)
    ensures 0 < Distance(st, c, t) <= |st.sh.list|
    ensures t in Alone(st, c, Distance(st, c, t)).sh.cb && Alone(st, c, Distance(st, c, t)).sh.cb[t].signalled
    decreases Distance(st, c, t)
  {
    var st' := Step(st, Resume(c));
    OneVisit(st, c, t, s);
    ResumeKeeps(st, c);
    if Distance(st, c, t) == 1 {
      assert Alone(st', c, 0) == st';
    } else {
      WakesUp(st', c, t, s);
    }
  }

  lemma OneVisit(st: State, c: nat, t: Id, s: Fd)
    requires Inv(st) && Exposed(st, t, s) && OnItsWay(st, c, t, s)
    ensures 0 < Distance(st, c, t) <= |st.sh.list|
    ensures var st' := Step(st, Resume(c));
            if Distance(st, c, t) == 1 then t in st'.sh.cb && st'.sh.cb[t].signalled
            else Exposed(st', t, s) && OnItsWay(st', c, t, s) && Distance(st', c, t) == Distance(st, c, t) - 1
  {
    hide WaitInv, WakeInv, LowerInv, Wants, Hit;
    var k := st.calls[c];
    var i: nat := if k.at.last != st.sh.ctr then 0 else IndexOf(st.sh.list, k.at.node) + 1;
    assert t in st.sh.list;
    VisitIs(st.sh, s, i);
    IndexAt(st.sh.list, i);
  }

  // -------------------------------------------------- while others take steps

  /** The call is exposed before, during and after these steps. */
  ghost predicate StaysExposed(st: State, acts: seq<Action>, t: Id, s: Fd)
    decreases |acts|
  {
    Exposed(st, t, s) && (acts == [] || StaysExposed(Step(st, acts[0]), acts[1..], t, s))
  }

  /** How many of these steps are regions of callback c. */
  function Resumes(acts: seq<Action>, c: nat): nat {
    if acts == [] then 0 else (if acts[0] == Resume(c) then 1 else 0) + Resumes(acts[1..], c)
  }

  lemma {:induction false} WithoutShorter(q: seq<Id>, t: Id)
    ensures |Without(q, t)| <= |q|
  {
    if q != [] { WithoutShorter(q[1..], t); }
  }

  /** What a step of anybody else does to the list, and to callback c. */
  lemma OthersStep(st: State, a: Action, c: nat)
    requires Inv(st) && Enabled(st, a) && a != Resume(c) && c in st.calls
    ensures var st' := Step(st, a);
            && c in st'.calls && st'.calls[c] == st.calls[c]
            && (if st'.sh.ctr == st.sh.ctr then st'.sh.list == st.sh.list
                else st'.sh.ctr == st.sh.ctr + 1 && |st'.sh.list| <= |st.sh.list| + 1)
  {
    hide Inv, Wants, Hit, Ready, SetEvent, Poll, VisitAt, Without;
    match a
    case Advance(t) => WithoutShorter(st.sh.list, t);
    case Post(c', s, evt) => VisitIs(st.sh.(socks := st.sh.socks[s := SetEvent(st.sh.socks[s], evt)]), s, 0);
    case Resume(c') =>
      var k := st.calls[c'];
      VisitIs(st.sh, k.s, if k.at.last != st.sh.ctr then 0 else IndexOf(st.sh.list, k.at.node) + 1);
    case _ =>
  }

  lemma ExposedOnList(st: State, t: Id, s: Fd)
    requires Inv(st) && Exposed(st, t, s)
    ensures t in st.sh.list
  {
  }

  /** A region of c brings it one node closer, a change of the list sends it back
      to the start, and nothing else moves it. */
  lemma StepMoves(st: State, a: Action, c: nat, t: Id, s: Fd)
    requires Inv(st) && Enabled(st, a) && Exposed(st, t, s) && OnItsWay(st, c, t, s) && Exposed(Step(st, a), t, s)
    ensures var st' := Step(st, a);
            && OnItsWay(st', c, t, s) && 0 < Distance(st', c, t)
            && (if st'.sh.ctr == st.sh.ctr then
                  && st'.sh.list == st.sh.list
                  && Distance(st', c, t) == Distance(st, c, t) - (if a == Resume(c) then 1 else 0)
                else
                  && st'.sh.ctr == st.sh.ctr + 1 && |st'.sh.list| <= |st.sh.list| + 1
                  && Distance(st', c, t) <= |st'.sh.list| && a != Resume(c))
  {
    StepKeeps(st, a);
    ExposedOnList(st, t, s);
    ExposedOnList(Step(st, a), t, s);
    LastSeen(st, c);
    if a == Resume(c) {
      OneVisit(st, c, t, s);
      var k := st.calls[c];
      VisitIs(st.sh, k.s, if k.at.last != st.sh.ctr then 0 else IndexOf(st.sh.list, k.at.node) + 1);
      hide Inv, Exposed, VisitAt;
    } else {
      OthersStep(st, a, c);
      hide Inv, Exposed, Step;
    }
  }

  lemma LastSeen(st: State, c: nat)
    requires Inv(st) && c in st.calls && st.calls[c].at.Visited?
    ensures st.calls[c].at.last <= st.sh.ctr
  {
  }

  /** The length that a list of n nodes can come to, once for each of its changes. */
  function Detours(n: nat, changes: int): int { changes * (n + changes) }

  lemma OneMoreChange(n: nat, n': nat, changes: nat)
    requires n' <= n + 1
    ensures n' + Detours(n', changes) <= Detours(n, changes + 1)
  {
    assert changes * (n' + changes) <= changes * (n + 1 + changes);
    assert (changes + 1) * (n + changes + 1) == changes * (n + 1 + changes) + (n + changes + 1);
  }

  lemma NotYet(st: State, c: nat, t: Id, s: Fd)
    requires Inv(st) && Exposed(st, t, s) && OnItsWay(st, c, t, s)
    ensures 0 < Distance(st, c, t) && Detours(|st.sh.list|, 0) == 0
  {
    ExposedOnList(st, t, s);
  }

  /** However the steps of others come in between: as long as t is exposed, the
      callback that is on its way to it stays on its way, and takes fewer regions
      than there are nodes up to t, plus the length of the list for each time that
      select_cb_ctr changes. */
  lemma {:induction false} WakesUpAmongOthers(st: State, acts: seq<Action>, c: nat, t: Id, s: Fd)
    requires Inv(st) && Possible(st, acts) && StaysExposed(st, acts, t, s) && OnItsWay(st, c, t, s)
    ensures var st' := Run(st, acts);
            var changes := st'.sh.ctr - st.sh.ctr;
            && OnItsWay(st', c, t, s) && 0 <= changes && 0 < Distance(st', c, t)
            && Resumes(acts, c) + Distance(st', c, t) <= Distance(st, c, t) + Detours(|st.sh.list|, changes)
    decreases |acts|
  {
    hide Inv, Step, Enabled, Exposed, Distance, OnItsWay, Detours;
    NotYet(st, c, t, s);
    if acts != [] {
      StepMoves(st, acts[0], c, t, s);
      StepKeeps(st, acts[0]);
      WakesUpAmongOthers(Step(st, acts[0]), acts[1..], c, t, s);
      if Step(st, acts[0]).sh.ctr != st.sh.ctr {
        OneMoreChange(|st.sh.list|, |Step(st, acts[0]).sh.list|, Run(st, acts).sh.ctr - st.sh.ctr - 1);
      }
    }
  }
}
