// The handshake between lwip_select and event_callback.  Every region that runs
// under SYS_ARCH_PROTECT is one atomic step; any number of threads interleave
// their steps freely.  Sockets stay open while they are selected on.
module SelectProtocol {

  type Id = nat   // one call of lwip_select
  type Fd = nat

  datatype Sock = Sock(rcvevent: int, sendevent: bool, errevent: bool, lastdata: bool, waiting: nat)

  /** The arguments of lwip_select; a NULL set is empty. */
  datatype Interest = Interest(maxfdp1: nat, readset: set<Fd>, writeset: set<Fd>, exceptset: set<Fd>)

  /** The part of struct lwip_select_cb that event_callback looks at. */
  datatype SelectCb = SelectCb(want: Interest, signalled: bool)

  /** What the threads share: sockets, select_cb_list, its nodes, select_cb_ctr. */
  datatype Shared = Shared(socks: map<Fd, Sock>, list: seq<Id>, cb: map<Id, SelectCb>, ctr: int)

  datatype Evt = RcvPlus | RcvMinus | SendPlus | SendMinus | Error

  predicate Wants(it: Interest, s: Fd) {
    s in it.readset || s in it.writeset || s in it.exceptset
  }

  /** The test of event_callback: an event of socket s that it waits for. */
  predicate Hit(k: Sock, it: Interest, s: Fd) {
    || (k.rcvevent > 0 && s in it.readset) || (k.sendevent && s in it.writeset) || (k.errevent && s in it.exceptset)
  }

  /** The test of lwip_selscan, which also counts data left from a read. */
  predicate Ready(k: Sock, it: Interest, s: Fd) {
    Hit(k, it, s) || (k.lastdata && s in it.readset)
  }

  // ------------------------------------------------------- the atomic regions

  function PutOnTop(sh: Shared, t: Id, it: Interest): Shared {
    sh.(list := [t] + sh.list, cb := sh.cb[t := SelectCb(it, false)], ctr := sh.ctr + 1)
  }

  function Without(q: seq<Id>, t: Id): seq<Id> {
    if q == [] then [] else if q[0] == t then q[1..] else [q[0]] + Without(q[1..], t)
  }

  function TakeOff(sh: Shared, t: Id): Shared {
    sh.(list := Without(sh.list, t), ctr := sh.ctr + 1)
  }

  function Raised(k: Sock): Sock { k.(waiting := k.waiting + 1) }

  function Lowered(k: Sock): Sock { if k.waiting > 0 then k.(waiting := k.waiting - 1) else k }

  function SetEvent(k: Sock, evt: Evt): Sock {
    match evt
    case RcvPlus => k.(rcvevent := k.rcvevent + 1)
    case RcvMinus => k.(rcvevent := k.rcvevent - 1)
    case SendPlus => k.(sendevent := true)
    case SendMinus => k.(sendevent := false)
    case Error => k.(errevent := true)
  }

  /** Where a callback stands: it has visited node when the counter was last. */
  datatype At = Finished | Visited(node: Id, last: int)

  function IndexOf(q: seq<Id>, t: Id): (i: nat)
    ensures i <= |q| && (i < |q| <==> t in q)
    ensures i < |q| ==> q[i] == t
  {
    if q == [] || q[0] == t then 0 else 1 + IndexOf(q[1..], t)
  }

  /** Signal the node if it is not signalled and waits for an event of s. */
  function Visit(sh: Shared, s: Fd, t: Id): Shared {
    if t in sh.cb && s in sh.socks && !sh.cb[t].signalled && Hit(sh.socks[s], sh.cb[t].want, s)
    then sh.(cb := sh.cb[t := sh.cb[t].(signalled := true)]) else sh
  }

  /** Visit the i-th node, if there is one, and let go of the lock. */
  function VisitAt(sh: Shared, s: Fd, i: nat): (Shared, At) {
    if i < |sh.list| then (Visit(sh, s, sh.list[i]), Visited(sh.list[i], sh.ctr)) else (sh, Finished)
  }

  /** The first region of event_callback. */
  function PostEvent(sh: Shared, s: Fd, evt: Evt): (Shared, At)
    requires s in sh.socks
  {
    var sh' := sh.(socks := sh.socks[s := SetEvent(sh.socks[s], evt)]);
    if sh.socks[s].waiting == 0 then (sh', Finished) else VisitAt(sh', s, 0)
  }

  /** Every later region: go on behind node, or start again if the list changed. */
  function Continue(sh: Shared, s: Fd, node: Id, last: int): (Shared, At) {
    if last != sh.ctr then VisitAt(sh, s, 0) else VisitAt(sh, s, IndexOf(sh.list, node) + 1)
  }

  // ------------------------------------------------------------------ threads

  /** Where a call of lwip_select stands; i is the loop variable. */
  datatype Pc =
    | First(i: nat, found: bool)     // lwip_selscan before anything else
    | Enter                          // about to go on the list
    | Raise(i: nat)                  // select_waiting++
    | Second(i: nat, found: bool)    // lwip_selscan once on the list
    | Asleep                         // sys_arch_sem_wait
    | Lower(i: nat, upto: nat)       // select_waiting--
    | Leave                          // about to leave the list
    | Returned

  /** A call: poll is a zero timeout, timed a finite one. */
  datatype Sel = Sel(want: Interest, poll: bool, timed: bool, pc: Pc)

  datatype Call = Call(s: Fd, at: At)

  datatype State = State(sh: Shared, sels: map<Id, Sel>, calls: map<nat, Call>)

  datatype Action =
    | Begin(t: Id, want: Interest, poll: bool, timed: bool)
    | Advance(t: Id)
    | TimeOut(t: Id)
    | Post(c: nat, s: Fd, evt: Evt)
    | Resume(c: nat)
    | KeepData(s: Fd, lastdata: bool)   // a reader leaves or takes the rest of a buffer

  ghost predicate Enabled(st: State, a: Action) {
    match a
    case Begin(t, want, _, _) => t !in st.sels
    case Advance(t) => t in st.sels && (st.sels[t].pc == Asleep ==> t in st.sh.cb && st.sh.cb[t].signalled)
    case TimeOut(t) => t in st.sels && st.sels[t].pc == Asleep && st.sels[t].timed
    case Post(c, s, _) => c !in st.calls && s in st.sh.socks
    case Resume(c) => c in st.calls && st.calls[c].at.Visited?
    case KeepData(s, _) => s in st.sh.socks
  }

  function Poll(sh: Shared, it: Interest, i: Fd): bool {
    Wants(it, i) && i in sh.socks && Ready(sh.socks[i], it, i)
  }

  /** One region of lwip_select. */
  function AdvanceSel(sh: Shared, t: Id, c: Sel): (Shared, Pc) {
    var n := c.want.maxfdp1;
    match c.pc
    case First(i, found) =>
      if i < n then (sh, First(i + 1, found || Poll(sh, c.want, i)))
      else (sh, if found || c.poll then Returned else Enter)
    case Enter => (PutOnTop(sh, t, c.want), Raise(0))
    case Raise(i) =>
      if i >= n then (sh, Second(0, false))
      else if !Wants(c.want, i) then (sh, Raise(i + 1))
      else if i in sh.socks then (sh.(socks := sh.socks[i := Raised(sh.socks[i])]), Raise(i + 1))
      else (sh, Lower(0, i))   // not a valid socket
    case Second(i, found) =>
      if i < n then (sh, Second(i + 1, found || Poll(sh, c.want, i)))
      else (sh, if found then Lower(0, n) else Asleep)
    case Asleep => (sh, Lower(0, n))
    case Lower(i, upto) =>
      if i >= upto then (sh, Leave)
      else if Wants(c.want, i) && i in sh.socks then
        (sh.(socks := sh.socks[i := Lowered(sh.socks[i])]), Lower(i + 1, upto))
      else (sh, Lower(i + 1, upto))
    case Leave => (TakeOff(sh, t), Returned)
    case Returned => (sh, Returned)
  }

  function Step(st: State, a: Action): State {
    match a
    case Begin(t, want, poll, timed) => st.(sels := st.sels[t := Sel(want, poll, timed, First(0, false))])
    case Advance(t) =>
      if t !in st.sels then st
      else
        var (sh, pc) := AdvanceSel(st.sh, t, st.sels[t]);
        st.(sh := sh, sels := st.sels[t := st.sels[t].(pc := pc)])
    case TimeOut(t) =>
      if t !in st.sels then st
      else st.(sels := st.sels[t := st.sels[t].(pc := Lower(0, st.sels[t].want.maxfdp1))])
    case Post(c, s, evt) =>
      if s !in st.sh.socks then st
      else
        var (sh, at) := PostEvent(st.sh, s, evt);
        st.(sh := sh, calls := st.calls[c := Call(s, at)])
    case Resume(c) =>
      if c !in st.calls || !st.calls[c].at.Visited? then st
      else
        var k := st.calls[c];
        var (sh, at) := Continue(st.sh, k.s, k.at.node, k.at.last);
        st.(sh := sh, calls := st.calls[c := k.(at := at)])
    case KeepData(s, b) =>
      if s !in st.sh.socks then st
      else st.(sh := st.sh.(socks := st.sh.socks[s := st.sh.socks[s].(lastdata := b)]))
  }

  function Run(st: State, acts: seq<Action>): State
    decreases |acts|
  {
    if acts == [] then st else Run(Step(st, acts[0]), acts[1..])
  }

  ghost predicate Possible(st: State, acts: seq<Action>)
    decreases |acts|
  {
    acts == [] || (Enabled(st, acts[0]) && Possible(Step(st, acts[0]), acts[1..]))
  }

  /** Nobody selects yet. */
  ghost predicate Initial(st: State) {
    && st.sh.list == [] && st.sels == map[] && st.calls == map[]
    && forall s :: s in st.sh.socks ==> st.sh.socks[s].waiting == 0
  }
}
