// When timeouts fire: over every run, with any mailbox and with the one of this
// port.
module TimerTheorems {
  import opened Timers
  import opened Words

  ghost predicate All(q: seq<Timer>, p: Timer -> bool) {
    forall i :: 0 <= i < |q| ==> p(q[i])
  }

  lemma {:induction false} InsertAll(q: seq<Timer>, t: Timer, p: Timer -> bool)
    requires All(q, p)
    ensures All(SortedInsert(q, t), p) <==> p(t)
  {
    if q != [] && q[0].deadline <= t.deadline {
      assert All(q[1..], p);
      InsertAll(q[1..], t, p);
      AllCons(q[0], SortedInsert(q[1..], t), p);
    } else {
      AllCons(t, q, p);
    }
  }

  lemma AllCons(t: Timer, q: seq<Timer>, p: Timer -> bool)
    ensures All([t] + q, p) <==> p(t) && All(q, p)
  {
    var r := [t] + q;
    assert r[0] == t && forall i :: 0 <= i < |q| ==> r[i + 1] == q[i];
  }

  lemma {:induction false} RemoveAll(q: seq<Timer>, h: nat, arg: nat, p: Timer -> bool)
    requires All(q, p)
    ensures All(RemoveFirst(q, h, arg), p)
  {
    if q != [] {
      assert All(q[1..], p);
      RemoveAll(q[1..], h, arg, p);
    }
  }

  /** The timer at the head, when it expires. */
  lemma HeadOf(st: State)
    requires st.list != []
    ensures Pending(st)[0] == Timer(st.now + st.list[0].time, st.list[0].info)
  {
  }

  // -------------------------------------------------------- how late they fire

  /** What is known of a timer that stands for a deadline: it is off by the time
      that has gone by uncounted since, and by what it was made to wait longer. */
  predicate Accounts(e: Info, at: int, t: Tally) {
    at - e.due == e.slack + (t.drift - e.birth.drift)
  }

  ghost predicate Accounted(st: State) {
    && All(Pending(st), (t: Timer) => Accounts(t.info, t.deadline, st.tally))
    && forall f :: f in st.fired ==> Accounts(f.info, f.at, f.tally)
  }

  lemma StepAccounted(st: State, e: Event)
    requires Accounted(st)
    ensures Accounted(Step(st, e))
  {
    hide Deadlines, SortedInsert, RemoveFirst, Insert, Remove, Elapse;
    StepRefines(st, e);
    match e
    case Register(msecs, lim, h, arg) =>
      var m := Max(msecs, lim);
      InsertAll(Pending(st), Timer(st.now + m, Info(h, arg, st.now + msecs, m - msecs, st.tally)),
                (t: Timer) => Accounts(t.info, t.deadline, st.tally));
    case Cancel(h, arg) => RemoveAll(Pending(st), h, arg, (t: Timer) => Accounts(t.info, t.deadline, st.tally));
    case Expire(_) => if st.list != [] { HeadOf(st); }
    case _ =>
  }

  lemma {:induction false} RunAccounted(st: State, es: seq<Event>)
    requires Accounted(st)
    ensures Accounted(Run(st, es))
    decreases |es|
  {
    hide Accounted, Step;
    if es != [] {
      StepAccounted(st, es[0]);
      RunAccounted(Step(st, es[0]), es[1..]);
    }
  }

  /** Whatever is added and cancelled meanwhile, a timeout fires exactly as late
      as time has gone by uncounted since it was registered, and early if that is
      less than nothing. */
  lemma FiresLateBy(now: int, es: seq<Event>, i: nat)
    requires i < |Run(Start(now), es).fired|
    ensures var f := Run(Start(now), es).fired[i];
            f.at - f.info.due == f.info.slack + (f.tally.drift - f.info.birth.drift)
  {
    RunAccounted(Start(now), es);
    hide Run;
    assert Run(Start(now), es).fired[i] in Run(Start(now), es).fired;
  }

  // -------------------------------------------------------------- never early

  predicate InTime(t: Timer) { t.info.due <= t.deadline }

  /** No timer in the list will fire early, and none has. */
  ghost predicate Good(st: State) {
    All(Pending(st), InTime) && forall f :: f in st.fired ==> f.info.due <= f.at
  }

  /** The mailbox does not claim more time than passed, nor time out too soon. */
  predicate Honest(st: State, e: Event) {
    match e
    case Message(reported, passed) => st.list == [] || reported <= passed || st.list[0].time <= passed
    case Expire(passed) => st.list == [] || st.list[0].time <= passed
    case _ => true
  }

  lemma HonestGains(st: State, e: Event)
    ensures Honest(st, e) <==> 0 <= Gain(st, e)
  {
  }

  /** A step leaves every timer in time if and only if each of them can bear what
      the step loses. */
  lemma StepGoodIff(st: State, e: Event)
    requires Good(st)
    ensures Good(Step(st, e)) <==> All(Shift(Pending(st), Gain(st, e)), InTime)
  {
    hide Deadlines, SortedInsert, RemoveFirst, Insert, Remove, Elapse;
    StepRefines(st, e);
    match e
    case Register(msecs, lim, h, arg) =>
      var m := Max(msecs, lim);
      InsertAll(Pending(st), Timer(st.now + m, Info(h, arg, st.now + msecs, m - msecs, st.tally)), InTime);
    case Cancel(h, arg) => RemoveAll(Pending(st), h, arg, InTime);
    case Expire(_) => if st.list != [] { ExpireIff(st, e); }
    case _ =>
  }

  lemma ExpireIff(st: State, e: Event)
    requires Good(st) && e.Expire? && st.list != []
    ensures Good(Step(st, e)) <==> All(Shift(Pending(st), Gain(st, e)), InTime)
  {
    StepRefines(st, e);
    HeadOf(st);
    hide Deadlines;
    var q, d, st' := Pending(st), Gain(st, e), Step(st, e);
    assert Shift(q, d) == [q[0].(deadline := q[0].deadline + d)] + Shift(q[1..], d);
    AllCons(q[0].(deadline := q[0].deadline + d), Shift(q[1..], d), InTime);
    var f := st'.fired[|st.fired|];
    assert f in st'.fired && f.info == q[0].info && f.at == q[0].deadline + d;
  }

  /** So honest mailboxes keep timers in time. */
  lemma StepGood(st: State, e: Event)
    requires Good(st) && Honest(st, e)
    ensures Good(Step(st, e))
  {
    HonestGains(st, e);
    StepGoodIff(st, e);
  }

  /** And no others do, if the timers have no time to spare. */
  lemma TightStepIff(st: State, e: Event)
    requires OnTime(st)
    ensures Good(Step(st, e)) <==> Honest(st, e)
  {
    HonestGains(st, e);
    hide Deadlines, Step, Honest;
    var q := Pending(st);
    assert forall i :: 0 <= i < |q| ==> IsOnTime(q[i]);
    StepGoodIff(st, e);
    if !Honest(st, e) {
      NobodyHonest(st, e);
      assert !InTime(Shift(q, Gain(st, e))[0]);
    }
  }

  lemma NobodyHonest(st: State, e: Event)
    requires !Honest(st, e)
    ensures |Pending(st)| > 0
  {
  }

  ghost predicate HonestRun(st: State, es: seq<Event>)
    decreases |es|
  {
    es == [] || (Honest(st, es[0]) && HonestRun(Step(st, es[0]), es[1..]))
  }

  lemma {:induction false} RunGood(st: State, es: seq<Event>)
    requires Good(st) && HonestRun(st, es)
    ensures Good(Run(st, es))
    decreases |es|
  {
    hide Good, Step, Honest;
    if es != [] {
      StepGood(st, es[0]);
      RunGood(Step(st, es[0]), es[1..]);
    }
  }

  /** With an honest mailbox no timeout ever fires before its delay has elapsed,
      whatever is added and cancelled meanwhile, by handlers or otherwise. */
  lemma NeverEarly(now: int, es: seq<Event>, i: nat)
    requires HonestRun(Start(now), es) && i < |Run(Start(now), es).fired|
    ensures var f := Run(Start(now), es).fired[i];
            f.info.due <= f.at
  {
    RunGood(Start(now), es);
    hide Run, HonestRun;
    assert Run(Start(now), es).fired[i] in Run(Start(now), es).fired;
  }

  // ---------------------------------------------------------- and when on time

  predicate IsOnTime(t: Timer) { t.info.due == t.deadline }

  ghost predicate OnTime(st: State) {
    All(Pending(st), IsOnTime) && forall f :: f in st.fired ==> f.info.due == f.at
  }

  /** No time goes by uncounted, and none is counted that did not pass. */
  predicate Punctual(st: State, e: Event) {
    Gain(st, e) == 0 && (e.Register? ==> e.lim <= e.msecs)
  }

  predicate PunctualRun(st: State, es: seq<Event>)
    decreases |es|
  {
    es == [] || (Punctual(st, es[0]) && PunctualRun(Step(st, es[0]), es[1..]))
  }

  lemma PunctualStepGood(st: State, e: Event)
    requires OnTime(st) && Punctual(st, e)
    ensures OnTime(Step(st, e))
  {
    hide Deadlines, SortedInsert, RemoveFirst, Insert, Remove, Elapse;
    StepRefines(st, e);
    match e
    case Register(msecs, lim, h, arg) =>
      InsertAll(Pending(st), Timer(st.now + msecs, Info(h, arg, st.now + msecs, 0, st.tally)), IsOnTime);
    case Cancel(h, arg) => RemoveAll(Pending(st), h, arg, IsOnTime);
    case Expire(_) => if st.list != [] { HeadOf(st); }
    case _ =>
  }

  /** If every moment is counted once, every timeout fires exactly when its delay
      has elapsed. */
  lemma {:induction false} ExactlyOnTime(st: State, es: seq<Event>)
    requires OnTime(st) && PunctualRun(st, es)
    ensures OnTime(Run(st, es))
    decreases |es|
  {
    hide OnTime, Step, Punctual;
    if es != [] {
      PunctualStepGood(st, es[0]);
      ExactlyOnTime(Step(st, es[0]), es[1..]);
    }
  }

  // ------------------------------------------------- the mailbox of this port

  /** It is honest except for a message that comes before the next tick, and a
      wait for a delay that is no whole number of ticks. */
  lemma PortHonest(st: State, e: Event)
    requires Ported(st, e)
    ensures Honest(st, e) <==> match e
                               case Message(_, passed) => passed > 0 || st.list == [] || st.list[0].time == 0
                               case Expire(passed) => st.list == [] || passed >= st.list[0].time
                               case _ => true
    ensures Gain(st, e) >= -ToInt(e.Message? && Gain(st, e) < 0) - (TICK_MS - 1) * ToInt(e.Expire? && Gain(st, e) < 0)
  {
  }

  /** A message that comes after at least one tick counts for all of the time it took,
      up to the first delay, as long as that does not wrap. */
  lemma PortCountsAll(st: State, reported: nat, passed: nat)
    requires Ported(st, Message(reported, passed)) && st.list != [] && 0 < passed < 0x1_0000_0000
    ensures Gain(st, Message(reported, passed)) == if passed <= st.list[0].time then 0 else passed - st.list[0].time
  {
    assert passed / TICK_MS * TICK_MS == passed;
  }

  /** Since the birth of a timer no more was lost than its messages and waits can
      lose. */
  predicate LostLittle(birth: Tally, t: Tally) {
    birth.drift - t.drift <= (t.fast - birth.fast) + (TICK_MS - 1) * (t.short - birth.short)
  }

  ghost predicate PortGood(st: State) {
    && All(Pending(st), (t: Timer) => LostLittle(t.info.birth, st.tally))
    && forall f :: f in st.fired ==> LostLittle(f.info.birth, f.tally)
  }

  lemma PortStepGood(st: State, e: Event)
    requires PortGood(st) && Ported(st, e)
    ensures PortGood(Step(st, e))
  {
    hide Deadlines, SortedInsert, RemoveFirst, Insert, Remove, Elapse;
    PortHonest(st, e);
    StepRefines(st, e);
    match e
    case Register(msecs, lim, h, arg) =>
      var m := Max(msecs, lim);
      InsertAll(Pending(st), Timer(st.now + m, Info(h, arg, st.now + msecs, m - msecs, st.tally)),
                (t: Timer) => LostLittle(t.info.birth, st.tally));
    case Cancel(h, arg) => RemoveAll(Pending(st), h, arg, (t: Timer) => LostLittle(t.info.birth, st.tally));
    case Expire(_) => if st.list != [] { HeadOf(st); }
    case _ =>
  }

  lemma {:induction false} PortRunGood(st: State, es: seq<Event>)
    requires PortGood(st) && PortedRun(st, es)
    ensures PortGood(Run(st, es))
    decreases |es|
  {
    hide PortGood, Step, Ported;
    if es != [] {
      PortStepGood(st, es[0]);
      PortRunGood(Step(st, es[0]), es[1..]);
    }
  }

  /** How early a timeout can fire: one millisecond for each message fetched
      before the next tick since it was registered, and less than a tick for each
      wait that expired too soon. */
  lemma PortEarliness(now: int, es: seq<Event>, i: nat)
    requires PortedRun(Start(now), es) && i < |Run(Start(now), es).fired|
    ensures var f := Run(Start(now), es).fired[i];
            f.info.due - f.at <= (f.tally.fast - f.info.birth.fast)
                                 + (TICK_MS - 1) * (f.tally.short - f.info.birth.short)
  {
    FiresLateBy(now, es, i);
    PortRunGood(Start(now), es);
    hide Run, PortedRun;
    assert Run(Start(now), es).fired[i] in Run(Start(now), es).fired;
  }

  /** And it does: a delay of less than a tick is over at once, */
  lemma ShortDelayExample(msecs: nat, h: nat, arg: nat)
    requires 0 < msecs < TICK_MS
    ensures var es := [Register(msecs, 0, h, arg), Expire(0)];
            var st := Run(Start(0), es);
            && PortedRun(Start(0), es) && |st.fired| == 1 && st.fired[0].at == 0 && st.fired[0].info.due == msecs
  {
    var es := [Register(msecs, 0, h, arg), Expire(0)];
    var st := Step(Start(0), es[0]);
    assert st.list == [Timeo(msecs, Info(h, arg, msecs, 0, Tally(0, 0, 0)))];
    assert es[1..] == [Expire(0)] && es[1..][1..] == [];
    assert Run(Start(0), es) == Run(st, [Expire(0)]) == Run(Step(st, Expire(0)), []);
    assert Ported(st, Expire(0)) && PortedRun(Step(st, Expire(0)), []);
  }

  function Messages(n: nat): seq<Event> {
    if n == 0 then [Expire(0)] else [Message(1, 0)] + Messages(n - 1)
  }

  /** and as many messages within one tick as the delay has milliseconds run the
      timer down. */
  lemma ManyMessagesExample(n: nat, h: nat, arg: nat)
    ensures var es := [Register(n, 0, h, arg)] + Messages(n);
            var st := Run(Start(0), es);
            && PortedRun(Start(0), es) && |st.fired| == 1 && st.fired[0].at == 0 && st.fired[0].info.due == n
  {
    var es, e := [Register(n, 0, h, arg)] + Messages(n), Info(h, arg, n, 0, Tally(0, 0, 0));
    assert es[1..] == Messages(n);
    RunDown(State([Timeo(n, e)], 0, Tally(0, 0, 0), []), n);
  }

  lemma {:induction false} RunDown(st: State, n: nat)
    requires |st.list| == 1 && st.list[0].time == n
    ensures var st' := Run(st, Messages(n));
            && PortedRun(st, Messages(n)) && |st'.fired| == |st.fired| + 1
            && st'.fired[|st.fired|].at == st.now && st'.fired[|st.fired|].info == st.list[0].info
    decreases n
  {
    if n > 0 {
      assert Messages(n)[1..] == Messages(n - 1);
      RunDown(Step(st, Message(1, 0)), n - 1);
    } else {
      assert Messages(0)[1..] == [];
    }
  }
}
