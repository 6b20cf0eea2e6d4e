// The timeout list of timers.c, as tcpip_thread uses it (NO_SYS is 0): every
// entry stores how long after the one before it is due.  How well that keeps time
// depends on what the mailbox reports; what the one of this port can report is
// given at the end.
module Timers {
  import opened Words

  /** What has gone by so far: the time that passed less the time that was
      counted, the messages that counted for more time than had passed, and the
      waits that expired before the delay they were for. */
  datatype Tally = Tally(drift: int, fast: nat, short: nat)

  /** What sys_timeout was asked for: when the delay will have elapsed, how much
      longer the entry is made to wait, and the tally at that moment. */
  datatype Info = Info(h: nat, arg: nat, due: int, slack: nat, birth: Tally)

  /** struct sys_timeo */
  datatype Timeo = Timeo(time: nat, info: Info)

  /** A timer with an absolute deadline. */
  datatype Timer = Timer(deadline: int, info: Info)

  // --------------------------------------------------------------- operations

  /** sys_timeout: link e, due m after now, behind everything due no later. */
  function Insert(list: seq<Timeo>, m: nat, e: Info): (r: seq<Timeo>)
    ensures r != []
    decreases |list|
  {
    if list == [] then [Timeo(m, e)]
    else if list[0].time > m then [Timeo(m, e), list[0].(time := list[0].time - m)] + list[1..]
    else [list[0]] + Insert(list[1..], m - list[0].time, e)
  }

  predicate Is(e: Info, h: nat, arg: nat) { e.h == h && e.arg == arg }

  /** sys_untimeout: unlink the first match; its time goes to the next. */
  function Remove(list: seq<Timeo>, h: nat, arg: nat): seq<Timeo>
    decreases |list|
  {
    if list == [] then []
    else if !Is(list[0].info, h, arg) then [list[0]] + Remove(list[1..], h, arg)
    else if |list| == 1 then []
    else [list[1].(time := list[1].time + list[0].time)] + list[2..]
  }

  /** What a message counts for of the time w that the mailbox reports. */
  function Counted(list: seq<Timeo>, w: nat): nat {
    if list == [] then 0 else Min(w, list[0].time)
  }

  function Elapse(list: seq<Timeo>, w: nat): seq<Timeo> {
    if list == [] then []
    else [list[0].(time := if w < list[0].time then list[0].time - w else 0)] + list[1..]
  }

  // -------------------------------------------------- the same, with deadlines

  /** The deadlines that the stored differences mean, counted from base. */
  function Deadlines(list: seq<Timeo>, base: int): (r: seq<Timer>)
    ensures |r| == |list|
    decreases |list|
  {
    if list == [] then []
    else [Timer(base + list[0].time, list[0].info)] + Deadlines(list[1..], base + list[0].time)
  }

  /** Behind all timers with the same or an earlier deadline. */
  function SortedInsert(q: seq<Timer>, t: Timer): seq<Timer> {
    if q == [] || q[0].deadline > t.deadline then [t] + q else [q[0]] + SortedInsert(q[1..], t)
  }

  function RemoveFirst(q: seq<Timer>, h: nat, arg: nat): seq<Timer> {
    if q == [] then [] else if Is(q[0].info, h, arg) then q[1..] else [q[0]] + RemoveFirst(q[1..], h, arg)
  }

  /** All deadlines d later. */
  function Shift(q: seq<Timer>, d: int): (r: seq<Timer>)
    ensures |r| == |q| && forall i :: 0 <= i < |q| ==> r[i] == q[i].(deadline := q[i].deadline + d)
  {
    seq(|q|, i requires 0 <= i < |q| => q[i].(deadline := q[i].deadline + d))
  }

  /** sys_timeout is insertion by deadline: all other deadlines stay, and equal
      ones keep the order in which they came. */
  lemma {:induction false} InsertRefines(list: seq<Timeo>, m: nat, e: Info, base: int)
    ensures Deadlines(Insert(list, m, e), base) == SortedInsert(Deadlines(list, base), Timer(base + m, e))
    decreases |list|
  {
    if list != [] {
      if list[0].time > m {
        var r := Insert(list, m, e);
        assert r[1..] == [list[0].(time := list[0].time - m)] + list[1..];
        assert r[1..][1..] == list[1..];
      } else {
        InsertRefines(list[1..], m - list[0].time, e, base + list[0].time);
      }
    }
  }

  /** sys_untimeout takes the first match out and moves no other deadline. */
  lemma {:induction false} RemoveRefines(list: seq<Timeo>, h: nat, arg: nat, base: int)
    ensures Deadlines(Remove(list, h, arg), base) == RemoveFirst(Deadlines(list, base), h, arg)
    decreases |list|
  {
    if list != [] {
      if !Is(list[0].info, h, arg) {
        RemoveRefines(list[1..], h, arg, base + list[0].time);
      } else if |list| > 1 {
        var r := Remove(list, h, arg);
        assert r[1..] == list[2..] && list[1..][1..] == list[2..];
      }
    }
  }

  lemma {:induction false} ShiftRefines(list: seq<Timeo>, base: int, d: int)
    ensures Deadlines(list, base + d) == Shift(Deadlines(list, base), d)
    decreases |list|
  {
    if list != [] {
      ShiftRefines(list[1..], base + list[0].time, d);
    }
  }

  /** A message that counts for c while d passes moves every deadline by d - c. */
  lemma ElapseRefines(list: seq<Timeo>, base: int, w: nat, d: int)
    ensures Deadlines(Elapse(list, w), base + d) == Shift(Deadlines(list, base), d - Counted(list, w))
  {
    ShiftRefines(list, base, d - Counted(list, w));
    if list != [] {
      assert Elapse(list, w)[1..] == list[1..];
    }
  }

  ghost predicate Sorted(q: seq<Timer>) {
    forall i, j :: 0 <= i < j < |q| ==> q[i].deadline <= q[j].deadline
  }

  /** Differences that are not negative mean sorted deadlines. */
  lemma {:induction false} DeadlinesSorted(list: seq<Timeo>, base: int)
    ensures Sorted(Deadlines(list, base))
    ensures forall i :: 0 <= i < |list| ==> base <= Deadlines(list, base)[i].deadline
    decreases |list|
  {
    hide Sorted;
    if list == [] {
      NothingSorted();
    } else {
      DeadlinesSorted(list[1..], base + list[0].time);
      SortedCons(Timer(base + list[0].time, list[0].info), Deadlines(list[1..], base + list[0].time));
    }
  }

  lemma NothingSorted()
    ensures Sorted([])
  {
  }

  lemma SortedCons(t: Timer, q: seq<Timer>)
    requires Sorted(q) && forall i :: 0 <= i < |q| ==> t.deadline <= q[i].deadline
    ensures Sorted([t] + q)
  {
  }

  // --------------------------------------------------------------------- runs

  /** A timer whose handler ran, when, and the tally at that moment. */
  datatype Firing = Firing(info: Info, at: int, tally: Tally)

  /** now is the time that has passed. */
  datatype State = State(list: seq<Timeo>, now: int, tally: Tally, fired: seq<Firing>)

  /** How much time passed meanwhile, whatever the mailbox says, is passed. */
  datatype Event =
    | Register(msecs: nat, lim: nat, h: nat, arg: nat)   // sys_timeout, LwipTimOutLim
    | Cancel(h: nat, arg: nat)                           // sys_untimeout
    | Message(reported: nat, passed: nat)                // a message, and how long it is said to have taken
    | Expire(passed: nat)                                // the wait timed out, or was not needed
    | Busy(passed: nat)                                  // handlers and messages take time

  /** The time that passes without being counted. */
  function Gain(st: State, e: Event): int {
    match e
    case Message(reported, passed) => passed - Counted(st.list, reported)
    case Expire(passed) => if st.list == [] then 0 else passed - st.list[0].time
    case Busy(passed) => passed
    case _ => 0
  }

  function NextTally(st: State, e: Event): Tally {
    Tally(st.tally.drift + Gain(st, e),
          st.tally.fast + ToInt(e.Message? && Gain(st, e) < 0),
          st.tally.short + ToInt(e.Expire? && Gain(st, e) < 0))
  }

  function Step(st: State, e: Event): State {
    var t := NextTally(st, e);
    match e
    case Register(msecs, lim, h, arg) =>
      var m := Max(msecs, lim);
      st.(list := Insert(st.list, m, Info(h, arg, st.now + msecs, m - msecs, t)))
    case Cancel(h, arg) => st.(list := Remove(st.list, h, arg))
    case Message(reported, passed) => st.(list := Elapse(st.list, reported), now := st.now + passed, tally := t)
    case Expire(passed) =>
      if st.list == [] then st
      else State(st.list[1..], st.now + passed, t, st.fired + [Firing(st.list[0].info, st.now + passed, t)])
    case Busy(passed) => st.(now := st.now + passed, tally := t)
  }

  function Run(st: State, es: seq<Event>): State
    decreases |es|
  {
    if es == [] then st else Run(Step(st, es[0]), es[1..])
  }

  function Start(now: int): State { State([], now, Tally(0, 0, 0), []) }

  /** The timers that wait. */
  function Pending(st: State): seq<Timer> { Deadlines(st.list, st.now) }

  /** On deadlines a step is an insertion, a removal, or a shift of all of them. */
  lemma StepRefines(st: State, e: Event)
    ensures Pending(Step(st, e)) ==
            match e
            case Register(msecs, lim, h, arg) =>
              SortedInsert(Pending(st), Timer(st.now + Max(msecs, lim),
                Info(h, arg, st.now + msecs, Max(msecs, lim) - msecs, st.tally)))
            case Cancel(h, arg) => RemoveFirst(Pending(st), h, arg)
            case Expire(_) => if st.list == [] then [] else Shift(Pending(st)[1..], Gain(st, e))
            case _ => Shift(Pending(st), Gain(st, e))
  {
    hide Insert, Remove, SortedInsert, RemoveFirst, Elapse, Counted;
    match e
    case Register(msecs, lim, h, arg) =>
      var m := Max(msecs, lim);
      InsertRefines(st.list, m, Info(h, arg, st.now + msecs, m - msecs, st.tally), st.now);
    case Cancel(h, arg) => RemoveRefines(st.list, h, arg, st.now);
    case Message(reported, passed) => ElapseRefines(st.list, st.now, reported, passed);
    case Expire(passed) =>
      if st.list != [] {
        ShiftRefines(st.list[1..], st.now + st.list[0].time, passed - st.list[0].time);
      }
    case Busy(passed) => ShiftRefines(st.list, st.now, passed);
  }

  // ------------------------------------------------- the mailbox of this port

  /** portTICK_PERIOD_MS, with 100 ticks a second. */
  const TICK_MS: nat := 10

  const SYS_ARCH_TIMEOUT: u32 := 0xffff_ffff

  /** How long sys_arch_mbox_fetch says that a message took, after some ticks. */
  function Report(ticks: nat): (w: nat)
    ensures 0 < w < SYS_ARCH_TIMEOUT && w <= Max(1, ticks * TICK_MS)
  {
    var elapsed := ticks % 0x1_0000_0000 * TICK_MS % 0x1_0000_0000;
    if elapsed == 0 then 1 else elapsed
  }

  /** What can happen with that mailbox, on the clock of sys_now, which moves by
      whole ticks.  A wait is for the number of ticks that fit the delay. */
  predicate Ported(st: State, e: Event) {
    match e
    case Message(reported, passed) => passed % TICK_MS == 0 && reported == Report(passed / TICK_MS)
    case Expire(passed) => passed % TICK_MS == 0 && (st.list == [] || st.list[0].time / TICK_MS * TICK_MS <= passed)
    case Busy(passed) => passed % TICK_MS == 0
    case _ => true
  }

  predicate PortedRun(st: State, es: seq<Event>)
    decreases |es|
  {
    es == [] || (Ported(st, es[0]) && PortedRun(Step(st, es[0]), es[1..]))
  }
}
