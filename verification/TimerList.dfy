// timers.c on 32-bit differences.  Every method is proved to take the step that
// Timers describes.
module TimerList {
  import opened Timers
  import opened Words

  /** struct sys_timeo as it is stored. */
  datatype SysTimeo = SysTimeo(time: u32, h: nat, arg: nat)

  ghost predicate Rep(q: seq<SysTimeo>, v: seq<Timeo>) {
    |q| == |v| && forall i :: 0 <= i < |q| ==> q[i].time == v[i].time && Is(v[i].info, q[i].h, q[i].arg)
  }

  /** The sum of all differences. */
  function Total(v: seq<Timeo>): nat
    decreases |v|
  {
    if v == [] then 0 else v[0].time + Total(v[1..])
  }

  class TimeoutList {
    var nextTimeout: seq<SysTimeo>
    var limit: u32           // LwipTimOutLim
    ghost var view: State

    ghost predicate Valid()
      reads this
    {
      Rep(nextTimeout, view.list) && Total(view.list) < 0x1_0000_0000
    }

    constructor (limit: u32, ghost now: int)
      ensures Valid() && view == Start(now) && this.limit == limit
    {
      nextTimeout, this.limit, view := [], limit, Start(now);
    }

    /** sys_timeout */
    method SysTimeout(msecs0: u32, handler: nat, arg: nat)
      requires Valid()
      modifies `nextTimeout, `view
      ensures Valid() && view == Step(old(view), Register(msecs0, limit, handler, arg))
    {
      hide Insert, Total;
      var msecs := if msecs0 < limit then limit else msecs0;
      ghost var e := Info(handler, arg, view.now + msecs0, msecs - msecs0, view.tally);
      nextTimeout := Link(nextTimeout, SysTimeo(msecs, handler, arg), view.list, msecs, e);
      InsertTotal(view.list, msecs, e);
      view := view.(list := Insert(view.list, msecs, e));
    }

    /** sys_untimeout */
    method SysUntimeout(handler: nat, arg: nat)
      requires Valid()
      modifies `nextTimeout, `view
      ensures Valid() && view == Step(old(view), Cancel(handler, arg))
    {
      hide Remove, Total;
      RemoveTotal(view.list, handler, arg);
      nextTimeout := Unlink(nextTimeout, handler, arg, view.list);
      view := view.(list := Remove(view.list, handler, arg));
    }

    /** One round of sys_timeouts_mbox_fetch.  startTime and endTime are what the
        tick counter shows before and after xQueueReceive, which brings a message
        or waits for as many ticks as it was told to.  Tells which handler to run. */
    method FetchRound(received: bool, startTime: u32, endTime: u32, ghost ticks: nat)
      returns (expired: bool, handler: nat, arg: nat)
      requires Valid() && endTime == (startTime + ticks) % 0x1_0000_0000
      requires !received ==> nextTimeout != [] && nextTimeout[0].time / TICK_MS <= ticks
      modifies `nextTimeout, `view
      ensures Valid()
      ensures var e := if old(nextTimeout) != [] && old(nextTimeout)[0].time == 0 then Expire(0)
                       else if received then Message(Report(ticks), ticks * TICK_MS) else Expire(ticks * TICK_MS);
              view == Step(old(view), e) && Ported(old(view), e)
      ensures expired <==> |view.fired| > |old(view).fired|
      ensures expired ==> handler == old(nextTimeout)[0].h && arg == old(nextTimeout)[0].arg
    {
      hide Total, Report;
      TotalHead(view.list, Report(ticks));
      if nextTimeout == [] {
        var _ := MboxFetch(0, received, startTime, endTime, ticks);
        view := Step(view, Message(Report(ticks), ticks * TICK_MS));
        return false, 0, 0;
      }
      var first, timeNeeded := nextTimeout[0], SYS_ARCH_TIMEOUT;
      if first.time > 0 {
        timeNeeded := MboxFetch(first.time, received, startTime, endTime, ticks);
      }
      if timeNeeded == SYS_ARCH_TIMEOUT {
        view := Step(view, Expire(if first.time > 0 then ticks * TICK_MS else 0));
        nextTimeout := nextTimeout[1..];
        return true, first.h, first.arg;
      }
      if timeNeeded < first.time {
        nextTimeout := [first.(time := first.time - timeNeeded)] + nextTimeout[1..];
      } else {
        nextTimeout := [first.(time := 0)] + nextTimeout[1..];
      }
      view := Step(view, Message(Report(ticks), ticks * TICK_MS));
      return false, 0, 0;
    }
  }

  /** sys_arch_mbox_fetch: how long the wait took by the tick counter.  With a
      timeout of 0 xQueueReceive is called until it brings a message. */
  method MboxFetch(timeout: u32, received: bool, startTime: u32, endTime: u32, ghost ticks: nat) returns (r: u32)
    requires endTime == (startTime + ticks) % 0x1_0000_0000
    requires !received ==> timeout != 0 && timeout / TICK_MS <= ticks
    ensures r == if received then Report(ticks) else SYS_ARCH_TIMEOUT
  {
    if timeout != 0 && !received {
      return SYS_ARCH_TIMEOUT;
    }
    TicksBetween(startTime, ticks);
    var between: u32 := (endTime - startTime) % 0x1_0000_0000;
    var elapsed: u32 := between * TICK_MS % 0x1_0000_0000;
    if elapsed == 0 {
      elapsed := 1;
    }
    return elapsed;
  }

  /** The tick counter may wrap. */
  lemma TicksBetween(start: u32, ticks: nat)
    ensures ((start + ticks) % 0x1_0000_0000 - start) % 0x1_0000_0000 == ticks % 0x1_0000_0000
  {
  }

  lemma {:induction false} InsertTotal(list: seq<Timeo>, m: nat, e: Info)
    ensures Total(Insert(list, m, e)) == Max(Total(list), m)
    decreases |list|
  {
    if list == [] {
      assert [Timeo(m, e)][1..] == [];
    } else if list[0].time > m {
      var r := Insert(list, m, e);
      assert r[1..] == [list[0].(time := list[0].time - m)] + list[1..] && r[1..][1..] == list[1..];
    } else {
      InsertTotal(list[1..], m - list[0].time, e);
    }
  }

  lemma {:induction false} RemoveTotal(list: seq<Timeo>, h: nat, arg: nat)
    ensures Total(Remove(list, h, arg)) <= Total(list)
    ensures forall i :: 0 <= i < |list| - 1 ==> list[i].time + list[i + 1].time <= Total(list)
    decreases |list|
  {
    if list != [] {
      RemoveTotal(list[1..], h, arg);
      if |list| > 1 { assert list[1..][1..] == list[2..]; }
    }
  }

  lemma TotalHead(list: seq<Timeo>, w: nat)
    ensures list != [] ==> Total(list[1..]) <= Total(list)
    ensures Total(Elapse(list, w)) <= Total(list)
  {
    if list != [] { assert Elapse(list, w)[1..] == list[1..]; }
  }

  lemma InsertSkip(v: seq<Timeo>, t: nat, m: nat, e: Info)
    requires t < |v| && v[t].time <= m
    ensures Insert(v[t..], m, e) == [v[t]] + Insert(v[t + 1..], m - v[t].time, e)
    ensures forall q: seq<Timeo> :: v[..t] + ([v[t]] + q) == v[..t + 1] + q
  {
    assert v[t..][1..] == v[t + 1..];
  }

  lemma InsertStop(v: seq<Timeo>, t: nat, m: nat, e: Info)
    requires t <= |v| && (t < |v| ==> v[t].time > m)
    ensures v[..t] + Insert(v[t..], m, e) ==
            if t < |v| then v[..t] + [Timeo(m, e), v[t].(time := v[t].time - m)] + v[t + 1..] else v + [Timeo(m, e)]
  {
    assert t < |v| ==> v[t..][1..] == v[t + 1..];
  }

  lemma RepSplice(q: seq<SysTimeo>, v: seq<Timeo>, t: nat, mid: seq<SysTimeo>, vmid: seq<Timeo>, k: nat)
    requires Rep(q, v) && Rep(mid, vmid) && t <= k <= |q|
    ensures Rep(q[..t] + mid + q[k..], v[..t] + vmid + v[k..])
  {
  }

  lemma RepAt(q: seq<SysTimeo>, v: seq<Timeo>)
    requires Rep(q, v)
    ensures |q| == |v| && forall i :: 0 <= i < |q| ==> q[i].time == v[i].time && Is(v[i].info, q[i].h, q[i].arg)
    ensures q + [] == q && v + [] == v && v[..0] == [] && v[0..] == v
  {
  }

  /** Walk to where the new timeout belongs, subtracting what comes before it. */
  method Link(list: seq<SysTimeo>, timeout0: SysTimeo, ghost v: seq<Timeo>, ghost m: nat, ghost e: Info)
    returns (r: seq<SysTimeo>)
    requires Rep(list, v) && timeout0.time == m && Is(e, timeout0.h, timeout0.arg)
    ensures Rep(r, Insert(v, m, e))
  {
    hide Rep, Insert;
    RepAt(list, v);
    var timeout, t := timeout0, 0;
    while t < |list| && list[t].time <= timeout.time
      invariant 0 <= t <= |list| && Is(e, timeout.h, timeout.arg)
      invariant Insert(v, m, e) == v[..t] + Insert(v[t..], timeout.time, e)
    {
      InsertSkip(v, t, timeout.time, e);
      timeout := timeout.(time := timeout.time - list[t].time);
      t := t + 1;
    }
    InsertStop(v, t, timeout.time, e);
    if t < |list| {
      var mid := [timeout, list[t].(time := list[t].time - timeout.time)];
      RepPair(mid, [Timeo(timeout.time, e), v[t].(time := v[t].time - timeout.time)]);
      RepSplice(list, v, t, mid, [Timeo(timeout.time, e), v[t].(time := v[t].time - timeout.time)], t + 1);
      r := list[..t] + mid + list[t + 1..];
    } else {
      RepOne([timeout], [Timeo(timeout.time, e)]);
      RepSplice(list, v, t, [timeout], [Timeo(timeout.time, e)], t);
      assert list[..t] + [timeout] + list[t..] == list + [timeout];
      assert v[..t] + [Timeo(timeout.time, e)] + v[t..] == v + [Timeo(timeout.time, e)];
      r := list + [timeout];
    }
  }

  lemma RepOne(q: seq<SysTimeo>, v: seq<Timeo>)
    requires |q| == |v| == 1 && q[0].time == v[0].time && Is(v[0].info, q[0].h, q[0].arg)
    ensures Rep(q, v)
  {
  }

  lemma RepPair(q: seq<SysTimeo>, v: seq<Timeo>)
    requires |q| == |v| == 2 && q[0].time == v[0].time && Is(v[0].info, q[0].h, q[0].arg)
    requires q[1].time == v[1].time && Is(v[1].info, q[1].h, q[1].arg)
    ensures Rep(q, v)
  {
  }

  lemma RemoveSkip(v: seq<Timeo>, t: nat, h: nat, arg: nat)
    requires t < |v| && !Is(v[t].info, h, arg)
    ensures Remove(v[t..], h, arg) == [v[t]] + Remove(v[t + 1..], h, arg)
    ensures forall q: seq<Timeo> :: v[..t] + ([v[t]] + q) == v[..t + 1] + q
  {
    assert v[t..][1..] == v[t + 1..];
  }

  lemma RemoveStop(v: seq<Timeo>, t: nat, h: nat, arg: nat)
    requires t <= |v| && (t < |v| ==> Is(v[t].info, h, arg))
    ensures v[..t] + Remove(v[t..], h, arg) ==
            if t == |v| then v
            else if t + 1 == |v| then v[..t]
            else v[..t] + [v[t + 1].(time := v[t + 1].time + v[t].time)] + v[t + 2..]
  {
    if t + 1 < |v| { assert v[t..][2..] == v[t + 2..] && v[t..][1] == v[t + 1]; }
  }

  method Unlink(list: seq<SysTimeo>, handler: nat, arg: nat, ghost v: seq<Timeo>) returns (r: seq<SysTimeo>)
    requires Rep(list, v) && Total(v) < 0x1_0000_0000
    ensures Rep(r, Remove(v, handler, arg))
  {
    hide Rep, Total, Remove;
    RemoveTotal(v, handler, arg);
    RepAt(list, v);
    var t := 0;
    while t < |list| && !(list[t].h == handler && list[t].arg == arg)
      invariant 0 <= t <= |list|
      invariant Remove(v, handler, arg) == v[..t] + Remove(v[t..], handler, arg)
    {
      RemoveSkip(v, t, handler, arg);
      t := t + 1;
    }
    RemoveStop(v, t, handler, arg);
    if t == |list| {
      return list;
    }
    if t + 1 < |list| {
      assert v[t].time + v[t + 1].time <= Total(v);
      var next := list[t + 1].(time := list[t + 1].time + list[t].time);
      RepOne([next], [v[t + 1].(time := v[t + 1].time + v[t].time)]);
      RepSplice(list, v, t, [next], [v[t + 1].(time := v[t + 1].time + v[t].time)], t + 2);
      r := list[..t] + [next] + list[t + 2..];
    } else {
      RepTake(list, v, t);
      r := list[..t];
    }
  }

  lemma RepTake(q: seq<SysTimeo>, v: seq<Timeo>, t: nat)
    requires Rep(q, v) && t <= |q|
    ensures Rep(q[..t], v[..t])
  {
  }
}
