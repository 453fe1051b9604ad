/**
 Software timers and the scheduling time slice: what the tick callback and the timer
 calls do to them, over every sequence of ticks and calls. A call is one step between two
 ticks.
 */
module Timers {
  import Arith
  import opened Basics

  const OS_TIMERS_N := 20
  const OS_TIME_SLICE := 20

  datatype Block = Block(started: bool, countDown: nat)

  datatype State = State(blocks: seq<Block>, slice: nat)

  datatype Event =
    | Tick
    | Set(i: nat, c: nat)
    | Start(i: nat)
    | SetStart(i: nat, c: nat)

  // ----- One event -----

  function TickBlock(b: Block, inc: nat): Block {
    if b.started then b.(countDown := Max0(b.countDown - inc)) else b
  }

  function TickSlice(slice: nat, inc: nat): nat {
    if inc >= slice then OS_TIME_SLICE else slice - inc
  }

  /** A timer may be set while it is stopped or expired; its count keeps 32 bits of the 64 of the argument. */
  predicate Settable(b: Block) { !b.started || b.countDown == 0 }

  function OnSet(b: Block, c: nat): (Block, bool) {
    if Settable(b) then (Block(false, U32(c)), true) else (b, false)
  }

  function OnStart(b: Block): (Block, bool) {
    if !b.started && b.countDown > 0 then (b.(started := true), true) else (b, false)
  }

  function OnSetStart(b: Block, c: nat): (Block, bool) {
    var (b1, ok) := OnSet(b, c);
    if ok then OnStart(b1) else (b1, false)
  }

  /** The block of timer `j` after an event, and whether a call on it was accepted. */
  function BlockAfter(b: Block, e: Event, j: nat, inc: nat): (Block, bool) {
    match e
    case Tick => (TickBlock(b, inc), false)
    case Set(i, c) => if i == j then OnSet(b, c) else (b, false)
    case Start(i) => if i == j then OnStart(b) else (b, false)
    case SetStart(i, c) => if i == j then OnSetStart(b, c) else (b, false)
  }

  function Apply(s: State, e: Event, inc: nat): State {
    State(seq(|s.blocks|, j requires 0 <= j < |s.blocks| => BlockAfter(s.blocks[j], e, j, inc).0),
          if e.Tick? then TickSlice(s.slice, inc) else s.slice)
  }

  // ----- Sequences of events -----

  function Run(s: State, es: seq<Event>, inc: nat): (s': State)
    ensures |s'.blocks| == |s.blocks|
    decreases |es|
  {
    if es == [] then s else Run(Apply(s, es[0], inc), es[1..], inc)
  }

  function Ticks(es: seq<Event>): nat {
    if es == [] then 0 else (if es[0].Tick? then 1 else 0) + Ticks(es[1..])
  }

  /** No call on timer `j` is accepted along the way; calls on other timers are free. */
  ghost predicate Undisturbed(s: State, es: seq<Event>, j: nat, inc: nat)
    requires j < |s.blocks|
    decreases |es|
  {
    es == [] ||
    (&& (!es[0].Tick? && es[0].i == j ==> BlockAfter(s.blocks[j], es[0], j, inc) == (s.blocks[j], false))
     && Undisturbed(Apply(s, es[0], inc), es[1..], j, inc))
  }

  /** An armed timer counts down with the ticks alone, whatever happens to the others. */
  lemma {:induction false} ArmedTimer(s: State, es: seq<Event>, j: nat, inc: nat)
    requires j < |s.blocks| && s.blocks[j].started && Undisturbed(s, es, j, inc)
    ensures Run(s, es, inc).blocks[j] == Block(true, Max0(s.blocks[j].countDown - Ticks(es) * inc))
    decreases |es|
  {
    if es != [] {
      var s1 := Apply(s, es[0], inc);
      ArmedTimer(s1, es[1..], j, inc);
      Distribute(Ticks(es[1..]), inc);
    }
  }

  lemma Distribute(k: nat, inc: nat)
    ensures (1 + k) * inc == inc + k * inc
  {}

  /** `SetTimerStart` on a settable timer arms it exactly when the low 32 bits are not zero. */
  lemma Arms(b: Block, c: nat)
    requires Settable(b)
    ensures OnSetStart(b, c).1 <==> U32(c) > 0
    ensures OnSetStart(b, c).0 == Block(U32(c) > 0, U32(c))
  {}

  /** Which calls go through: a running timer refuses all three and stays as it is, an expired one can be set again. */
  lemma AcceptedCalls(b: Block, c: nat)
    ensures b.started && b.countDown > 0 ==> OnSet(b, c) == OnStart(b) == OnSetStart(b, c) == (b, false)
    ensures !(b.started && b.countDown > 0) ==>
              && OnSet(b, c) == (Block(false, c % 0x1_0000_0000), true)
              && OnSetStart(b, c) == (Block(c % 0x1_0000_0000 != 0, c % 0x1_0000_0000), c % 0x1_0000_0000 != 0)
    ensures OnStart(b) == if !b.started && b.countDown > 0 then (Block(true, b.countDown), true) else (b, false)
  {}

  /** Until a running timer expires, no sequence of events can disturb it, calls on itself included. */
  lemma {:induction false} RunningIsUndisturbed(s: State, es: seq<Event>, j: nat, inc: nat)
    requires j < |s.blocks| && s.blocks[j].started && s.blocks[j].countDown > Ticks(es) * inc
    ensures Undisturbed(s, es, j, inc)
    decreases |es|
  {
    if es != [] {
      Distribute(Ticks(es[1..]), inc);
      if !es[0].Tick? {
        AcceptedCalls(s.blocks[j], if es[0].Start? then 0 else es[0].c);
      }
      RunningIsUndisturbed(Apply(s, es[0], inc), es[1..], j, inc);
    }
  }

  /** The tick at which a count of `c` runs out. */
  function ExpiryTick(c: nat, inc: nat): nat
    requires inc > 0
  {
    (c + inc - 1) / inc
  }

  /** Timer `j` could be armed with `c` in state `s`, and no call on it was accepted since. */
  ghost predicate ArmedSince(s: State, j: nat, c: nat, es: seq<Event>, inc: nat) {
    && j < |s.blocks| && Settable(s.blocks[j]) && 0 < c < U32_LIMIT
    && Undisturbed(Apply(s, SetStart(j, c), inc), es, j, inc)
  }

  /**
   A timer armed with `c` by `SetTimerStart` holds max(0, c - k * inc) after `k` ticks,
   and expires at tick ceil(c / inc) and no sooner.
   */
  lemma TimerExact(s: State, j: nat, c: nat, es: seq<Event>, inc: nat)
    requires ArmedSince(s, j, c, es, inc) && inc > 0
    ensures var left := Run(Apply(s, SetStart(j, c), inc), es, inc).blocks[j].countDown;
            && left == Max0(c - Ticks(es) * inc)
            && (left == 0 <==> Ticks(es) >= ExpiryTick(c, inc))
  {
    Arms(s.blocks[j], c);
    ArmedTimer(Apply(s, SetStart(j, c), inc), es, j, inc);
    Ceiling(c, inc, Ticks(es));
  }

  /**
   A timer armed with `c` refuses every call on itself before tick ceil(c / inc), whatever
   events there are, and takes a new count from that tick on.
   */
  lemma RefusedUntilExpiry(s: State, j: nat, c: nat, es: seq<Event>, d: nat, inc: nat)
    requires j < |s.blocks| && Settable(s.blocks[j]) && 0 < c < U32_LIMIT && inc > 0
    requires Ticks(es) < ExpiryTick(c, inc) || Undisturbed(Apply(s, SetStart(j, c), inc), es, j, inc)
    ensures var b := Run(Apply(s, SetStart(j, c), inc), es, inc).blocks[j];
            && (Ticks(es) < ExpiryTick(c, inc) ==>
                  OnSet(b, d) == OnStart(b) == OnSetStart(b, d) == (b, false) && b == Block(true, Max0(c - Ticks(es) * inc)))
            && (Ticks(es) >= ExpiryTick(c, inc) ==> OnSet(b, d).1 && (OnSetStart(b, d).1 <==> d % 0x1_0000_0000 != 0))
  {
    Arms(s.blocks[j], c);
    Ceiling(c, inc, Ticks(es));
    if Ticks(es) < ExpiryTick(c, inc) {
      RunningIsUndisturbed(Apply(s, SetStart(j, c), inc), es, j, inc);
    }
    ArmedTimer(Apply(s, SetStart(j, c), inc), es, j, inc);
    AcceptedCalls(Run(Apply(s, SetStart(j, c), inc), es, inc).blocks[j], d);
  }

  lemma Ceiling(c: nat, inc: nat, k: nat)
    requires inc > 0
    ensures k * inc >= c <==> k >= ExpiryTick(c, inc)
  {
    var x := ExpiryTick(c, inc);
    var r := (c + inc - 1) % inc;
    assert c + inc - 1 == x * inc + r;
    if k >= x {
      Arith.MulLess(x, k, inc);
    } else {
      Arith.MulLess(k, x - 1, inc);
      assert (x - 1) * inc == x * inc - inc;
    }
  }

  /** The time slice stays between 1 and its reload value. */
  lemma {:induction false} SliceBounds(s: State, es: seq<Event>, inc: nat)
    requires 1 <= s.slice <= OS_TIME_SLICE && inc > 0
    ensures 1 <= Run(s, es, inc).slice <= OS_TIME_SLICE
    decreases |es|
  {
    if es != [] {
      SliceBounds(Apply(s, es[0], inc), es[1..], inc);
    }
  }

  /** When the tick length divides the slice, it reloads every 20 ms of ticks exactly. */
  lemma {:induction false} SlicePeriod(s: State, es: seq<Event>, inc: nat, done: nat)
    requires inc > 0 && OS_TIME_SLICE % inc == 0
    requires s.slice == OS_TIME_SLICE - done * inc % OS_TIME_SLICE
    ensures Run(s, es, inc).slice == OS_TIME_SLICE - (done + Ticks(es)) * inc % OS_TIME_SLICE
    decreases |es|
  {
    if es != [] {
      var s1 := Apply(s, es[0], inc);
      if es[0].Tick? {
        SliceTick(done, inc);
        SlicePeriod(s1, es[1..], inc, done + 1);
      } else {
        SlicePeriod(s1, es[1..], inc, done);
      }
    }
  }

  lemma SliceTick(done: nat, inc: nat)
    requires inc > 0 && OS_TIME_SLICE % inc == 0
    ensures TickSlice(OS_TIME_SLICE - done * inc % OS_TIME_SLICE, inc) == OS_TIME_SLICE - (done + 1) * inc % OS_TIME_SLICE
  {
    SliceStep(done * inc, inc);
    assert (done + 1) * inc == done * inc + inc;
    SliceMultiple(done, inc);
  }

  lemma SliceMultiple(k: nat, inc: nat)
    requires inc > 0 && OS_TIME_SLICE % inc == 0
    ensures (k * inc % OS_TIME_SLICE) % inc == 0
  {
    var x := k * inc;
    var q := x / OS_TIME_SLICE;
    var m := OS_TIME_SLICE / inc;
    assert x % OS_TIME_SLICE == x - OS_TIME_SLICE * q;
    Factor(k, q, m, inc);
    Remainder(x % OS_TIME_SLICE, k - q * m, inc);
  }

  lemma Factor(k: nat, q: nat, m: nat, inc: nat)
    requires OS_TIME_SLICE == m * inc
    ensures k * inc - OS_TIME_SLICE * q == (k - q * m) * inc
  {
    assert (k - q * m) * inc == k * inc - q * m * inc;
    assert q * m * inc == q * (m * inc);
  }

  lemma Remainder(y: nat, z: int, inc: nat)
    requires inc > 0 && y == z * inc
    ensures y % inc == 0
  {
    Arith.DivUnique(y, inc, z, 0);
  }

  lemma SliceStep(x: nat, inc: nat)
    requires inc > 0 && OS_TIME_SLICE % inc == 0
    ensures (x % OS_TIME_SLICE) % inc == 0 ==>
              TickSlice(OS_TIME_SLICE - x % OS_TIME_SLICE, inc) == OS_TIME_SLICE - (x + inc) % OS_TIME_SLICE
  {
    assert inc in {1, 2, 4, 5, 10, 20} by { Divisors(inc); }
  }

  lemma Divisors(inc: nat)
    requires inc > 0 && OS_TIME_SLICE % inc == 0
    ensures inc in {1, 2, 4, 5, 10, 20}
  {}

  // ----- The kernel data as it is updated -----

  class OsData {
    const blocks: array<Block>    // TimerBlocks
    const inc: nat                // SYS_TICK_INCREMENT_MS
    var slice: nat                // TimeSliceTimer.CountDown
    var sysTime: nat              // SysTime_ms
    var timestamp: int

    ghost predicate Valid()
      reads this
    {
      blocks.Length == OS_TIMERS_N && inc > 0 && 1 <= slice <= OS_TIME_SLICE
    }

    ghost function St(): State
      reads this, blocks
    {
      State(blocks[..], slice)
    }

    /** `InitKernelTimers`, with the wall clock as `timestamp` gives it. */
    constructor (inc: nat, timestamp: int)
      requires inc > 0
      ensures Valid() && fresh(blocks) && this.inc == inc && this.timestamp == timestamp && sysTime == 0
      ensures slice == OS_TIME_SLICE && forall j :: 0 <= j < OS_TIMERS_N ==> blocks[j] == Block(false, 0)
    {
      blocks := new Block[OS_TIMERS_N](_ => Block(false, 0));
      this.inc := inc;
      slice := OS_TIME_SLICE;
      sysTime := 0;
      this.timestamp := timestamp;
    }

    /** `SysTickFun`, the tick callback. */
    method SysTickFun(counter: nat)
      requires Valid()
      modifies this, blocks
      ensures Valid() && St() == Apply(old(St()), Tick, inc)
      ensures sysTime == counter && timestamp == old(timestamp) + if counter % 1000 == 0 then 1 else 0
    {
      sysTime := counter;
      if sysTime % 1000 == 0 {
        timestamp := timestamp + 1;
      }
      if inc >= slice {
        slice := OS_TIME_SLICE;
      } else {
        slice := slice - inc;
      }
      var k := 0;
      while k < OS_TIMERS_N
        invariant 0 <= k <= OS_TIMERS_N
        invariant forall j :: 0 <= j < OS_TIMERS_N ==>
                    blocks[j] == if j < k then TickBlock(old(blocks[j]), inc) else old(blocks[j])
        modifies blocks
      {
        if blocks[k].countDown > 0 && blocks[k].started {
          if inc >= blocks[k].countDown {
            blocks[k] := blocks[k].(countDown := 0);
          } else {
            blocks[k] := blocks[k].(countDown := blocks[k].countDown - inc);
          }
        }
        k := k + 1;
      }
    }

    /** `SetTimer`. */
    method SetTimer(i: nat, c: nat) returns (ok: bool)
      requires Valid() && i < OS_TIMERS_N
      modifies blocks
      ensures St() == Apply(old(St()), Set(i, c), inc)
      ensures ok <==> !(old(blocks[i].started) && old(blocks[i].countDown) > 0)
      ensures !ok ==> St() == old(St())
    {
      ok := !blocks[i].started || blocks[i].countDown == 0;
      if ok {
        blocks[i] := Block(false, U32(c));
      }
    }

    /** `StartTimer`. */
    method StartTimer(i: nat) returns (ok: bool)
      requires Valid() && i < OS_TIMERS_N
      modifies blocks
      ensures St() == Apply(old(St()), Start(i), inc)
      ensures ok <==> !old(blocks[i].started) && old(blocks[i].countDown) > 0
      ensures !ok ==> St() == old(St())
    {
      ok := !blocks[i].started && blocks[i].countDown > 0;
      if ok {
        blocks[i] := blocks[i].(started := true);
      }
    }

    /** `SetTimerStart`. */
    method SetTimerStart(i: nat, c: nat) returns (ok: bool)
      requires Valid() && i < OS_TIMERS_N
      modifies blocks
      ensures St() == Apply(old(St()), SetStart(i, c), inc)
      ensures ok <==> !(old(blocks[i].started) && old(blocks[i].countDown) > 0) && c % 0x1_0000_0000 != 0
      ensures old(blocks[i].started) && old(blocks[i].countDown) > 0 ==> St() == old(St())
    {
      ok := SetTimer(i, c);
      if ok {
        ok := StartTimer(i);
      }
    }

    /**
     `TimerExpired`. When events `es` have passed since state `s`, in which the timer was
     armed with `c`, the answer is whether they hold the ticks that `c` takes.
     */
    method TimerExpired(i: nat, ghost s: State, ghost c: nat, ghost es: seq<Event>) returns (expired: bool)
      requires Valid() && i < OS_TIMERS_N
      ensures expired <==> blocks[i].countDown == 0
      ensures ArmedSince(s, i, c, es, inc) && St() == Run(Apply(s, SetStart(i, c), inc), es, inc) ==>
                (expired <==> Ticks(es) >= ExpiryTick(c, inc))
    {
      expired := blocks[i].countDown == 0;
      if ArmedSince(s, i, c, es, inc) {
        TimerExact(s, i, c, es, inc);
      }
    }
  }
}
