/**
 Starting the application processors: the boot processor (core 0) runs `InitAPs`, every
 started core runs `_StartAP`, and they meet only in the `CPU_State` records. Each shared
 access is one step; any interleaving is a run.
 */
module ApBoot {

  const CORE_STACK_SIZE := 0x2000

  datatype Start = NotStarted | Waiting | Started

  /** One `CPU_State` record. */
  datatype Cpu = Cpu(start: Start, stackTop: nat)

  /** Where an application processor is in `_StartAP`. */
  datatype Ap =
    | Off                    // no startup message yet
    | Booting                // started, stack pointer not loaded
    | Polling(esp: nat)      // stack pointer loaded, spinning on the start state
    | Seen(esp: nat)         // WAITING seen, STARTED not written
    | InMain(esp: nat)       // jumped to AP_main

  /** Where the boot processor is in `InitAPs`. */
  datatype Bsp =
    | Alloc(i: nat)              // at the head of the loop, or about to allocate a stack for core i
    | Adjust(i: nat)             // block stored, top of stack not yet
    | Send(i: nat)               // about to send the startup message
    | Mark(i: nat)               // about to write WAITING
    | Count(j: nat, n: nat)      // counting started cores
    | Done(n: nat)

  /** `blocks[i]` is what `kmalloc` returned for core `i`, NULL when it failed. */
  datatype State = State(cpus: seq<Cpu>, aps: seq<Ap>, bsp: Bsp, blocks: map<nat, nat>)

  /** As `InitSys` leaves it: all records zero except that the boot processor is started. */
  ghost predicate Init(s: State) {
    && |s.cpus| == |s.aps| >= 2
    && s.cpus[0].start == Started && s.bsp == Alloc(0) && s.blocks == map[]
    && (forall i :: 1 <= i < |s.cpus| ==> s.cpus[i] == Cpu(NotStarted, 0))
    && (forall i :: 0 <= i < |s.aps| ==> s.aps[i] == Off)
  }

  predicate BlocksApart(a: nat, b: nat) {
    a + CORE_STACK_SIZE <= b || b + CORE_STACK_SIZE <= a
  }

  /**
   `kmalloc` returns NULL or a block apart from those it has returned before. The heap
   lies above the kernel image, so no block of it begins below the size of a stack.
   */
  ghost predicate Fresh(blocks: map<nat, nat>, a: nat) {
    || a == 0
    || (a >= CORE_STACK_SIZE && forall i <- blocks :: blocks[i] != 0 ==> BlocksApart(a, blocks[i]))
  }

  /** A step of the boot processor; `a` is the answer of `kmalloc` where it is asked. */
  ghost predicate BspStep(s: State, a: nat, s': State) {
    match s.bsp
    case Alloc(i) =>
      if i >= |s.cpus| then s' == s.(bsp := Count(0, 0))
      else if i == 0 then s' == s.(bsp := Alloc(1))
      else
        && Fresh(s.blocks, a)
        && s' == s.(cpus := s.cpus[i := s.cpus[i].(stackTop := a)], blocks := s.blocks[i := a], bsp := Adjust(i))
    case Adjust(i) =>
      i < |s.cpus| && s' == s.(cpus := s.cpus[i := s.cpus[i].(stackTop := s.cpus[i].stackTop + CORE_STACK_SIZE - 4)], bsp := Send(i))
    case Send(i) =>
      i < |s.aps| && s' == s.(aps := s.aps[i := Booting], bsp := Mark(i))
    case Mark(i) =>
      i < |s.cpus| && s' == s.(cpus := s.cpus[i := s.cpus[i].(start := Waiting)], bsp := Alloc(i + 1))
    case Count(j, n) =>
      if j >= |s.cpus| then s' == s.(bsp := Done(n))
      else s' == s.(bsp := Count(j + 1, if s.cpus[j].start == Started then n + 1 else n))
    case Done(n) => s' == s
  }

  /** A step of application processor `i`. */
  ghost predicate ApStep(s: State, i: nat, s': State) {
    i < |s.aps| && i < |s.cpus| &&
    match s.aps[i]
    case Off => s' == s
    case Booting => s' == s.(aps := s.aps[i := Polling(s.cpus[i].stackTop)])
    case Polling(esp) =>
      s' == if s.cpus[i].start == Waiting then s.(aps := s.aps[i := Seen(esp)]) else s
    case Seen(esp) =>
      s' == s.(cpus := s.cpus[i := s.cpus[i].(start := Started)], aps := s.aps[i := InMain(esp)])
    case InMain(esp) => s' == s
  }

  // ----- Invariant -----

  /** How far the boot processor is with core `i`: nothing, block, top, message, WAITING. */
  ghost function Progress(bsp: Bsp, i: nat): nat {
    match bsp
    case Alloc(k) => if i < k then 4 else 0
    case Adjust(k) => if i < k then 4 else if i == k then 1 else 0
    case Send(k) => if i < k then 4 else if i == k then 2 else 0
    case Mark(k) => if i < k then 4 else if i == k then 3 else 0
    case Count(_, _) => 4
    case Done(_) => 4
  }

  ghost function Esp(ap: Ap): nat
    requires ap.Polling? || ap.Seen? || ap.InMain?
  {
    ap.esp
  }

  /** Core `i >= 1`: its record and its position agree with how far the boot processor is. */
  ghost predicate CoreOk(s: State, i: nat)
    requires i < |s.cpus| && i < |s.aps|
  {
    var p := Progress(s.bsp, i);
    && (p >= 1 <==> i in s.blocks)
    && (p == 1 ==> s.cpus[i].stackTop == s.blocks[i])
    && (p >= 2 ==> s.cpus[i].stackTop == s.blocks[i] + CORE_STACK_SIZE - 4)
    && (p <= 2 ==> s.aps[i] == Off)
    && (p <= 3 ==> s.cpus[i].start == NotStarted)
    && (p >= 3 ==> s.aps[i] != Off)
    && (p == 4 ==> s.cpus[i].start != NotStarted)
    && (s.aps[i].Polling? || s.aps[i].Seen? || s.aps[i].InMain? ==> Esp(s.aps[i]) == s.cpus[i].stackTop)
    && (s.aps[i].Seen? ==> s.cpus[i].start == Waiting)
    && (s.aps[i].InMain? <==> s.cpus[i].start == Started)
  }

  /** How many of the first `k` cores are marked started. */
  ghost function StartedUpto(cpus: seq<Cpu>, k: nat): nat
    requires k <= |cpus|
  {
    if k == 0 then 0 else StartedUpto(cpus, k - 1) + (if cpus[k - 1].start == Started then 1 else 0)
  }

  ghost predicate CountOk(s: State) {
    match s.bsp
    case Count(j, n) => j <= |s.cpus| && n <= StartedUpto(s.cpus, j)
    case Done(n) => n <= StartedUpto(s.cpus, |s.cpus|)
    case Alloc(i) => i <= |s.cpus|
    case Adjust(i) => 1 <= i < |s.cpus|
    case Send(i) => 1 <= i < |s.cpus|
    case Mark(i) => 1 <= i < |s.cpus|
  }

  ghost predicate BlocksOk(blocks: map<nat, nat>) {
    && (forall i <- blocks :: blocks[i] == 0 || blocks[i] >= CORE_STACK_SIZE)
    && (forall i, j :: i in blocks && j in blocks && i != j && blocks[i] != 0 && blocks[j] != 0 ==> BlocksApart(blocks[i], blocks[j]))
  }

  ghost predicate Inv(s: State) {
    && |s.cpus| == |s.aps| >= 2 && s.cpus[0].start == Started && s.aps[0] == Off
    && (forall i {:trigger CoreOk(s, i)} :: 1 <= i < |s.cpus| ==> CoreOk(s, i))
    && CountOk(s) && BlocksOk(s.blocks) && 0 !in s.blocks
    && (forall i <- s.blocks :: i < |s.cpus|)
  }

  lemma InitInv(s: State)
    requires Init(s)
    ensures Inv(s)
  {
    forall i | 1 <= i < |s.cpus| ensures CoreOk(s, i) {}
  }

  lemma {:induction false} StartedMonotone(a: seq<Cpu>, b: seq<Cpu>, k: nat)
    requires |a| == |b| && k <= |a| && forall i :: 0 <= i < |a| && a[i].start == Started ==> b[i].start == Started
    ensures StartedUpto(a, k) <= StartedUpto(b, k)
  {
    if k > 0 {
      StartedMonotone(a, b, k - 1);
    }
  }

  lemma BspStepInv(s: State, a: nat, s': State)
    requires Inv(s) && BspStep(s, a, s')
    ensures Inv(s')
  {
    forall i | 1 <= i < |s'.cpus| ensures CoreOk(s', i) {
      assert CoreOk(s, i);
    }
  }

  lemma ApStepInv(s: State, c: nat, s': State)
    requires Inv(s) && ApStep(s, c, s')
    ensures Inv(s')
  {
    if 1 <= c < |s.cpus| {
      assert CoreOk(s, c);
    }
    forall i | 1 <= i < |s'.cpus| ensures CoreOk(s', i) {
      assert CoreOk(s, i);
    }
    match s.bsp {
      case Count(j, n) => StartedMonotone(s.cpus, s'.cpus, j);
      case Done(n) => StartedMonotone(s.cpus, s'.cpus, |s.cpus|);
      case _ =>
    }
  }

  // ----- Runs -----

  datatype Actor = Boot(answer: nat) | Processor(core: nat)

  ghost predicate Step(s: State, x: Actor, s': State) {
    match x
    case Boot(a) => BspStep(s, a, s')
    case Processor(i) => ApStep(s, i, s')
  }

  ghost predicate Run(states: seq<State>, actors: seq<Actor>) {
    && |states| == |actors| + 1 && Init(states[0])
    && forall k :: 0 <= k < |actors| ==> Step(states[k], actors[k], states[k + 1])
  }

  lemma {:induction false} RunInv(states: seq<State>, actors: seq<Actor>, k: nat)
    requires Run(states, actors) && k < |states|
    ensures Inv(states[k])
  {
    if k == 0 {
      InitInv(states[0]);
    } else {
      RunInv(states, actors, k - 1);
      assert Step(states[k - 1], actors[k - 1], states[k - 1 + 1]);
      match actors[k - 1] {
        case Boot(a) => BspStepInv(states[k - 1], a, states[k]);
        case Processor(i) => ApStepInv(states[k - 1], i, states[k]);
      }
    }
  }

  function Rank(st: Start): nat {
    match st
    case NotStarted => 0
    case Waiting => 1
    case Started => 2
  }

  /** A start state moves forward by at most one place per step, and never back. */
  lemma StartMovesForward(s: State, x: Actor, s': State, i: nat)
    requires Inv(s) && Step(s, x, s') && 1 <= i < |s.cpus|
    ensures |s'.cpus| == |s.cpus|
    ensures Rank(s.cpus[i].start) <= Rank(s'.cpus[i].start) <= Rank(s.cpus[i].start) + 1
  {
    assert CoreOk(s, i);
  }

  /** Along a whole run no start state ever goes back. */
  lemma {:induction false} StartMonotoneInRun(states: seq<State>, actors: seq<Actor>, j: nat, k: nat, i: nat)
    requires Run(states, actors) && j <= k < |states| && 1 <= i < |states[0].cpus|
    ensures |states[j].cpus| == |states[k].cpus| == |states[0].cpus|
    ensures Rank(states[j].cpus[i].start) <= Rank(states[k].cpus[i].start)
    decreases k
  {
    if k > 0 {
      StartMonotoneInRun(states, actors, if j < k then j else k - 1, k - 1, i);
      RunInv(states, actors, k - 1);
      assert Step(states[k - 1], actors[k - 1], states[k - 1 + 1]);
      StartMovesForward(states[k - 1], actors[k - 1], states[k], i);
    }
  }

  /** A core in AP_main runs on its own stack top, which was stored before, and WAITING was written before. */
  lemma InMainSafe(states: seq<State>, actors: seq<Actor>, k: nat, i: nat)
    requires Run(states, actors) && k < |states| && i < |states[k].aps| && states[k].aps[i].InMain?
    ensures var s := states[k];
            && |s.cpus| == |s.aps| && i in s.blocks
            && s.aps[i].esp == s.cpus[i].stackTop == s.blocks[i] + CORE_STACK_SIZE - 4
            && s.cpus[i].start == Started && Progress(s.bsp, i) == 4
  {
    RunInv(states, actors, k);
    assert i != 0;
    assert CoreOk(states[k], i);
  }

  /** Any core that has loaded its stack pointer, in AP_main or not, has the top of its own block. */
  lemma StackLoaded(states: seq<State>, actors: seq<Actor>, k: nat, i: nat)
    requires Run(states, actors) && k < |states| && i < |states[k].aps|
    requires var ap := states[k].aps[i]; ap.Polling? || ap.Seen? || ap.InMain?
    ensures var s := states[k];
            Progress(s.bsp, i) >= 3 && i in s.blocks && Esp(s.aps[i]) == s.blocks[i] + CORE_STACK_SIZE - 4
  {
    RunInv(states, actors, k);
    assert i != 0;
    assert CoreOk(states[k], i);
  }

  /**
   The stacks of two cores are disjoint unless the allocation of both failed, and then
   they are the same: the check behind the allocation tests another pointer. It holds from
   the moment the stack tops are stored, whether or not the cores have started.
   */
  lemma StacksApartIff(states: seq<State>, actors: seq<Actor>, k: nat, i: nat, j: nat)
    requires Run(states, actors) && k < |states|
    requires 1 <= i < |states[k].cpus| && 1 <= j < |states[k].cpus| && i != j
    requires Progress(states[k].bsp, i) >= 2 && Progress(states[k].bsp, j) >= 2
    ensures var s := states[k];
            && i in s.blocks && j in s.blocks
            && (BlocksApart(s.blocks[i], s.blocks[j]) <==> !(s.blocks[i] == 0 && s.blocks[j] == 0))
            && (s.cpus[i].stackTop == s.cpus[j].stackTop <==> s.blocks[i] == 0 && s.blocks[j] == 0)
  {
    RunInv(states, actors, k);
    assert CoreOk(states[k], i) && CoreOk(states[k], j);
  }

  // ----- Runs that start every core -----

  /** A run grows by a step from its last state. */
  lemma RunGrows(states: seq<State>, actors: seq<Actor>, x: Actor, s': State)
    requires Run(states, actors) && Step(states[|states| - 1], x, s')
    ensures Run(states + [s'], actors + [x])
  {
    var ss, xs := states + [s'], actors + [x];
    forall k | 0 <= k < |xs| ensures Step(ss[k], xs[k], ss[k + 1]) {
      if k < |actors| {
        assert Step(states[k], actors[k], states[k + 1]);
      }
    }
  }

  /** What `kmalloc` may answer: NULL or a block of its own for each core. */
  ghost predicate Answers(answer: nat -> nat) {
    && (forall i :: answer(i) == 0 || answer(i) >= CORE_STACK_SIZE)
    && (forall i, j :: i != j && answer(i) != 0 && answer(j) != 0 ==> BlocksApart(answer(i), answer(j)))
  }

  /** The boot processor has dealt with the cores below `k`, and each of them is in AP_main on the block it was given. */
  ghost predicate StartedTo(s: State, n: nat, k: nat, answer: nat -> nat) {
    && |s.cpus| == |s.aps| == n && s.bsp == Alloc(k)
    && (forall i <- s.blocks :: s.blocks[i] == answer(i) && i < k)
    && (forall i :: 1 <= i < k <= n ==> s.aps[i] == InMain(answer(i) + CORE_STACK_SIZE - 4))
  }

  /** Core `k` gets its block, its startup message and WAITING. */
  lemma StartCore(states: seq<State>, actors: seq<Actor>, n: nat, k: nat, answer: nat -> nat)
    returns (states': seq<State>, actors': seq<Actor>)
    requires Run(states, actors) && StartedTo(states[|states| - 1], n, k, answer) && 1 <= k < n && Answers(answer)
    ensures Run(states', actors')
    ensures var s, top := states'[|states'| - 1], answer(k) + CORE_STACK_SIZE - 4;
            && |s.cpus| == |s.aps| == n && StartedTo(s.(aps := s.aps[k := InMain(top)]), n, k + 1, answer)
            && s.aps[k] == Booting && s.cpus[k] == Cpu(Waiting, top)
  {
    var s, a := states[|states| - 1], answer(k);
    var s1 := s.(cpus := s.cpus[k := s.cpus[k].(stackTop := a)], blocks := s.blocks[k := a], bsp := Adjust(k));
    var s2 := s1.(cpus := s1.cpus[k := s1.cpus[k].(stackTop := a + CORE_STACK_SIZE - 4)], bsp := Send(k));
    var s3 := s2.(aps := s2.aps[k := Booting], bsp := Mark(k));
    var s4 := s3.(cpus := s3.cpus[k := s3.cpus[k].(start := Waiting)], bsp := Alloc(k + 1));
    states', actors' := states, actors;
    RunGrows(states', actors', Boot(a), s1);
    states', actors' := states' + [s1], actors' + [Boot(a)];
    RunGrows(states', actors', Boot(0), s2);
    states', actors' := states' + [s2], actors' + [Boot(0)];
    RunGrows(states', actors', Boot(0), s3);
    states', actors' := states' + [s3], actors' + [Boot(0)];
    RunGrows(states', actors', Boot(0), s4);
    states', actors' := states' + [s4], actors' + [Boot(0)];
  }

  /** Core `k` loads its stack pointer, sees WAITING and enters AP_main. */
  lemma EnterMain(states: seq<State>, actors: seq<Actor>, k: nat, top: nat)
    returns (states': seq<State>, actors': seq<Actor>)
    requires Run(states, actors)
    requires var s := states[|states| - 1];
             k < |s.cpus| && k < |s.aps| && s.aps[k] == Booting && s.cpus[k] == Cpu(Waiting, top)
    ensures Run(states', actors')
    ensures var s := states[|states| - 1];
            states'[|states'| - 1] == s.(cpus := s.cpus[k := Cpu(Started, top)], aps := s.aps[k := InMain(top)])
  {
    var s := states[|states| - 1];
    var x := Processor(k);
    var s1 := s.(aps := s.aps[k := Polling(top)]);
    var s2 := s1.(aps := s1.aps[k := Seen(top)]);
    var s3 := s2.(cpus := s2.cpus[k := Cpu(Started, top)], aps := s2.aps[k := InMain(top)]);
    states', actors' := states, actors;
    RunGrows(states', actors', x, s1);
    states', actors' := states' + [s1], actors' + [x];
    RunGrows(states', actors', x, s2);
    states', actors' := states' + [s2], actors' + [x];
    RunGrows(states', actors', x, s3);
    states', actors' := states' + [s3], actors' + [x];
  }

  lemma {:induction false} RunStarting(n: nat, k: nat, answer: nat -> nat) returns (states: seq<State>, actors: seq<Actor>)
    requires 1 <= k <= n && n >= 2 && Answers(answer)
    ensures Run(states, actors) && StartedTo(states[|states| - 1], n, k, answer)
    decreases k
  {
    if k == 1 {
      var s := State(seq(n, i => Cpu(if i == 0 then Started else NotStarted, 0)), seq(n, _ => Off), Alloc(0), map[]);
      assert Run([s], []);
      RunGrows([s], [], Boot(0), s.(bsp := Alloc(1)));
      states, actors := [s] + [s.(bsp := Alloc(1))], [] + [Boot(0)];
    } else {
      states, actors := RunStarting(n, k - 1, answer);
      states, actors := StartCore(states, actors, n, k - 1, answer);
      states, actors := EnterMain(states, actors, k - 1, answer(k - 1) + CORE_STACK_SIZE - 4);
    }
  }

  /** On every machine with three cores or more there is a run that ends with all application processors in AP_main on one stack. */
  lemma StacksCollide(n: nat) returns (states: seq<State>, actors: seq<Actor>)
    requires n >= 3
    ensures Run(states, actors)
    ensures var s := states[|states| - 1];
            |s.aps| == n && forall i, j :: 1 <= i < j < n ==> s.aps[i].InMain? && s.aps[j].InMain? && s.aps[i].esp == s.aps[j].esp
  {
    states, actors := RunStarting(n, n, _ => 0);
  }

  // ----- The final count -----

  /** How many of the first `k` processors are in AP_main. */
  ghost function InMainUpto(aps: seq<Ap>, k: nat): nat
    requires k <= |aps|
  {
    if k == 0 then 0 else InMainUpto(aps, k - 1) + (if aps[k - 1].InMain? then 1 else 0)
  }

  /** The records marked started are those of the boot processor and of the processors in AP_main. */
  lemma {:induction false} StartedAreInMain(s: State, k: nat)
    requires Inv(s) && 1 <= k <= |s.cpus|
    ensures StartedUpto(s.cpus, k) == 1 + InMainUpto(s.aps, k)
  {
    if k > 1 {
      StartedAreInMain(s, k - 1);
      assert CoreOk(s, k - 1);
    } else {
      assert StartedUpto(s.cpus, 0) == 0 && InMainUpto(s.aps, 0) == 0;
    }
  }

  /** A record that is marked started stays so. */
  lemma StartedStays(states: seq<State>, actors: seq<Actor>, j: nat, k: nat, i: nat)
    requires Run(states, actors) && j <= k < |states| && i < |states[j].cpus| && states[j].cpus[i].start == Started
    ensures i < |states[k].cpus| && states[k].cpus[i].start == Started
  {
    RunInv(states, actors, k);
    SameCores(states, actors, j);
    if i > 0 {
      StartMonotoneInRun(states, actors, j, k, i);
    }
  }

  lemma SameCores(states: seq<State>, actors: seq<Actor>, k: nat)
    requires Run(states, actors) && k < |states|
    ensures |states[k].cpus| == |states[k].aps| == |states[0].cpus| >= 2
  {
    RunInv(states, actors, k);
    StartMonotoneInRun(states, actors, k, k, 1);
  }

  /** What counting from state `k0` on has found: at least the cores that were started then. */
  ghost predicate CountedAtLeast(s0: State, s: State) {
    match s.bsp
    case Count(j, n) => j <= |s0.cpus| && StartedUpto(s0.cpus, j) <= n
    case Done(n) => StartedUpto(s0.cpus, |s0.cpus|) <= n
    case _ => false
  }

  lemma {:induction false} CountingFinds(states: seq<State>, actors: seq<Actor>, k0: nat, k: nat)
    requires Run(states, actors) && k0 <= k < |states| && states[k0].bsp == Count(0, 0)
    ensures CountedAtLeast(states[k0], states[k])
    decreases k
  {
    if k > k0 {
      CountingFinds(states, actors, k0, k - 1);
      assert Step(states[k - 1], actors[k - 1], states[k - 1 + 1]);
      SameCores(states, actors, k0);
      SameCores(states, actors, k - 1);
      var s := states[k - 1];
      if s.bsp.Count? && s.bsp.j < |s.cpus| && states[k0].cpus[s.bsp.j].start == Started {
        StartedStays(states, actors, k0, k - 1, s.bsp.j);
      }
    }
  }

  /** Before the final count there is a state in which counting begins. */
  lemma {:induction false} CountingBegins(states: seq<State>, actors: seq<Actor>, k: nat) returns (k0: nat)
    requires Run(states, actors) && k < |states| && (states[k].bsp.Count? || states[k].bsp.Done?)
    ensures k0 <= k && states[k0].bsp == Count(0, 0)
    decreases k
  {
    if k > 0 {
      assert Step(states[k - 1], actors[k - 1], states[k - 1 + 1]);
      if states[k - 1].bsp.Count? || states[k - 1].bsp.Done? {
        k0 := CountingBegins(states, actors, k - 1);
        return;
      }
    }
    k0 := k;
  }

  /**
   The final count lies between the processors in AP_main when counting begins and those in
   AP_main when it is done, the boot processor included; so it is exact when none enters
   AP_main in between.
   */
  lemma FinalCount(states: seq<State>, actors: seq<Actor>, k0: nat, k: nat)
    requires Run(states, actors) && k0 <= k < |states| && states[k0].bsp == Count(0, 0) && states[k].bsp.Done?
    ensures 1 + InMainUpto(states[k0].aps, |states[k0].aps|) <= states[k].bsp.n <= 1 + InMainUpto(states[k].aps, |states[k].aps|)
  {
    RunInv(states, actors, k0);
    RunInv(states, actors, k);
    CountingFinds(states, actors, k0, k);
    StartedAreInMain(states[k0], |states[k0].cpus|);
    StartedAreInMain(states[k], |states[k].cpus|);
  }

  /** The boot processor finishes its count; nothing else moves meanwhile. */
  lemma {:induction false} RunCounting(states: seq<State>, actors: seq<Actor>)
    returns (states': seq<State>, actors': seq<Actor>)
    requires Run(states, actors) && states[|states| - 1].bsp.Count? && states[|states| - 1].bsp.j <= |states[|states| - 1].cpus|
    ensures Run(states', actors') && states <= states' && states'[|states'| - 1].bsp.Done?
    ensures states'[|states'| - 1].aps == states[|states| - 1].aps
    decreases |states[|states| - 1].cpus| - states[|states| - 1].bsp.j
  {
    var s := states[|states| - 1];
    var j, n := s.bsp.j, s.bsp.n;
    if j == |s.cpus| {
      RunGrows(states, actors, Boot(0), s.(bsp := Done(n)));
      states', actors' := states + [s.(bsp := Done(n))], actors + [Boot(0)];
    } else {
      var s1 := s.(bsp := Count(j + 1, if s.cpus[j].start == Started then n + 1 else n));
      RunGrows(states, actors, Boot(0), s1);
      states', actors' := RunCounting(states + [s1], actors + [Boot(0)]);
    }
  }

  lemma {:induction false} AllInMain(aps: seq<Ap>, k: nat)
    requires 1 <= k <= |aps| && !aps[0].InMain? && forall i :: 1 <= i < k ==> aps[i].InMain?
    ensures InMainUpto(aps, k) == k - 1
  {
    if k > 1 {
      AllInMain(aps, k - 1);
    } else {
      assert InMainUpto(aps, 0) == 0;
    }
  }

  /**
   Whatever `kmalloc` answers, some run starts every core on the block it was given, and
   ends with the count of all cores.
   */
  lemma AllStart(n: nat, answer: nat -> nat) returns (states: seq<State>, actors: seq<Actor>)
    requires n >= 2 && Answers(answer)
    ensures Run(states, actors)
    ensures var s := states[|states| - 1];
            && s.bsp == Done(n) && |s.aps| == n
            && forall i :: 1 <= i < n ==> s.aps[i] == InMain(answer(i) + CORE_STACK_SIZE - 4)
  {
    states, actors := RunStarting(n, n, answer);
    var s := states[|states| - 1];
    var s0 := s.(bsp := Count(0, 0));
    RunGrows(states, actors, Boot(0), s0);
    states, actors := states + [s0], actors + [Boot(0)];
    var k0 := |states| - 1;
    RunInv(states, actors, k0);
    states, actors := RunCounting(states, actors);
    FinalCount(states, actors, k0, |states| - 1);
    AllInMain(s.aps, n);
  }
}
