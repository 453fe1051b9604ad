/**
 The spinlock as a step system: any number of cores, any interleaving, the locked
 bit-test-and-set as one atomic step and the release as a separate load and store.
 */
module Spinlock {

  // The lock word as a number: the lock bit is its parity, the other 31 bits its half.

  predicate Locked(word: nat) { word % 2 == 1 }

  /** The bits of the word beside the lock bit. */
  function Others(word: nat): nat { word / 2 }

  /** What `btsl $0` leaves in the word. */
  function SetLock(word: nat): (r: nat)
    ensures Locked(r) && Others(r) == Others(word) && (Locked(word) ==> r == word)
  {
    word - word % 2 + 1
  }

  /** `~SPINLOCK_BIT_LOCK & word`. */
  function ClearLock(word: nat): (r: nat)
    ensures !Locked(r) && Others(r) == Others(word)
  {
    word - word % 2
  }

  /** Where a core is. */
  datatype Pc =
    | Idle                       // outside the lock
    | Trying                     // about to execute the locked bit-test-and-set
    | Spinning                   // in the pause loop
    | Critical                   // spinlock_acquire has returned
    | Releasing(loaded: nat)    // spinlock_release has read the word and not written it back

  datatype State = State(word: nat, pcs: map<nat, Pc>)

  /** What one step of core `c` can lead to. */
  ghost predicate Step(s: State, c: nat, s': State) {
    c in s.pcs &&
    match s.pcs[c]
    case Idle => s' == s.(pcs := s.pcs[c := Trying])
    case Trying => s' == State(SetLock(s.word), s.pcs[c := if Locked(s.word) then Spinning else Critical])
    case Spinning => s' == s.(pcs := s.pcs[c := if Locked(s.word) then Spinning else Trying])
    case Critical => s' == s.(pcs := s.pcs[c := Releasing(s.word)])
    case Releasing(loaded) => s' == State(ClearLock(loaded), s.pcs[c := Idle])
  }

  /** A core between the acquire and the store of the release. */
  predicate Holds(s: State, c: nat) {
    c in s.pcs && (s.pcs[c].Critical? || s.pcs[c].Releasing?)
  }

  /** `spinlock_init` has cleared the lock bit and nobody has called yet. */
  ghost predicate Init(s: State) {
    !Locked(s.word) && forall c <- s.pcs :: s.pcs[c] == Idle
  }

  /** At most one core holds the lock, the bit is set exactly then, and the other bits are `others`. */
  ghost predicate Inv(s: State, others: nat) {
    && (forall c, d :: Holds(s, c) && Holds(s, d) ==> c == d)
    && (Locked(s.word) <==> exists c :: Holds(s, c))
    && (forall c <- s.pcs :: s.pcs[c].Releasing? ==> s.pcs[c].loaded == s.word)
    && Others(s.word) == others
  }

  lemma InitInv(s: State)
    requires Init(s)
    ensures Inv(s, Others(s.word))
  {}

  /** A core that does not move holds the lock before the step exactly when it does after it. */
  lemma OthersStay(s: State, c: nat, s': State)
    requires Step(s, c, s')
    ensures s'.pcs.Keys == s.pcs.Keys && forall d <- s.pcs :: d != c ==> s'.pcs[d] == s.pcs[d]
  {}

  lemma StepInv(s: State, others: nat, c: nat, s': State)
    requires Inv(s, others) && Step(s, c, s')
    ensures Inv(s', others)
  {
    OthersStay(s, c, s');
    assert forall d :: d != c ==> (Holds(s', d) <==> Holds(s, d));
    match s.pcs[c] {
      case Idle =>
        assert !Holds(s', c) && !Holds(s, c);
      case Trying =>
        assert !Holds(s, c);
        assert Holds(s', c) <==> !Locked(s.word);
        if Locked(s.word) {
          var d :| Holds(s, d);
          assert Holds(s', d);
        } else {
          assert forall d :: !Holds(s, d);
          assert forall d <- s.pcs :: s.pcs[d].Releasing? ==> Holds(s, d);
        }
      case Spinning =>
        assert !Holds(s', c) && !Holds(s, c);
      case Critical =>
        assert Holds(s, c) && Holds(s', c);
      case Releasing(loaded) =>
        assert Holds(s, c) && !Holds(s', c);
        assert forall d <- s'.pcs :: s'.pcs[d].Releasing? ==> Holds(s', d);
    }
  }

  /** A run: every state comes from the one before by a step of some core. */
  ghost predicate Run(states: seq<State>, cores: seq<nat>) {
    && |states| == |cores| + 1
    && Init(states[0])
    && forall k :: 0 <= k < |cores| ==> Step(states[k], cores[k], states[k + 1])
  }

  /** Mutual exclusion and integrity of the lock word in every state of every run. */
  lemma {:induction false} RunInv(states: seq<State>, cores: seq<nat>, k: nat)
    requires Run(states, cores) && k < |states|
    ensures Inv(states[k], Others(states[0].word))
  {
    if k == 0 {
      InitInv(states[0]);
    } else {
      RunInv(states, cores, k - 1);
      assert Step(states[k - 1], cores[k - 1], states[k - 1 + 1]);
      StepInv(states[k - 1], Others(states[0].word), cores[k - 1], states[k]);
    }
  }

  /** The next state of a core, which its step determines. */
  function Next(s: State, c: nat): (s': State)
    requires c in s.pcs
    ensures Step(s, c, s')
  {
    match s.pcs[c]
    case Idle => s.(pcs := s.pcs[c := Trying])
    case Trying => State(SetLock(s.word), s.pcs[c := if Locked(s.word) then Spinning else Critical])
    case Spinning => s.(pcs := s.pcs[c := if Locked(s.word) then Spinning else Trying])
    case Critical => s.(pcs := s.pcs[c := Releasing(s.word)])
    case Releasing(loaded) => State(ClearLock(loaded), s.pcs[c := Idle])
  }

  /** A run grows by a step from its last state. */
  lemma RunGrows(states: seq<State>, cores: seq<nat>, c: nat)
    requires Run(states, cores) && c in states[|states| - 1].pcs
    ensures Run(states + [Next(states[|states| - 1], c)], cores + [c])
  {
    var ss, xs := states + [Next(states[|states| - 1], c)], cores + [c];
    forall k | 0 <= k < |xs| ensures Step(ss[k], xs[k], ss[k + 1]) {
      if k < |cores| {
        assert Step(states[k], cores[k], states[k + 1]);
      }
    }
  }

  predicate Waits(s: State, c: nat) {
    c in s.pcs && (s.pcs[c] == Trying || s.pcs[c] == Spinning)
  }

  /** The holder alone frees the lock, in at most two steps; a waiting core still waits. */
  lemma FreeTheLock(states: seq<State>, cores: seq<nat>, d: nat, c: nat) returns (states': seq<State>, more: seq<nat>)
    requires Run(states, cores) && Holds(states[|states| - 1], d) && Waits(states[|states| - 1], c)
    ensures |more| <= 2 && (forall x <- more :: x == d) && Run(states', cores + more) && states <= states'
    ensures var s := states'[|states'| - 1]; !Locked(s.word) && Waits(s, c)
  {
    var s := states[|states| - 1];
    RunInv(states, cores, |states| - 1);
    states', more := states, [];
    assert cores + more == cores;
    if s.pcs[d].Critical? {
      RunGrows(states, cores, d);
      states', more := states + [Next(s, d)], [d];
    }
    var s1 := states'[|states'| - 1];
    RunGrows(states', cores + more, d);
    assert cores + (more + [d]) == cores + more + [d];
    states', more := states' + [Next(s1, d)], more + [d];
  }

  /** A waiting core takes a free lock in at most two steps of its own. */
  lemma TakeTheLock(states: seq<State>, cores: seq<nat>, c: nat) returns (states': seq<State>, more: seq<nat>)
    requires Run(states, cores) && !Locked(states[|states| - 1].word) && Waits(states[|states| - 1], c)
    ensures |more| <= 2 && (forall x <- more :: x == c) && Run(states', cores + more) && states <= states'
    ensures Holds(states'[|states'| - 1], c)
  {
    var s := states[|states| - 1];
    states', more := states, [];
    assert cores + more == cores;
    if s.pcs[c] == Spinning {
      RunGrows(states, cores, c);
      states', more := states + [Next(s, c)], [c];
    }
    var s1 := states'[|states'| - 1];
    RunGrows(states', cores + more, c);
    assert cores + (more + [c]) == cores + more + [c];
    states', more := states' + [Next(s1, c)], more + [c];
  }

  /** The same for a waiting core whatever the state of the lock. */
  lemma WaitingCoreGetsLock(states: seq<State>, cores: seq<nat>, c: nat) returns (states': seq<State>, more: seq<nat>)
    requires Run(states, cores) && Waits(states[|states| - 1], c)
    ensures |more| <= 4 && (forall x <- more :: x == c || Holds(states[|states| - 1], x))
    ensures states <= states' && Run(states', cores + more) && Holds(states'[|states'| - 1], c)
  {
    RunInv(states, cores, |states| - 1);
    states', more := states, [];
    assert cores + more == cores;
    if Locked(states[|states| - 1].word) {
      var d :| Holds(states[|states| - 1], d);
      states', more := FreeTheLock(states, cores, d, c);
    }
    var last;
    var freed := states';
    states', last := TakeTheLock(freed, cores + more, c);
    assert cores + (more + last) == cores + more + last;
    more := more + last;
  }

  /**
   From every state of every run, each core can get the lock: there is a way on of at most
   five steps, by that core and by the one that holds the lock, after which the core holds
   it. A waiting core needs four, and the holder none.
   */
  lemma LockAvailable(states: seq<State>, cores: seq<nat>, c: nat) returns (states': seq<State>, more: seq<nat>)
    requires Run(states, cores) && c in states[|states| - 1].pcs
    ensures var s := states[|states| - 1];
            && |more| <= (if Holds(s, c) then 0 else if Waits(s, c) then 4 else 5)
            && forall x <- more :: x == c || Holds(s, x)
    ensures states <= states' && Run(states', cores + more) && Holds(states'[|states'| - 1], c)
  {
    var s := states[|states| - 1];
    states', more := states, [];
    assert cores + more == cores;
    if Waits(s, c) {
      states', more := WaitingCoreGetsLock(states, cores, c);
    } else if s.pcs[c] == Idle {
      RunGrows(states, cores, c);
      var s1 := Next(s, c);
      assert forall x :: Holds(s1, x) ==> Holds(s, x);
      var last;
      states', last := WaitingCoreGetsLock(states + [s1], cores + [c], c);
      more := [c] + last;
      assert cores + more == cores + [c] + last;
    }
  }

  // ----- Refinement of an atomic mutex -----

  datatype Owner = Free | Held(core: nat)

  /** The mutex that the lock implements: taken when free, released by its owner, or unchanged. */
  predicate MutexStep(o: Owner, o': Owner) {
    o == o' || (o.Free? && o'.Held?) || (o.Held? && o'.Free?)
  }

  ghost predicate Owns(s: State, o: Owner) {
    match o
    case Free => forall c :: !Holds(s, c)
    case Held(c) => Holds(s, c) && forall d :: Holds(s, d) ==> d == c
  }

  /** Every step of every core is a step of the atomic mutex: ownership never passes from one core to another directly. */
  lemma StepRefines(s: State, others: nat, c: nat, s': State, o: Owner) returns (o': Owner)
    requires Inv(s, others) && Step(s, c, s') && Owns(s, o)
    ensures Owns(s', o') && MutexStep(o, o')
    ensures o'.Held? && o.Free? ==> o'.core == c && s.pcs[c] == Trying
    ensures o'.Free? && o.Held? ==> o.core == c && s.pcs[c].Releasing?
  {
    OthersStay(s, c, s');
    assert forall d :: d != c ==> (Holds(s', d) <==> Holds(s, d));
    if Holds(s, c) == Holds(s', c) {
      o' := o;
    } else if Holds(s', c) {
      o' := Held(c);
      assert !Locked(s.word);
      assert o == Free;
    } else {
      o' := Free;
      assert o == Held(c);
    }
  }
}
