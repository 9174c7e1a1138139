/** Committing and aborting dependent transactions as interleaved atomic steps of one driving thread per
    transaction (xacto/src/transaction.c). A step is one status read, one load or one store of a waiter count, one
    P, one V or one status write. A waiter adds itself to the count of the transaction it waits for under its own
    lock, not under that transaction's, so the load and the store are two steps. */
module TransProtocol {

  import opened Sequences

  datatype Status = PENDING | COMMITTED | ABORTED

  /** Where the thread that drives a transaction stands. */
  datatype Pc =
    | Running                                    // performing operations, adding dependencies
    | Scanning(i: nat)                           // commit: about to look at the i-th dependency
    | Counting(i: nat)                           // commit: read PENDING, about to load the waiter count
    | Counted(i: nat, seen: nat)                 // commit: loaded it, about to store one more
    | Waiting(i: nat)                            // commit: stored it, about to P the dependency's semaphore
    | Checking(i: nat)                           // commit: about to check whether the i-th dependency aborted
    | Snapshot(committing: bool)                 // about to read its own waiter count
    | Releasing(committing: bool, left: nat)     // posting its semaphore
    | Deciding                                   // commit: waiters posted, about to write COMMITTED
    | Aborting                                   // abort: about to test its own status
    | Marking                                    // abort: about to write ABORTED
    | Finished
    | Crashed                                    // abort of a committed transaction

  /** A transaction. came counts the waiters that ever stored a count, posted the V operations on sem so far;
      viaCommit records that its thread called commit rather than abort. */
  datatype Txn = Txn(status: Status, depends: seq<nat>, waitcnt: nat, sem: nat, came: nat, posted: nat,
                     pc: Pc, viaCommit: bool)

  /** All transactions, by number. */
  type State = seq<Txn>

  datatype Action = Create | Depend(t: nat, d: nat) | BeginCommit(t: nat) | BeginAbort(t: nat) | Step(t: nat)

  // ---------------------------------------------------------------------------------------------
  // The dependency list
  // ---------------------------------------------------------------------------------------------

  /** The search for a duplicate stops before the last node. */
  function AddDependency(depends: seq<nat>, d: nat): seq<nat> {
    if depends != [] && d in depends[..|depends| - 1] then depends else depends + [d]
  }

  /** The set grows as intended, but the list stays free of duplicates exactly when the transaction added is
      not the one added last. */
  lemma DependencyAdded(depends: seq<nat>, d: nat)
    requires Distinct(depends)
    ensures forall e :: e in AddDependency(depends, d) <==> e in depends || e == d
    ensures Distinct(AddDependency(depends, d)) <==> depends == [] || depends[|depends| - 1] != d
  {
    var added := AddDependency(depends, d);
    if depends != [] {
      var front, last := depends[..|depends| - 1], depends[|depends| - 1];
      assert depends == front + [last];
      if last == d {
        assert d !in front;
        assert added[|depends| - 1] == added[|depends|];
      }
    }
  }

  // ---------------------------------------------------------------------------------------------
  // Steps
  // ---------------------------------------------------------------------------------------------

  const NEW_TXN := Txn(PENDING, [], 0, 0, 0, 0, Running, false)

  predicate Enabled(s: State, a: Action) {
    match a
    case Create => true
    case Depend(t, d) => t < |s| && d < |s| && s[t].pc.Running?
    case BeginCommit(t) => t < |s| && s[t].pc.Running?
    case BeginAbort(t) => t < |s| && s[t].pc.Running?
    case Step(t) =>
      && t < |s|
      && match s[t].pc
         case Running => false
         case Finished => false
         case Crashed => false
         case Scanning(i) => i < |s[t].depends| ==> s[t].depends[i] < |s|
         case Counting(i) => i < |s[t].depends| && s[t].depends[i] < |s|
         case Counted(i, _) => i < |s[t].depends| && s[t].depends[i] < |s|
         case Waiting(i) => i < |s[t].depends| && s[t].depends[i] < |s| && s[s[t].depends[i]].sem > 0
         case Checking(i) => i < |s[t].depends| ==> s[t].depends[i] < |s|
         case _ => true
  }

  function Goto(s: State, t: nat, pc: Pc): State
    requires t < |s|
  {
    s[t := s[t].(pc := pc)]
  }

  function Apply(s: State, a: Action): State
    requires Enabled(s, a)
  {
    match a
    case Create => s + [NEW_TXN]
    case Depend(t, d) => s[t := s[t].(depends := AddDependency(s[t].depends, d))]
    case BeginCommit(t) => s[t := s[t].(pc := Scanning(0), viaCommit := true)]
    case BeginAbort(t) => Goto(s, t, Aborting)
    case Step(t) =>
      var x := s[t];
      match x.pc
      case Scanning(i) =>
        if i >= |x.depends| then Goto(s, t, Checking(0))
        else if s[x.depends[i]].status == PENDING then Goto(s, t, Counting(i))
        else Goto(s, t, Scanning(i + 1))
      case Counting(i) => Goto(s, t, Counted(i, s[x.depends[i]].waitcnt))
      case Counted(i, seen) =>
        var d := x.depends[i];
        Goto(s[d := s[d].(waitcnt := seen + 1, came := s[d].came + 1)], t, Waiting(i))
      case Waiting(i) =>
        var d := x.depends[i];
        Goto(s[d := s[d].(sem := s[d].sem - 1)], t, Scanning(i + 1))
      case Checking(i) =>
        if i >= |x.depends| then Goto(s, t, Snapshot(true))
        else if s[x.depends[i]].status == ABORTED then Goto(s, t, Aborting)
        else Goto(s, t, Checking(i + 1))
      case Snapshot(committing) => Goto(s, t, Releasing(committing, x.waitcnt))
      case Releasing(committing, left) =>
        if left > 0 then s[t := x.(sem := x.sem + 1, posted := x.posted + 1, pc := Releasing(committing, left - 1))]
        else if committing then Goto(s, t, Deciding)
        else Goto(s, t, Finished)
      case Deciding => s[t := x.(status := COMMITTED, pc := Finished)]
      case Aborting =>
        if x.status == PENDING then Goto(s, t, Marking)
        else if x.status == COMMITTED then Goto(s, t, Crashed)
        else Goto(s, t, Snapshot(false))
      case Marking => s[t := x.(status := ABORTED, pc := Snapshot(false))]
      case _ => s
  }

  ghost predicate ValidRun(s: State, run: seq<Action>)
    decreases |run|
  {
    run == [] || (Enabled(s, run[0]) && ValidRun(Apply(s, run[0]), run[1..]))
  }

  ghost function Exec(s: State, run: seq<Action>): State
    requires ValidRun(s, run)
    decreases |run|
  {
    if run == [] then s else Exec(Apply(s, run[0]), run[1..])
  }

  // ---------------------------------------------------------------------------------------------
  // What every step keeps
  // ---------------------------------------------------------------------------------------------

  /** The thread is past the abort check of its commit. It may not have written COMMITTED yet. */
  predicate Passed(x: Txn) {
    x.status == COMMITTED || x.pc.Deciding? || ((x.pc.Snapshot? || x.pc.Releasing?) && x.pc.committing)
  }

  predicate Decided(x: Txn) {
    Passed(x) || x.status == ABORTED
  }

  ghost predicate DependenciesKnown(s: State, x: Txn) {
    forall k | 0 <= k < |x.depends| :: x.depends[k] < |s|
  }

  ghost predicate DecidedUpTo(s: State, x: Txn, n: nat)
    requires DependenciesKnown(s, x) && n <= |x.depends|
  {
    forall k | 0 <= k < n :: Decided(s[x.depends[k]])
  }

  ghost predicate PassedUpTo(s: State, x: Txn, n: nat)
    requires DependenciesKnown(s, x) && n <= |x.depends|
  {
    forall k | 0 <= k < n :: Passed(s[x.depends[k]])
  }

  ghost predicate SomeAborted(s: State, x: Txn)
    requires DependenciesKnown(s, x)
  {
    exists k | 0 <= k < |x.depends| :: s[x.depends[k]].status == ABORTED
  }

  /** What is known of a transaction from where its thread stands. */
  ghost predicate Sound(s: State, x: Txn) {
    && DependenciesKnown(s, x)
    && match x.pc
       case Running => x.status == PENDING && !x.viaCommit
       case Scanning(i) => x.status == PENDING && x.viaCommit && i <= |x.depends| && DecidedUpTo(s, x, i)
       case Counting(i) => x.status == PENDING && x.viaCommit && i < |x.depends| && DecidedUpTo(s, x, i)
       case Counted(i, seen) =>
         x.status == PENDING && x.viaCommit && i < |x.depends| && DecidedUpTo(s, x, i) && seen <= s[x.depends[i]].came
       case Waiting(i) => x.status == PENDING && x.viaCommit && i < |x.depends| && DecidedUpTo(s, x, i)
       case Checking(i) =>
         && x.status == PENDING && x.viaCommit && i <= |x.depends|
         && DecidedUpTo(s, x, |x.depends|) && PassedUpTo(s, x, i)
       case Snapshot(c) =>
         if c then x.status == PENDING && x.viaCommit && PassedUpTo(s, x, |x.depends|)
         else x.status == ABORTED && (x.viaCommit ==> SomeAborted(s, x))
       case Releasing(c, _) =>
         if c then x.status == PENDING && x.viaCommit && PassedUpTo(s, x, |x.depends|)
         else x.status == ABORTED && (x.viaCommit ==> SomeAborted(s, x))
       case Deciding => x.status == PENDING && x.viaCommit && PassedUpTo(s, x, |x.depends|)
       case Aborting => x.status == PENDING && (x.viaCommit ==> SomeAborted(s, x))
       case Marking => x.status == PENDING && (x.viaCommit ==> SomeAborted(s, x))
       case Finished =>
         if x.status == COMMITTED then x.viaCommit && PassedUpTo(s, x, |x.depends|)
         else x.status == ABORTED && (x.viaCommit ==> SomeAborted(s, x))
       case Crashed => false
  }

  predicate WaitsOn(x: Txn, d: nat) {
    x.pc.Waiting? && x.pc.i < |x.depends| && x.depends[x.pc.i] == d
  }

  /** How many transactions stand at d's semaphore. */
  function Waiters(s: State, d: nat): nat {
    if s == [] then 0 else Waiters(s[..|s| - 1], d) + (if WaitsOn(s[|s| - 1], d) then 1 else 0)
  }

  /** A transaction's own books: tokens only once it is decided, and no more posts than waiters that came. The
      waiter count never exceeds the waiters that came either; but it may fall short of both, as stores overtake
      each other. */
  ghost predicate Books(x: Txn) {
    && (x.sem > 0 || x.posted > 0 ==> Decided(x))
    && (x.pc.Releasing? ==> x.posted + x.pc.left <= x.came)
    && x.posted <= x.came && x.waitcnt <= x.came
    && (!x.pc.Releasing? && !x.pc.Deciding? && !x.pc.Finished? ==> x.posted == 0)
  }

  /** A transaction's semaphore: every waiter that came, every V and every token accounted for. */
  ghost predicate Accounted(s: State, d: nat)
    requires d < |s|
  {
    Books(s[d]) && Waiters(s, d) + s[d].posted == s[d].came + s[d].sem
  }

  ghost predicate Invariant(s: State) {
    && (forall t | 0 <= t < |s| :: Sound(s, s[t]))
    && (forall d | 0 <= d < |s| :: Accounted(s, d))
  }

  /** From s to r nothing decided is undone, and no transaction disappears. */
  ghost predicate Later(s: State, r: State) {
    && |s| <= |r|
    && (forall t | 0 <= t < |s| :: Passed(s[t]) ==> Passed(r[t]))
    && (forall t | 0 <= t < |s| :: s[t].status != PENDING ==> r[t].status == s[t].status)
    && (forall t | 0 <= t < |s| :: s[t].came <= r[t].came)
  }

  /** A transaction whose own thread has not moved stays sound. */
  lemma SoundLater(s: State, r: State, x: Txn, y: Txn)
    requires Later(s, r) && Sound(s, x)
    requires y == x.(waitcnt := y.waitcnt, sem := y.sem, came := y.came, posted := y.posted)
    ensures Sound(r, y)
  {
    if SomeAborted(s, x) {
      var k :| 0 <= k < |x.depends| && s[x.depends[k]].status == ABORTED;
      assert r[y.depends[k]].status == ABORTED;
    }
  }

  lemma {:induction false} WaitersUpdate(s: State, t: nat, x: Txn, d: nat)
    requires t < |s|
    ensures Waiters(s[t := x], d) + (if WaitsOn(s[t], d) then 1 else 0)
         == Waiters(s, d) + (if WaitsOn(x, d) then 1 else 0)
  {
    var r := s[t := x];
    if t == |s| - 1 {
      assert r[..|s| - 1] == s[..|s| - 1];
    } else {
      assert r[..|s| - 1] == s[..|s| - 1][t := x];
      WaitersUpdate(s[..|s| - 1], t, x, d);
    }
  }

  /** A sound state stays sound when one thread moves, if what it now claims of itself holds. */
  lemma OneMoves(s: State, r: State, t: nat)
    requires |r| == |s| && t < |s|
    requires forall u | 0 <= u < |s| :: Sound(s, s[u])
    requires Later(s, r)
    requires forall u | 0 <= u < |s| && u != t ::
               r[u] == s[u].(waitcnt := r[u].waitcnt, sem := r[u].sem, came := r[u].came, posted := r[u].posted)
    requires Sound(r, r[t])
    ensures forall u | 0 <= u < |r| :: Sound(r, r[u])
  {
    forall u | 0 <= u < |r| && u != t ensures Sound(r, r[u]) {
      SoundLater(s, r, s[u], r[u]);
    }
  }

  lemma OthersStay(s: State, t: nat)
    requires Enabled(s, Step(t))
    ensures var r := Apply(s, Step(t));
      && |r| == |s|
      && (forall u | 0 <= u < |s| && u != t ::
            r[u] == s[u].(waitcnt := r[u].waitcnt, sem := r[u].sem, came := r[u].came, posted := r[u].posted))
      && (forall u | 0 <= u < |s| :: s[u].came <= r[u].came)
  {
  }

  lemma OneDecides(s: State, t: nat)
    requires Enabled(s, Step(t)) && Sound(s, s[t])
    ensures |Apply(s, Step(t))| == |s|
    ensures var x, y := s[t], Apply(s, Step(t))[t];
      && y.depends == x.depends && y.viaCommit == x.viaCommit
      && (Passed(x) ==> Passed(y)) && (x.status != PENDING ==> y.status == x.status)
  {
    hide DependenciesKnown, DecidedUpTo, PassedUpTo, SomeAborted;
  }

  lemma ActionLater(s: State, a: Action)
    requires Invariant(s) && Enabled(s, a)
    ensures Later(s, Apply(s, a))
  {
    if a.Step? {
      assert Sound(s, s[a.t]);
      OneDecides(s, a.t);
      OthersStay(s, a.t);
      hide Invariant, Apply, Enabled, Sound;
    }
  }

  /** What the moved thread now claims of itself, looking at its dependencies. */
  lemma LookStepSound(s: State, t: nat)
    requires Invariant(s) && Enabled(s, Step(t)) && Later(s, Apply(s, Step(t))) && |Apply(s, Step(t))| == |s|
    requires s[t].pc.Scanning? || s[t].pc.Checking?
    ensures Sound(Apply(s, Step(t)), Apply(s, Step(t))[t])
  {
    var r, x := Apply(s, Step(t)), s[t];
    assert Sound(s, x);
    var i := x.pc.i;
    if i < |x.depends| {
      assert Sound(s, s[x.depends[i]]);
      assert s[x.depends[i]].status != PENDING ==> r[x.depends[i]].status == s[x.depends[i]].status;
    }
  }

  /** Waiting for one of them. */
  lemma WaitStepSound(s: State, t: nat)
    requires Invariant(s) && Enabled(s, Step(t)) && Later(s, Apply(s, Step(t))) && |Apply(s, Step(t))| == |s|
    requires s[t].pc.Counting? || s[t].pc.Counted? || s[t].pc.Waiting?
    ensures Sound(Apply(s, Step(t)), Apply(s, Step(t))[t])
  {
    assert Sound(s, s[t]) && Accounted(s, s[t].depends[s[t].pc.i]);
  }

  /** What it claims once its fate is sealed. */
  lemma SealedStepSound(s: State, t: nat)
    requires Invariant(s) && Enabled(s, Step(t)) && Later(s, Apply(s, Step(t))) && |Apply(s, Step(t))| == |s|
    requires s[t].pc.Snapshot? || s[t].pc.Releasing? || s[t].pc.Deciding? || s[t].pc.Aborting? || s[t].pc.Marking?
    ensures Sound(Apply(s, Step(t)), Apply(s, Step(t))[t])
  {
    var r, x := Apply(s, Step(t)), s[t];
    assert Sound(s, x);
    OneDecides(s, t);
    if SomeAborted(s, x) {
      KeepsAborted(s, r, x, r[t]);
    }
    hide SomeAborted, DecidedUpTo;
  }

  lemma StepSound(s: State, t: nat)
    requires Invariant(s) && Enabled(s, Step(t))
    ensures |Apply(s, Step(t))| == |s| && Sound(Apply(s, Step(t)), Apply(s, Step(t))[t])
  {
    ActionLater(s, Step(t));
    OthersStay(s, t);
    assert Sound(s, s[t]);
    if s[t].pc.Scanning? || s[t].pc.Checking? {
      hide Invariant, Sound, Apply;
      LookStepSound(s, t);
    } else if s[t].pc.Counting? || s[t].pc.Counted? || s[t].pc.Waiting? {
      hide Invariant, Sound, Apply;
      WaitStepSound(s, t);
    } else {
      assert !s[t].pc.Crashed?;
      hide Invariant, Sound, Apply;
      SealedStepSound(s, t);
    }
  }

  lemma KeepsAborted(s: State, r: State, x: Txn, y: Txn)
    requires DependenciesKnown(s, x) && SomeAborted(s, x) && Later(s, r) && y.depends == x.depends
    ensures DependenciesKnown(r, y) && SomeAborted(r, y)
  {
    var k :| 0 <= k < |x.depends| && s[x.depends[k]].status == ABORTED;
    assert r[y.depends[k]].status == ABORTED;
  }

  lemma ActionSound(s: State, a: Action)
    requires Invariant(s) && Enabled(s, a)
    ensures forall u | 0 <= u < |Apply(s, a)| :: Sound(Apply(s, a), Apply(s, a)[u])
  {
    var r := Apply(s, a);
    ActionLater(s, a);
    match a {
      case Create =>
        forall u | 0 <= u < |s| ensures Sound(r, r[u]) {
          SoundLater(s, r, s[u], r[u]);
        }
      case Depend(t, d) =>
        assert Sound(s, s[t]);
        OneMoves(s, r, t);
      case BeginCommit(t) =>
        assert Sound(s, s[t]);
        OneMoves(s, r, t);
      case BeginAbort(t) =>
        assert Sound(s, s[t]);
        OneMoves(s, r, t);
      case Step(t) =>
        StepSound(s, t);
        OthersStay(s, t);
        hide Apply;
        OneMoves(s, r, t);
    }
  }

  lemma {:induction false} WaitersBeyond(s: State, d: nat)
    requires forall t | 0 <= t < |s| :: DependenciesKnown(s, s[t])
    requires d >= |s|
    ensures Waiters(s, d) == 0
  {
    NoWaiters(s, d);
  }

  lemma {:induction false} NoWaiters(s: State, d: nat)
    requires forall t | 0 <= t < |s| :: !WaitsOn(s[t], d)
    ensures Waiters(s, d) == 0
  {
    if s != [] {
      NoWaiters(s[..|s| - 1], d);
    }
  }

  /** The books of a new transaction are in order, and the others' are as they were. */
  lemma CreateAccounted(s: State, d: nat)
    requires Invariant(s) && d <= |s|
    ensures Accounted(s + [NEW_TXN], d)
  {
    var r := s + [NEW_TXN];
    assert r[..|s|] == s;
    if d == |s| {
      forall t | 0 <= t < |s| ensures DependenciesKnown(s, s[t]) { assert Sound(s, s[t]); }
      WaitersBeyond(s, d);
    } else {
      assert Accounted(s, d);
    }
  }

  /** A thread that neither starts nor ends a wait keeps the books, if its own stay in order. */
  lemma QuietAccounted(s: State, t: nat, y: Txn, d: nat)
    requires t < |s| && d < |s| && Accounted(s, d) && !WaitsOn(s[t], d) && !WaitsOn(y, d)
    requires Books(y) && y.came == s[t].came && y.posted - s[t].posted == y.sem - s[t].sem
    ensures Accounted(s[t := y], d)
  {
    WaitersUpdate(s, t, y, d);
    hide Books, Waiters;
  }

  /** The books of a semaphore after one action. */
  lemma ActionAccounted(s: State, a: Action, d: nat)
    requires Invariant(s) && Enabled(s, a) && d < |Apply(s, a)|
    ensures Accounted(Apply(s, a), d)
  {
    match a {
      case Create =>
        CreateAccounted(s, d);
      case Step(t) =>
        StepAccounted(s, t, d);
      case _ =>
        assert Accounted(s, d) && Accounted(s, a.t);
        hide Waiters, Accounted, Invariant;
        assert Sound(s, s[a.t]) && Books(s[a.t]) by { BooksOf(s, a.t); }
        QuietAccounted(s, a.t, Apply(s, a)[a.t], d);
    }
  }

  lemma BooksOf(s: State, t: nat)
    requires Invariant(s) && t < |s|
    ensures Sound(s, s[t]) && Books(s[t])
  {
    assert Accounted(s, t);
  }

  lemma StepAccounted(s: State, t: nat, d: nat)
    requires Invariant(s) && Enabled(s, Step(t)) && d < |s|
    ensures |Apply(s, Step(t))| == |s| && Accounted(Apply(s, Step(t)), d)
  {
    assert Accounted(s, d) && Accounted(s, t) && Sound(s, s[t]);
    hide Apply, Books, Waiters;
    if s[t].pc.Counted? || s[t].pc.Waiting? {
      assert Accounted(s, s[t].depends[s[t].pc.i]);
    }
    if s[t].pc.Counted? {
      StoreAccounted(s, t, d);
    } else if s[t].pc.Waiting? {
      WaitingAccounted(s, t, d);
    } else {
      OwnStepAccounted(s, t, d);
    }
  }

  /** Storing a count: one more waiter, one more that came. */
  lemma StoreStep(s: State, t: nat)
    requires Enabled(s, Step(t)) && s[t].pc.Counted?
    requires s[t].pc.seen <= s[s[t].depends[s[t].pc.i]].came && Books(s[s[t].depends[s[t].pc.i]]) && Books(s[t])
    ensures var e := s[t].depends[s[t].pc.i];
      var mid := s[e := s[e].(waitcnt := s[t].pc.seen + 1, came := s[e].came + 1)];
      var y := mid[t].(pc := Waiting(s[t].pc.i));
      Apply(s, Step(t)) == mid[t := y] && Books(mid[e]) && Books(y)
  {
  }

  lemma StoreAccounted(s: State, t: nat, d: nat)
    requires Enabled(s, Step(t)) && d < |s| && Accounted(s, d) && s[t].pc.Counted?
    requires s[t].pc.seen <= s[s[t].depends[s[t].pc.i]].came && Books(s[s[t].depends[s[t].pc.i]]) && Books(s[t])
    ensures |Apply(s, Step(t))| == |s| && Accounted(Apply(s, Step(t)), d)
  {
    StoreStep(s, t);
    var e := s[t].depends[s[t].pc.i];
    var r, mid := Apply(s, Step(t)), s[e := s[e].(waitcnt := s[t].pc.seen + 1, came := s[e].came + 1)];
    hide Apply, Books, Waiters;
    WaitersUpdate(s, e, mid[e], d);
    WaitersUpdate(mid, t, r[t], d);
  }

  /** Getting through: one waiter fewer, one token fewer. */
  lemma WaitStep(s: State, t: nat)
    requires Enabled(s, Step(t)) && s[t].pc.Waiting?
    requires Books(s[s[t].depends[s[t].pc.i]]) && Books(s[t])
    ensures var e := s[t].depends[s[t].pc.i];
      var mid := s[e := s[e].(sem := s[e].sem - 1)];
      var y := mid[t].(pc := Scanning(s[t].pc.i + 1));
      Apply(s, Step(t)) == mid[t := y] && Books(mid[e]) && Books(y)
  {
  }

  lemma WaitingAccounted(s: State, t: nat, d: nat)
    requires Enabled(s, Step(t)) && d < |s| && Accounted(s, d) && s[t].pc.Waiting?
    requires Books(s[s[t].depends[s[t].pc.i]]) && Books(s[t])
    ensures |Apply(s, Step(t))| == |s| && Accounted(Apply(s, Step(t)), d)
  {
    WaitStep(s, t);
    var e := s[t].depends[s[t].pc.i];
    var r, mid := Apply(s, Step(t)), s[e := s[e].(sem := s[e].sem - 1)];
    hide Apply, Books, Waiters;
    WaitersUpdate(s, e, mid[e], d);
    WaitersUpdate(mid, t, r[t], d);
  }

  /** Any other step touches only the transaction's own books: a token more for every V more. */
  lemma OwnStep(s: State, t: nat)
    requires Enabled(s, Step(t)) && Books(s[t]) && Sound(s, s[t])
    requires !s[t].pc.Counted? && !s[t].pc.Waiting?
    ensures |Apply(s, Step(t))| == |s|
    ensures var x, y := s[t], Apply(s, Step(t))[t];
      && Apply(s, Step(t)) == s[t := y]
      && Books(y) && y.came == x.came && y.posted - x.posted == y.sem - x.sem && !y.pc.Waiting?
  {
    hide DecidedUpTo, PassedUpTo, SomeAborted;
  }

  lemma OwnStepAccounted(s: State, t: nat, d: nat)
    requires Enabled(s, Step(t)) && d < |s| && Accounted(s, d) && Books(s[t]) && Sound(s, s[t])
    requires !s[t].pc.Counted? && !s[t].pc.Waiting?
    ensures |Apply(s, Step(t))| == |s| && Accounted(Apply(s, Step(t)), d)
  {
    OwnStep(s, t);
    hide Apply, Books, Sound, Accounted;
    QuietAccounted(s, t, Apply(s, Step(t))[t], d);
  }

  lemma ActionKeeps(s: State, a: Action)
    requires Invariant(s) && Enabled(s, a)
    ensures Invariant(Apply(s, a)) && Later(s, Apply(s, a))
  {
    ActionLater(s, a);
    ActionSound(s, a);
    forall d | 0 <= d < |Apply(s, a)| ensures Accounted(Apply(s, a), d) {
      ActionAccounted(s, a, d);
    }
  }

  /** Every state of every run from a sound one is sound, and nothing decided is ever undone. */
  lemma {:induction false} RunKeeps(s: State, run: seq<Action>)
    requires Invariant(s) && ValidRun(s, run)
    ensures Invariant(Exec(s, run)) && Later(s, Exec(s, run))
    decreases |run|
  {
    if run != [] {
      ActionKeeps(s, run[0]);
      RunKeeps(Apply(s, run[0]), run[1..]);
      LaterTwice(s, Apply(s, run[0]), Exec(s, run));
    }
  }

  lemma LaterTwice(s: State, r: State, q: State)
    requires Later(s, r) && Later(r, q)
    ensures Later(s, q)
  {
  }

  // ---------------------------------------------------------------------------------------------
  // Safety over whole runs
  // ---------------------------------------------------------------------------------------------

  /** A state some run leads to from no transactions at all. */
  ghost predicate Reachable(s: State) {
    exists run :: ValidRun([], run) && Exec([], run) == s
  }

  lemma ReachableInvariant(s: State)
    requires Reachable(s)
    ensures Invariant(s)
  {
    var run :| ValidRun([], run) && Exec([], run) == s;
    RunKeeps([], run);
  }

  /** Each transaction on the path depends on the next. */
  ghost predicate DependencyPath(s: State, p: seq<nat>) {
    && p != []
    && (forall k | 0 <= k < |p| :: p[k] < |s|)
    && (forall k | 0 <= k < |p| - 1 :: p[k + 1] in s[p[k]].depends)
  }

  /** Whoever is past its abort check has only dependencies, direct or not, that are past theirs. */
  lemma {:induction false} PassedClosed(s: State, p: seq<nat>)
    requires Invariant(s) && DependencyPath(s, p) && Passed(s[p[0]])
    ensures Passed(s[p[|p| - 1]])
    decreases |p|
  {
    if |p| > 1 {
      assert Sound(s, s[p[0]]);
      assert p[1] in s[p[0]].depends;
      PassedClosed(s, p[1..]);
    }
  }

  /** No committed transaction depends, directly or not, on one that has aborted or ever will. */
  lemma CommittedNeverDependsOnAborted(s: State, p: seq<nat>, run: seq<Action>)
    requires Reachable(s) && DependencyPath(s, p) && s[p[0]].status == COMMITTED
    requires ValidRun(s, run)
    ensures |s| <= |Exec(s, run)| && Exec(s, run)[p[|p| - 1]].status != ABORTED
  {
    ReachableInvariant(s);
    PassedClosed(s, p);
    RunKeeps(s, run);
    var r := Exec(s, run);
    assert Sound(r, r[p[|p| - 1]]);
  }

  /** An abort reaches every dependent that finishes, however long the chain. */
  lemma AbortPropagates(s: State, p: seq<nat>)
    requires Reachable(s) && DependencyPath(s, p)
    requires s[p[|p| - 1]].status == ABORTED && s[p[0]].pc.Finished?
    ensures s[p[0]].status == ABORTED
  {
    ReachableInvariant(s);
    assert Sound(s, s[p[0]]) && Sound(s, s[p[|p| - 1]]);
    if s[p[0]].status == COMMITTED {
      PassedClosed(s, p);
    }
  }

  /** A finished commit came out aborted exactly when one of its own dependencies has aborted, and committed
      exactly when all of them are past their checks. */
  lemma CommitOutcome(s: State, t: nat)
    requires Reachable(s) && t < |s| && s[t].pc.Finished? && s[t].viaCommit
    ensures DependenciesKnown(s, s[t])
    ensures s[t].status == ABORTED <==> SomeAborted(s, s[t])
    ensures s[t].status == COMMITTED <==> PassedUpTo(s, s[t], |s[t].depends|)
  {
    ReachableInvariant(s);
    assert Sound(s, s[t]);
    if SomeAborted(s, s[t]) {
      var k :| 0 <= k < |s[t].depends| && s[s[t].depends[k]].status == ABORTED;
      assert Sound(s, s[s[t].depends[k]]);
    }
  }

  /** A finished abort came out aborted. */
  lemma AbortOutcome(s: State, t: nat)
    requires Reachable(s) && t < |s| && s[t].pc.Finished? && !s[t].viaCommit
    ensures s[t].status == ABORTED
  {
    ReachableInvariant(s);
    assert Sound(s, s[t]);
  }

  /** A semaphore holds tokens only once its owner is decided; a status other than PENDING is final; and the
      crash of aborting a committed transaction is not reached. */
  lemma ReachableFacts(s: State, t: nat, run: seq<Action>)
    requires Reachable(s) && t < |s| && ValidRun(s, run)
    ensures s[t].sem > 0 ==> Decided(s[t])
    ensures |s| <= |Exec(s, run)| && (s[t].status != PENDING ==> Exec(s, run)[t].status == s[t].status)
    ensures !s[t].pc.Crashed?
  {
    ReachableInvariant(s);
    assert Sound(s, s[t]) && Accounted(s, t);
    RunKeeps(s, run);
  }

  // ---------------------------------------------------------------------------------------------
  // Waiters left behind
  // ---------------------------------------------------------------------------------------------

  lemma FinishedStays(s: State, a: Action, d: nat)
    requires Invariant(s) && Enabled(s, a) && d < |s| && s[d].pc.Finished?
    ensures var r := Apply(s, a);
      d < |r| && r[d].pc.Finished? && r[d].posted == s[d].posted && r[d].came >= s[d].came
  {
  }

  lemma {:induction false} FinishedThroughout(s: State, run: seq<Action>, d: nat)
    requires Invariant(s) && ValidRun(s, run) && d < |s| && s[d].pc.Finished?
    ensures var r := Exec(s, run);
      && Invariant(r) && d < |r| && r[d].pc.Finished?
      && r[d].posted == s[d].posted && r[d].came >= s[d].came
    decreases |run|
  {
    if run != [] {
      FinishedStays(s, run[0], d);
      ActionKeeps(s, run[0]);
      FinishedThroughout(Apply(s, run[0]), run[1..], d);
    }
  }

  lemma {:induction false} SomeWaiter(s: State, d: nat) returns (t: nat)
    requires Waiters(s, d) > 0
    ensures t < |s| && WaitsOn(s[t], d)
  {
    if WaitsOn(s[|s| - 1], d) {
      t := |s| - 1;
    } else {
      t := SomeWaiter(s[..|s| - 1], d);
    }
  }

  /** With a token for every waiter, the waiters can all be let through. */
  lemma {:induction false} LetThrough(s: State, d: nat) returns (run: seq<Action>)
    requires Invariant(s) && d < |s| && s[d].pc.Finished? && Waiters(s, d) <= s[d].sem
    ensures ValidRun(s, run) && Waiters(Exec(s, run), d) == 0
    decreases Waiters(s, d)
  {
    assert Accounted(s, d);
    if Waiters(s, d) == 0 {
      run := [];
    } else {
      var t := SomeWaiter(s, d);
      var r := Apply(s, Step(t));
      ActionKeeps(s, Step(t));
      FinishedStays(s, Step(t), d);
      assert Accounted(r, d);
      var rest := LetThrough(r, d);
      run := [Step(t)] + rest;
      assert run[1..] == rest;
    }
  }

  /** When d has finished, its waiters can still all get through exactly if there is a token for each of them.
      Otherwise as many as have none wait for d in every continuation: their wake-ups are lost. There is never a
      token too many. */
  lemma WaitersReleasedIff(s: State, d: nat)
    requires Reachable(s) && d < |s| && s[d].pc.Finished?
    ensures (exists run :: ValidRun(s, run) && Waiters(Exec(s, run), d) == 0) <==> Waiters(s, d) <= s[d].sem
    ensures forall run | ValidRun(s, run) :: Waiters(Exec(s, run), d) >= Waiters(s, d) - s[d].sem >= 0
    ensures Waiters(s, d) - s[d].sem == s[d].came - s[d].posted
  {
    ReachableInvariant(s);
    assert Accounted(s, d);
    forall run | ValidRun(s, run) ensures Waiters(Exec(s, run), d) >= Waiters(s, d) - s[d].sem {
      FinishedThroughout(s, run, d);
      assert Accounted(Exec(s, run), d);
    }
    if Waiters(s, d) <= s[d].sem {
      var run := LetThrough(s, d);
    }
  }

  // ---------------------------------------------------------------------------------------------
  // What is posted
  // ---------------------------------------------------------------------------------------------

  /** The thread has read its waiter count, and what it has posted and is about to post make up w. */
  predicate Posting(x: Txn, w: nat) {
    match x.pc
    case Releasing(_, left) => x.posted + left == w
    case Deciding => x.posted == w
    case Finished => x.posted == w
    case _ => false
  }

  lemma PostingStarts(s: State, t: nat)
    requires Invariant(s) && t < |s| && s[t].pc.Snapshot?
    ensures Enabled(s, Step(t)) && |Apply(s, Step(t))| == |s| && Posting(Apply(s, Step(t))[t], s[t].waitcnt)
  {
    assert Accounted(s, t);
  }

  lemma PostingStays(s: State, a: Action, t: nat, w: nat)
    requires Enabled(s, a) && t < |s| && Posting(s[t], w)
    ensures t < |Apply(s, a)| && Posting(Apply(s, a)[t], w)
  {
    if a.Step? && a.t != t {
      OthersStay(s, a.t);
      hide Apply;
    }
  }

  lemma {:induction false} PostingThroughout(s: State, run: seq<Action>, t: nat, w: nat)
    requires ValidRun(s, run) && t < |s| && Posting(s[t], w)
    ensures t < |Exec(s, run)| && Posting(Exec(s, run)[t], w)
    decreases |run|
  {
    if run != [] {
      PostingStays(s, run[0], t, w);
      hide Apply, Posting;
      PostingThroughout(Apply(s, run[0]), run[1..], t, w);
    }
  }

  /** Whether it commits or aborts, a transaction that finishes has posted exactly as often as its waiter count said
      when it read it. So it leaves a token for each of its waiters exactly if that was the number of those that
      came. */
  lemma PostsWhatItRead(s: State, t: nat, run: seq<Action>)
    requires Reachable(s) && t < |s| && s[t].pc.Snapshot?
    requires ValidRun(s, run) && run != [] && run[0] == Step(t)
    ensures var r := Exec(s, run);
      t < |r| && (r[t].pc.Finished? ==>
        && r[t].posted == s[t].waitcnt
        && (Waiters(r, t) <= r[t].sem <==> r[t].came == s[t].waitcnt))
  {
    ReachableInvariant(s);
    PostingStarts(s, t);
    PostingThroughout(Apply(s, run[0]), run[1..], t, s[t].waitcnt);
    RunKeeps(s, run);
    assert Accounted(Exec(s, run), t);
  }

  // ---------------------------------------------------------------------------------------------
  // Waiters that another one overtakes
  // ---------------------------------------------------------------------------------------------

  /** The thread has read that d is pending, and has not stored its count yet. */
  predicate ComesFor(x: Txn, d: nat) {
    (x.pc.Counting? || x.pc.Counted?) && x.pc.i < |x.depends| && x.depends[x.pc.i] == d
  }

  ghost predicate NoneComing(s: State, d: nat) {
    forall t | 0 <= t < |s| :: !ComesFor(s[t], d)
  }

  /** A token for every waiter at d's semaphore. */
  ghost predicate TokenForEach(s: State, d: nat) {
    d < |s| && Waiters(s, d) <= s[d].sem
  }

  /** Somebody waits for d, and there is no token left. */
  ghost predicate Stuck(s: State, d: nat) {
    d < |s| && Waiters(s, d) > 0 && s[d].sem == 0
  }

  lemma NobodySetsOut(s: State, t: nat, d: nat)
    requires Enabled(s, Step(t)) && d < |s| && s[d].status != PENDING && !ComesFor(s[t], d)
    ensures |Apply(s, Step(t))| == |s| && !ComesFor(Apply(s, Step(t))[t], d)
    ensures Apply(s, Step(t))[d].came == s[d].came
  {
  }

  /** Once d has finished nobody sets out for it, and only who has set out before can still come. */
  lemma NoneComesLate(s: State, a: Action, d: nat)
    requires Invariant(s) && Enabled(s, a) && d < |s| && s[d].pc.Finished? && NoneComing(s, d)
    ensures NoneComing(Apply(s, a), d) && d < |Apply(s, a)| && Apply(s, a)[d].came == s[d].came
  {
    assert s[d].status != PENDING by { assert Sound(s, s[d]); }
    hide Invariant;
    if a.Step? {
      OthersStay(s, a.t);
      NobodySetsOut(s, a.t, d);
      hide Apply, Enabled;
    }
  }

  lemma {:induction false} TokensStay(s: State, run: seq<Action>, d: nat)
    requires Invariant(s) && ValidRun(s, run) && d < |s| && s[d].pc.Finished?
    requires TokenForEach(s, d) && NoneComing(s, d)
    ensures TokenForEach(Exec(s, run), d)
    decreases |run|
  {
    if run != [] {
      var r := Apply(s, run[0]);
      NoneComesLate(s, run[0], d);
      FinishedStays(s, run[0], d);
      ActionKeeps(s, run[0]);
      assert Accounted(s, d) && Accounted(r, d);
      hide Apply, Invariant, Books, Waiters, NoneComing;
      TokensStay(r, run[1..], d);
    }
  }

  /** With a waiter more than there are tokens, somebody is stuck once the tokens are used up. */
  lemma {:induction false} UseUp(s: State, d: nat) returns (run: seq<Action>)
    requires Invariant(s) && d < |s| && s[d].pc.Finished? && Waiters(s, d) > s[d].sem
    ensures ValidRun(s, run) && Stuck(Exec(s, run), d)
    decreases s[d].sem
  {
    if s[d].sem == 0 {
      run := [];
    } else {
      var t := SomeWaiter(s, d);
      var r := Apply(s, Step(t));
      ActionKeeps(s, Step(t));
      FinishedStays(s, Step(t), d);
      assert Accounted(s, d) && Accounted(r, d);
      assert r[d].sem == s[d].sem - 1;
      hide Apply, Invariant, Books, Waiters, WaitsOn;
      var rest := UseUp(r, d);
      run := [Step(t)] + rest;
      assert run[1..] == rest;
    }
  }

  /** Who has loaded d's count stores it, and there is a waiter more than there are tokens. */
  lemma StoreAndUseUp(s: State, d: nat, t: nat) returns (run: seq<Action>)
    requires Invariant(s) && d < |s| && s[d].pc.Finished? && t < |s| && ComesFor(s[t], d) && s[t].pc.Counted?
    ensures ValidRun(s, run) && Stuck(Exec(s, run), d)
  {
    var r := Apply(s, Step(t));
    ActionKeeps(s, Step(t));
    FinishedStays(s, Step(t), d);
    assert Accounted(s, d) && Accounted(r, d);
    assert r[d].came == s[d].came + 1;
    hide Apply, Invariant, Waiters;
    var rest := UseUp(r, d);
    run := [Step(t)] + rest;
    assert run[1..] == rest;
  }

  lemma ComeAndUseUp(s: State, d: nat, t: nat) returns (run: seq<Action>)
    requires Invariant(s) && d < |s| && s[d].pc.Finished? && t < |s| && ComesFor(s[t], d)
    ensures ValidRun(s, run) && Stuck(Exec(s, run), d)
  {
    if s[t].pc.Counted? {
      run := StoreAndUseUp(s, d, t);
    } else {
      var r := Apply(s, Step(t));
      ActionKeeps(s, Step(t));
      hide Invariant, Stuck;
      var rest := StoreAndUseUp(r, d, t);
      run := [Step(t)] + rest;
      assert run[1..] == rest;
    }
  }

  /** When d has finished, there is a token for every waiter in every continuation exactly if there is one for each
      now, and nobody who read that d was pending has still to store its count. Otherwise some continuation leaves a
      waiter stuck: one that comes late may take the token of one that came in time. */
  lemma WaitersAlwaysReleasedIff(s: State, d: nat)
    requires Reachable(s) && d < |s| && s[d].pc.Finished?
    ensures (forall run | ValidRun(s, run) :: TokenForEach(Exec(s, run), d))
       <==> Waiters(s, d) <= s[d].sem && NoneComing(s, d)
    ensures (forall run | ValidRun(s, run) :: !Stuck(Exec(s, run), d))
       <==> Waiters(s, d) <= s[d].sem && NoneComing(s, d)
  {
    ReachableInvariant(s);
    if Waiters(s, d) <= s[d].sem && NoneComing(s, d) {
      forall run | ValidRun(s, run) ensures TokenForEach(Exec(s, run), d) {
        TokensStay(s, run, d);
      }
    } else if Waiters(s, d) > s[d].sem {
      var run := UseUp(s, d);
    } else {
      var t :| 0 <= t < |s| && ComesFor(s[t], d);
      var run := ComeAndUseUp(s, d, t);
    }
  }

  lemma {:induction false} RunOneMore(s: State, run: seq<Action>, a: Action)
    requires ValidRun(s, run) && Enabled(Exec(s, run), a)
    ensures ValidRun(s, run + [a]) && Exec(s, run + [a]) == Apply(Exec(s, run), a)
    decreases |run|
  {
    if run == [] {
      assert run + [a] == [a] && [a][1..] == [];
    } else {
      assert (run + [a])[1..] == run[1..] + [a];
      RunOneMore(Apply(s, run[0]), run[1..], a);
    }
  }

  lemma ReachableStep(s: State, a: Action, r: State)
    requires Reachable(s) && Enabled(s, a) && r == Apply(s, a)
    ensures Reachable(r)
  {
    var run :| ValidRun([], run) && Exec([], run) == s;
    RunOneMore([], run, a);
  }

  const LATE_WAITER := NEW_TXN.(depends := [0], pc := Counting(0), viaCommit := true)

  /** Transaction 1, dependent on 0, has called commit and read that 0 is pending. */
  lemma LateWaiterReachable()
    ensures Reachable([NEW_TXN, LATE_WAITER])
  {
    assert ValidRun([], []) && Exec([], []) == [];
    var one := NEW_TXN.(depends := [0]);
    ReachableStep([], Create, [NEW_TXN]);
    ReachableStep([NEW_TXN], Create, [NEW_TXN, NEW_TXN]);
    assert AddDependency([], 0) == [0];
    ReachableStep([NEW_TXN, NEW_TXN], Depend(1, 0), [NEW_TXN, one]);
    var committing := one.(pc := Scanning(0), viaCommit := true);
    ReachableStep([NEW_TXN, one], BeginCommit(1), [NEW_TXN, committing]);
    ReachableStep([NEW_TXN, committing], Step(1), [NEW_TXN, LATE_WAITER]);
  }

  /** And 0, which saw nobody waiting, has committed. */
  lemma CommittedMeanwhile()
    ensures Reachable([NEW_TXN.(viaCommit := true, pc := Finished, status := COMMITTED), LATE_WAITER])
  {
    LateWaiterReachable();
    var one, zero := LATE_WAITER, NEW_TXN.(viaCommit := true);
    hide Reachable;
    ReachableStep([NEW_TXN, one], BeginCommit(0), [zero.(pc := Scanning(0)), one]);
    ReachableStep([zero.(pc := Scanning(0)), one], Step(0), [zero.(pc := Checking(0)), one]);
    ReachableStep([zero.(pc := Checking(0)), one], Step(0), [zero.(pc := Snapshot(true)), one]);
    ReachableStep([zero.(pc := Snapshot(true)), one], Step(0), [zero.(pc := Releasing(true, 0)), one]);
    ReachableStep([zero.(pc := Releasing(true, 0)), one], Step(0), [zero.(pc := Deciding), one]);
    ReachableStep([zero.(pc := Deciding), one], Step(0), [zero.(pc := Finished, status := COMMITTED), one]);
  }

  /** A wake-up is lost when a waiter comes too late: 0 commits, and only after that does 1 count itself. */
  lemma WakeUpCanBeLost() returns (s: State)
    ensures Reachable(s) && |s| == 2
    ensures s[0].pc.Finished? && s[0].status == COMMITTED && WaitsOn(s[1], 0)
    ensures forall run | ValidRun(s, run) :: Waiters(Exec(s, run), 0) >= 1
  {
    CommittedMeanwhile();
    var one, done := LATE_WAITER, NEW_TXN.(viaCommit := true, pc := Finished, status := COMMITTED);
    s := [done.(waitcnt := 1, came := 1), one.(pc := Waiting(0))];
    ReachableStep([done, one], Step(1), [done, one.(pc := Counted(0, 0))]);
    ReachableStep([done, one.(pc := Counted(0, 0))], Step(1), s);
    WaitersReleasedIff(s, 0);
  }

  /** Transaction 1 waits for 0. */
  lemma OneWaits()
    ensures Reachable([NEW_TXN.(waitcnt := 1, came := 1), LATE_WAITER.(pc := Waiting(0))])
  {
    LateWaiterReachable();
    var one, zero := LATE_WAITER, NEW_TXN.(waitcnt := 1, came := 1);
    hide Reachable;
    ReachableStep([NEW_TXN, one], Step(1), [NEW_TXN, one.(pc := Counted(0, 0))]);
    ReachableStep([NEW_TXN, one.(pc := Counted(0, 0))], Step(1), [zero, one.(pc := Waiting(0))]);
  }

  /** Transaction 1 waits for 0, and 2 has read that 0 is pending. */
  lemma OneWaitsOneComes()
    ensures Reachable([NEW_TXN.(waitcnt := 1, came := 1), LATE_WAITER.(pc := Waiting(0)), LATE_WAITER])
  {
    OneWaits();
    var one, two, zero := LATE_WAITER, NEW_TXN.(depends := [0]), NEW_TXN.(waitcnt := 1, came := 1);
    var w, committing := one.(pc := Waiting(0)), two.(pc := Scanning(0), viaCommit := true);
    assert AddDependency([], 0) == [0];
    hide Reachable;
    ReachableStep([zero, w], Create, [zero, w, NEW_TXN]);
    ReachableStep([zero, w, NEW_TXN], Depend(2, 0), [zero, w, two]);
    ReachableStep([zero, w, two], BeginCommit(2), [zero, w, committing]);
    ReachableStep([zero, w, committing], Step(2), [zero, w, one]);
  }

  /** And 0 has posted its one token, and committed. */
  lemma OneTokenForOne()
    ensures Reachable([Txn(COMMITTED, [], 1, 1, 1, 1, Finished, true), LATE_WAITER.(pc := Waiting(0)), LATE_WAITER])
  {
    OneWaitsOneComes();
    var w, x, z := LATE_WAITER.(pc := Waiting(0)), LATE_WAITER, NEW_TXN.(waitcnt := 1, came := 1);
    var c := z.(viaCommit := true);
    var d := c.(sem := 1, posted := 1);
    hide Reachable;
    ReachableStep([z, w, x], BeginCommit(0), [c.(pc := Scanning(0)), w, x]);
    ReachableStep([c.(pc := Scanning(0)), w, x], Step(0), [c.(pc := Checking(0)), w, x]);
    ReachableStep([c.(pc := Checking(0)), w, x], Step(0), [c.(pc := Snapshot(true)), w, x]);
    ReachableStep([c.(pc := Snapshot(true)), w, x], Step(0), [c.(pc := Releasing(true, 1)), w, x]);
    ReachableStep([c.(pc := Releasing(true, 1)), w, x], Step(0), [d.(pc := Releasing(true, 0)), w, x]);
    ReachableStep([d.(pc := Releasing(true, 0)), w, x], Step(0), [d.(pc := Deciding), w, x]);
    ReachableStep([d.(pc := Deciding), w, x], Step(0), [d.(pc := Finished, status := COMMITTED), w, x]);
  }

  /** Transaction 1 waits for 0, which has aborted and posted a token for it. */
  lemma AbortedWithWaiter()
    ensures Reachable([Txn(ABORTED, [], 1, 1, 1, 1, Finished, false), LATE_WAITER.(pc := Waiting(0))])
  {
    OneWaits();
    var w, z := LATE_WAITER.(pc := Waiting(0)), NEW_TXN.(waitcnt := 1, came := 1);
    var a := z.(status := ABORTED);
    var d := a.(sem := 1, posted := 1);
    hide Reachable;
    ReachableStep([z, w], BeginAbort(0), [z.(pc := Aborting), w]);
    ReachableStep([z.(pc := Aborting), w], Step(0), [z.(pc := Marking), w]);
    ReachableStep([z.(pc := Marking), w], Step(0), [a.(pc := Snapshot(false)), w]);
    ReachableStep([a.(pc := Snapshot(false)), w], Step(0), [a.(pc := Releasing(false, 1)), w]);
    ReachableStep([a.(pc := Releasing(false, 1)), w], Step(0), [d.(pc := Releasing(false, 0)), w]);
    ReachableStep([d.(pc := Releasing(false, 0)), w], Step(0), [d.(pc := Finished), w]);
  }

  /** The run takes s to r. */
  ghost predicate Leads(s: State, run: seq<Action>, r: State) {
    ValidRun(s, run) && Exec(s, run) == r
  }

  lemma LeadsFrom(s: State, a: Action, mid: State, run: seq<Action>, r: State)
    requires Enabled(s, a) && Apply(s, a) == mid && Leads(mid, run, r)
    ensures Leads(s, [a] + run, r)
  {
    assert ([a] + run)[1..] == run;
  }

  /** An abort lets a waiter that came in time through, and it aborts in turn. */
  lemma AbortReleases() returns (s: State, run: seq<Action>)
    ensures Reachable(s) && |s| == 2
    ensures s[0].pc.Finished? && s[0].status == ABORTED && WaitsOn(s[1], 0)
    ensures ValidRun(s, run) && |Exec(s, run)| == 2
    ensures Exec(s, run)[1].pc.Finished? && Exec(s, run)[1].status == ABORTED
  {
    AbortedWithWaiter();
    var one, d := LATE_WAITER, Txn(ABORTED, [], 1, 1, 1, 1, Finished, false);
    s := [d, one.(pc := Waiting(0))];
    var e, a := d.(sem := 0), one.(status := ABORTED);
    var r := [e, a.(pc := Finished)];
    hide Reachable, Leads;
    run := [];
    assert Leads(r, run, r) by { StaysPut(r); }
    LeadsFrom([e, a.(pc := Releasing(false, 0))], Step(1), r, run, r);
    run := [Step(1)] + run;
    LeadsFrom([e, a.(pc := Snapshot(false))], Step(1), [e, a.(pc := Releasing(false, 0))], run, r);
    run := [Step(1)] + run;
    LeadsFrom([e, one.(pc := Marking)], Step(1), [e, a.(pc := Snapshot(false))], run, r);
    run := [Step(1)] + run;
    LeadsFrom([e, one.(pc := Aborting)], Step(1), [e, one.(pc := Marking)], run, r);
    run := [Step(1)] + run;
    LeadsFrom([e, one.(pc := Checking(0))], Step(1), [e, one.(pc := Aborting)], run, r);
    run := [Step(1)] + run;
    LeadsFrom([e, one.(pc := Scanning(1))], Step(1), [e, one.(pc := Checking(0))], run, r);
    run := [Step(1)] + run;
    LeadsFrom(s, Step(1), [e, one.(pc := Scanning(1))], run, r);
    run := [Step(1)] + run;
    assert Leads(s, run, r);
    LeadsThere(s, run, r);
  }

  lemma StaysPut(s: State)
    ensures Leads(s, [], s)
  {
  }

  lemma LeadsThere(s: State, run: seq<Action>, r: State)
    requires Leads(s, run, r)
    ensures ValidRun(s, run) && Exec(s, run) == r
  {
  }

  /** A wake-up is taken by somebody else: 0 has committed and posted a token for 1, but 2, which read that 0 was
      pending, stores its count, takes the token, and then 1 waits in every continuation. */
  lemma WakeUpCanBeTaken() returns (s: State)
    ensures Reachable(s) && |s| == 3 && s[0].pc.Finished? && s[0].status == COMMITTED
    ensures WaitsOn(s[1], 0) && Waiters(s, 0) == 1 <= s[0].sem
    ensures ValidRun(s, [Step(2), Step(2), Step(2)])
    ensures var r := Exec(s, [Step(2), Step(2), Step(2)]);
      |r| == 3 && WaitsOn(r[1], 0) && forall run | ValidRun(r, run) :: Waiters(Exec(r, run), 0) >= 1
  {
    OneTokenForOne();
    var w, x, done := LATE_WAITER.(pc := Waiting(0)), LATE_WAITER, Txn(COMMITTED, [], 1, 1, 1, 1, Finished, true);
    s := [done, w, x];
    var s1, s2 := [done, w, x.(pc := Counted(0, 1))], [done.(waitcnt := 2, came := 2), w, w];
    var r := [done.(waitcnt := 2, came := 2, sem := 0), w, x.(pc := Scanning(1))];
    OneWaiter(done, w, x);
    OneWaiter(r[0], w, r[2]);
    hide Reachable;
    ReachableStep(s, Step(2), s1);
    ReachableStep(s1, Step(2), s2);
    ReachableStep(s2, Step(2), r);
    assert Apply(s, Step(2)) == s1 && Apply(s1, Step(2)) == s2 && Apply(s2, Step(2)) == r;
    ThreeSteps(s, s1, s2, Step(2));
    WaitersReleasedIff(r, 0);
  }

  lemma OneWaiter(x: Txn, y: Txn, z: Txn)
    requires !WaitsOn(x, 0) && WaitsOn(y, 0) && !WaitsOn(z, 0)
    ensures Waiters([x, y, z], 0) == 1
  {
    assert [x, y, z][..2] == [x, y] && [x, y][..1] == [x] && [x][..0] == [];
    assert Waiters([x], 0) == Waiters([x][..0], 0) == 0;
    assert Waiters([x, y], 0) == 1;
  }

  lemma ThreeSteps(s: State, s1: State, s2: State, a: Action)
    requires Enabled(s, a) && Apply(s, a) == s1 && Enabled(s1, a) && Apply(s1, a) == s2 && Enabled(s2, a)
    ensures ValidRun(s, [a, a, a]) && Exec(s, [a, a, a]) == Apply(s2, a)
  {
    hide Apply, Enabled;
    assert [a, a, a][1..] == [a, a] && [a, a][1..] == [a] && [a][1..] == [];
    assert ValidRun(s2, [a]) && Exec(s2, [a]) == Apply(s2, a);
    assert ValidRun(s1, [a, a]) && Exec(s1, [a, a]) == Apply(s2, a);
  }

  /** Transactions 1 and 2, both dependent on 0, have both loaded its waiter count as 0. */
  lemma TwoLoadsReachable()
    ensures var loaded := LATE_WAITER.(pc := Counted(0, 0)); Reachable([NEW_TXN, loaded, loaded])
  {
    LateWaiterReachable();
    var one, two := LATE_WAITER, NEW_TXN.(depends := [0]);
    var committing, loaded := two.(pc := Scanning(0), viaCommit := true), one.(pc := Counted(0, 0));
    assert AddDependency([], 0) == [0];
    ReachableStep([NEW_TXN, one], Create, [NEW_TXN, one, NEW_TXN]);
    ReachableStep([NEW_TXN, one, NEW_TXN], Depend(2, 0), [NEW_TXN, one, two]);
    ReachableStep([NEW_TXN, one, two], BeginCommit(2), [NEW_TXN, one, committing]);
    ReachableStep([NEW_TXN, one, committing], Step(2), [NEW_TXN, one, one]);
    ReachableStep([NEW_TXN, one, one], Step(1), [NEW_TXN, loaded, one]);
    ReachableStep([NEW_TXN, loaded, one], Step(2), [NEW_TXN, loaded, loaded]);
  }

  /** They have both stored 1, and 0 has begun to commit. */
  lemma BothStored()
    ensures var w := LATE_WAITER.(pc := Waiting(0));
      Reachable([Txn(PENDING, [], 1, 0, 2, 0, Checking(0), true), w, w])
  {
    TwoLoadsReachable();
    var loaded, w := LATE_WAITER.(pc := Counted(0, 0)), LATE_WAITER.(pc := Waiting(0));
    var zero, c := NEW_TXN.(waitcnt := 1, came := 1), NEW_TXN.(waitcnt := 1, came := 2, viaCommit := true);
    hide Reachable;
    ReachableStep([NEW_TXN, loaded, loaded], Step(1), [zero, w, loaded]);
    ReachableStep([zero, w, loaded], Step(2), [c.(viaCommit := false), w, w]);
    ReachableStep([c.(viaCommit := false), w, w], BeginCommit(0), [c.(pc := Scanning(0)), w, w]);
    ReachableStep([c.(pc := Scanning(0)), w, w], Step(0), [c.(pc := Checking(0)), w, w]);
  }

  /** It has posted once and finished. */
  lemma OnePostForTwo()
    ensures var w := LATE_WAITER.(pc := Waiting(0));
      Reachable([Txn(COMMITTED, [], 1, 1, 2, 1, Finished, true), w, w])
  {
    BothStored();
    var w, c := LATE_WAITER.(pc := Waiting(0)), NEW_TXN.(waitcnt := 1, came := 2, viaCommit := true);
    var d := c.(sem := 1, posted := 1);
    hide Reachable;
    ReachableStep([c.(pc := Checking(0)), w, w], Step(0), [c.(pc := Snapshot(true)), w, w]);
    ReachableStep([c.(pc := Snapshot(true)), w, w], Step(0), [c.(pc := Releasing(true, 1)), w, w]);
    ReachableStep([c.(pc := Releasing(true, 1)), w, w], Step(0), [d.(pc := Releasing(true, 0)), w, w]);
    ReachableStep([d.(pc := Releasing(true, 0)), w, w], Step(0), [d.(pc := Deciding), w, w]);
    ReachableStep([d.(pc := Deciding), w, w], Step(0), [d.(pc := Finished, status := COMMITTED), w, w]);
  }

  /** A wake-up is lost, too, when the stores of two waiters overtake each other: both come in time, 0 posts as
      often as its waiter count says, and yet one of them waits for ever. */
  lemma IncrementCanBeLost() returns (s: State)
    ensures Reachable(s) && |s| == 3
    ensures s[0].pc.Finished? && s[0].status == COMMITTED && WaitsOn(s[1], 0) && WaitsOn(s[2], 0)
    ensures s[0].waitcnt == s[0].posted == 1
    ensures forall run | ValidRun(s, run) :: Waiters(Exec(s, run), 0) >= 1
  {
    OnePostForTwo();
    var w := LATE_WAITER.(pc := Waiting(0));
    s := [Txn(COMMITTED, [], 1, 1, 2, 1, Finished, true), w, w];
    WaitersReleasedIff(s, 0);
  }
}
