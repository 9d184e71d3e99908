/**
 The re-entrant lock of a resource: a semaphore shared by all processes, and in each
 process the id of the thread that holds it. A transition system over any number of
 processes and threads; every step is one access to the shared state.
 */
module Lock {
  import opened Sets

  datatype Thread = Thread(process: int, tid: int)

  /** A call of lock() under way: on the fast path, or through the semaphore. */
  datatype Frame = Fast | Slow(phase: Phase)

  datatype Phase = Waiting | Acquired | Body | Releasing

  /** `lockingId` maps a process to the id in its __locking_thread_id, if any. Threads not
      in `stacks` are not inside any call. */
  datatype State = State(sem: int, lockingId: map<int, int>, stacks: map<Thread, seq<Frame>>)

  datatype Step =
    | Enter(t: Thread)    // calls lock(): reads __locking_thread_id
    | Acquire(t: Thread)  // semaphore.acquire returns
    | Timeout(t: Thread)  // semaphore.acquire gives up
    | SetId(t: Thread)    // writes __locking_thread_id
    | Exit(t: Thread)     // leaves the body, normally or by an exception; the outermost call clears the id
    | Release(t: Thread)  // semaphore.release

  const INITIAL := State(1, map[], map[])

  function StackOf(s: State, t: Thread): seq<Frame> {
    if t in s.stacks then s.stacks[t] else []
  }

  function Top(q: seq<Frame>): Frame
    requires q != []
  {
    q[|q| - 1]
  }

  predicate OwnsId(s: State, t: Thread) {
    t.process in s.lockingId && s.lockingId[t.process] == t.tid
  }

  predicate Enabled(s: State, st: Step) {
    var q := StackOf(s, st.t);
    match st
    case Enter(t) => q == [] || Top(q) == Fast || Top(q) == Slow(Body)
    case Acquire(t) => q != [] && Top(q) == Slow(Waiting) && s.sem > 0
    case Timeout(t) => q != [] && Top(q) == Slow(Waiting)
    case SetId(t) => q != [] && Top(q) == Slow(Acquired)
    case Exit(t) => q != [] && (Top(q) == Fast || Top(q) == Slow(Body))
    case Release(t) => q != [] && Top(q) == Slow(Releasing)
  }

  function SetStack(s: State, t: Thread, q: seq<Frame>): State {
    s.(stacks := s.stacks[t := q])
  }

  function SetTop(q: seq<Frame>, f: Frame): seq<Frame>
    requires q != []
  {
    q[..|q| - 1] + [f]
  }

  function Pop(q: seq<Frame>): seq<Frame>
    requires q != []
  {
    q[..|q| - 1]
  }

  function Next(s: State, st: Step): State
    requires Enabled(s, st)
  {
    var q := StackOf(s, st.t);
    match st
    case Enter(t) => SetStack(s, t, q + [if OwnsId(s, t) then Fast else Slow(Waiting)])
    case Acquire(t) => SetStack(s, t, SetTop(q, Slow(Acquired))).(sem := s.sem - 1)
    case Timeout(t) => SetStack(s, t, Pop(q))
    case SetId(t) => SetStack(s, t, SetTop(q, Slow(Body))).(lockingId := s.lockingId[t.process := t.tid])
    case Exit(t) =>
      if Top(q) == Fast then SetStack(s, t, Pop(q))
      else SetStack(s, t, SetTop(q, Slow(Releasing))).(lockingId := s.lockingId - {t.process})
    case Release(t) => SetStack(s, t, Pop(q)).(sem := s.sem + 1)
  }

  /* ---------- the invariant ---------- */

  predicate HoldsSemaphore(q: seq<Frame>) {
    exists f <- q :: f.Slow? && f.phase != Waiting
  }

  function Holders(s: State): set<Thread> {
    set t | t in s.stacks && HoldsSemaphore(s.stacks[t])
  }

  /** One call goes through the semaphore; the calls inside its body are on the fast path. */
  predicate WellNested(q: seq<Frame>) {
    q != [] ==>
      && q[0].Slow?
      && (forall i :: 0 < i < |q| ==> q[i] == Fast)
      && (|q| > 1 ==> q[0] == Slow(Body))
  }

  ghost predicate Nested(s: State) {
    && (forall t <- s.stacks :: WellNested(s.stacks[t]))
    && (forall t :: OwnsId(s, t) <==> StackOf(s, t) != [] && StackOf(s, t)[0] == Slow(Body))
  }

  ghost predicate Inv(s: State) {
    && Nested(s)
    && s.sem >= 0
    && s.sem + |Holders(s)| == 1
  }

  lemma StackHolds(q: seq<Frame>)
    requires WellNested(q)
    ensures HoldsSemaphore(q) <==> q != [] && q[0].phase != Waiting
  {
  }

  lemma OneHolder(s: State, t: Thread, u: Thread)
    requires Inv(s) && t in Holders(s) && u in Holders(s)
    ensures t == u && s.sem == 0
  {
    if t != u {
      assert {t, u} <= Holders(s);
      assert |{t, u}| <= |Holders(s)| by { SubsetSize({t, u}, Holders(s)); }
    }
  }

  /** How the holders change when one thread's calls change. */
  lemma HoldersAfter(s: State, t: Thread, q: seq<Frame>)
    ensures var s' := SetStack(s, t, q);
            Holders(s') == if HoldsSemaphore(q) then Holders(s) + {t} else Holders(s) - {t}
  {
  }

  /** A thread that has not entered owns no id; the fast path is open to the holder only. */
  lemma FastPathOnlyForHolder(s: State, t: Thread)
    requires Inv(s) && Enabled(s, Enter(t))
    ensures Top(StackOf(Next(s, Enter(t)), t)) == Fast <==> t in Holders(s)
  {
  }

  /** The owner of the id of a process holds the semaphore, so nobody else can. */
  lemma OwnerHolds(s: State, t: Thread)
    requires Nested(s) && OwnsId(s, t)
    ensures t in Holders(s)
  {
  }

  lemma SameStacksSameHolders(s: State, s': State)
    requires s'.stacks == s.stacks
    ensures Holders(s') == Holders(s)
  {
  }

  lemma NestedAfter(s: State, st: Step)
    requires Inv(s) && Enabled(s, st)
    ensures Nested(Next(s, st))
  {
    var s', t, q := Next(s, st), st.t, StackOf(s, st.t);
    var q' := StackOf(s', t);
    assert WellNested(q);
    assert WellNested(q');
    forall u | u != t ensures StackOf(s', u) == StackOf(s, u) {
    }
    if st.SetId? || st.Exit? {
      // the semaphore is held here, so no other thread owns an id
      forall u | u != t ensures !OwnsId(s, u) {
        if OwnsId(s, u) {
          OwnerHolds(s, u);
          StackHolds(q);
          assert t in Holders(s);
          OneHolder(s, t, u);
        }
      }
    }
  }

  /** What a step does to the calls of its thread, and to the semaphore. */
  lemma StepOfThread(s: State, st: Step)
    requires Inv(s) && Enabled(s, st)
    ensures var s', t := Next(s, st), st.t;
            var held, held' := HoldsSemaphore(StackOf(s, t)), HoldsSemaphore(StackOf(s', t));
            && s'.stacks == s.stacks[t := StackOf(s', t)]
            && s'.sem >= 0
            && s'.sem - s.sem == (if held then 1 else 0) - (if held' then 1 else 0)
  {
    NestedAfter(s, st);
    assert WellNested(StackOf(s, st.t)) && WellNested(StackOf(Next(s, st), st.t));
    StackHolds(StackOf(s, st.t));
    StackHolds(StackOf(Next(s, st), st.t));
  }

  /** Every step of every thread keeps the invariant. */
  lemma NextKeeps(s: State, st: Step)
    requires Inv(s) && Enabled(s, st)
    ensures Inv(Next(s, st))
  {
    hide HoldsSemaphore, Next, Enabled, Nested;
    var s', t := Next(s, st), st.t;
    NestedAfter(s, st);
    StepOfThread(s, st);
    HoldersAfter(s, t, StackOf(s', t));
    SameStacksSameHolders(SetStack(s, t, StackOf(s', t)), s');
    HolderIff(s, t);
  }

  lemma HolderIff(s: State, t: Thread)
    ensures t in Holders(s) <==> HoldsSemaphore(StackOf(s, t))
  {
  }

  /* ---------- runs ---------- */

  ghost predicate IsStep(s: State, s': State) {
    exists st :: Enabled(s, st) && s' == Next(s, st)
  }

  ghost predicate IsRun(run: seq<State>) {
    |run| > 0 && forall i :: 0 < i < |run| ==> IsStep(run[i - 1], run[i])
  }

  lemma {:induction false} RunKeeps(run: seq<State>, i: nat)
    requires IsRun(run) && Inv(run[0]) && i < |run|
    ensures Inv(run[i])
  {
    if i > 0 {
      RunKeeps(run, i - 1);
      var st :| Enabled(run[i - 1], st) && run[i] == Next(run[i - 1], st);
      NextKeeps(run[i - 1], st);
    }
  }

  /** The thread is in the body of a lock(), at some depth. */
  predicate InBody(s: State, t: Thread) {
    StackOf(s, t) != [] && (Top(StackOf(s, t)) == Fast || Top(StackOf(s, t)) == Slow(Body))
  }

  /** Over all interleavings: one thread at most is in the body, of all threads of all
      processes; while it is, the semaphore is 0 and its process knows its id. */
  lemma MutualExclusion(run: seq<State>, i: nat, t: Thread, u: Thread)
    requires IsRun(run) && run[0] == INITIAL && i < |run|
    requires InBody(run[i], t)
    ensures InBody(run[i], u) ==> u == t
    ensures run[i].sem == 0 && OwnsId(run[i], t)
  {
    RunKeeps(run, i);
    var s := run[i];
    BodyOwns(s, t);
    OwnerHolds(s, t);
    OneHolder(s, t, t);
    if InBody(s, u) {
      BodyOwns(s, u);
      OwnerHolds(s, u);
      OneHolder(s, t, u);
    }
  }

  lemma BodyOwns(s: State, t: Thread)
    requires Inv(s) && InBody(s, t)
    ensures OwnsId(s, t)
  {
  }

  /** An inner call, whatever happens between its entry and its exit, gives nothing up:
      neither step changes the semaphore or the id of any process, and the thread goes on
      holding the lock. */
  lemma InnerCallKeepsLock(run: seq<State>, i: nat, t: Thread, st: Step)
    requires IsRun(run) && run[0] == INITIAL && i < |run|
    requires Enabled(run[i], st) && ((st == Enter(t) && InBody(run[i], t))
                 || (st == Exit(t) && |StackOf(run[i], t)| > 1))
    ensures var s, s' := run[i], Next(run[i], st);
            && s'.sem == s.sem == 0 && s'.lockingId == s.lockingId
            && Holders(s') == Holders(s) == {t} && InBody(s', t)
  {
    RunKeeps(run, i);
    var s, q := run[i], StackOf(run[i], t);
    BodyOwns(s, t);
    OwnerHolds(s, t);
    forall u | u in Holders(s) ensures u == t {
      OneHolder(s, t, u);
    }
    OneHolder(s, t, t);
    var q' := StackOf(Next(s, st), t);
    assert q'[0] == q[0];
    HoldersAfter(s, t, q');
    assert Holders(s) == {t};
  }

  /** Leaving the outermost call clears the id; the semaphore is given back after that. */
  lemma OutermostExitGivesUp(run: seq<State>, i: nat, t: Thread)
    requires IsRun(run) && run[0] == INITIAL && i < |run|
    requires Enabled(run[i], Exit(t)) && |StackOf(run[i], t)| == 1
    ensures var s := Next(run[i], Exit(t));
            && !OwnsId(s, t) && !InBody(s, t) && s.sem == 0
            && Enabled(s, Release(t)) && Next(s, Release(t)).sem == 1 && Holders(Next(s, Release(t))) == {}
  {
    RunKeeps(run, i);
    var s := Next(run[i], Exit(t));
    NextKeeps(run[i], Exit(t));
    NextKeeps(s, Release(t));
    StackHolds(StackOf(s, t));
    assert t in Holders(s);
    OneHolder(s, t, t);
    var s' := Next(s, Release(t));
    assert |Holders(s')| == 0;
  }

  /** What a thread can do in a reachable state: outside any call, enter; in the body, enter
      again or leave; waiting, give up, or get the semaphore exactly if it is not 0;
      otherwise take the one step that comes next. */
  lemma EnabledExactly(run: seq<State>, i: nat, t: Thread)
    requires IsRun(run) && run[0] == INITIAL && i < |run|
    ensures var s, q := run[i], StackOf(run[i], t);
            && (Enabled(s, Enter(t)) <==> q == [] || InBody(s, t))
            && (Enabled(s, Exit(t)) <==> InBody(s, t))
            && (Enabled(s, Timeout(t)) <==> q == [Slow(Waiting)])
            && (Enabled(s, Acquire(t)) <==> q == [Slow(Waiting)] && s.sem > 0)
            && (Enabled(s, SetId(t)) <==> q == [Slow(Acquired)])
            && (Enabled(s, Release(t)) <==> q == [Slow(Releasing)])
            && (q == [] || InBody(s, t) || q == [Slow(Waiting)] || q == [Slow(Acquired)] || q == [Slow(Releasing)])
  {
    RunKeeps(run, i);
    if StackOf(run[i], t) != [] { WaitingAlone(StackOf(run[i], t)); }
  }

  lemma WaitingAlone(q: seq<Frame>)
    requires WellNested(q) && q != []
    ensures q == [Slow(Waiting)] || q == [Slow(Acquired)] || q == [Slow(Releasing)]
            || Top(q) == Fast || q == [Slow(Body)]
    ensures Top(q) == Slow(Body) ==> q == [Slow(Body)]
  {
    if |q| == 1 {
      assert q == [Slow(q[0].phase)];
      match q[0].phase {
        case Waiting =>
        case Acquired =>
        case Body =>
        case Releasing =>
      }
    } else {
      assert q[|q| - 1] == Fast;
    }
  }

  /** When nobody has the semaphore, a thread that calls lock() is in the body three steps
      later, if no other comes in between. */
  lemma FreeLockIsTaken(run: seq<State>, i: nat, t: Thread) returns (s1: State, s2: State, s3: State)
    requires IsRun(run) && run[0] == INITIAL && i < |run|
    requires Holders(run[i]) == {} && StackOf(run[i], t) == []
    ensures run[i].sem == 1
    ensures Enabled(run[i], Enter(t)) && s1 == Next(run[i], Enter(t))
    ensures Enabled(s1, Acquire(t)) && s2 == Next(s1, Acquire(t))
    ensures Enabled(s2, SetId(t)) && s3 == Next(s2, SetId(t)) && InBody(s3, t)
  {
    RunKeeps(run, i);
    assert run[i].sem == 1 && !OwnsId(run[i], t);
    s1, s2, s3 := ThreeSteps(run[i], t);
  }

  lemma ThreeSteps(s: State, t: Thread) returns (s1: State, s2: State, s3: State)
    requires StackOf(s, t) == [] && !OwnsId(s, t) && s.sem > 0
    ensures Enabled(s, Enter(t)) && s1 == Next(s, Enter(t))
    ensures Enabled(s1, Acquire(t)) && s2 == Next(s1, Acquire(t))
    ensures Enabled(s2, SetId(t)) && s3 == Next(s2, SetId(t)) && InBody(s3, t)
    ensures forall u :: u != t ==> StackOf(s3, u) == StackOf(s, u)
  {
    s1 := Next(s, Enter(t));
    assert StackOf(s1, t) == [Slow(Waiting)];
    s2 := Next(s1, Acquire(t));
    assert StackOf(s2, t) == [Slow(Acquired)];
    s3 := Next(s2, SetId(t));
    assert StackOf(s3, t) == [Slow(Body)];
  }

  /** An inner call that is entered and left leaves no trace; a call that gives up waiting
      leaves none but having been made. */
  lemma CallsLeaveNoTrace(run: seq<State>, i: nat, t: Thread)
    requires IsRun(run) && run[0] == INITIAL && i < |run|
    ensures InBody(run[i], t) ==>
              var s := Next(run[i], Enter(t));
              Enabled(s, Exit(t)) && Next(s, Exit(t)) == run[i]
    ensures Enabled(run[i], Timeout(t)) ==>
              var s := Next(run[i], Timeout(t));
              StackOf(s, t) == [] && s == run[i].(stacks := run[i].stacks[t := []])
  {
    RunKeeps(run, i);
    var s := run[i];
    if InBody(s, t) {
      BodyOwns(s, t);
      var q := StackOf(s, t);
      var s1 := Next(s, Enter(t));
      assert StackOf(s1, t) == q + [Fast] && Pop(q + [Fast]) == q;
      assert s.stacks[t := q] == s.stacks;
    }
    if Enabled(s, Timeout(t)) { WaitingAlone(StackOf(s, t)); }
  }

  /** The semaphore is 0 for as long as a thread has it: from the step that acquires it,
      through the check of its value, to the step that releases it. */
  lemma ZeroWhileHeld(run: seq<State>, i: nat, t: Thread)
    requires IsRun(run) && run[0] == INITIAL && i < |run| && t in Holders(run[i])
    ensures run[i].sem == 0
  {
    RunKeeps(run, i);
    OneHolder(run[i], t, t);
  }

  /* ---------- creating the lock of a base ---------- */

  /** Base.create_lock: forces a leftover semaphore to 1. */
  method NormaliseSemaphore(leftover: nat) returns (sem: nat)
    ensures sem == 1
  {
    sem := leftover;
    if sem == 0 {
      sem := sem + 1; // release
    } else {
      while sem > 1
        invariant sem >= 1
      {
        sem := sem - 1; // acquire
      }
    }
  }

  /** Forcing the semaphore to 1 makes a sound lock exactly when no thread holds it. */
  lemma NormalisingExact(s: State)
    requires Nested(s)
    ensures Inv(s.(sem := 1)) <==> Holders(s) == {}
  {
    SameStacksSameHolders(s, s.(sem := 1));
    assert Nested(s.(sem := 1)) by {
      assert forall t :: StackOf(s.(sem := 1), t) == StackOf(s, t);
      assert forall t :: OwnsId(s.(sem := 1), t) <==> OwnsId(s, t);
    }
  }

  /** Doing it while a thread is in the body lets a second one in. */
  lemma NormalisingWhileHeld(s: State, t: Thread, u: Thread) returns (s1: State, s2: State, s3: State)
    requires Inv(s) && InBody(s, t) && StackOf(s, u) == [] && u != t
    ensures IsStep(s.(sem := 1), s1) && IsStep(s1, s2) && IsStep(s2, s3)
    ensures InBody(s3, t) && InBody(s3, u)
  {
    assert !OwnsId(s, u);
    var s0 := s.(sem := 1);
    assert forall v :: StackOf(s0, v) == StackOf(s, v);
    assert !OwnsId(s0, u);
    hide Enabled, Next, Holders, Nested, OwnsId;
    s1, s2, s3 := ThreeSteps(s0, u);
  }
}
