/**
The three-state futex mutex: one shared word (0 free, 1 held, 2 held with possible sleepers) and any number of
threads, each somewhere inside `lock_mutex` or `unlock_mutex`. Every read, store and atomic operation on the word
is one step, so all interleavings are runs of `Next`.
 */
module FutexMutex {

  const LOCK_SPINS: nat := 100
  const WAKE_SPINS: nat := 200

  /** Where a thread is: each constructor names the next shared-memory action of that thread. */
  datatype Pc =
    | Outside            // in neither call, not holding
    | Spinning(i: nat)   // lock: compare-exchange number i of the spin loop
    | Swapping           // lock: exchange in 2
    | CallingWait        // lock: FUTEX_WAIT if the word is 2
    | Asleep             // lock: inside FUTEX_WAIT
    | Holding            // in the critical section
    | Reading            // unlock: test whether the word is 2
    | Storing            // unlock: saw 2, plain store of 0
    | Clearing           // unlock: saw something else, exchange in 0
    | Peeking(i: nat)    // unlock: read the word in round i of the hand-over loop
    | Handing(i: nat)    // unlock: saw a held word, compare-exchange 1 by 2
    | Waking             // unlock: FUTEX_WAKE one sleeper

  datatype State = State(word: int, pc: seq<Pc>)

  /** The word after `cmpxchg(m, expected, desired)`; the call itself returns the word before. */
  function CmpXchg(word: int, expected: int, desired: int): int {
    if word == expected then desired else word
  }

  function Goto(s: State, t: nat, p: Pc): State
    requires t < |s.pc|
  {
    s.(pc := s.pc[t := p])
  }

  /** Where thread t goes after compare-exchange number i of the spin loop returned c. */
  function AfterSpin(i: nat, c: int): Pc {
    if c == 0 then Holding
    else if i + 1 < LOCK_SPINS then Spinning(i + 1)
    else if c == 1 then Swapping
    else CallingWait
  }

  function AfterPeek(i: nat): Pc {
    if i + 1 < WAKE_SPINS then Peeking(i + 1) else Waking
  }

  /** Where a thread goes whose action at p finds this word; a wake finds nobody asleep. */
  function After(p: Pc, word: int): Pc {
    match p
    case Outside => Spinning(0)
    case Spinning(i) => AfterSpin(i, word)
    case Swapping => if word == 0 then Holding else CallingWait
    case CallingWait => if word == 2 then Asleep else Swapping
    case Asleep => Swapping
    case Holding => Reading
    case Reading => if word == 2 then Storing else Clearing
    case Storing => Peeking(0)
    case Clearing => if word == 1 then Outside else Peeking(0)
    case Peeking(i) => if word != 0 then Handing(i) else AfterPeek(i)
    case Handing(i) => if word != 0 then Outside else AfterPeek(i)
    case Waking => Outside
  }

  /** The word the action leaves. */
  function Leaves(p: Pc, word: int): int {
    match p
    case Spinning(_) => CmpXchg(word, 0, 1)
    case Swapping => 2
    case Storing => 0
    case Clearing => 0
    case Handing(_) => CmpXchg(word, 1, 2)
    case _ => word
  }

  /** One action of thread t. */
  function Act(s: State, t: nat): State
    requires t < |s.pc|
  {
    Goto(s, t, After(s.pc[t], s.word)).(word := Leaves(s.pc[t], s.word))
  }

  function WakeOne(s: State, t: nat, w: nat): State
    requires t < |s.pc| && w < |s.pc|
  {
    Goto(Goto(s, t, Outside), w, Swapping)
  }

  /** One action of thread t. Which sleeper a wake chooses, and when a sleeper wakes on its own, is left open. */
  ghost predicate Step(s: State, t: nat, s': State)
    requires t < |s.pc|
  {
    if s.pc[t] == Waking && SomeAsleep(s)
    then exists w :: 0 <= w < |s.pc| && s.pc[w] == Asleep && s' == WakeOne(s, t, w)
    else s' == Act(s, t)
  }

  /** A step of some thread, or a new thread appearing. */
  ghost predicate Next(s: State, s': State) {
    || (exists t: nat | t < |s.pc| :: Step(s, t, s'))
    || s' == s.(pc := s.pc + [Outside])
  }

  ghost predicate Init(s: State) {
    s.word == 0 && forall t :: 0 <= t < |s.pc| ==> s.pc[t] == Outside
  }

  ghost predicate IsRun(r: seq<State>) {
    |r| > 0 && forall i :: 0 < i < |r| ==> Next(r[i - 1], r[i])
  }

  /** The thread is between acquiring the mutex and giving it back. */
  predicate Owns(p: Pc) {
    p.Holding? || p.Reading? || p.Storing? || p.Clearing?
  }

  /** The thread will either look after a sleeper or exchange in 2 before it can leave or sleep. */
  predicate Responsible(p: Pc) {
    p.Peeking? || p.Handing? || p.Waking? || p.Swapping?
  }

  ghost predicate AtMostOneOwner(s: State) {
    forall t, u :: 0 <= t < |s.pc| && 0 <= u < |s.pc| && Owns(s.pc[t]) && Owns(s.pc[u]) ==> t == u
  }

  ghost predicate SomeOwner(s: State) {
    exists t :: 0 <= t < |s.pc| && Owns(s.pc[t])
  }

  ghost predicate SomeAsleep(s: State) {
    exists t :: 0 <= t < |s.pc| && s.pc[t] == Asleep
  }

  ghost predicate SomeResponsible(s: State) {
    exists t :: 0 <= t < |s.pc| && Responsible(s.pc[t])
  }

  ghost predicate LoopBounds(s: State) {
    forall t :: 0 <= t < |s.pc| ==>
      && (s.pc[t].Spinning? ==> s.pc[t].i < LOCK_SPINS)
      && (s.pc[t].Peeking? || s.pc[t].Handing? ==> s.pc[t].i < WAKE_SPINS)
  }

  /** What every step keeps. */
  ghost predicate Inv(s: State) {
    && 0 <= s.word <= 2
    && AtMostOneOwner(s)
    && (s.word == 0 <==> !SomeOwner(s))
    && (forall t :: 0 <= t < |s.pc| && s.pc[t] == Storing ==> s.word == 2)
    && (SomeAsleep(s) ==> s.word == 2 || SomeResponsible(s))
    && LoopBounds(s)
  }

  /** Ownership, word and pending wake-ups after thread t alone moved to p'. */
  lemma MoveKeepsInv(s: State, t: nat, p': Pc, word': int)
    requires Inv(s) && t < |s.pc| && 0 <= word' <= 2
    requires Owns(p') && !Owns(s.pc[t]) ==> s.word == 0
    requires word' == 0 <==> !Owns(p') && (Owns(s.pc[t]) || s.word == 0)
    requires s.word == 2 && word' != 2 ==> word' == 0 && Responsible(p')
    requires p' == Storing ==> word' == 2
    requires p' == Asleep ==> word' == 2
    requires Responsible(s.pc[t]) ==> Responsible(p') || word' == 2
    requires p'.Spinning? ==> p'.i < LOCK_SPINS
    requires p'.Peeking? || p'.Handing? ==> p'.i < WAKE_SPINS
    ensures Inv(Goto(s, t, p').(word := word'))
  {
    var s' := Goto(s, t, p').(word := word');
    assert forall u :: 0 <= u < |s.pc| ==> s'.pc[u] == if u == t then p' else s.pc[u];
    if word' == 0 {
      assert !SomeOwner(s');
    } else if Owns(p') {
      assert Owns(s'.pc[t]);
    } else {
      var u :| 0 <= u < |s.pc| && Owns(s.pc[u]);
      assert Owns(s'.pc[u]);
    }
    if SomeAsleep(s') && word' != 2 {
      var a :| 0 <= a < |s'.pc| && s'.pc[a] == Asleep;
      assert s.pc[a] == Asleep;
      if s.word == 2 {
        assert Responsible(s'.pc[t]);
      } else {
        var u :| 0 <= u < |s.pc| && Responsible(s.pc[u]);
        assert Responsible(s'.pc[u]);
      }
    }
  }

  lemma WakeKeepsInv(s: State, t: nat, w: nat)
    requires Inv(s) && t < |s.pc| && w < |s.pc| && s.pc[t] == Waking && s.pc[w] == Asleep
    ensures Inv(WakeOne(s, t, w))
  {
    var s' := WakeOne(s, t, w);
    assert Responsible(s'.pc[w]);
    assert forall u :: 0 <= u < |s.pc| ==> Owns(s'.pc[u]) == Owns(s.pc[u]);
  }

  lemma StepKeepsInv(s: State, t: nat, s': State)
    requires Inv(s) && t < |s.pc| && Step(s, t, s')
    ensures Inv(s')
  {
    if s.pc[t] == Waking && SomeAsleep(s) {
      var w :| 0 <= w < |s.pc| && s.pc[w] == Asleep && s' == WakeOne(s, t, w);
      WakeKeepsInv(s, t, w);
    } else if s.pc[t] == Waking {
      assert !SomeAsleep(s');
      assert forall u :: 0 <= u < |s.pc| ==> Owns(s'.pc[u]) == Owns(s.pc[u]);
    } else {
      assert Owns(s.pc[t]) ==> SomeOwner(s);
      MoveKeepsInv(s, t, s'.pc[t], s'.word);
    }
  }

  lemma SpawnKeepsInv(s: State)
    requires Inv(s)
    ensures Inv(s.(pc := s.pc + [Outside]))
  {
    var s' := s.(pc := s.pc + [Outside]);
    assert forall u :: 0 <= u < |s.pc| ==> s'.pc[u] == s.pc[u];
    if SomeOwner(s) {
      var u :| 0 <= u < |s.pc| && Owns(s.pc[u]);
      assert Owns(s'.pc[u]);
    }
    if SomeResponsible(s) {
      var u :| 0 <= u < |s.pc| && Responsible(s.pc[u]);
      assert Responsible(s'.pc[u]);
    }
  }

  lemma NextKeepsInv(s: State, s': State)
    requires Inv(s) && Next(s, s')
    ensures Inv(s')
  {
    if t: nat :| t < |s.pc| && Step(s, t, s') {
      StepKeepsInv(s, t, s');
    } else {
      SpawnKeepsInv(s);
    }
  }

  /** The invariant holds in every state of every run, for any number of threads and any interleaving. */
  lemma {:induction false} RunKeepsInv(r: seq<State>, i: nat)
    requires IsRun(r) && Init(r[0]) && i < |r|
    ensures Inv(r[i])
  {
    if i > 0 {
      RunKeepsInv(r, i - 1);
      NextKeepsInv(r[i - 1], r[i]);
    }
  }

  /** Mutual exclusion: no two threads are ever both in the critical section. */
  lemma MutualExclusion(r: seq<State>, i: nat, t: nat, u: nat)
    requires IsRun(r) && Init(r[0]) && i < |r|
    requires t < |r[i].pc| && u < |r[i].pc| && r[i].pc[t] == Holding && r[i].pc[u] == Holding
    ensures t == u
  {
    RunKeepsInv(r, i);
  }

  /** No lost wake-up: while a thread sleeps, the word still announces sleepers or some thread has yet to act. */
  lemma NoLostWakeup(r: seq<State>, i: nat, w: nat)
    requires IsRun(r) && Init(r[0]) && i < |r| && w < |r[i].pc| && r[i].pc[w] == Asleep
    ensures (r[i].word == 2 && SomeOwner(r[i])) || SomeResponsible(r[i])
  {
    RunKeepsInv(r, i);
  }

  // ---- the two calls as one thread runs them

  /** One access of a thread to the word: where the thread was, what it found and what it left. */
  datatype Access = Access(at: Pc, found: int, left: int)

  /** The accesses find these words, each is what follows the one before, and the thread has got from start to p. */
  ghost predicate Follows(start: Pc, path: seq<Access>, words: seq<int>, p: Pc)
    requires |path| <= |words|
  {
    && (forall k :: 0 <= k < |path| ==> path[k].found == words[k] && path[k].left == Leaves(path[k].at, words[k]))
    && (forall k :: 0 < k < |path| ==> path[k].at == After(path[k - 1].at, words[k - 1]))
    && (path != [] ==> path[0].at == start)
    && p == if path == [] then start else After(path[|path| - 1].at, words[|path| - 1])
  }

  lemma FollowsFurther(start: Pc, path: seq<Access>, words: seq<int>, p: Pc)
    requires |path| < |words| && Follows(start, path, words, p)
    ensures var w := words[|path|]; Follows(start, path + [Access(p, w, Leaves(p, w))], words, After(p, w))
  {}

  lemma NoAccessYet(start: Pc, words: seq<int>)
    ensures Follows(start, [], words, start)
  {}

  /**
  The locking call, whatever the other threads make of the word in between: access k finds words[k]. It comes back only
  with the mutex; if the words end first it is still at p.
   */
  method LockMutex(words: seq<int>) returns (done: bool, path: seq<Access>, ghost p: Pc)
    ensures |path| <= |words| && Follows(Spinning(0), path, words, p)
    ensures if done then p == Holding else |path| == |words|
  {
    hide Follows;
    path, p := [], Spinning(0);
    NoAccessYet(p, words);
    var c, i := 0, 0;
    while i < LOCK_SPINS
      invariant 0 <= i <= LOCK_SPINS && |path| <= |words| && Follows(Spinning(0), path, words, p)
      invariant i > 0 ==> c != 0
      invariant p == if i < LOCK_SPINS then Spinning(i) else if c == 1 then Swapping else CallingWait
    {
      if |path| == |words| { return false, path, p; }
      FollowsFurther(Spinning(0), path, words, p);
      c := words[|path|];
      path := path + [Access(Spinning(i), c, CmpXchg(c, 0, 1))];
      p := After(p, c);
      if c == 0 { return true, path, p; }
      i := i + 1;
    }
    if c == 1 {
      if |path| == |words| { return false, path, p; }
      FollowsFurther(Spinning(0), path, words, p);
      c := words[|path|];
      path := path + [Access(Swapping, c, 2)];
      p := After(p, c);
    }
    while c != 0
      invariant |path| <= |words| && Follows(Spinning(0), path, words, p)
      invariant p == if c == 0 then Holding else CallingWait
      decreases |words| - |path|
    {
      if |path| == |words| { return false, path, p; }
      FollowsFurther(Spinning(0), path, words, p);
      var w := words[|path|];
      path := path + [Access(CallingWait, w, w)];
      p := After(p, w);
      if w == 2 {
        if |path| == |words| { return false, path, p; }
        FollowsFurther(Spinning(0), path, words, p);
        w := words[|path|];
        path := path + [Access(Asleep, w, w)];
        p := After(p, w);
      }
      if |path| == |words| { return false, path, p; }
      FollowsFurther(Spinning(0), path, words, p);
      c := words[|path|];
      path := path + [Access(Swapping, c, 2)];
      p := After(p, c);
    }
    return true, path, p;
  }

  /** The unlocking call in the same way; without other threads' sleepers its wake finds nobody. */
  method UnlockMutex(words: seq<int>) returns (done: bool, path: seq<Access>, ghost p: Pc)
    ensures |path| <= |words| && Follows(Reading, path, words, p)
    ensures if done then p == Outside else |path| == |words|
  {
    hide Follows;
    path, p := [], Reading;
    NoAccessYet(p, words);
    if |words| < 2 {
      if |words| == 1 {
        FollowsFurther(Reading, path, words, p);
        path, p := path + [Access(Reading, words[0], words[0])], After(p, words[0]);
      }
      return false, path, p;
    }
    FollowsFurther(Reading, path, words, p);
    path, p := path + [Access(Reading, words[0], words[0])], After(p, words[0]);
    FollowsFurther(Reading, path, words, p);
    if words[0] == 2 {
      path, p := path + [Access(Storing, words[1], 0)], After(p, words[1]);
    } else {
      path, p := path + [Access(Clearing, words[1], 0)], After(p, words[1]);
      if words[1] == 1 { return true, path, p; }
    }
    var i := 0;
    while i < WAKE_SPINS
      invariant 0 <= i <= WAKE_SPINS && |path| <= |words| && Follows(Reading, path, words, p)
      invariant p == if i < WAKE_SPINS then Peeking(i) else Waking
    {
      if |path| == |words| { return false, path, p; }
      FollowsFurther(Reading, path, words, p);
      var w := words[|path|];
      path, p := path + [Access(Peeking(i), w, w)], After(p, w);
      if w != 0 {
        if |path| == |words| { return false, path, p; }
        FollowsFurther(Reading, path, words, p);
        w := words[|path|];
        path, p := path + [Access(Handing(i), w, CmpXchg(w, 1, 2))], After(p, w);
        if w != 0 { return true, path, p; }
      }
      i := i + 1;
    }
    if |path| == |words| { return false, path, p; }
    FollowsFurther(Reading, path, words, p);
    var w := words[|path|];
    path, p := path + [Access(Waking, w, w)], After(p, w);
    return true, path, p;
  }

  // ---- the way through the locking call

  /** Inside the locking call. */
  predicate Locking(p: Pc) {
    p.Spinning? || p.Swapping? || p.CallingWait? || p.Asleep?
  }

  /** Whoever moves, a thread inside the locking call stays inside or comes out holding the mutex. */
  lemma LockingLeadsToHolding(s: State, s': State, t: nat)
    requires Next(s, s') && t < |s.pc| && Locking(s.pc[t])
    ensures t < |s'.pc| && (Locking(s'.pc[t]) || s'.pc[t] == Holding)
  {}

  /** In a run no thread gets from the locking call to the outside but through the critical section. */
  lemma {:induction false} OnlyThroughHolding(r: seq<State>, i: nat, j: nat, t: nat) returns (k: nat)
    requires IsRun(r) && i < j < |r| && t < |r[i].pc| && Locking(r[i].pc[t])
    requires t < |r[j].pc| && !Locking(r[j].pc[t])
    ensures i < k <= j && t < |r[k].pc| && r[k].pc[t] == Holding
    decreases j - i
  {
    assert Next(r[i], r[i + 1]);
    LockingLeadsToHolding(r[i], r[i + 1], t);
    if r[i + 1].pc[t] == Holding {
      k := i + 1;
    } else {
      k := OnlyThroughHolding(r, i + 1, j, t);
    }
  }

  /** A failed attempt leads to the next one, the last of them to the exchange of 2 or straight to the wait. */
  lemma FailedAttempt(s: State, t: nat, s': State)
    requires t < |s.pc| && s.pc[t].Spinning? && s.pc[t].i < LOCK_SPINS && s.word != 0 && Step(s, t, s')
    ensures s'.word == s.word
    ensures s.pc[t].i < 99 ==> s'.pc[t] == Spinning(s.pc[t].i + 1)
    ensures s.pc[t].i == 99 ==> s'.pc[t] == if s.word == 1 then Swapping else CallingWait
  {}

  /** A round of the hand-over loop that finds the word 0 leads to the next one, the last of them to the wake. */
  lemma NobodyToHandTo(s: State, t: nat, s': State)
    requires t < |s.pc| && s.pc[t].Peeking? && s.pc[t].i < WAKE_SPINS && s.word == 0 && Step(s, t, s')
    ensures s'.word == 0 && s'.pc[t] == if s.pc[t].i < 199 then Peeking(s.pc[t].i + 1) else Waking
  {}

  /** A thread outside starts the locking call, and one in the critical section the unlocking call, at its beginning. */
  lemma CallsBegin(s: State, t: nat, s': State)
    requires t < |s.pc| && (s.pc[t] == Outside || s.pc[t] == Holding) && Step(s, t, s')
    ensures s'.word == s.word && s'.pc[t] == if s.pc[t] == Outside then Spinning(0) else Reading
  {}

  lemma RunFurther(r: seq<State>, t: nat)
    requires IsRun(r) && t < |r[|r| - 1].pc| && r[|r| - 1].pc[t] != Waking
    ensures IsRun(r + [Act(r[|r| - 1], t)])
  {
    var r' := r + [Act(r[|r| - 1], t)];
    assert Step(r[|r| - 1], t, Act(r[|r| - 1], t));
    assert forall i :: 0 <= i < |r| ==> r'[i] == r[i];
  }

  /** One thread holds the mutex and the other has failed i times. */
  lemma {:induction false} FailedRun(i: nat) returns (r: seq<State>)
    requires i < LOCK_SPINS
    ensures IsRun(r) && Init(r[0]) && r[|r| - 1] == State(1, [Holding, Spinning(i)])
  {
    if i == 0 {
      r := [State(0, [Outside, Outside])];
      RunFurther(r, 0);
      r := r + [Act(r[|r| - 1], 0)];
      RunFurther(r, 0);
      r := r + [Act(r[|r| - 1], 0)];
      RunFurther(r, 1);
      r := r + [Act(r[|r| - 1], 1)];
    } else {
      r := FailedRun(i - 1);
      RunFurther(r, 1);
      r := r + [Act(r[|r| - 1], 1)];
    }
  }

  /** Threads do sleep: after a hundred failures and the exchange of 2, while another holds the mutex. */
  lemma SomeoneSleeps() returns (r: seq<State>)
    ensures IsRun(r) && Init(r[0]) && r[|r| - 1] == State(2, [Holding, Asleep])
  {
    r := FailedRun(LOCK_SPINS - 1);
    for n := 0 to 3
      invariant IsRun(r) && Init(r[0])
      invariant r[|r| - 1] == match n
        case 0 => State(1, [Holding, Spinning(99)])
        case 1 => State(1, [Holding, Swapping])
        case 2 => State(2, [Holding, CallingWait])
        case _ => State(2, [Holding, Asleep])
    {
      RunFurther(r, 1);
      r := r + [Act(r[|r| - 1], 1)];
    }
  }

  // ---- the mutex as an abstract lock

  datatype Lock = Free | HeldBy(t: nat)

  /** The abstract lock a concrete state stands for. */
  ghost predicate Abstracts(s: State, l: Lock) {
    match l
    case Free => !SomeOwner(s)
    case HeldBy(t) => t < |s.pc| && Owns(s.pc[t])
  }

  /** What a lock may do in one step: nothing, be taken while free, or be given back by its holder. */
  predicate LockStep(l: Lock, l': Lock) {
    l == l' || (l.Free? && l'.HeldBy?) || (l.HeldBy? && l'.Free?)
  }

  lemma AbstractLockIsUnique(s: State, l: Lock, l': Lock)
    requires Inv(s) && Abstracts(s, l) && Abstracts(s, l')
    ensures l == l'
  {
    if l.HeldBy? && l'.HeldBy? {
      assert Owns(s.pc[l.t]) && Owns(s.pc[l'.t]);
    }
  }

  /**
  Every step of the futex code is a step of the abstract lock, taken only from Free and released only by its holder.
   */
  lemma StepRefinesLock(s: State, t: nat, s': State, l: Lock) returns (l': Lock)
    requires Inv(s) && t < |s.pc| && Step(s, t, s') && Abstracts(s, l)
    ensures Abstracts(s', l') && LockStep(l, l')
    ensures l != l' ==> (if l.Free? then l' == HeldBy(t) else l == HeldBy(t))
    ensures Owns(s'.pc[t]) && !Owns(s.pc[t]) ==> l == Free && l' == HeldBy(t)
  {
    StepKeepsInv(s, t, s');
    if Owns(s'.pc[t]) {
      l' := HeldBy(t);
      if Owns(s.pc[t]) { assert Abstracts(s, HeldBy(t)); AbstractLockIsUnique(s, l, l'); }
    } else if Owns(s.pc[t]) {
      assert Abstracts(s, HeldBy(t));
      AbstractLockIsUnique(s, l, HeldBy(t));
      l' := Free;
    } else {
      l' := l;
      assert forall u :: 0 <= u < |s.pc| && Owns(s'.pc[u]) ==> Owns(s.pc[u]);
    }
  }

  // ---- no reachable state is stuck

  /** Distance of one thread from being outside again, when it is only moved while that brings it closer. */
  function Rank(p: Pc): nat {
    match p
    case Outside => 0
    case Waking => 1
    case Handing(i) => if i < WAKE_SPINS then 2 * (WAKE_SPINS - i) else 2
    case Peeking(i) => if i < WAKE_SPINS then 2 * (WAKE_SPINS - i) + 1 else 3
    case Storing => 2 * WAKE_SPINS + 2
    case Clearing => 2 * WAKE_SPINS + 2
    case Reading => 2 * WAKE_SPINS + 3
    case Holding => 2 * WAKE_SPINS + 4
    case Swapping => 2 * WAKE_SPINS + 5
    case CallingWait => 2 * WAKE_SPINS + 6
    case Asleep => 2 * WAKE_SPINS + 6
    case Spinning(_) => 2 * WAKE_SPINS + 7
  }

  function TotalRank(pc: seq<Pc>): nat {
    if pc == [] then 0 else Rank(pc[0]) + TotalRank(pc[1..])
  }

  lemma {:induction false} TotalRankUpdate(pc: seq<Pc>, t: nat, p: Pc)
    requires t < |pc|
    ensures TotalRank(pc[t := p]) == TotalRank(pc) - Rank(pc[t]) + Rank(p)
  {
    if t == 0 {
      assert pc[t := p][1..] == pc[1..];
    } else {
      assert pc[t := p][1..] == pc[1..][t - 1 := p];
      TotalRankUpdate(pc[1..], t - 1, p);
    }
  }

  ghost predicate Quiescent(s: State) {
    forall t :: 0 <= t < |s.pc| ==> s.pc[t] == Outside
  }

  /** A step of a thread that is awake: a sleeper only leaves its sleep by being woken. */
  ghost predicate Quiet(s: State, s': State) {
    exists t: nat | t < |s.pc| :: s.pc[t] != Asleep && Step(s, t, s')
  }

  /**
  In every invariant state that is not quiescent, some thread that is awake has a step that brings the whole system
  closer to being quiescent.
   */
  lemma ProgressStep(s: State) returns (t: nat, s': State)
    requires Inv(s) && !Quiescent(s)
    ensures t < |s.pc| && s.pc[t] != Asleep && Step(s, t, s') && Inv(s')
    ensures TotalRank(s'.pc) < TotalRank(s.pc)
  {
    if u :| 0 <= u < |s.pc| && (Owns(s.pc[u]) || (Responsible(s.pc[u]) && s.pc[u] != Swapping)) {
      t, s' := ReleaseStep(s, u);
    } else {
      assert s.word == 0;
      t :| t < |s.pc| && s.pc[t] != Outside && s.pc[t] != Asleep;
      s' := Act(s, t);
      TotalRankUpdate(s.pc, t, s'.pc[t]);
    }
    StepKeepsInv(s, t, s');
  }

  /** Any step of a thread that holds or is releasing the mutex brings the system closer to being quiescent. */
  lemma ReleaseStep(s: State, u: nat) returns (t: nat, s': State)
    requires Inv(s) && u < |s.pc| && (Owns(s.pc[u]) || (Responsible(s.pc[u]) && s.pc[u] != Swapping))
    ensures t == u && Step(s, t, s') && TotalRank(s'.pc) < TotalRank(s.pc)
  {
    hide TotalRank;
    t := u;
    if w :| 0 <= w < |s.pc| && s.pc[w] == Asleep && s.pc[t] == Waking {
      s' := WakeOne(s, t, w);
      TotalRankUpdate(s.pc, t, Outside);
      TotalRankUpdate(s.pc[t := Outside], w, Swapping);
    } else {
      s' := ReleaseAlone(s, t);
    }
  }

  lemma ReleaseAlone(s: State, t: nat) returns (s': State)
    requires Inv(s) && t < |s.pc| && (Owns(s.pc[t]) || (Responsible(s.pc[t]) && s.pc[t] != Swapping))
    requires forall w :: 0 <= w < |s.pc| && s.pc[w] == Asleep ==> s.pc[t] != Waking
    ensures Step(s, t, s') && TotalRank(s'.pc) < TotalRank(s.pc)
  {
    hide TotalRank;
    s' := Act(s, t);
    TotalRankUpdate(s.pc, t, s'.pc[t]);
  }

  /**
  From every invariant state the threads can all get out again though no sleeper wakes on its own: each is woken by an
  unlocker.
   */
  lemma {:induction false} CanQuiesceFrom(s: State) returns (r: seq<State>)
    requires Inv(s)
    ensures IsRun(r) && r[0] == s && Quiescent(r[|r| - 1])
    ensures forall i :: 0 < i < |r| ==> Quiet(r[i - 1], r[i])
    decreases TotalRank(s.pc)
  {
    if Quiescent(s) {
      r := [s];
    } else {
      var t, s' := ProgressStep(s);
      var rest := CanQuiesceFrom(s');
      r := [s] + rest;
      assert Next(s, s') && Quiet(s, s');
      forall i | 0 < i < |r| ensures Next(r[i - 1], r[i]) && Quiet(r[i - 1], r[i]) {
        if i > 1 { assert r[i] == rest[i - 1] && r[i - 1] == rest[i - 2]; }
      }
    }
  }

  /**
  No lost wake-up, as progress: every run, wherever it stands, extends to one in which every thread has left, and in
  the extension no thread leaves its sleep unless an unlocker wakes it.
   */
  lemma NeverStuck(r: seq<State>) returns (r': seq<State>)
    requires IsRun(r) && Init(r[0])
    ensures IsRun(r') && r <= r' && Quiescent(r'[|r'| - 1])
    ensures forall i :: |r| <= i < |r'| ==> Quiet(r'[i - 1], r'[i])
  {
    RunKeepsInv(r, |r| - 1);
    var rest := CanQuiesceFrom(r[|r| - 1]);
    r' := r + rest[1..];
    forall i | 0 < i < |r'| ensures Next(r'[i - 1], r'[i]) && (i >= |r| ==> Quiet(r'[i - 1], r'[i])) {
      if i >= |r| {
        assert r'[i] == rest[i - |r| + 1] && r'[i - 1] == rest[i - |r|];
      }
    }
  }
}
