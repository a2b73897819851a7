/**
One round of work items over shared memory: item t reads two cells, then writes both. The items' reads and writes may
interleave in any way. When the pairs of cells are disjoint, every interleaving leaves the same memory.
 */
module PairRounds {

  datatype Pair = Pair(a: nat, b: nat)

  ghost predicate Disjoint(ps: seq<Pair>, n: nat) {
    && (forall t :: 0 <= t < |ps| ==> ps[t].a < n && ps[t].b < n && ps[t].a != ps[t].b)
    && (forall t, u :: 0 <= t < |ps| && 0 <= u < |ps| && t != u ==>
          ps[t].a != ps[u].a && ps[t].a != ps[u].b && ps[t].b != ps[u].b)
  }

  ghost predicate Touched(ps: seq<Pair>, i: nat) {
    exists t :: 0 <= t < |ps| && (ps[t].a == i || ps[t].b == i)
  }

  type Update<!T> = (nat, T, T) -> (T, T)

  function Store<T>(y: seq<T>, p: Pair, v: (T, T)): (z: seq<T>)
    requires p.a < |y| && p.b < |y|
    ensures |z| == |y|
  {
    y[p.a := v.0][p.b := v.1]
  }

  /** y is x with the update of every item applied to its own pair, and nothing else changed. */
  ghost predicate Result<T>(ps: seq<Pair>, f: Update<T>, x: seq<T>, y: seq<T>)
    requires Disjoint(ps, |x|)
  {
    && |y| == |x|
    && (forall t :: 0 <= t < |ps| ==> (y[ps[t].a], y[ps[t].b]) == f(t, x[ps[t].a], x[ps[t].b]))
    && (forall i :: 0 <= i < |x| && !Touched(ps, i) ==> y[i] == x[i])
  }

  lemma ResultUnique<T>(ps: seq<Pair>, f: Update<T>, x: seq<T>, y: seq<T>, z: seq<T>)
    requires Disjoint(ps, |x|) && Result(ps, f, x, y) && Result(ps, f, x, z)
    ensures y == z
  {
    forall i | 0 <= i < |x| ensures y[i] == z[i] {
      if Touched(ps, i) {
        var t :| 0 <= t < |ps| && (ps[t].a == i || ps[t].b == i);
        assert (y[ps[t].a], y[ps[t].b]) == (z[ps[t].a], z[ps[t].b]);
      }
    }
  }

  lemma NoItems<T>(f: Update<T>, x: seq<T>)
    ensures Disjoint([], |x|) && Result([], f, x, x)
  {}

  lemma TouchedLater(ps: seq<Pair>, k: nat, i: nat)
    requires k < |ps| && Touched(ps[..k], i)
    ensures Touched(ps[..k + 1], i)
  {
    var t :| 0 <= t < k && (ps[..k][t].a == i || ps[..k][t].b == i);
    assert ps[..k + 1][t] == ps[..k][t];
  }

  /** Items may also run one after the other: the next item extends the result of the earlier ones. */
  lemma ResultExtend<T>(ps: seq<Pair>, k: nat, f: Update<T>, x: seq<T>, y: seq<T>)
    requires k < |ps| && Disjoint(ps, |x|) && Disjoint(ps[..k], |x|) && Result(ps[..k], f, x, y)
    ensures Disjoint(ps[..k + 1], |x|)
    ensures y[ps[k].a] == x[ps[k].a] && y[ps[k].b] == x[ps[k].b]
    ensures Result(ps[..k + 1], f, x, Store(y, ps[k], f(k, x[ps[k].a], x[ps[k].b])))
  {
    assert !Touched(ps[..k], ps[k].a) && !Touched(ps[..k], ps[k].b);
    var z := Store(y, ps[k], f(k, x[ps[k].a], x[ps[k].b]));
    var qs := ps[..k + 1];
    forall t | 0 <= t < |qs| ensures (z[qs[t].a], z[qs[t].b]) == f(t, x[qs[t].a], x[qs[t].b]) {
      if t < k { assert ps[..k][t] == qs[t]; }
    }
    forall i | 0 <= i < |x| && !Touched(qs, i) ensures z[i] == x[i] {
      assert qs[k] == ps[k];
      if Touched(ps[..k], i) { TouchedLater(ps, k, i); }
    }
  }

  // ---- interleaved execution

  datatype Phase<T> = Start | HaveA(va: T) | HaveBoth(va: T, vb: T) | WroteA(va: T, vb: T) | Finished

  datatype Round<T> = Round(mem: seq<T>, at: seq<Phase<T>>)

  ghost predicate WellFormed<T>(ps: seq<Pair>, s: Round<T>) {
    |s.at| == |ps| && Disjoint(ps, |s.mem|)
  }

  ghost predicate NoneStarted<T>(s: Round<T>) {
    forall t :: 0 <= t < |s.at| ==> s.at[t] == Start
  }

  ghost predicate AllFinished<T>(s: Round<T>) {
    forall t :: 0 <= t < |s.at| ==> s.at[t] == Finished
  }

  /** The next read or write of item t. */
  function Advance<T>(ps: seq<Pair>, f: Update<T>, s: Round<T>, t: nat): (s': Round<T>)
    requires WellFormed(ps, s) && t < |ps|
    ensures WellFormed(ps, s') && |s'.mem| == |s.mem|
  {
    var p := ps[t];
    match s.at[t]
    case Start => s.(at := s.at[t := HaveA(s.mem[p.a])])
    case HaveA(va) => s.(at := s.at[t := HaveBoth(va, s.mem[p.b])])
    case HaveBoth(va, vb) => Round(s.mem[p.a := f(t, va, vb).0], s.at[t := WroteA(va, vb)])
    case WroteA(va, vb) => Round(s.mem[p.b := f(t, va, vb).1], s.at[t := Finished])
    case Finished => s
  }

  /** The items take steps in the order the schedule names them. */
  function Interleave<T>(ps: seq<Pair>, f: Update<T>, s: Round<T>, schedule: seq<nat>): (s': Round<T>)
    requires WellFormed(ps, s) && forall k :: 0 <= k < |schedule| ==> schedule[k] < |ps|
    ensures WellFormed(ps, s') && |s'.mem| == |s.mem|
    decreases |schedule|
  {
    if schedule == [] then s else Interleave(ps, f, Advance(ps, f, s, schedule[0]), schedule[1..])
  }

  /** What item t has seen and written so far. */
  ghost predicate ItemInv<T>(ps: seq<Pair>, f: Update<T>, x: seq<T>, s: Round<T>, t: nat)
    requires WellFormed(ps, s) && |s.mem| == |x| && t < |ps|
  {
    var p := ps[t];
    var (va', vb') := f(t, x[p.a], x[p.b]);
    match s.at[t]
    case Start => s.mem[p.a] == x[p.a] && s.mem[p.b] == x[p.b]
    case HaveA(va) => s.mem[p.a] == x[p.a] == va && s.mem[p.b] == x[p.b]
    case HaveBoth(va, vb) => s.mem[p.a] == x[p.a] == va && s.mem[p.b] == x[p.b] == vb
    case WroteA(va, vb) => x[p.a] == va && s.mem[p.b] == x[p.b] == vb && s.mem[p.a] == va'
    case Finished => s.mem[p.a] == va' && s.mem[p.b] == vb'
  }

  ghost predicate RoundInv<T>(ps: seq<Pair>, f: Update<T>, x: seq<T>, s: Round<T>) {
    && WellFormed(ps, s) && |s.mem| == |x|
    && (forall t :: 0 <= t < |ps| ==> ItemInv(ps, f, x, s, t))
    && (forall i :: 0 <= i < |x| && !Touched(ps, i) ==> s.mem[i] == x[i])
  }

  lemma AdvanceKeepsInv<T>(ps: seq<Pair>, f: Update<T>, x: seq<T>, s: Round<T>, t: nat)
    requires RoundInv(ps, f, x, s) && t < |ps|
    ensures RoundInv(ps, f, x, Advance(ps, f, s, t))
  {
    var s' := Advance(ps, f, s, t);
    assert ItemInv(ps, f, x, s, t);
    forall u | 0 <= u < |ps| ensures ItemInv(ps, f, x, s', u) {
      assert ItemInv(ps, f, x, s, u);
    }
    assert Touched(ps, ps[t].a) && Touched(ps, ps[t].b);
  }

  lemma {:induction false} InterleaveKeepsInv<T>(ps: seq<Pair>, f: Update<T>, x: seq<T>, s: Round<T>,
                                                 schedule: seq<nat>)
    requires RoundInv(ps, f, x, s) && forall k :: 0 <= k < |schedule| ==> schedule[k] < |ps|
    ensures RoundInv(ps, f, x, Interleave(ps, f, s, schedule))
    decreases |schedule|
  {
    hide ItemInv, Touched, Advance;
    if schedule != [] {
      AdvanceKeepsInv(ps, f, x, s, schedule[0]);
      InterleaveKeepsInv(ps, f, x, Advance(ps, f, s, schedule[0]), schedule[1..]);
    }
  }

  /** Whatever the interleaving, once every item has finished the memory holds exactly the result. */
  lemma AnyInterleaving<T>(ps: seq<Pair>, f: Update<T>, s: Round<T>, schedule: seq<nat>)
    requires WellFormed(ps, s) && NoneStarted(s) && forall k :: 0 <= k < |schedule| ==> schedule[k] < |ps|
    requires AllFinished(Interleave(ps, f, s, schedule))
    ensures Result(ps, f, s.mem, Interleave(ps, f, s, schedule).mem)
  {
    var x, s' := s.mem, Interleave(ps, f, s, schedule);
    InterleaveKeepsInv(ps, f, x, s, schedule);
    forall t | 0 <= t < |ps| ensures (s'.mem[ps[t].a], s'.mem[ps[t].b]) == f(t, x[ps[t].a], x[ps[t].b]) {
      assert ItemInv(ps, f, x, s', t);
    }
  }

  /** Two schedules that take every item of a round to its end leave the same memory. */
  lemma SchedulesAgree<T>(ps: seq<Pair>, f: Update<T>, s: Round<T>, schedule: seq<nat>, schedule': seq<nat>)
    requires WellFormed(ps, s) && NoneStarted(s)
    requires forall k :: 0 <= k < |schedule| ==> schedule[k] < |ps|
    requires forall k :: 0 <= k < |schedule'| ==> schedule'[k] < |ps|
    requires AllFinished(Interleave(ps, f, s, schedule)) && AllFinished(Interleave(ps, f, s, schedule'))
    ensures Interleave(ps, f, s, schedule).mem == Interleave(ps, f, s, schedule').mem
  {
    hide Interleave, Result, AllFinished, NoneStarted, Disjoint;
    AnyInterleaving(ps, f, s, schedule);
    AnyInterleaving(ps, f, s, schedule');
    ResultUnique(ps, f, s.mem, Interleave(ps, f, s, schedule).mem, Interleave(ps, f, s, schedule').mem);
  }

  /** The reads and writes an item has still to do. */
  function StepsLeft<T>(p: Phase<T>): nat {
    match p
    case Start => 4
    case HaveA(_) => 3
    case HaveBoth(_, _) => 2
    case WroteA(_, _) => 1
    case Finished => 0
  }

  function AllStepsLeft<T>(at: seq<Phase<T>>): nat {
    if at == [] then 0 else AllStepsLeft(at[..|at| - 1]) + StepsLeft(at[|at| - 1])
  }

  lemma {:induction false} OneStepLess<T>(at: seq<Phase<T>>, t: nat, p: Phase<T>)
    requires t < |at| && StepsLeft(p) == StepsLeft(at[t]) - 1
    ensures AllStepsLeft(at[t := p]) == AllStepsLeft(at) - 1
  {
    var n := |at| - 1;
    if t < n {
      assert at[t := p][..n] == at[..n][t := p];
      OneStepLess(at[..n], t, p);
    } else {
      assert at[t := p][..n] == at[..n];
    }
  }

  /** Wherever a round stands, some schedule finishes it, in as many steps as there are reads and writes left. */
  lemma {:induction false} CanFinish<T>(ps: seq<Pair>, f: Update<T>, s: Round<T>) returns (schedule: seq<nat>)
    requires WellFormed(ps, s)
    ensures forall k :: 0 <= k < |schedule| ==> schedule[k] < |ps|
    ensures AllFinished(Interleave(ps, f, s, schedule)) && |schedule| == AllStepsLeft(s.at)
    decreases AllStepsLeft(s.at)
  {
    if AllFinished(s) {
      schedule := [];
      NothingLeft(s.at);
    } else {
      var t :| 0 <= t < |s.at| && s.at[t] != Finished;
      var s' := Advance(ps, f, s, t);
      OneStepLess(s.at, t, s'.at[t]);
      assert s'.at == s.at[t := s'.at[t]];
      var rest := CanFinish(ps, f, s');
      schedule := [t] + rest;
      assert schedule[1..] == rest;
    }
  }

  lemma {:induction false} NothingLeft<T>(at: seq<Phase<T>>)
    requires forall t :: 0 <= t < |at| ==> at[t] == Finished
    ensures AllStepsLeft(at) == 0
  {
    if at != [] { NothingLeft(at[..|at| - 1]); }
  }
}
