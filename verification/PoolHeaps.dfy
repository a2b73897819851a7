/**
What the receive workers do with the packets of each heap: what becomes of one packet whose worker is not interrupted,
and which heaps meet in one table when the workers interleave.
 */
module PoolHeaps {
  import opened ReceivePool

  // ---- one packet

  /** Nobody is at table t, and it belongs to no heap or to this one. */
  ghost predicate FreeFor(s: State, t: nat, hid: nat)
    requires t < |s.tables|
  {
    !Busy(s, t) && (s.tables[t].id < 0 || s.tables[t].id == hid)
  }

  ghost predicate IsStep(s: State, w: nat, e: Event, s': State) {
    w < |s.pc| && AllProper(s) && s' == Act(s, w, e)
  }

  /** Each state is a step of worker w from the one before, the network and the scheduler deciding as e says. */
  ghost predicate Works(r: seq<State>, w: nat, e: Event) {
    forall i, j :: 0 <= i && j == i + 1 < |r| ==> IsStep(r[i], w, e, r[j])
  }

  lemma WorksOn(r: seq<State>, w: nat, e: Event) returns (s': State)
    requires r != [] && Works(r, w, e) && Inv(r[|r| - 1]) && w < |r[|r| - 1].pc|
    ensures s' == Act(r[|r| - 1], w, e) && Inv(s') && |s'.pc| == |r[|r| - 1].pc| && Works(r + [s'], w, e)
  {
    var l := r[|r| - 1];
    s' := Act(l, w, e);
    StepKeepsInv(l, w, e);
    StepLen(l, w, e);
    hide Act, Inv, AllProper;
    var r' := r + [s'];
    forall i, j | 0 <= i && j == i + 1 < |r'| ensures IsStep(r'[i], w, e, r'[j]) {
      if j < |r| { assert IsStep(r[i], w, e, r[j]); }
    }
  }

  /** The top object of the bank is taken and holds the packet. */
  function Filled(s: State, e: Event): State
    requires s.bank != [] && s.bank[0] < |s.payload|
  {
    var o := s.bank[0];
    s.(bank := s.bank[1..], len := s.len - 1, payload := s.payload[o := e.payload], heap := s.heap[o := e.hid])
  }

  /** A worker takes the top object, receives into it, and waits for the table of the packet's heap. */
  lemma FetchesPacket(s: State, w: nat, e: Event) returns (r: seq<State>)
    requires Inv(s) && w < |s.pc| && s.pc[w] == Idle && s.bank != [] && e.received && e.valid
    ensures s.bank[0] < |s.payload| && |r| == 3 && r[0] == s && Works(r, w, e) && Inv(r[2])
    ensures var o := s.bank[0];
      r[2] == Filled(s, e).(pc := s.pc[w := Locking(o, e.hid, e.heapLen)])
  {
    TopOfBank(s);
    hide Inv, AllProper;
    var s1 := WorksOn([s], w, e);
    var s2 := WorksOn([s, s1], w, e);
    r := [s, s1, s2];
  }

  /** Waiting does not make a table busy. */
  lemma SameBusy(s: State, s': State, w: nat, t: nat)
    requires w < |s.pc| == |s'.pc| && s'.pc == s.pc[w := s'.pc[w]]
    requires !HasTable(s.pc[w], t) && !HasTable(s'.pc[w], t)
    ensures Busy(s', t) <==> Busy(s, t)
  {
    if Busy(s, t) {
      var u :| 0 <= u < |s.pc| && HasTable(s.pc[u], t);
      assert HasTable(s'.pc[u], t);
    }
  }

  /** The worker gets as far as having the table for its packet; a table without an owner now has one. */
  lemma ReachesTable(s: State, w: nat, e: Event) returns (r: seq<State>)
    requires Inv(s) && w < |s.pc| && s.pc[w] == Idle && s.bank != [] && e.received && e.valid
    requires FreeFor(s, e.hid % |s.tables|, e.hid)
    ensures s.bank[0] < |s.payload| && |r| == 4 && r[0] == s && Works(r, w, e) && Inv(r[3])
    ensures var o, t := s.bank[0], e.hid % |s.tables|;
      r[3] == Filled(s, e).(tables := s.tables[t := s.tables[t].(id := e.hid)],
                            pc := s.pc[w := Adding(o, e.heapLen, t)])
  {
    assert s.tables != [];
    hide Inv, AllProper, Busy, Works;
    r := FetchesPacket(s, w, e);
    SameBusy(s, r[2], w, e.hid % |s.tables|);
    var s3 := WorksOn(r, w, e);
    r := r + [s3];
  }

  lemma LastUpdate<T>(s: seq<T>, i: nat, x: T, y: T)
    requires i < |s|
    ensures s[i := x][i := y] == s[i := y] && (y == s[i] ==> s[i := y] == s)
  {}

  /** A packet that does not complete its heap goes to the end of the table its heap number says, and is counted. */
  lemma StoresPacket(s: State, w: nat, e: Event) returns (r: seq<State>)
    requires Inv(s) && w < |s.pc| && s.pc[w] == Idle && s.bank != [] && e.received && e.valid && e.fits
    requires var t := e.hid % |s.tables|; FreeFor(s, t, e.hid) && s.tables[t].count + e.payload != e.heapLen
    ensures s.bank[0] < |s.payload| && |r| == 5 && r[0] == s && Works(r, w, e)
    ensures var o, t := s.bank[0], e.hid % |s.tables|;
      var table := Table(e.hid, s.tables[t].count + e.payload, s.tables[t].objs + [o]);
      r[4] == Filled(s, e).(tables := s.tables[t := table])
  {
    assert s.tables != [];
    hide Inv, AllProper, Busy, Works, FreeFor;
    r := ReachesTable(s, w, e);
    var s4 := WorksOn(r, w, e);
    r := r + [s4];
    LastUpdate(s.pc, w, r[3].pc[w], s4.pc[w]);
    var t := e.hid % |s.tables|;
    LastUpdate(s.tables, t, r[3].tables[t], s4.tables[t]);
  }

  /** The packet that completes its heap leaves the worker with the objects of the heap, to put them back. */
  lemma CompletesHeap(s: State, w: nat, e: Event) returns (r: seq<State>)
    requires Inv(s) && w < |s.pc| && s.pc[w] == Idle && s.bank != [] && e.received && e.valid && e.fits
    requires var t := e.hid % |s.tables|; FreeFor(s, t, e.hid) && s.tables[t].count + e.payload == e.heapLen
    ensures s.bank[0] < |s.payload| && |r| == 5 && r[0] == s && Works(r, w, e) && Inv(r[4])
    ensures var o, t := s.bank[0], e.hid % |s.tables|;
      r[4] == Filled(s, e).(tables := s.tables[t := Table(e.hid, e.heapLen, [])],
                            pc := s.pc[w := Emptying(t, s.tables[t].objs + [o])])
  {
    assert s.tables != [];
    hide Inv, AllProper, Busy, Works, FreeFor;
    r := ReachesTable(s, w, e);
    var s4 := WorksOn(r, w, e);
    r := r + [s4];
    LastUpdate(s.pc, w, r[3].pc[w], s4.pc[w]);
    var t := e.hid % |s.tables|;
    LastUpdate(s.tables, t, r[3].tables[t], s4.tables[t]);
  }

  /** A packet that finds another heap in its slot takes that heap's objects in hand first. */
  lemma TakesOver(s: State, w: nat, e: Event) returns (r: seq<State>)
    requires Inv(s) && w < |s.pc| && s.pc[w] == Idle && s.bank != [] && e.received && e.valid
    requires var t := e.hid % |s.tables|; !Busy(s, t) && s.tables[t].id >= 0 && s.tables[t].id != e.hid
    ensures s.bank[0] < |s.payload| && |r| == 4 && r[0] == s && Works(r, w, e) && Inv(r[3])
    ensures var o, t := s.bank[0], e.hid % |s.tables|;
      r[3] == Filled(s, e).(tables := s.tables[t := s.tables[t].(objs := [])],
                 pc := s.pc[w := Clearing(o, e.heapLen, t, s.tables[t].objs)])
  {
    assert s.tables != [];
    hide Inv, AllProper, Busy, Works;
    r := FetchesPacket(s, w, e);
    SameBusy(s, r[2], w, e.hid % |s.tables|);
    var s3 := WorksOn(r, w, e);
    r := r + [s3];
  }

  /** With all objects of a table in hand a worker puts them back one by one and resets the table. */
  lemma {:induction false} PutsBackAll(s: State, w: nat, e: Event) returns (r: seq<State>)
    requires Inv(s) && w < |s.pc| && (s.pc[w].Emptying? || s.pc[w].Clearing?)
    ensures |r| == |s.pc[w].rest| + 2 && r[0] == s && Works(r, w, e) && Inv(r[|r| - 1]) && s.pc[w].t < |s.tables|
    ensures PutBackFrom(s, r[|r| - 1], w)
    decreases |s.pc[w].rest|
  {
    PutsBackOne(s, w, e);
    hide Act, Inv, AllProper, Works, PutBackFrom, Without;
    NoStepYet(s, w, e);
    var s1 := WorksOn([s], w, e);
    var rest := s.pc[w].rest;
    if rest == [] {
      r := [s, s1];
    } else {
      var more := PutsBackAll(s1, w, e);
      r := [s] + more;
      WorksBefore(s, more, w, e);
      OneThenOthers(s, s1, more[|more| - 1], w, e.pick % |rest|);
    }
  }

  lemma PutsBackOne(s: State, w: nat, e: Event)
    requires w < |s.pc| && AllProper(s) && (s.pc[w].Emptying? || s.pc[w].Clearing?)
    ensures s.pc[w].t < |s.tables|
    ensures var q, s1 := s.pc[w], Act(s, w, e);
      if q.rest == [] then PutBackFrom(s, s1, w)
      else
        var k := e.pick % |q.rest|;
        && s1 == Push(Goto(s, w, q.(rest := Without(q.rest, k))), q.rest[k])
        && s1.pc[w] == q.(rest := Without(q.rest, k)) && |s1.pc[w].rest| == |q.rest| - 1
  {
    assert Proper(s.pc[w], |s.tables|, |s.payload|);
  }

  /** All objects in the worker's hand have gone to the bank, its table is reset, and it has gone on. */
  ghost predicate PutBackFrom(s: State, l: State, w: nat)
    requires w < |s.pc| && (s.pc[w].Emptying? || s.pc[w].Clearing?) && s.pc[w].t < |s.tables|
  {
    var q := s.pc[w];
    && multiset(l.bank) == multiset(s.bank) + multiset(q.rest) && l.len == s.len + |q.rest|
    && l == s.(bank := l.bank, len := l.len, tables := s.tables[q.t := Table(-1, 0, [])],
               pc := s.pc[w := if q.Emptying? then Idle else Adding(q.o, q.heapLen, q.t)])
  }

  lemma OneThenOthers(s: State, s1: State, l: State, w: nat, k: nat)
    requires w < |s.pc| && (s.pc[w].Emptying? || s.pc[w].Clearing?) && s.pc[w].t < |s.tables| && k < |s.pc[w].rest|
    requires var q := s.pc[w]; s1 == Push(Goto(s, w, q.(rest := Without(q.rest, k))), q.rest[k])
    requires PutBackFrom(s1, l, w)
    ensures PutBackFrom(s, l, w)
  {
    var rest := s.pc[w].rest;
    WithoutOne(rest, k);
    hide Without;
    assert multiset([rest[k]] + s.bank) == multiset{rest[k]} + multiset(s.bank);
    assert |rest| == |multiset(rest)| == 1 + |Without(rest, k)|;
  }

  lemma NoStepYet(s: State, w: nat, e: Event)
    ensures Works([s], w, e)
  {}

  lemma WorksBefore(s: State, more: seq<State>, w: nat, e: Event)
    requires more != [] && Works(more, w, e) && IsStep(s, w, e, more[0])
    ensures Works([s] + more, w, e)
  {
    var r := [s] + more;
    forall i, j | 0 <= i && j == i + 1 < |r| ensures IsStep(r[i], w, e, r[j]) {
      if i > 0 { assert IsStep(more[i - 1], w, e, more[j - 1]); }
    }
  }

  /** Nothing received: the object goes back where it was, and nothing has changed. */
  lemma NothingReceived(s: State, w: nat, e: Event) returns (r: seq<State>)
    requires Inv(s) && w < |s.pc| && s.pc[w] == Idle && s.bank != [] && !e.received
    ensures |r| == 4 && r[0] == s && Works(r, w, e) && r[3] == s
  {
    TopOfBank(s);
    hide Inv, AllProper;
    var s1 := WorksOn([s], w, e);
    var s2 := WorksOn([s, s1], w, e);
    var s3 := WorksOn([s, s1, s2], w, e);
    r := [s, s1, s2, s3];
    assert [s.bank[0]] + s.bank[1..] == s.bank;
  }

  /** A packet that is refused: the object goes back, and the worker stops. */
  lemma Refused(s: State, w: nat, e: Event) returns (r: seq<State>)
    requires Inv(s) && w < |s.pc| && s.pc[w] == Idle && s.bank != [] && e.received && !e.valid
    ensures s.bank[0] < |s.payload| && |r| == 4 && r[0] == s && Works(r, w, e)
    ensures r[3] == s.(payload := s.payload[s.bank[0] := e.payload], heap := s.heap[s.bank[0] := e.hid],
                       pc := s.pc[w := Stopped])
  {
    TopOfBank(s);
    hide Inv, AllProper;
    var s1 := WorksOn([s], w, e);
    var s2 := WorksOn([s, s1], w, e);
    var s3 := WorksOn([s, s1, s2], w, e);
    r := [s, s1, s2, s3];
    assert [s.bank[0]] + s.bank[1..] == s.bank;
  }

  /** A packet whose bucket is outside the table: the object goes back, the table keeps its owner, the worker stops. */
  lemma NoBucket(s: State, w: nat, e: Event) returns (r: seq<State>)
    requires Inv(s) && w < |s.pc| && s.pc[w] == Idle && s.bank != [] && e.received && e.valid && !e.fits
    requires FreeFor(s, e.hid % |s.tables|, e.hid)
    ensures s.bank[0] < |s.payload| && |r| == 6 && r[0] == s && Works(r, w, e)
    ensures var o, t := s.bank[0], e.hid % |s.tables|;
      r[5] == s.(payload := s.payload[o := e.payload], heap := s.heap[o := e.hid],
                 tables := s.tables[t := s.tables[t].(id := e.hid)], pc := s.pc[w := Stopped])
  {
    assert s.tables != [];
    hide Inv, AllProper, Busy, Works, FreeFor;
    r := ReachesTable(s, w, e);
    var s4 := WorksOn(r, w, e);
    var s5 := WorksOn(r + [s4], w, e);
    r := r + [s4] + [s5];
    assert [s.bank[0]] + s.bank[1..] == s.bank;
  }

  /** At an empty bank a worker stops; at a busy table it waits. */
  lemma StopsOrWaits(s: State, w: nat, e: Event)
    requires Inv(s) && w < |s.pc|
    ensures s.pc[w] == Idle && s.bank == [] ==> Act(s, w, e) == s.(pc := s.pc[w := Stopped])
    ensures s.pc[w].Locking? && Busy(s, s.pc[w].hid % |s.tables|) ==> Act(s, w, e) == s
  {
    hide Busy;
  }

  // ---- which heaps meet in a table

  /** The object holds a packet of a heap whose slot is t. */
  ghost predicate InSlot(s: State, o: nat, t: nat)
    requires s.tables != []
  {
    o in s.heap && s.heap[o] % |s.tables| == t
  }

  /** What a worker has in hand for a table belongs in its slot, and to its owner once it is about to be added. */
  ghost predicate HandFits(s: State, p: Pc)
    requires s.tables != []
  {
    match p
    case Locking(o, hid, _) => o in s.heap && s.heap[o] == hid
    case Clearing(o, _, t, _) => InSlot(s, o, t)
    case Adding(o, _, t) =>
      && InSlot(s, o, t) && t < |s.tables|
      && (s.tables[t].id == s.heap[o] || (s.tables[t].id < 0 && s.tables[t].objs == []))
    case _ => true
  }

  /** Every stored object is in its heap's slot, and all but the first in a table are of the heap that owns it. */
  ghost predicate TableFits(s: State, t: nat)
    requires t < |s.tables|
  {
    && (forall o :: o in s.tables[t].objs ==> InSlot(s, o, t))
    && forall i :: 0 < i < |s.tables[t].objs| ==>
         var o := s.tables[t].objs[i]; o in s.heap && s.tables[t].id == s.heap[o]
  }

  ghost predicate Fits(s: State)
    requires s.tables != []
  {
    (forall t :: 0 <= t < |s.tables| ==> TableFits(s, t)) && forall w :: 0 <= w < |s.pc| ==> HandFits(s, s.pc[w])
  }

  /** No object is in two workers' hands. */
  lemma HandsApart(s: State, u: nat, w: nat, o: nat)
    requires OnePlaceEach(s) && u < |s.pc| && w < |s.pc| && u != w && o in InHand(s.pc[w])
    ensures o !in InHand(s.pc[u])
  {
    HandsSplit(s.pc, w, Idle);
    var pc' := s.pc[w := Idle];
    HandsSplit(pc', u, Idle);
    assert Everything(s)[o] <= 1;
    assert multiset(InHand(s.pc[w]))[o] >= 1;
    assert Total(Hands(pc'))[o] == 0;
    assert multiset(InHand(pc'[u]))[o] == 0;
  }

  lemma OthersHand(s: State, w: nat, o: nat, hid: nat, t: nat)
    requires Inv(s) && Fits(s) && w < |s.pc| && s.pc[w] == Filling(o) && t < |s.tables|
    ensures TableFits(s.(heap := s.heap[o := hid]), t)
    ensures forall u :: 0 <= u < |s.pc| && u != w ==> HandFits(s.(heap := s.heap[o := hid]), s.pc[u])
  {
    HandAlone(s, w, o);
    var s' := s.(heap := s.heap[o := hid]);
    hide Everything;
    assert TableFits(s, t);
    forall u | 0 <= u < |s.pc| && u != w ensures HandFits(s', s.pc[u]) {
      HandsApart(s, u, w, o);
      assert HandFits(s, s.pc[u]);
    }
  }

  /** Only table t and worker w have changed, and nobody else is at that table. */
  lemma MoveFits(s: State, s': State, w: nat, t: nat)
    requires s.tables != [] && Fits(s) && w < |s.pc| == |s'.pc| && t < |s.tables| == |s'.tables| && s'.heap == s.heap
    requires s'.pc == s.pc[w := s'.pc[w]] && s'.tables == s.tables[t := s'.tables[t]]
    requires s'.tables[t] == s.tables[t] || forall u :: 0 <= u < |s.pc| && u != w ==> !HasTable(s.pc[u], t)
    requires TableFits(s', t) && HandFits(s', s'.pc[w])
    ensures Fits(s')
  {
    forall v | 0 <= v < |s.tables| && v != t ensures TableFits(s', v) { assert TableFits(s, v); }
    forall u | 0 <= u < |s.pc| && u != w ensures HandFits(s', s'.pc[u]) {
      assert HandFits(s, s.pc[u]);
      if s.pc[u].Adding? { assert HasTable(s.pc[u], s.pc[u].t); }
    }
  }

  lemma ReceiveFits(s: State, w: nat, o: nat, e: Event)
    requires Inv(s) && Fits(s) && w < |s.pc| && s.pc[w] == Filling(o) && o < |s.payload|
    ensures Fits(Receive(s, w, o, e))
  {
    var s' := Receive(s, w, o, e);
    if e.received {
      forall t | 0 <= t < |s.tables| ensures TableFits(s', t) {
        OthersHand(s, w, o, e.hid, t);
        assert TableFits(s.(heap := s.heap[o := e.hid]), t);
      }
      OthersHand(s, w, o, e.hid, 0);
      forall u | 0 <= u < |s.pc| ensures HandFits(s', s'.pc[u]) {
        if u != w { assert HandFits(s.(heap := s.heap[o := e.hid]), s.pc[u]); }
      }
    } else {
      assert TableFits(s, 0);
      MoveFits(s, s', w, 0);
    }
  }

  lemma EnterFits(s: State, w: nat, o: nat, hid: nat, heapLen: nat)
    requires s.tables != [] && Fits(s) && w < |s.pc| && s.pc[w] == Locking(o, hid, heapLen)
    ensures Fits(Enter(s, w, o, hid, heapLen))
  {
    var t := hid % |s.tables|;
    assert TableFits(s, t) && HandFits(s, s.pc[w]);
    if !Busy(s, t) {
      assert forall u :: 0 <= u < |s.pc| ==> !HasTable(s.pc[u], t);
      MoveFits(s, Enter(s, w, o, hid, heapLen), w, t);
    }
  }

  lemma PutBackFits(s: State, w: nat, i: nat, p: Pc)
    requires s.tables != [] && Fits(s) && TablesHeld(s) && w < |s.pc| && (s.pc[w].Clearing? || s.pc[w].Emptying?)
      && s.pc[w].t < |s.tables|
    requires p == if s.pc[w].Clearing? then Adding(s.pc[w].o, s.pc[w].heapLen, s.pc[w].t) else Idle
    ensures Fits(PutBack(s, w, i, p))
  {
    var t := s.pc[w].t;
    assert TableFits(s, t) && HandFits(s, s.pc[w]);
    assert HasTable(s.pc[w], t);
    MoveFits(s, PutBack(s, w, i, p), w, t);
  }

  lemma AddFits(s: State, w: nat, o: nat, heapLen: nat, t: nat, fits: bool)
    requires s.tables != [] && Fits(s) && TablesHeld(s) && w < |s.pc| && s.pc[w] == Adding(o, heapLen, t)
    requires t < |s.tables| && o < |s.payload|
    ensures Fits(Add(s, w, o, heapLen, t, fits))
  {
    assert TableFits(s, t) && HandFits(s, s.pc[w]);
    assert HasTable(s.pc[w], t);
    MoveFits(s, Add(s, w, o, heapLen, t, fits), w, t);
  }

  lemma StepFits(s: State, w: nat, e: Event)
    requires Inv(s) && Fits(s) && w < |s.pc|
    ensures Act(s, w, e).tables != [] && Fits(Act(s, w, e))
  {
    StepLen(s, w, e);
    assert Proper(s.pc[w], |s.tables|, |s.payload|) && TableFits(s, 0);
    hide Take, Receive, Enter, PutBack, Add, Fits, Inv, TableFits;
    match s.pc[w]
    case Filling(o) => ReceiveFits(s, w, o, e);
    case Locking(o, hid, heapLen) => EnterFits(s, w, o, hid, heapLen);
    case Clearing(o, heapLen, t, _) => PutBackFits(s, w, e.pick, Adding(o, heapLen, t));
    case Emptying(_, _) => PutBackFits(s, w, e.pick, Idle);
    case Adding(o, heapLen, t) => AddFits(s, w, o, heapLen, t, e.fits);
    case _ => HandOnly(s, w, e);
  }

  lemma HandOnly(s: State, w: nat, e: Event)
    requires s.tables != [] && AllProper(s) && Fits(s) && w < |s.pc|
      && (s.pc[w].Idle? || s.pc[w].Returning? || s.pc[w].Stopped?)
    ensures Fits(Act(s, w, e))
  {
    assert TableFits(s, 0);
    MoveFits(s, Act(s, w, e), w, 0);
  }

  /** In every run each object is stored in its heap's slot, and a table holds at most one object of another heap. */
  lemma {:induction false} RunFits(r: seq<State>, i: nat)
    requires IsRun(r) && i < |r|
    ensures r[i].tables != [] && Fits(r[i])
    decreases i
  {
    if i > 0 {
      RunFits(r, i - 1);
      RunKeepsInv(r, i - 1);
      assert Next(r[i - 1], r[i]);
      var w: nat, e :| w < |r[i - 1].pc| && AllProper(r[i - 1]) && r[i] == Act(r[i - 1], w, e);
      StepFits(r[i - 1], w, e);
    }
  }

  // ---- when a table holds one heap only

  ghost predicate TableOwned(s: State, t: nat)
    requires t < |s.tables|
  {
    forall o :: o in s.tables[t].objs ==> o in s.heap && s.heap[o] == s.tables[t].id
  }

  /** Every table stores packets of its owner only, and the same goes for what is about to be added. */
  ghost predicate Owned(s: State) {
    && (forall t :: 0 <= t < |s.tables| ==> TableOwned(s, t))
    && forall w :: 0 <= w < |s.pc| ==> HandOwned(s, s.pc[w])
  }

  ghost predicate HandOwned(s: State, p: Pc) {
    p.Adding? && p.t < |s.tables| ==> p.o in s.heap && s.tables[p.t].id == s.heap[p.o]
  }

  ghost predicate SomeoneClearing(s: State) {
    exists w :: 0 <= w < |s.pc| && s.pc[w].Clearing?
  }

  lemma MoveOwned(s: State, s': State, w: nat, t: nat)
    requires Owned(s) && w < |s.pc| == |s'.pc| && t < |s.tables| == |s'.tables| && s'.heap == s.heap
    requires s'.pc == s.pc[w := s'.pc[w]] && s'.tables == s.tables[t := s'.tables[t]]
    requires s'.tables[t] == s.tables[t] || forall u :: 0 <= u < |s.pc| && u != w ==> !HasTable(s.pc[u], t)
    requires TableOwned(s', t) && HandOwned(s', s'.pc[w])
    ensures Owned(s')
  {
    forall v | 0 <= v < |s.tables| && v != t ensures TableOwned(s', v) { assert TableOwned(s, v); }
    forall u | 0 <= u < |s.pc| && u != w ensures HandOwned(s', s'.pc[u]) {
      assert HandOwned(s, s.pc[u]);
      if s.pc[u].Adding? { assert HasTable(s.pc[u], s.pc[u].t); }
    }
  }

  lemma ReceiveOwned(s: State, w: nat, o: nat, e: Event)
    requires Inv(s) && Owned(s) && w < |s.pc| && s.pc[w] == Filling(o) && o < |s.payload|
    ensures Owned(Receive(s, w, o, e))
  {
    var s' := Receive(s, w, o, e);
    HandAlone(s, w, o);
    hide Everything;
    forall t | 0 <= t < |s.tables| ensures TableOwned(s', t) { assert TableOwned(s, t); }
    forall u | 0 <= u < |s.pc| ensures HandOwned(s', s'.pc[u]) {
      if u != w {
        assert HandOwned(s, s.pc[u]);
        HandsApart(s, u, w, o);
      }
    }
  }

  lemma EnterOwned(s: State, w: nat, o: nat, hid: nat, heapLen: nat)
    requires s.tables != [] && Fits(s) && Owned(s) && w < |s.pc| && s.pc[w] == Locking(o, hid, heapLen)
    ensures Owned(Enter(s, w, o, hid, heapLen))
  {
    var t := hid % |s.tables|;
    assert TableOwned(s, t) && HandFits(s, s.pc[w]);
    if !Busy(s, t) {
      assert forall u :: 0 <= u < |s.pc| ==> !HasTable(s.pc[u], t);
      if s.tables[t].id < 0 && s.tables[t].objs != [] { assert s.tables[t].objs[0] in s.tables[t].objs; }
      MoveOwned(s, Enter(s, w, o, hid, heapLen), w, t);
    }
  }

  lemma PutBackOwned(s: State, w: nat, i: nat)
    requires Owned(s) && TablesHeld(s) && w < |s.pc| && s.pc[w].Emptying? && s.pc[w].t < |s.tables|
    ensures Owned(PutBack(s, w, i, Idle))
  {
    var t := s.pc[w].t;
    assert TableOwned(s, t) && HasTable(s.pc[w], t);
    MoveOwned(s, PutBack(s, w, i, Idle), w, t);
  }

  lemma AddOwned(s: State, w: nat, o: nat, heapLen: nat, t: nat, fits: bool)
    requires Owned(s) && TablesHeld(s) && w < |s.pc| && s.pc[w] == Adding(o, heapLen, t)
    requires t < |s.tables| && o < |s.payload|
    ensures Owned(Add(s, w, o, heapLen, t, fits))
  {
    assert TableOwned(s, t) && HandOwned(s, s.pc[w]) && HasTable(s.pc[w], t);
    MoveOwned(s, Add(s, w, o, heapLen, t, fits), w, t);
  }

  lemma StepOwned(s: State, w: nat, e: Event)
    requires Inv(s) && Fits(s) && Owned(s) && w < |s.pc| && !SomeoneClearing(s)
    ensures Owned(Act(s, w, e))
  {
    assert Proper(s.pc[w], |s.tables|, |s.payload|) && !s.pc[w].Clearing? && TableOwned(s, 0);
    hide Take, Receive, Enter, PutBack, Add, Fits, Inv, Owned, SomeoneClearing;
    match s.pc[w]
    case Filling(o) => ReceiveOwned(s, w, o, e);
    case Locking(o, hid, heapLen) => EnterOwned(s, w, o, hid, heapLen);
    case Emptying(_, _) => PutBackOwned(s, w, e.pick);
    case Adding(o, heapLen, t) => AddOwned(s, w, o, heapLen, t, e.fits);
    case _ => HandOnlyOwned(s, w, e);
  }

  lemma HandOnlyOwned(s: State, w: nat, e: Event)
    requires AllProper(s) && Owned(s) && w < |s.pc| && (s.pc[w].Idle? || s.pc[w].Returning? || s.pc[w].Stopped?)
    ensures Owned(Act(s, w, e))
  {
    assert TableOwned(s, 0);
    MoveOwned(s, Act(s, w, e), w, 0);
  }

  /** As long as no packet has found another heap in its slot, every table stores packets of its owner only. */
  lemma {:induction false} OneHeapPerTable(r: seq<State>, i: nat)
    requires IsRun(r) && i < |r| && forall j :: 0 <= j < i ==> !SomeoneClearing(r[j])
    ensures Owned(r[i])
    decreases i
  {
    if i > 0 {
      OneHeapPerTable(r, i - 1);
      RunKeepsInv(r, i - 1);
      RunFits(r, i - 1);
      assert Next(r[i - 1], r[i]);
      var w: nat, e :| w < |r[i - 1].pc| && AllProper(r[i - 1]) && r[i] == Act(r[i - 1], w, e);
      StepOwned(r[i - 1], w, e);
    }
  }

  lemma RunOn(r: seq<State>, more: seq<State>, w: nat, e: Event)
    requires IsRun(r) && more != [] && more[0] == r[|r| - 1] && Works(more, w, e)
    ensures IsRun(r + more[1..])
  {
    var r' := r + more[1..];
    forall i | 0 < i < |r'| ensures Next(r'[i - 1], r'[i]) {
      if i >= |r| {
        var k := i - |r|;
        assert r'[i - 1] == more[k] && r'[i] == more[k + 1];
        assert IsStep(more[k], w, e, more[k + 1]);
      } else {
        assert r'[i - 1] == r[i - 1] && r'[i] == r[i];
      }
    }
  }

  /** A packet of one byte of the given heap. */
  function OneByte(hid: nat, heapLen: nat): Event {
    Event(true, true, true, hid, heapLen, 1, 0)
  }

  /**
  Otherwise it need not be so: the packet that displaced a heap stays in a table without owner, and the next heap is
  taken for complete with that packet's byte counted as its own.
   */
  lemma ForeignByteCounts() returns (r: seq<State>)
    ensures IsRun(r)
    ensures r[|r| - 1] == State([], 0, [Table(2, 2, [])], [1, 1], map[0 := 2, 1 := 1], [Emptying(0, [1, 0])])
  {
    r := [State([0, 1], 2, [Table(-1, 0, [])], [0, 0], map[], [Idle])];
    assert IsRun(r);
    hide *;
    r := HeapZeroArrives(r);
    r := HeapOneDisplaces(r);
    r := HeapTwoCompletes(r);
  }

  lemma HeapZeroArrives(r: seq<State>) returns (r': seq<State>)
    requires IsRun(r) && r[|r| - 1] == State([0, 1], 2, [Table(-1, 0, [])], [0, 0], map[], [Idle])
    ensures IsRun(r') && r'[|r'| - 1] == State([1], 1, [Table(0, 1, [0])], [1, 0], map[0 := 0], [Idle])
  {
    var s, e := r[|r| - 1], OneByte(0, 9);
    hide Inv, Works, IsRun, AllProper, Busy;
    NobodyBusy(s, 0);
    RunKeepsInv(r, |r| - 1);
    var more := StoresPacket(s, 0, e);
    RunOn(r, more, 0, e);
    r' := r + more[1..];
    assert [0, 1][1..] == [1] && [] + [0] == [0];
    assert [Table(-1, 0, [])][0 := Table(0, 1, [0])] == [Table(0, 1, [0])];
    assert [0, 0][0 := 1] == [1, 0];
  }

  lemma HeapOneDisplaces(r: seq<State>) returns (r': seq<State>)
    requires IsRun(r) && r[|r| - 1] == State([1], 1, [Table(0, 1, [0])], [1, 0], map[0 := 0], [Idle])
    ensures IsRun(r')
    ensures r'[|r'| - 1] == State([0], 1, [Table(-1, 1, [1])], [1, 1], map[0 := 0, 1 := 1], [Idle])
  {
    hide *;
    r' := HeapZeroInHand(r);
    r' := HeapZeroPutBack(r');
    r' := HeapOneAdded(r');
  }

  lemma HeapZeroInHand(r: seq<State>) returns (r': seq<State>)
    requires IsRun(r) && r[|r| - 1] == State([1], 1, [Table(0, 1, [0])], [1, 0], map[0 := 0], [Idle])
    ensures IsRun(r')
    ensures r'[|r'| - 1]
         == State([], 0, [Table(0, 1, [])], [1, 1], map[0 := 0, 1 := 1], [Clearing(1, 9, 0, [0])])
  {
    var s, e := r[|r| - 1], OneByte(1, 9);
    hide Inv, Works, IsRun, AllProper, Busy;
    NobodyBusy(s, 0);
    RunKeepsInv(r, |r| - 1);
    var more := TakesOver(s, 0, e);
    RunOn(r, more, 0, e);
    r' := r + more[1..];
    assert [1][1..] == [] && [1, 0][1 := 1] == [1, 1] && [Table(0, 1, [0])][0 := Table(0, 1, [])] == [Table(0, 1, [])];
  }

  lemma HeapZeroPutBack(r: seq<State>) returns (r': seq<State>)
    requires IsRun(r)
    requires r[|r| - 1] == State([], 0, [Table(0, 1, [])], [1, 1], map[0 := 0, 1 := 1], [Clearing(1, 9, 0, [0])])
    ensures IsRun(r')
    ensures r'[|r'| - 1] == State([0], 1, [Table(-1, 0, [])], [1, 1], map[0 := 0, 1 := 1], [Adding(1, 9, 0)])
  {
    var s, e := r[|r| - 1], OneByte(1, 9);
    hide Inv, Works, IsRun, AllProper;
    RunKeepsInv(r, |r| - 1);
    var more := PutsBackAll(s, 0, e);
    RunOn(r, more, 0, e);
    r' := r + more[1..];
    OnlyOne(more[2].bank, 0);
    assert [Table(0, 1, [])][0 := Table(-1, 0, [])] == [Table(-1, 0, [])];
  }

  lemma HeapOneAdded(r: seq<State>) returns (r': seq<State>)
    requires IsRun(r)
    requires r[|r| - 1] == State([0], 1, [Table(-1, 0, [])], [1, 1], map[0 := 0, 1 := 1], [Adding(1, 9, 0)])
    ensures IsRun(r')
    ensures r'[|r'| - 1] == State([0], 1, [Table(-1, 1, [1])], [1, 1], map[0 := 0, 1 := 1], [Idle])
  {
    var s, e := r[|r| - 1], OneByte(1, 9);
    hide Inv, Works, IsRun, AllProper;
    RunKeepsInv(r, |r| - 1);
    NoStepYet(s, 0, e);
    var s' := WorksOn([s], 0, e);
    assert [s] + [s'] == [s, s'] && [s, s'][1..] == [s'];
    assert [Table(-1, 0, [])][0 := Table(-1, 1, [1])] == [Table(-1, 1, [1])] && [] + [1] == [1];
    RunOn(r, [s, s'], 0, e);
    r' := r + [s'];
  }

  lemma HeapTwoCompletes(r: seq<State>) returns (r': seq<State>)
    requires IsRun(r) && r[|r| - 1] == State([0], 1, [Table(-1, 1, [1])], [1, 1], map[0 := 0, 1 := 1], [Idle])
    ensures IsRun(r')
    ensures r'[|r'| - 1] == State([], 0, [Table(2, 2, [])], [1, 1], map[0 := 2, 1 := 1], [Emptying(0, [1, 0])])
  {
    var s, e := r[|r| - 1], OneByte(2, 2);
    hide Inv, Works, IsRun, AllProper, Busy;
    NobodyBusy(s, 0);
    RunKeepsInv(r, |r| - 1);
    var more := CompletesHeap(s, 0, e);
    RunOn(r, more, 0, e);
    r' := r + more[1..];
    assert [1, 1][0 := 1] == [1, 1] && [1] + [0] == [1, 0];
  }

  lemma NobodyBusy(s: State, t: nat)
    requires s.pc == [Idle]
    ensures !Busy(s, t)
  {}

  lemma OnlyOne(bank: seq<nat>, o: nat)
    requires multiset(bank) == multiset{o}
    ensures bank == [o]
  {
    assert |bank| == |multiset(bank)| == 1;
    assert bank == [bank[0]];
  }
}
