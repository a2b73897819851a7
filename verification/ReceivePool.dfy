/**
The receive workers: any number of processes that take packet objects from one bank, fill them from the network, store
them in the heap tables and put them back. Taking from the bank, putting back and the work under a table's mutex
interleave freely; the mutexes themselves are taken at their word.
 */
module ReceivePool {

  /** A table of one heap: the heap's number or -1, the payload bytes counted so far, and the stored objects. */
  datatype Table = Table(id: int, count: int, objs: seq<nat>)

  /** Where a worker is, and which objects it has in hand. */
  datatype Pc =
    | Idle
    | Filling(o: nat)
    | Locking(o: nat, hid: nat, heapLen: nat)                       // waits for the mutex of the heap's table
    | Clearing(o: nat, heapLen: nat, t: nat, rest: seq<nat>)        // another heap's objects go back to the bank
    | Adding(o: nat, heapLen: nat, t: nat)
    | Emptying(t: nat, rest: seq<nat>)                              // a complete heap's objects go back
    | Returning(o: nat, last: bool)
    | Stopped

  /**
  The objects are the numbers below |payload|; payload and heap give the length and the heap number in the header each
  object holds, if anything has been received into it.
   */
  datatype State = State(bank: seq<nat>, len: int, tables: seq<Table>, payload: seq<nat>, heap: map<nat, nat>,
                         pc: seq<Pc>)

  /** What the network and the scheduler decide in a step. */
  datatype Event = Event(received: bool, valid: bool, fits: bool, hid: nat, heapLen: nat, payload: nat, pick: nat)

  function Goto(s: State, w: nat, p: Pc): State
    requires w < |s.pc|
  {
    s.(pc := s.pc[w := p])
  }

  function Push(s: State, o: nat): State {
    s.(bank := [o] + s.bank, len := s.len + 1)
  }

  function SetTable(s: State, t: nat, table: Table): State
    requires t < |s.tables|
  {
    s.(tables := s.tables[t := table])
  }

  function Without(s: seq<nat>, i: nat): seq<nat>
    requires i < |s|
  {
    s[..i] + s[i + 1..]
  }

  /** The worker has the mutex of table t. */
  predicate HasTable(p: Pc, t: nat) {
    (p.Clearing? || p.Adding? || p.Emptying?) && p.t == t
  }

  ghost predicate Busy(s: State, t: nat) {
    exists w :: 0 <= w < |s.pc| && HasTable(s.pc[w], t)
  }

  /** The table and the object the worker has in hand are among those there are. */
  predicate Proper(p: Pc, tables: nat, objs: nat) {
    match p
    case Filling(o) => o < objs
    case Locking(o, _, _) => o < objs
    case Clearing(o, _, t, _) => o < objs && t < tables
    case Adding(o, _, t) => o < objs && t < tables
    case Emptying(t, _) => t < tables
    case Returning(o, _) => o < objs
    case _ => true
  }

  ghost predicate AllProper(s: State) {
    s.tables != [] && forall w :: 0 <= w < |s.pc| ==> Proper(s.pc[w], |s.tables|, |s.payload|)
  }

  /** An idle worker takes the top object of the bank; at an empty bank it stops. */
  function Take(s: State, w: nat): State
    requires w < |s.pc|
  {
    if s.bank == [] then Goto(s, w, Stopped)
    else Goto(s, w, Filling(s.bank[0])).(bank := s.bank[1..], len := s.len - 1)
  }

  /** A datagram arrives in object o, or nothing usable does. */
  function Receive(s: State, w: nat, o: nat, e: Event): State
    requires w < |s.pc| && o < |s.payload|
  {
    if !e.received then Goto(s, w, Returning(o, false))
    else
      Goto(s, w, if e.valid then Locking(o, e.hid, e.heapLen) else Returning(o, true))
        .(payload := s.payload[o := e.payload], heap := s.heap[o := e.hid])
  }

  /** With the table's mutex free, the table is taken over, and first emptied if it holds another heap. */
  ghost function Enter(s: State, w: nat, o: nat, hid: nat, heapLen: nat): State
    requires w < |s.pc| && s.tables != []
  {
    var t := hid % |s.tables|;
    if Busy(s, t) then s
    else if s.tables[t].id < 0 || s.tables[t].id == hid then
      Goto(SetTable(s, t, s.tables[t].(id := hid)), w, Adding(o, heapLen, t))
    else Goto(SetTable(s, t, s.tables[t].(objs := [])), w, Clearing(o, heapLen, t, s.tables[t].objs))
  }

  /** One more object of the worker's table goes to the bank; after the last the table is reset and it goes on to p. */
  function PutBack(s: State, w: nat, i: nat, p: Pc): State
    requires w < |s.pc| && (s.pc[w].Clearing? || s.pc[w].Emptying?) && s.pc[w].t < |s.tables|
  {
    var q := s.pc[w];
    if q.rest == [] then Goto(SetTable(s, q.t, Table(-1, 0, [])), w, p)
    else
      var k := i % |q.rest|;
      Push(Goto(s, w, q.(rest := Without(q.rest, k))), q.rest[k])
  }

  /** The object is added to the table and its payload counted; if that completes the heap the table is emptied. */
  function Add(s: State, w: nat, o: nat, heapLen: nat, t: nat, fits: bool): State
    requires w < |s.pc| && t < |s.tables| && o < |s.payload|
  {
    if !fits then Goto(s, w, Returning(o, true))
    else
      var table := s.tables[t].(objs := s.tables[t].objs + [o], count := s.tables[t].count + s.payload[o]);
      if table.count == heapLen then Goto(SetTable(s, t, table.(objs := [])), w, Emptying(t, table.objs))
      else Goto(SetTable(s, t, table), w, Idle)
  }

  /** The next step of worker w. */
  ghost function Act(s: State, w: nat, e: Event): State
    requires w < |s.pc| && AllProper(s)
  {
    match s.pc[w]
    case Idle => Take(s, w)
    case Filling(o) => Receive(s, w, o, e)
    case Locking(o, hid, heapLen) => Enter(s, w, o, hid, heapLen)
    case Clearing(o, heapLen, t, _) => PutBack(s, w, e.pick, Adding(o, heapLen, t))
    case Adding(o, heapLen, t) => Add(s, w, o, heapLen, t, e.fits)
    case Emptying(_, _) => PutBack(s, w, e.pick, Idle)
    case Returning(o, last) => Push(Goto(s, w, if last then Stopped else Idle), o)
    case Stopped => s
  }

  // ---- where the objects are

  function InHand(p: Pc): seq<nat> {
    match p
    case Idle => []
    case Filling(o) => [o]
    case Locking(o, _, _) => [o]
    case Clearing(o, _, _, rest) => [o] + rest
    case Adding(o, _, _) => [o]
    case Emptying(_, rest) => rest
    case Returning(o, _) => [o]
    case Stopped => []
  }

  function Hands(pc: seq<Pc>): seq<seq<nat>> {
    seq(|pc|, w requires 0 <= w < |pc| => InHand(pc[w]))
  }

  function Stored(tables: seq<Table>): seq<seq<nat>> {
    seq(|tables|, t requires 0 <= t < |tables| => tables[t].objs)
  }

  ghost function Total(ss: seq<seq<nat>>): multiset<nat> {
    if ss == [] then multiset{} else multiset(ss[0]) + Total(ss[1..])
  }

  /** Every object, as often as it is somewhere. */
  ghost function Everything(s: State): multiset<nat> {
    multiset(s.bank) + Total(Stored(s.tables)) + Total(Hands(s.pc))
  }

  lemma {:induction false} TotalSplit(ss: seq<seq<nat>>, i: nat, x: seq<nat>)
    requires i < |ss|
    ensures multiset(ss[i]) <= Total(ss) && Total(ss[i := x]) == Total(ss) - multiset(ss[i]) + multiset(x)
  {
    if i == 0 {
      assert ss[0 := x][1..] == ss[1..];
    } else {
      assert ss[i := x][1..] == ss[1..][i - 1 := x];
      TotalSplit(ss[1..], i - 1, x);
    }
  }

  lemma HandsSplit(pc: seq<Pc>, w: nat, p: Pc)
    requires w < |pc|
    ensures multiset(InHand(pc[w])) <= Total(Hands(pc))
    ensures Total(Hands(pc[w := p])) == Total(Hands(pc)) - multiset(InHand(pc[w])) + multiset(InHand(p))
  {
    TotalSplit(Hands(pc), w, InHand(p));
    assert Hands(pc[w := p]) == Hands(pc)[w := InHand(p)];
  }

  lemma StoredSplit(tables: seq<Table>, t: nat, table: Table)
    requires t < |tables|
    ensures multiset(tables[t].objs) <= Total(Stored(tables))
    ensures Total(Stored(tables[t := table])) == Total(Stored(tables)) - multiset(tables[t].objs) + multiset(table.objs)
  {
    TotalSplit(Stored(tables), t, table.objs);
    assert Stored(tables[t := table]) == Stored(tables)[t := table.objs];
  }

  lemma WithoutOne(s: seq<nat>, i: nat)
    requires i < |s|
    ensures multiset(s) == multiset{s[i]} + multiset(Without(s, i))
  {
    assert s == s[..i] + [s[i]] + s[i + 1..];
  }

  /** The bank, one worker and one table pass objects between them. */
  lemma Exchange(s: State, bank: seq<nat>, w: nat, p: Pc, t: nat, table: Table)
    requires w < |s.pc| && t < |s.tables|
    requires multiset(bank) + multiset(InHand(p)) + multiset(table.objs)
          == multiset(s.bank) + multiset(InHand(s.pc[w])) + multiset(s.tables[t].objs)
    ensures Everything(s.(bank := bank, pc := s.pc[w := p], tables := s.tables[t := table])) == Everything(s)
  {
    HandsSplit(s.pc, w, p);
    StoredSplit(s.tables, t, table);
    hide *;
    Swapped(multiset(s.bank), multiset(bank), Total(Stored(s.tables)), multiset(s.tables[t].objs), multiset(table.objs),
            Total(Hands(s.pc)), multiset(InHand(s.pc[w])), multiset(InHand(p)));
  }

  lemma Swapped(a: multiset<nat>, a': multiset<nat>, b: multiset<nat>, x: multiset<nat>, x': multiset<nat>,
                c: multiset<nat>, y: multiset<nat>, y': multiset<nat>)
    requires x <= b && y <= c && a' + y' + x' == a + y + x
    ensures a' + (b - x + x') + (c - y + y') == a + b + c
  {
    forall o ensures (a' + (b - x + x') + (c - y + y'))[o] == (a + b + c)[o] {
      assert (a' + y' + x')[o] == (a + y + x)[o];
    }
  }

  /** Workers have different tables, and a table being emptied shows no objects. */
  ghost predicate TablesHeld(s: State) {
    && (forall u, w, t :: 0 <= u < |s.pc| && 0 <= w < |s.pc| && HasTable(s.pc[u], t) && HasTable(s.pc[w], t) ==> u == w)
    && (forall w :: 0 <= w < |s.pc| && (s.pc[w].Clearing? || s.pc[w].Emptying?) && s.pc[w].t < |s.tables| ==>
          s.tables[s.pc[w].t].objs == [])
  }

  /** From s to s', worker w exchanges objects with the bank and with table t, and nothing else is touched. */
  ghost predicate Exchanges(s: State, s': State, w: nat, t: nat) {
    && w < |s.pc| && t < |s.tables| && w < |s'.pc| && t < |s'.tables|
    && s'.pc == s.pc[w := s'.pc[w]] && s'.tables == s.tables[t := s'.tables[t]]
    && multiset(s'.bank) + multiset(InHand(s'.pc[w])) + multiset(s'.tables[t].objs)
    == multiset(s.bank) + multiset(InHand(s.pc[w])) + multiset(s.tables[t].objs)
  }

  lemma TakeExchanges(s: State, w: nat)
    requires w < |s.pc| && s.tables != [] && s.pc[w] == Idle
    ensures Exchanges(s, Take(s, w), w, 0)
  {
    if s.bank != [] { assert s.bank == [s.bank[0]] + s.bank[1..]; }
  }

  lemma ReceiveExchanges(s: State, w: nat, o: nat, e: Event)
    requires w < |s.pc| && s.tables != [] && o < |s.payload| && s.pc[w] == Filling(o)
    ensures Exchanges(s, Receive(s, w, o, e), w, 0)
  {}

  lemma EnterExchanges(s: State, w: nat, o: nat, hid: nat, heapLen: nat)
    requires w < |s.pc| && s.tables != [] && s.pc[w] == Locking(o, hid, heapLen)
    ensures Exchanges(s, Enter(s, w, o, hid, heapLen), w, hid % |s.tables|)
  {
    hide Busy;
    var t := hid % |s.tables|;
    assert multiset([o] + s.tables[t].objs) == multiset{o} + multiset(s.tables[t].objs);
  }

  lemma OneToBank(bank: seq<nat>, x: nat, hand: seq<nat>, rest: seq<nat>, left: seq<nat>)
    requires multiset(rest) == multiset{x} + multiset(left)
    ensures multiset([x] + bank) + multiset(hand + left) == multiset(bank) + multiset(hand + rest)
  {}

  lemma PutOne(s: State, w: nat, p: Pc, x: nat, t: nat)
    requires w < |s.pc| && t < |s.tables|
    requires multiset([x] + s.bank) + multiset(InHand(p)) == multiset(s.bank) + multiset(InHand(s.pc[w]))
    ensures Exchanges(s, Push(Goto(s, w, p), x), w, t)
  {
    hide InHand;
  }

  lemma PutBackExchanges(s: State, w: nat, i: nat, p: Pc)
    requires w < |s.pc| && (s.pc[w].Clearing? || s.pc[w].Emptying?) && s.pc[w].t < |s.tables|
    requires s.tables[s.pc[w].t].objs == [] && InHand(p) == if s.pc[w].Clearing? then [s.pc[w].o] else []
    ensures Exchanges(s, PutBack(s, w, i, p), w, s.pc[w].t)
  {
    hide InHand, Without, Exchanges;
    var q := s.pc[w];
    RestInHand(q, q.rest, InHand(p));
    if q.rest == [] {
      LastPutBack(s, w, p);
    } else {
      var k := i % |q.rest|;
      var left := Without(q.rest, k);
      WithoutOne(q.rest, k);
      RestInHand(q, left, InHand(p));
      OneToBank(s.bank, q.rest[k], InHand(p), q.rest, left);
      PutOne(s, w, q.(rest := left), q.rest[k], q.t);
    }
  }

  lemma RestInHand(q: Pc, rest: seq<nat>, hand: seq<nat>)
    requires (q.Clearing? || q.Emptying?) && hand == if q.Clearing? then [q.o] else []
    ensures InHand(q.(rest := rest)) == hand + rest && q.(rest := q.rest) == q
  {}

  lemma LastPutBack(s: State, w: nat, p: Pc)
    requires w < |s.pc| && (s.pc[w].Clearing? || s.pc[w].Emptying?) && s.pc[w].t < |s.tables|
    requires s.tables[s.pc[w].t].objs == [] && InHand(s.pc[w]) == InHand(p)
    ensures Exchanges(s, Goto(SetTable(s, s.pc[w].t, Table(-1, 0, [])), w, p), w, s.pc[w].t)
  {
    hide InHand;
  }

  lemma AddExchanges(s: State, w: nat, o: nat, heapLen: nat, t: nat, fits: bool)
    requires w < |s.pc| && t < |s.tables| && o < |s.payload| && s.pc[w] == Adding(o, heapLen, t)
    ensures Exchanges(s, Add(s, w, o, heapLen, t, fits), w, t)
  {}

  lemma ReturnExchanges(s: State, w: nat, o: nat, p: Pc)
    requires w < |s.pc| && s.tables != [] && InHand(s.pc[w]) == [o] && InHand(p) == []
    ensures Exchanges(s, Push(Goto(s, w, p), o), w, 0)
  {}

  lemma StepExchanges(s: State, w: nat, e: Event) returns (t: nat)
    requires w < |s.pc| && AllProper(s) && TablesHeld(s)
    ensures Exchanges(s, Act(s, w, e), w, t)
  {
    t := 0;
    hide Take, Receive, Enter, PutBack, Add, Push, Exchanges;
    match s.pc[w]
    case Idle => TakeExchanges(s, w);
    case Filling(o) =>
      ReceiveExchanges(s, w, o, e);
    case Locking(o, hid, heapLen) =>
      t := hid % |s.tables|;
      EnterExchanges(s, w, o, hid, heapLen);
    case Clearing(o, heapLen, t1, _) =>
      t := t1;
      PutBackExchanges(s, w, e.pick, Adding(o, heapLen, t));
    case Adding(o, heapLen, t1) =>
      t := t1;
      AddExchanges(s, w, o, heapLen, t, e.fits);
    case Emptying(t1, rest) =>
      t := t1;
      PutBackExchanges(s, w, e.pick, Idle);
    case Returning(o, last) => ReturnExchanges(s, w, o, if last then Stopped else Idle);
    case Stopped => assert Exchanges(s, s, w, 0) by { Unmoved(s, w); }
  }

  lemma Unmoved(s: State, w: nat)
    requires w < |s.pc| && s.tables != []
    ensures Exchanges(s, s, w, 0)
  {}

  /** No step makes, loses or doubles an object. */
  lemma StepConserves(s: State, w: nat, e: Event)
    requires w < |s.pc| && AllProper(s) && TablesHeld(s)
    ensures Everything(Act(s, w, e)) == Everything(s)
  {
    var t := StepExchanges(s, w, e);
    var s' := Act(s, w, e);
    hide Act, Everything, InHand, AllProper, TablesHeld;
    Exchange(s, s'.bank, w, s'.pc[w], t, s'.tables[t]);
    SamePlaces(s', s.(bank := s'.bank, pc := s.pc[w := s'.pc[w]], tables := s.tables[t := s'.tables[t]]));
  }

  lemma SamePlaces(s: State, s': State)
    requires s'.bank == s.bank && s'.pc == s.pc && s'.tables == s.tables
    ensures Everything(s') == Everything(s)
  {}

  // ---- what every run keeps

  /** Every object is in exactly one place, once. */
  ghost predicate OnePlaceEach(s: State) {
    forall o: nat :: Everything(s)[o] == if o < |s.payload| then 1 else 0
  }

  function PayloadSum(payload: seq<nat>, objs: seq<nat>): nat {
    if objs == [] then 0
    else PayloadSum(payload, objs[..|objs| - 1]) + PayloadOf(payload, objs[|objs| - 1])
  }

  function PayloadOf(payload: seq<nat>, o: nat): nat {
    if o < |payload| then payload[o] else 0
  }

  ghost predicate BeingEmptied(s: State, t: nat) {
    exists w :: 0 <= w < |s.pc| && HasTable(s.pc[w], t) && !s.pc[w].Adding?
  }

  /** A table that nobody is emptying has counted the payload it stores. */
  ghost predicate Counted(s: State) {
    forall t: nat :: t < |s.tables| && !BeingEmptied(s, t) ==>
      s.tables[t].count == PayloadSum(s.payload, s.tables[t].objs)
  }

  ghost predicate Inv(s: State) {
    AllProper(s) && TablesHeld(s) && OnePlaceEach(s) && s.len == |s.bank| && Counted(s)
  }

  ghost predicate Init(s: State) {
    && s.tables != [] && s.len == |s.bank|
    && (forall w :: 0 <= w < |s.pc| ==> s.pc[w] == Idle)
    && (forall t :: 0 <= t < |s.tables| ==> s.tables[t] == Table(-1, 0, []))
    && forall o: nat :: multiset(s.bank)[o] == if o < |s.payload| then 1 else 0
  }

  ghost predicate Next(s: State, s': State) {
    exists w: nat, e :: w < |s.pc| && AllProper(s) && s' == Act(s, w, e)
  }

  ghost predicate IsRun(r: seq<State>) {
    r != [] && Init(r[0]) && forall i :: 0 < i < |r| ==> Next(r[i - 1], r[i])
  }

  lemma {:induction false} NothingIn(ss: seq<seq<nat>>)
    requires forall i :: 0 <= i < |ss| ==> ss[i] == []
    ensures Total(ss) == multiset{}
  {
    if ss != [] { NothingIn(ss[1..]); }
  }

  lemma InitInv(s: State)
    requires Init(s)
    ensures Inv(s)
  {
    NothingIn(Hands(s.pc));
    NothingIn(Stored(s.tables));
  }

  lemma StepLen(s: State, w: nat, e: Event)
    requires w < |s.pc| && AllProper(s) && s.len == |s.bank|
    ensures Act(s, w, e).len == |Act(s, w, e).bank|
    ensures |Act(s, w, e).payload| == |s.payload| && |Act(s, w, e).tables| == |s.tables| && |Act(s, w, e).pc| == |s.pc|
  {
    hide Busy, Without;
  }

  /** Where worker w is after its step, and how its table looks then. */
  ghost predicate PlaceKept(s: State, s': State, w: nat)
    requires w < |s.pc|
  {
    && |s'.pc| == |s.pc| && |s'.tables| == |s.tables| && |s'.payload| == |s.payload|
    && Proper(s'.pc[w], |s.tables|, |s.payload|)
    && (forall u :: 0 <= u < |s.pc| && u != w ==> s'.pc[u] == s.pc[u])
    && (forall t :: HasTable(s'.pc[w], t) ==> HasTable(s.pc[w], t) || !Busy(s, t))
    && (forall t :: 0 <= t < |s.tables| && s'.tables[t] != s.tables[t] ==>
          HasTable(s.pc[w], t) || (HasTable(s'.pc[w], t) && !Busy(s, t)))
    && (s'.pc[w].Clearing? || s'.pc[w].Emptying? ==> s'.tables[s'.pc[w].t].objs == [])
  }

  lemma StepPlace(s: State, w: nat, e: Event)
    requires w < |s.pc| && AllProper(s) && TablesHeld(s) && (s.bank != [] ==> s.bank[0] < |s.payload|)
    ensures PlaceKept(s, Act(s, w, e), w)
  {
    assert Proper(s.pc[w], |s.tables|, |s.payload|);
    match s.pc[w]
    case Locking(o, hid, heapLen) => EnterPlace(s, w, o, hid, heapLen);
    case Clearing(o, heapLen, t, _) => PutBackPlace(s, w, e.pick, Adding(o, heapLen, t));
    case Emptying(_, _) => PutBackPlace(s, w, e.pick, Idle);
    case Adding(o, heapLen, t) => AddPlace(s, w, o, heapLen, t, e.fits);
    case _ => hide Busy, TablesHeld, AllProper, Enter, PutBack, Add;
  }

  lemma EnterPlace(s: State, w: nat, o: nat, hid: nat, heapLen: nat)
    requires w < |s.pc| && s.pc[w] == Locking(o, hid, heapLen) && s.tables != [] && o < |s.payload|
    ensures PlaceKept(s, Enter(s, w, o, hid, heapLen), w)
  {
    hide Busy;
  }

  lemma PutBackPlace(s: State, w: nat, i: nat, p: Pc)
    requires w < |s.pc| && (s.pc[w].Clearing? || s.pc[w].Emptying?) && s.pc[w].t < |s.tables|
    requires s.tables[s.pc[w].t].objs == [] && Proper(s.pc[w], |s.tables|, |s.payload|)
    requires p == if s.pc[w].Clearing? then Adding(s.pc[w].o, s.pc[w].heapLen, s.pc[w].t) else Idle
    ensures PlaceKept(s, PutBack(s, w, i, p), w)
  {
    hide Busy, Without;
  }

  lemma AddPlace(s: State, w: nat, o: nat, heapLen: nat, t: nat, fits: bool)
    requires w < |s.pc| && s.pc[w] == Adding(o, heapLen, t) && o < |s.payload| && t < |s.tables|
    ensures PlaceKept(s, Add(s, w, o, heapLen, t, fits), w)
  {
    hide Busy;
  }

  lemma StepKeepsPlaces(s: State, w: nat, e: Event)
    requires w < |s.pc| && AllProper(s) && TablesHeld(s) && (s.bank != [] ==> s.bank[0] < |s.payload|)
    ensures AllProper(Act(s, w, e)) && TablesHeld(Act(s, w, e))
  {
    hide Act;
    StepPlace(s, w, e);
    var s' := Act(s, w, e);
    forall u, t | 0 <= u < |s.pc| && u != w && HasTable(s'.pc[u], t) ensures Busy(s, t) && !HasTable(s'.pc[w], t) {
      assert HasTable(s.pc[u], t);
      assert !HasTable(s.pc[w], t);
    }
    forall u | 0 <= u < |s.pc| && u != w && (s'.pc[u].Clearing? || s'.pc[u].Emptying?) && s'.pc[u].t < |s.tables|
      ensures s'.tables[s'.pc[u].t].objs == []
    {
      assert HasTable(s'.pc[u], s'.pc[u].t);
    }
  }

  /** What a worker has in hand is neither in the bank nor in a table. */
  lemma HandAlone(s: State, w: nat, o: nat)
    requires OnePlaceEach(s) && w < |s.pc| && o in InHand(s.pc[w])
    ensures o < |s.payload| && o !in s.bank && forall t :: 0 <= t < |s.tables| ==> o !in s.tables[t].objs
  {
    HandsSplit(s.pc, w, Idle);
    assert Everything(s)[o] == 1;
    forall t | 0 <= t < |s.tables| ensures o !in s.tables[t].objs {
      var objs := multiset(s.tables[t].objs);
      StoredSplit(s.tables, t, s.tables[t]);
      assert objs[o] <= Total(Stored(s.tables))[o];
      assert o !in objs;
    }
    var bank := multiset(s.bank);
    assert o !in bank;
  }

  lemma TopOfBank(s: State)
    requires OnePlaceEach(s) && s.bank != []
    ensures s.bank[0] < |s.payload|
  {
    assert s.bank[0] in multiset(s.bank);
    assert Everything(s)[s.bank[0]] >= 1;
  }

  lemma {:induction false} SumUntouched(payload: seq<nat>, o: nat, x: nat, objs: seq<nat>)
    requires o < |payload| && o !in objs
    ensures PayloadSum(payload[o := x], objs) == PayloadSum(payload, objs)
  {
    if objs != [] { SumUntouched(payload, o, x, objs[..|objs| - 1]); }
  }

  lemma SumMore(payload: seq<nat>, objs: seq<nat>, o: nat)
    requires o < |payload|
    ensures PayloadSum(payload, objs + [o]) == PayloadSum(payload, objs) + payload[o]
  {
    assert (objs + [o])[..|objs|] == objs;
  }

  /** One table and the payload table after a step of worker w. */
  ghost predicate CountKept(s: State, s': State, w: nat, t: nat)
    requires w < |s.pc| && w < |s'.pc| && t < |s.tables| && t < |s'.tables|
  {
    var emptying := HasTable(s'.pc[w], t) && !s'.pc[w].Adding?;
    var was := HasTable(s.pc[w], t) && !s.pc[w].Adding?;
    var sum, sum' := PayloadSum(s.payload, s.tables[t].objs), PayloadSum(s'.payload, s'.tables[t].objs);
    emptying || if was then s'.tables[t].count == sum' else s'.tables[t].count - s.tables[t].count == sum' - sum
  }

  lemma StepCounts(s: State, w: nat, e: Event, t: nat)
    requires w < |s.pc| && AllProper(s) && TablesHeld(s) && OnePlaceEach(s) && t < |s.tables|
    ensures |Act(s, w, e).pc| == |s.pc| && |Act(s, w, e).tables| == |s.tables| && CountKept(s, Act(s, w, e), w, t)
  {
    hide Busy, Without, Everything, PayloadSum;
    EmptySum(s.payload);
    match s.pc[w]
    case Filling(o) =>
      HandAlone(s, w, o);
      SumUntouched(s.payload, o, e.payload, s.tables[t].objs);
    case Adding(o, _, t1) =>
      SumMore(s.payload, s.tables[t1].objs, o);
    case _ =>
  }

  lemma EmptySum(payload: seq<nat>)
    ensures PayloadSum(payload, []) == 0
  {}

  lemma StepKeepsCounts(s: State, w: nat, e: Event)
    requires w < |s.pc| && Inv(s)
    ensures Counted(Act(s, w, e))
  {
    StepLen(s, w, e);
    if s.bank != [] { TopOfBank(s); }
    StepPlace(s, w, e);
    var s' := Act(s, w, e);
    forall t: nat | t < |s'.tables| && !BeingEmptied(s', t)
      ensures s'.tables[t].count == PayloadSum(s'.payload, s'.tables[t].objs)
    {
      StepCounts(s, w, e, t);
      hide Act, Everything, Busy, AllProper, TablesHeld;
      assert !(HasTable(s'.pc[w], t) && !s'.pc[w].Adding?);
      if !(HasTable(s.pc[w], t) && !s.pc[w].Adding?) {
        assert !BeingEmptied(s, t) by {
          forall u | 0 <= u < |s.pc| && u != w ensures !(HasTable(s.pc[u], t) && !s.pc[u].Adding?) {
            assert s'.pc[u] == s.pc[u];
          }
        }
      }
    }
  }

  lemma StepKeepsInv(s: State, w: nat, e: Event)
    requires w < |s.pc| && Inv(s)
    ensures Inv(Act(s, w, e))
  {
    if s.bank != [] { TopOfBank(s); }
    StepLen(s, w, e);
    StepKeepsPlaces(s, w, e);
    StepConserves(s, w, e);
    StepKeepsCounts(s, w, e);
    hide Act, AllProper, TablesHeld, Counted, Everything;
  }

  /**
  In every state of every run of any number of workers: each object is in exactly one place (the bank, one table, one
  worker's hand), the length of the bank is right, no two workers are at one table, and every table that is not being
  emptied has counted exactly the payload it stores.
   */
  lemma {:induction false} RunKeepsInv(r: seq<State>, i: nat)
    requires IsRun(r) && i < |r|
    ensures Inv(r[i])
    decreases i
  {
    if i == 0 {
      InitInv(r[0]);
    } else {
      RunKeepsInv(r, i - 1);
      assert Next(r[i - 1], r[i]);
      var w: nat, e :| w < |r[i - 1].pc| && AllProper(r[i - 1]) && r[i] == Act(r[i - 1], w, e);
      StepKeepsInv(r[i - 1], w, e);
    }
  }

  /** A heap is taken for complete exactly when the payload stored in its table adds up to the heap length. */
  lemma CompleteMeansAllPayload(r: seq<State>, i: nat, w: nat, e: Event)
    requires IsRun(r) && i < |r| && w < |r[i].pc| && r[i].pc[w].Adding? && e.fits
    ensures Inv(r[i])
    ensures var Adding(o, heapLen, t) := r[i].pc[w];
      Act(r[i], w, e).pc[w].Emptying? <==> PayloadSum(r[i].payload, r[i].tables[t].objs + [o]) == heapLen
  {
    RunKeepsInv(r, i);
    var s := r[i];
    var Adding(o, heapLen, t) := s.pc[w];
    SumMore(s.payload, s.tables[t].objs, o);
    assert !BeingEmptied(s, t) by {
      forall u | 0 <= u < |s.pc| && HasTable(s.pc[u], t) ensures s.pc[u].Adding? {
        assert HasTable(s.pc[w], t);
      }
    }
  }

  /** When all workers have stopped or wait for an object and no table stores one, the bank is complete again. */
  lemma NothingLost(r: seq<State>, i: nat)
    requires IsRun(r) && i < |r| && (forall w :: 0 <= w < |r[i].pc| ==> r[i].pc[w].Idle? || r[i].pc[w].Stopped?)
    requires forall t :: 0 <= t < |r[i].tables| ==> r[i].tables[t].objs == []
    ensures forall o: nat :: multiset(r[i].bank)[o] == if o < |r[i].payload| then 1 else 0
    ensures r[i].len == |r[i].bank|
  {
    RunKeepsInv(r, i);
    NothingIn(Hands(r[i].pc));
    NothingIn(Stored(r[i].tables));
    assert Everything(r[i]) == multiset(r[i].bank);
  }
}
