/** The cooperative in-flight window of the browser reader (rust/src/fetch_window.rs): a
    counting gate on a single-threaded executor that stays live when parked waiters are
    dropped. The gate's operations are pure functions on its state, the class carries them
    out field by field, and the runs interleave them with an executor's polls and drops. */
module FetchWindow {
  import opened Wrappers

  /** A parked waiter: the acquisition's id and the waker of its latest pending poll. */
  datatype Entry = Entry(id: nat, waker: nat)

  datatype Gate = Gate(limit: nat, active: nat, waiters: seq<Entry>, nextId: nat)

  /** The queue without `id`'s entry. */
  function Without(q: seq<Entry>, id: nat): seq<Entry> {
    if q == [] then [] else (if q[0].id == id then [] else [q[0]]) + Without(q[1..], id)
  }

  /** Only `id`'s entry goes; the others keep their order. */
  lemma {:induction false} WithoutIs(q: seq<Entry>, id: nat, i: nat)
    requires i <= |q| && (forall j :: 0 <= j < i ==> q[j].id != id)
    ensures i == |q| ==> Without(q, id) == q
    ensures i < |q| && q[i].id == id && (forall j :: i < j < |q| ==> q[j].id != id) ==>
              Without(q, id) == q[..i] + q[i + 1..]
    decreases |q|
  {
    if q != [] {
      if i > 0 {
        WithoutIs(q[1..], id, i - 1);
        assert q == [q[0]] + q[1..];
      } else {
        NoneTaken(q[1..], id);
      }
    }
  }

  lemma {:induction false} NoneTaken(q: seq<Entry>, id: nat)
    ensures (forall j :: 0 <= j < |q| ==> q[j].id != id) ==> Without(q, id) == q
  {
    if q != [] {
      NoneTaken(q[1..], id);
      assert q == [q[0]] + q[1..];
    }
  }

  /** The queue with `id` parked on `waker`: its entry replaced in place, or a new one behind. */
  function Park(q: seq<Entry>, id: nat, waker: nat): seq<Entry> {
    if q == [] then [Entry(id, waker)]
    else if q[0].id == id then [Entry(id, waker)] + q[1..]
    else [q[0]] + Park(q[1..], id, waker)
  }

  /** Where the scan stops: at the entry to replace, or past the end. */
  lemma {:induction false} ParkAt(q: seq<Entry>, i: nat, id: nat, waker: nat)
    requires i <= |q| && (forall j :: 0 <= j < i ==> q[j].id != id) && (i < |q| ==> q[i].id == id)
    ensures Park(q, id, waker) == if i < |q| then q[i := Entry(id, waker)] else q + [Entry(id, waker)]
    decreases |q|
  {
    if i > 0 {
      ParkAt(q[1..], i - 1, id, waker);
    } else if i < |q| {
      assert q[0 := Entry(id, waker)] == [Entry(id, waker)] + q[1..];
    }
  }

  function Wakers(q: seq<Entry>): (ws: seq<nat>)
    ensures |ws| == |q| && forall i :: 0 <= i < |q| ==> ws[i] == q[i].waker
  {
    if q == [] then [] else [q[0].waker] + Wakers(q[1..])
  }

  predicate Admits(g: Gate) {
    g.limit == 0 || g.active < g.limit
  }

  /** The gate after a poll of `id`, and whether the poll returned a permit. */
  function PollGate(g: Gate, id: nat, waker: nat): (Gate, bool) {
    if Admits(g) then (g.(waiters := Without(g.waiters, id), active := g.active + 1), true)
    else (g.(waiters := Park(g.waiters, id, waker)), false)
  }

  /** The gate after a permit is dropped. */
  function ReleaseGate(g: Gate): Gate {
    g.(active := if g.active == 0 then 0 else g.active - 1, waiters := [])
  }

  datatype Step =
    | Acquire
    | Poll(id: nat, waker: nat)
    | DropWaiter(id: nat)
    | DropPermit
    | SetLimit(limit: nat)

  /** What a step does to the gate. */
  function GateAfter(g: Gate, s: Step): Gate {
    match s
    case Acquire => g.(nextId := g.nextId + 1)
    case Poll(id, waker) => PollGate(g, id, waker).0
    case DropWaiter(id) => g.(waiters := Without(g.waiters, id))
    case DropPermit => ReleaseGate(g)
    case SetLimit(limit) => g.(limit := limit, waiters := [])
  }

  class FetchGate {
    var limit: nat
    var active: nat
    var waiters: seq<Entry>
    var nextId: nat

    ghost function State(): Gate
      reads this
    {
      Gate(limit, active, waiters, nextId)
    }

    constructor (limit: nat)
      ensures State() == Start(limit).gate == Gate(limit, 0, [], 0)
    {
      this.limit, active, waiters, nextId := limit, 0, [], 0;
    }

    /** Wakes every parked waiter in queue order, leaving the queue empty. */
    method WakeAll() returns (woken: seq<nat>)
      modifies this
      ensures woken == Wakers(old(waiters))
      ensures State() == old(State()).(waiters := [])
    {
      woken := [];
      while waiters != []
        invariant woken + Wakers(waiters) == Wakers(old(waiters))
        invariant limit == old(limit) && active == old(active) && nextId == old(nextId)
        decreases |waiters|
      {
        woken, waiters := woken + [waiters[0].waker], waiters[1..];
      }
    }

    method SetLimit(newLimit: nat) returns (woken: seq<nat>)
      modifies this
      ensures woken == Wakers(old(waiters))
      ensures State() == GateAfter(old(State()), Step.SetLimit(newLimit))
      ensures State() == old(State()).(limit := newLimit, waiters := [])
    {
      limit := newLimit;
      woken := WakeAll();
    }

    method Acquire() returns (id: nat)
      modifies this
      ensures id == old(nextId) && State() == GateAfter(old(State()), Step.Acquire) == old(State()).(nextId := id + 1)
    {
      id := nextId;
      nextId := id + 1;
    }

    /** Dropping a permit: frees one slot and wakes every parked waiter. */
    method Release() returns (woken: seq<nat>)
      modifies this
      ensures woken == Wakers(old(waiters))
      ensures State() == GateAfter(old(State()), Step.DropPermit) == ReleaseGate(old(State()))
    {
      active := if active == 0 then 0 else active - 1;
      woken := WakeAll();
    }

    /** Dropping an acquisition removes its own queue entry. */
    method Retain(id: nat)
      modifies this`waiters
      ensures State() == GateAfter(old(State()), Step.DropWaiter(id))
      ensures State() == old(State()).(waiters := Without(old(waiters), id))
    {
      var kept, i := [], 0;
      while i < |waiters|
        invariant 0 <= i <= |waiters| && waiters == old(waiters)
        invariant kept + Without(waiters[i..], id) == Without(waiters, id)
      {
        assert waiters[i..][1..] == waiters[i + 1..];
        if waiters[i].id != id {
          kept := kept + [waiters[i]];
        }
        i := i + 1;
      }
      waiters := kept;
    }

    method Poll(id: nat, waker: nat) returns (ready: bool)
      modifies this
      ensures (State(), ready) == PollGate(old(State()), id, waker)
      ensures State() == GateAfter(old(State()), Step.Poll(id, waker))
    {
      if limit == 0 || active < limit {
        Retain(id);
        active := active + 1;
        return true;
      }
      var i := 0;
      while i < |waiters| && waiters[i].id != id
        invariant 0 <= i <= |waiters| && State() == old(State())
        invariant forall j :: 0 <= j < i ==> waiters[j].id != id
      {
        i := i + 1;
      }
      ParkAt(waiters, i, id, waker);
      if i < |waiters| {
        waiters := waiters[i := Entry(id, waker)];
      } else {
        waiters := waiters + [Entry(id, waker)];
      }
      return false;
    }
  }

  // ----- the executor around the gate -----

  /** A live acquisition: the waker of its latest pending poll, if any, and whether that
      waker has fired since. */
  datatype Waiter = Waiter(last: Option<nat>, woken: bool)

  /** The gate, the live acquisitions still without a permit, and the live permits. */
  datatype World = World(gate: Gate, live: map<nat, Waiter>, permits: nat)

  predicate Enabled(w: World, s: Step) {
    match s
    case Poll(id, _) => id in w.live
    case DropWaiter(id) => id < w.gate.nextId
    case DropPermit => w.permits > 0
    case _ => true
  }

  function Wake(live: map<nat, Waiter>, wakers: seq<nat>): map<nat, Waiter> {
    map id | id in live ::
      if live[id].last.Some? && live[id].last.value in wakers then live[id].(woken := true) else live[id]
  }

  function Next(w: World, s: Step): World
    requires Enabled(w, s)
  {
    var g, after := w.gate, GateAfter(w.gate, s);
    match s
    case Acquire => World(after, w.live[g.nextId := Waiter(None, false)], w.permits)
    case Poll(id, waker) =>
      if PollGate(g, id, waker).1 then World(after, w.live - {id}, w.permits + 1)
      else World(after, w.live[id := Waiter(Some(waker), false)], w.permits)
    case DropWaiter(id) => World(after, w.live - {id}, w.permits)
    case DropPermit => World(after, Wake(w.live, Wakers(g.waiters)), w.permits - 1)
    case SetLimit(_) => World(after, Wake(w.live, Wakers(g.waiters)), w.permits)
  }

  function Start(limit: nat): World {
    World(Gate(limit, 0, [], 0), map[], 0)
  }

  ghost predicate Queued(q: seq<Entry>, id: nat) {
    exists e :: e in q && e.id == id
  }

  ghost predicate DistinctIds(q: seq<Entry>) {
    forall i, j :: 0 <= i < j < |q| ==> q[i].id != q[j].id
  }

  /** Every queue entry is a live waiter parked on the waker of its latest poll. */
  ghost predicate Current(q: seq<Entry>, live: map<nat, Waiter>) {
    forall e :: e in q ==> e.id in live && live[e.id].last == Some(e.waker)
  }

  /** What every interleaving keeps: permits are counted exactly, the queue holds distinct
      live waiters and is empty unless the window is full, and no parked waiter is forgotten. */
  ghost predicate Inv(w: World) {
    var g := w.gate;
    && g.active == w.permits
    && DistinctIds(g.waiters) && Current(g.waiters, w.live)
    && (g.waiters != [] ==> 0 < g.limit <= g.active)
    && (forall id :: id in w.live ==> id < g.nextId)
    && (forall id :: id in w.live && w.live[id].last.Some? ==> w.live[id].woken || Queued(g.waiters, id))
  }

  lemma {:induction false} WithoutMembers(q: seq<Entry>, id: nat)
    requires DistinctIds(q)
    ensures DistinctIds(Without(q, id))
    ensures forall e :: e in Without(q, id) <==> e in q && e.id != id
  {
    if q != [] {
      WithoutMembers(q[1..], id);
      var rest := Without(q[1..], id);
      forall j | 0 <= j < |rest| ensures rest[j].id != q[0].id {
        assert rest[j] in q[1..];
      }
    }
  }

  lemma {:induction false} ParkMembers(q: seq<Entry>, id: nat, waker: nat)
    requires DistinctIds(q)
    ensures DistinctIds(Park(q, id, waker))
    ensures forall e :: e in Park(q, id, waker) <==> e == Entry(id, waker) || (e in q && e.id != id)
  {
    if q != [] {
      if q[0].id == id {
        assert forall e :: e in q <==> e == q[0] || e in q[1..];
      } else {
        ParkMembers(q[1..], id, waker);
        var rest := Park(q[1..], id, waker);
        assert forall j :: 0 <= j < |rest| ==> rest[j] in rest;
        assert forall e :: e in q <==> e == q[0] || e in q[1..];
      }
    }
  }

  lemma {:induction false} WakersOf(q: seq<Entry>, e: Entry)
    requires e in q
    ensures e.waker in Wakers(q)
  {
    if e != q[0] {
      WakersOf(q[1..], e);
    }
  }

  /** Draining the queue leaves every waiter with a pending poll woken. */
  lemma DrainWakesAll(w: World)
    requires Inv(w)
    ensures forall id :: id in w.live && w.live[id].last.Some? ==> Wake(w.live, Wakers(w.gate.waiters))[id].woken
  {
    forall id | id in w.live && w.live[id].last.Some? && !w.live[id].woken
      ensures w.live[id].last.value in Wakers(w.gate.waiters)
    {
      var e :| e in w.gate.waiters && e.id == id;
      WakersOf(w.gate.waiters, e);
    }
  }

  lemma PollKeepsInv(w: World, id: nat, waker: nat)
    requires Inv(w) && id in w.live
    ensures Inv(Next(w, Poll(id, waker)))
  {
    var g, w' := w.gate, Next(w, Poll(id, waker));
    if Admits(g) {
      assert g.waiters == [];
    } else {
      ParkMembers(g.waiters, id, waker);
      forall x | x in w'.live && w'.live[x].last.Some?
        ensures w'.live[x].woken || Queued(w'.gate.waiters, x)
      {
        if x == id {
          assert Entry(id, waker) in w'.gate.waiters;
        } else if !w.live[x].woken {
          var e :| e in g.waiters && e.id == x;
          assert e in w'.gate.waiters;
        }
      }
    }
  }

  lemma DropKeepsInv(w: World, id: nat)
    requires Inv(w) && id < w.gate.nextId
    ensures Inv(Next(w, DropWaiter(id)))
  {
    var w' := Next(w, DropWaiter(id));
    WithoutMembers(w.gate.waiters, id);
    forall x | x in w'.live && w'.live[x].last.Some?
      ensures w'.live[x].woken || Queued(w'.gate.waiters, x)
    {
      if !w.live[x].woken {
        var e :| e in w.gate.waiters && e.id == x;
        assert e in w'.gate.waiters;
      }
    }
  }

  /** Safety of one step: the invariant is kept; only a poll issues a permit, it does so
      exactly when the window admits one, and never past a non-zero limit. */
  lemma StepIsSafe(w: World, s: Step)
    requires Inv(w) && Enabled(w, s)
    ensures Inv(Next(w, s))
    ensures Next(w, s).permits > w.permits ==>
              s.Poll? && (w.gate.limit == 0 || Next(w, s).permits <= w.gate.limit)
    ensures s.Poll? ==> (s.id !in Next(w, s).live <==> w.gate.limit == 0 || w.permits < w.gate.limit)
  {
    match s
    case Acquire =>
    case Poll(id, waker) => PollKeepsInv(w, id, waker);
    case DropWaiter(id) => DropKeepsInv(w, id);
    case DropPermit => DrainWakesAll(w);
    case SetLimit(_) => DrainWakesAll(w);
  }

  // ----- whole runs -----

  /** `steps` can be taken one after the other from `w`. */
  ghost predicate Possible(w: World, steps: seq<Step>)
    decreases |steps|
  {
    steps == [] || (Enabled(w, steps[0]) && Possible(Next(w, steps[0]), steps[1..]))
  }

  ghost function After(w: World, steps: seq<Step>): World
    requires Possible(w, steps)
    decreases |steps|
  {
    if steps == [] then w else After(Next(w, steps[0]), steps[1..])
  }

  /** Every state any run reaches from a new gate satisfies the invariant. */
  lemma {:induction false} RunIsSafe(w: World, steps: seq<Step>)
    requires Inv(w) && Possible(w, steps)
    ensures Inv(After(w, steps))
    decreases |steps|
  {
    if steps != [] {
      StepIsSafe(w, steps[0]);
      RunIsSafe(Next(w, steps[0]), steps[1..]);
    }
  }

  lemma ReachableIsSafe(limit: nat, steps: seq<Step>)
    requires Possible(Start(limit), steps)
    ensures Inv(After(Start(limit), steps))
  {
    RunIsSafe(Start(limit), steps);
  }

  // ----- progress -----

  /** The waiters an executor still has to poll: never polled, or woken since. */
  ghost function Runnable(w: World): set<nat> {
    set id | id in w.live && (w.live[id].last.None? || w.live[id].woken)
  }

  /** A step that needs no new acquisition: polling a runnable waiter, or giving up a permit
      or a waiter. */
  ghost predicate Progress(w: World, s: Step) {
    Enabled(w, s) && match s
    case Poll(id, _) => id in Runnable(w)
    case DropPermit => true
    case DropWaiter(id) => id in w.live
    case _ => false
  }

  ghost function Work(w: World): nat {
    2 * |w.live| + w.permits
  }

  /** Each progress step lowers (2 * waiting + permits, runnable) lexicographically. */
  lemma ProgressDecreases(w: World, s: Step)
    requires Inv(w) && Progress(w, s)
    ensures |Next(w, s).live| <= |w.live|
    ensures Work(Next(w, s)) < Work(w) ||
            (Work(Next(w, s)) == Work(w) && |Runnable(Next(w, s))| < |Runnable(w)|)
  {
    var w' := Next(w, s);
    if s.DropPermit? {
      assert w'.live.Keys == w.live.Keys;
    } else if s.DropWaiter? || s.id !in w'.live {
      Removed(w.live, s.id);
    } else {
      Reparked(w, s);
    }
  }

  lemma Removed(live: map<nat, Waiter>, id: nat)
    requires id in live
    ensures |live - {id}| == |live| - 1
  {
    assert (live - {id}).Keys == live.Keys - {id};
  }

  lemma Reparked(w: World, s: Step)
    requires s.Poll? && s.id in Runnable(w) && s.id in Next(w, s).live
    ensures Work(Next(w, s)) == Work(w) && |Next(w, s).live| == |w.live|
    ensures |Runnable(Next(w, s))| < |Runnable(w)|
  {
    var w' := Next(w, s);
    assert w'.live.Keys == w.live.Keys;
    assert Runnable(w') == Runnable(w) - {s.id};
  }

  /** Deadlock freedom: with no permit out and nobody left to poll, nobody is waiting. */
  lemma QuiescentMeansServed(w: World)
    requires Inv(w) && w.permits == 0 && Runnable(w) == {}
    ensures w.live == map[]
  {
    assert w.gate.waiters == [];
    assert w.live.Keys <= Runnable(w);
  }

  ghost predicate ProgressRun(w: World, steps: seq<Step>)
    decreases |steps|
  {
    steps == [] || (Progress(w, steps[0]) && ProgressRun(Next(w, steps[0]), steps[1..]))
  }

  /** The lexicographic measure as one number, for runs that start with at most `n` waiters. */
  ghost function Fuel(w: World, n: nat): nat {
    Work(w) * (n + 1) + |Runnable(w)|
  }

  lemma ProgressBurnsFuel(w: World, s: Step, n: nat)
    requires Inv(w) && Progress(w, s) && |w.live| <= n
    ensures Fuel(Next(w, s), n) < Fuel(w, n) && |Next(w, s).live| <= n
  {
    ProgressDecreases(w, s);
    var w' := Next(w, s);
    RunnableBound(w');
    if Work(w') < Work(w) {
      MulStep(Work(w'), Work(w), n + 1);
    }
  }

  lemma RunnableBound(w: World)
    ensures |Runnable(w)| <= |w.live|
  {
    SubsetSize(Runnable(w), w.live.Keys);
  }

  lemma {:induction false} SubsetSize(a: set<nat>, b: set<nat>)
    requires a <= b
    ensures |a| <= |b|
    decreases a
  {
    if x :| x in a {
      SubsetSize(a - {x}, b - {x});
    }
  }

  lemma MulStep(a: nat, b: nat, k: nat)
    requires a < b
    ensures a * k + k <= b * k
  {
    assert b * k == (b - a) * k + a * k;
    assert (b - a) * k >= k by {
      assert (b - a) * k == (b - a - 1) * k + k;
    }
  }

  /** No live waiter is starved: a run of polls of runnable waiters and of drops, in any order
      and with any cancellations, has at most `Fuel` steps, and when no such step is left every
      waiter still alive has its permit. */
  lemma {:induction false} ProgressRunsEnd(w: World, steps: seq<Step>, n: nat)
    requires Inv(w) && ProgressRun(w, steps) && |w.live| <= n
    ensures Possible(w, steps) && Inv(After(w, steps))
    ensures |steps| <= Fuel(w, n)
    ensures (forall s :: !Progress(After(w, steps), s)) ==>
              After(w, steps).live == map[] && After(w, steps).permits == 0
    decreases |steps|
  {
    if steps == [] {
      if forall s :: !Progress(w, s) {
        assert !Progress(w, DropPermit);
        forall id ensures id !in Runnable(w) {
          assert !Progress(w, Poll(id, 0));
        }
        QuiescentMeansServed(w);
      }
    } else {
      StepIsSafe(w, steps[0]);
      ProgressBurnsFuel(w, steps[0], n);
      ProgressRunsEnd(Next(w, steps[0]), steps[1..], n);
    }
  }
}
