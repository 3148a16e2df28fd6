/** The bounded ring queue and workers of src/platform/platform.c, as interleaved critical sections. */
module ThreadPool {
  import opened Bytes

  // ----- the shared fields and what each critical section does to them -----

  datatype Queue<T> = Queue(ring: seq<T>, head: nat, tail: nat, count: nat, pending: int, shutdown: bool)

  function Advance(i: nat, depth: nat): (r: nat)
    requires i < depth
    ensures r == (i + 1) % depth && r < depth
  {
    if i + 1 == depth then 0 else i + 1
  }

  /** The ring position i places after the head. */
  function Place(head: nat, i: nat, depth: nat): (p: nat)
    requires head < depth && i <= depth
    ensures p < depth
  {
    if head + i < depth then head + i else head + i - depth
  }

  lemma PlaceIsModulo(head: nat, i: nat, depth: nat)
    requires head < depth && i <= depth
    ensures Place(head, i, depth) == (head + i) % depth
  {
    if head + i >= depth { DivModUnique(head + i, depth, 1, head + i - depth); }
  }

  /** A full queue refuses with EBUSY. */
  predicate Accepts<T>(q: Queue<T>) {
    q.count < |q.ring|
  }

  function Push<T>(q: Queue<T>, t: T): Queue<T>
    requires q.tail < |q.ring|
  {
    q.(ring := q.ring[q.tail := t], tail := Advance(q.tail, |q.ring|), count := q.count + 1, pending := q.pending + 1)
  }

  function Pop<T>(q: Queue<T>): Queue<T>
    requires q.head < |q.ring| && q.count > 0
  {
    q.(head := Advance(q.head, |q.ring|), count := q.count - 1)
  }

  /** The same critical sections on the fields of the pool, in place. */
  class Pool<T> {
    var ring: array<T>
    var head: nat
    var tail: nat
    var count: nat
    var pending: int
    var shutdown: bool

    ghost predicate Valid()
      reads this
    {
      head < ring.Length && tail < ring.Length && count <= ring.Length
    }

    ghost function View(): Queue<T>
      reads this, ring
    {
      Queue(ring[..], head, tail, count, pending, shutdown)
    }

    constructor (depth: nat, blank: T)
      requires depth > 0
      ensures Valid() && fresh(ring) && ring.Length == depth
      ensures View() == Queue(seq(depth, _ => blank), 0, 0, 0, 0, false)
    {
      ring := new T[depth](_ => blank);
      head, tail, count, pending, shutdown := 0, 0, 0, 0, false;
      new;
      assert ring[..] == seq(depth, _ => blank);
    }

    method Submit(t: T) returns (r: Result<()>)
      requires Valid()
      modifies this`tail, this`count, this`pending, ring
      ensures Valid()
      ensures r == if Accepts(old(View())) then Ok(()) else Err(EBUSY)
      ensures View() == if r.Ok? then Push(old(View()), t) else old(View())
      ensures r.Ok? <==> old(count) < ring.Length
      ensures r.Ok? ==> ring[old(tail)] == t && tail == (old(tail) + 1) % ring.Length
      ensures r.Ok? ==> count == old(count) + 1 && pending == old(pending) + 1
    {
      if count >= ring.Length { return Err(EBUSY); }
      ghost var pushed := ring[..][tail := t];
      ring[tail] := t;
      assert ring[..] == pushed;
      tail := (tail + 1) % ring.Length;
      count := count + 1;
      pending := pending + 1;
      r := Ok(());
    }

    /** A worker's first critical section; it waits while there is nothing to take. */
    method Take() returns (t: T)
      requires Valid() && count > 0
      modifies this`head, this`count
      ensures Valid() && t == old(ring[head]) && View() == Pop(old(View()))
      ensures head == (old(head) + 1) % ring.Length && count == old(count) - 1
    {
      t := ring[head];
      head := (head + 1) % ring.Length;
      count := count - 1;
    }

    /** A worker's second critical section, after its task has run; tells whether it wakes the waiters. */
    method Retire() returns (wake: bool)
      requires Valid()
      modifies this`pending
      ensures Valid() && View() == old(View()).(pending := old(pending) - 1) && (wake <==> pending == 0)
    {
      pending := pending - 1;
      wake := pending == 0;
    }
  }

  // ----- the whole system: the queue, the workers, and the history of the run -----

  /** A worker waits, runs the task with this ticket, has run it but not yet retired it, or has exited. */
  datatype Worker = Idle | Running(ticket: nat) | Ran(ticket: nat) | Exited

  /** `accepted` lists the tasks in submission order; a task's place in it is its ticket. `results` holds
      what the tasks that have run computed, `runs` how often each ran. */
  datatype State<T, R> = State(q: Queue<T>, workers: seq<Worker>, accepted: seq<T>, taken: nat,
                               results: map<nat, R>, runs: multiset<nat>)

  datatype Action<T> =
    | Submit(t: T) | Take(w: nat) | Run(w: nat) | Retire(w: nat) | Exit(w: nat) | Shutdown | WaitReturns

  ghost predicate Init<T, R>(s: State<T, R>) {
    && |s.q.ring| > 0 && s.q.head == s.q.tail == s.q.count == s.q.pending == 0 && !s.q.shutdown
    && (forall w <- s.workers :: w == Idle)
    && s.accepted == [] && s.taken == 0 && s.results == map[] && s.runs == multiset{}
  }

  /** May this action happen now? */
  ghost predicate Enabled<T, R>(s: State<T, R>, a: Action<T>) {
    match a
    case Submit(_) => Accepts(s.q) && s.q.tail < |s.q.ring|
    case Take(w) => w < |s.workers| && s.workers[w] == Idle && s.q.count > 0 && s.q.head < |s.q.ring|
    case Run(w) => w < |s.workers| && s.workers[w].Running? && s.workers[w].ticket < |s.accepted|
    case Retire(w) => w < |s.workers| && s.workers[w].Ran?
    case Exit(w) => w < |s.workers| && s.workers[w] == Idle && s.q.shutdown && s.q.count == 0
    case Shutdown => true
    case WaitReturns => s.q.pending == 0
  }

  /** One step. A worker that takes a task gets the number of tasks taken before as its ticket, and
      what it computes is a function of the task alone. */
  ghost function Step<T, R>(f: T -> R, s: State<T, R>, a: Action<T>): State<T, R>
    requires Enabled(s, a)
  {
    match a
    case Submit(t) => s.(q := Push(s.q, t), accepted := s.accepted + [t])
    case Take(w) => s.(q := Pop(s.q), workers := s.workers[w := Running(s.taken)], taken := s.taken + 1)
    case Run(w) =>
      var k := s.workers[w].ticket;
      s.(workers := s.workers[w := Ran(k)], results := s.results[k := f(s.accepted[k])], runs := s.runs + multiset{k})
    case Retire(w) => s.(q := s.q.(pending := s.q.pending - 1), workers := s.workers[w := Idle])
    case Exit(w) => s.(workers := s.workers[w := Exited])
    case Shutdown => s.(q := s.q.(shutdown := true))
    case WaitReturns => s
  }

  predicate IsBusy(w: Worker) {
    w.Running? || w.Ran?
  }

  function Busy(ws: seq<Worker>): nat {
    if ws == [] then 0 else (if IsBusy(ws[0]) then 1 else 0) + Busy(ws[1..])
  }

  lemma {:induction false} BusyUpdate(ws: seq<Worker>, i: nat, w: Worker)
    requires i < |ws|
    ensures Busy(ws[i := w]) == Busy(ws) - (if IsBusy(ws[i]) then 1 else 0) + (if IsBusy(w) then 1 else 0)
  {
    if i == 0 {
      assert ws[0 := w][1..] == ws[1..];
    } else {
      assert ws[i := w][1..] == ws[1..][i - 1 := w];
      BusyUpdate(ws[1..], i - 1, w);
    }
  }

  // ----- the invariant -----

  /** The ring: the tail is the head plus the count around the ring, and from the head on lie the tasks
      accepted but not yet taken, in submission order. */
  ghost predicate RingOk<T>(q: Queue<T>, accepted: seq<T>, taken: nat) {
    && q.head < |q.ring| && q.count <= |q.ring| && q.tail == Place(q.head, q.count, |q.ring|)
    && |accepted| == taken + q.count
    && forall i | 0 <= i < q.count :: q.ring[Place(q.head, i, |q.ring|)] == accepted[taken + i]
  }

  /** Every busy worker has a ticket of its own, and a taken task is running or has run, exactly once. */
  ghost predicate TicketsOk<T, R>(s: State<T, R>) {
    && (forall w | 0 <= w < |s.workers| && IsBusy(s.workers[w]) :: s.workers[w].ticket < s.taken)
    && (forall v, w | 0 <= v < w < |s.workers| && IsBusy(s.workers[v]) && IsBusy(s.workers[w]) ::
          s.workers[v].ticket != s.workers[w].ticket)
    && (forall k | 0 <= k < s.taken :: k !in s.results <==> Running(k) in s.workers)
    && (forall k <- s.results :: k < s.taken)
    && (forall w <- s.workers :: w.Ran? ==> w.ticket in s.results)
    && (forall k :: s.runs[k] == if k in s.results then 1 else 0)
  }

  ghost predicate ResultsOk<T, R>(f: T -> R, s: State<T, R>) {
    forall k <- s.results :: k < |s.accepted| && s.results[k] == f(s.accepted[k])
  }

  ghost predicate ShutdownOk<T, R>(s: State<T, R>) {
    Exited in s.workers ==> s.q.shutdown
  }

  ghost predicate Inv<T, R>(f: T -> R, s: State<T, R>) {
    && RingOk(s.q, s.accepted, s.taken)
    && s.q.pending == s.q.count + Busy(s.workers)
    && TicketsOk(s) && ResultsOk(f, s) && ShutdownOk(s)
  }

  lemma {:induction false} NoneBusy(ws: seq<Worker>)
    requires forall w <- ws :: !IsBusy(w)
    ensures Busy(ws) == 0
  {
    if ws != [] { NoneBusy(ws[1..]); }
  }

  lemma InitInv<T, R>(f: T -> R, s: State<T, R>)
    requires Init(s)
    ensures Inv(f, s)
  {
    NoneBusy(s.workers);
  }

  lemma PushKeepsRing<T>(q: Queue<T>, accepted: seq<T>, taken: nat, t: T)
    requires RingOk(q, accepted, taken) && Accepts(q)
    ensures RingOk(Push(q, t), accepted + [t], taken)
  {
  }

  lemma PopKeepsRing<T>(q: Queue<T>, accepted: seq<T>, taken: nat)
    requires RingOk(q, accepted, taken) && q.count > 0
    ensures RingOk(Pop(q), accepted, taken + 1) && q.ring[q.head] == accepted[taken]
  {
    var n, p := |q.ring|, Pop(q);
    assert q.ring[Place(q.head, 0, n)] == accepted[taken];
    forall i | 0 <= i < p.count ensures p.ring[Place(p.head, i, n)] == accepted[taken + 1 + i] {
      assert Place(p.head, i, n) == Place(q.head, i + 1, n);
    }
  }

  lemma {:induction false} TakeKeepsTickets<T, R>(f: T -> R, s: State<T, R>, w: nat)
    requires Enabled(s, Action.Take(w)) && TicketsOk(s)
    ensures TicketsOk(Step(f, s, Action.Take(w)))
  {
    var s' := Step(f, s, Action.Take(w));
    forall k | 0 <= k < s'.taken ensures k !in s'.results <==> Running(k) in s'.workers {
      if k == s.taken {
        assert s'.workers[w] == Running(k);
      } else if Running(k) in s.workers {
        var v :| 0 <= v < |s.workers| && s.workers[v] == Running(k);
        assert s'.workers[v] == Running(k);
      }
    }
  }

  lemma {:induction false} RunKeepsTickets<T, R>(f: T -> R, s: State<T, R>, w: nat)
    requires Enabled(s, Run(w)) && TicketsOk(s) && |s.accepted| >= s.taken
    ensures TicketsOk(Step(f, s, Run(w))) && s.workers[w].ticket !in s.results
  {
    var s', k := Step(f, s, Run(w)), s.workers[w].ticket;
    assert s.workers[w] == Running(k);
    forall v | 0 <= v < |s'.workers| ensures s'.workers[v] != Running(k) {
      if v != w { assert s'.workers[v] == s.workers[v]; }
    }
    forall j | 0 <= j < s'.taken ensures j !in s'.results <==> Running(j) in s'.workers {
      if j != k && Running(j) in s.workers {
        var v :| 0 <= v < |s.workers| && s.workers[v] == Running(j);
        assert s'.workers[v] == Running(j);
      }
    }
  }

  lemma {:induction false} RetireKeepsTickets<T, R>(f: T -> R, s: State<T, R>, w: nat, a: Action<T>)
    requires (a == Action.Retire(w) || a == Exit(w)) && Enabled(s, a) && TicketsOk(s)
    ensures TicketsOk(Step(f, s, a))
  {
    var s' := Step(f, s, a);
    forall k | 0 <= k < s'.taken ensures k !in s'.results <==> Running(k) in s'.workers {
      if Running(k) in s.workers {
        var v :| 0 <= v < |s.workers| && s.workers[v] == Running(k);
        assert s'.workers[v] == Running(k);
      }
    }
  }

  lemma {:induction false} StepKeepsTickets<T, R>(f: T -> R, s: State<T, R>, a: Action<T>)
    requires Enabled(s, a) && TicketsOk(s) && |s.accepted| >= s.taken
    ensures TicketsOk(Step(f, s, a))
  {
    match a
    case Take(w) => TakeKeepsTickets(f, s, w);
    case Run(w) => RunKeepsTickets(f, s, w);
    case Retire(w) => RetireKeepsTickets(f, s, w, a);
    case Exit(w) => RetireKeepsTickets(f, s, w, a);
    case _ =>
  }

  lemma {:induction false} StepKeepsCount<T, R>(f: T -> R, s: State<T, R>, a: Action<T>)
    requires Enabled(s, a) && s.q.pending == s.q.count + Busy(s.workers)
    ensures Step(f, s, a).q.pending == Step(f, s, a).q.count + Busy(Step(f, s, a).workers)
  {
    match a
    case Take(w) => BusyUpdate(s.workers, w, Running(s.taken));
    case Run(w) => BusyUpdate(s.workers, w, Ran(s.workers[w].ticket));
    case Retire(w) => BusyUpdate(s.workers, w, Idle);
    case Exit(w) => BusyUpdate(s.workers, w, Exited);
    case _ =>
  }

  lemma {:induction false} StepKeepsRing<T, R>(f: T -> R, s: State<T, R>, a: Action<T>)
    requires Enabled(s, a) && RingOk(s.q, s.accepted, s.taken)
    ensures RingOk(Step(f, s, a).q, Step(f, s, a).accepted, Step(f, s, a).taken)
  {
    match a
    case Submit(t) => PushKeepsRing(s.q, s.accepted, s.taken, t);
    case Take(w) => PopKeepsRing(s.q, s.accepted, s.taken);
    case _ =>
  }

  lemma {:induction false} StepKeepsShutdown<T, R>(f: T -> R, s: State<T, R>, a: Action<T>)
    requires Enabled(s, a) && ShutdownOk(s)
    ensures ShutdownOk(Step(f, s, a))
  {
    var s' := Step(f, s, a);
    if v :| 0 <= v < |s'.workers| && s'.workers[v] == Exited && !a.Exit? {
      assert s.workers[v] == Exited;
    }
  }

  /** Every step of every worker and submitter keeps the invariant. */
  lemma {:induction false} StepInv<T, R>(f: T -> R, s: State<T, R>, a: Action<T>)
    requires Inv(f, s) && Enabled(s, a)
    ensures Inv(f, Step(f, s, a))
  {
    StepKeepsRing(f, s, a);
    StepKeepsCount(f, s, a);
    StepKeepsTickets(f, s, a);
    StepKeepsShutdown(f, s, a);
  }

  // ----- runs -----

  /** The states of a run, one more than its actions. */
  ghost predicate IsRun<T, R>(f: T -> R, states: seq<State<T, R>>, actions: seq<Action<T>>) {
    && |states| == |actions| + 1 && Init(states[0])
    && forall i | 0 <= i < |actions| ::
      Enabled(states[i], actions[i]) && states[i + 1] == Step(f, states[i], actions[i])
  }

  lemma {:induction false} RunInv<T, R>(f: T -> R, states: seq<State<T, R>>, actions: seq<Action<T>>, i: nat)
    requires IsRun(f, states, actions) && i <= |actions|
    ensures Inv(f, states[i])
    decreases i
  {
    if i == 0 {
      InitInv(f, states[0]);
    } else {
      RunInv(f, states, actions, i - 1);
      StepInv(f, states[i - 1], actions[i - 1]);
    }
  }

  lemma {:induction false} BusyZero(ws: seq<Worker>, i: nat)
    requires i < |ws| && Busy(ws) == 0
    ensures !IsBusy(ws[i])
  {
    if i > 0 { BusyZero(ws[1..], i - 1); }
  }

  /** Safety of the pool in every reachable state: the ring arithmetic, the meaning of `pending`, and every
      accepted task in exactly one place: still queued, being run by one worker, or run exactly once, with
      its result; tasks are taken in submission order. */
  lemma {:induction false} PoolSafety<T, R>(f: T -> R, states: seq<State<T, R>>, actions: seq<Action<T>>, i: nat)
    requires IsRun(f, states, actions) && i <= |actions|
    ensures var s := states[i];
      && s.q.head < |s.q.ring| && s.q.count <= |s.q.ring| && s.q.tail == (s.q.head + s.q.count) % |s.q.ring|
      && s.q.pending == s.q.count + Busy(s.workers)
      && |s.accepted| == s.taken + s.q.count
      && (forall k | 0 <= k < |s.accepted| ::
            && (k >= s.taken ==> k !in s.results && Running(k) !in s.workers)
            && (k < s.taken ==> (k in s.results <==> Running(k) !in s.workers))
            && s.runs[k] == (if k in s.results then 1 else 0)
            && (k in s.results ==> s.results[k] == f(s.accepted[k])))
    ensures i < |actions| && actions[i].Take? ==>
      states[i].q.ring[states[i].q.head] == states[i].accepted[states[i].taken]
  {
    var s := states[i];
    RunInv(f, states, actions, i);
    PlaceIsModulo(s.q.head, s.q.count, |s.q.ring|);
    forall k | s.taken <= k < |s.accepted| ensures Running(k) !in s.workers {
      if v :| 0 <= v < |s.workers| && s.workers[v] == Running(k) { assert IsBusy(s.workers[v]); }
    }
    if i < |actions| && actions[i].Take? { PopKeepsRing(s.q, s.accepted, s.taken); }
  }

  lemma {:induction false} NothingPending<T, R>(f: T -> R, s: State<T, R>)
    requires Inv(f, s) && s.q.pending == 0
    ensures s.taken == |s.accepted|
    ensures forall k | 0 <= k < |s.accepted| :: k in s.results && s.results[k] == f(s.accepted[k]) && s.runs[k] == 1
  {
    forall k | 0 <= k < |s.accepted| ensures k in s.results {
      if v :| 0 <= v < |s.workers| && s.workers[v] == Running(k) { BusyZero(s.workers, v); }
    }
  }

  /** `wait` returns only when every task accepted so far has run, exactly once, and left its result. */
  lemma {:induction false} WaitMeansDone<T, R>(f: T -> R, states: seq<State<T, R>>, actions: seq<Action<T>>, i: nat)
    requires IsRun(f, states, actions) && i < |actions| && actions[i] == WaitReturns
    ensures var s := states[i];
      forall k | 0 <= k < |s.accepted| :: k in s.results && s.results[k] == f(s.accepted[k]) && s.runs[k] == 1
  {
    RunInv(f, states, actions, i);
    NothingPending(f, states[i]);
  }

  // ----- after the last worker has left -----

  ghost predicate AllExited<T, R>(s: State<T, R>) {
    s.workers != [] && forall w <- s.workers :: w == Exited
  }

  /** How many tasks were accepted by the actions from j to i. */
  function SubmitsIn<T>(actions: seq<Action<T>>, j: nat, i: nat): nat
    requires j <= i <= |actions|
  {
    if j == i then 0 else SubmitsIn(actions, j, i - 1) + if actions[i - 1].Submit? then 1 else 0
  }

  lemma {:induction false} NoSubmits<T>(actions: seq<Action<T>>, j: nat, i: nat)
    requires j <= i <= |actions|
    ensures SubmitsIn(actions, j, i) == 0 <==> forall k | j <= k < i :: !actions[k].Submit?
    decreases i
  {
    if j < i { NoSubmits(actions, j, i - 1); }
  }

  // ----- progress -----

  function Steps(w: Worker): nat {
    match w case Running(_) => 2 case Ran(_) => 1 case _ => 0
  }

  /** How many worker steps the tasks accepted so far still take. */
  function Work(ws: seq<Worker>, count: nat): nat {
    if ws == [] then 3 * count
    else Work(ws[1..], count) + Steps(ws[0])
  }

  ghost predicate WorkerStep<T>(a: Action<T>) {
    a.Take? || a.Run? || a.Retire?
  }

  /** As long as tasks are pending and a worker is left, some worker can take its next step. */
  lemma {:induction false} CanGoOn<T, R>(f: T -> R, s: State<T, R>) returns (a: Action<T>)
    requires Inv(f, s) && s.q.pending > 0 && s.workers != [] && !AllExited(s)
    ensures WorkerStep(a) && Enabled(s, a)
  {
    if w :| 0 <= w < |s.workers| && IsBusy(s.workers[w]) {
      a := if s.workers[w].Running? then Run(w) else Retire(w);
      assert TicketsOk(s);
    } else {
      NoneBusy(s.workers);
      var w :| 0 <= w < |s.workers| && s.workers[w] != Exited;
      a := Action.Take(w);
    }
  }

  /** Each such step takes one off what is left, which is nothing exactly when no task is pending. */
  lemma {:induction false} StepWorks<T, R>(f: T -> R, s: State<T, R>, a: Action<T>)
    requires Inv(f, s) && Enabled(s, a) && WorkerStep(a)
    ensures var s' := Step(f, s, a); Work(s'.workers, s'.q.count) + 1 == Work(s.workers, s.q.count)
    ensures Work(s.workers, s.q.count) == 0 <==> s.q.pending == 0
  {
    WorkIsBusy(s.workers, s.q.count);
    var s' := Step(f, s, a);
    WorkChange(s.workers, s'.workers, a.w, s.q.count, s'.q.count);
  }

  lemma {:induction false} WorkIsBusy(ws: seq<Worker>, count: nat)
    ensures Work(ws, count) == 0 <==> count + Busy(ws) == 0
    decreases ws
  {
    if ws != [] { WorkIsBusy(ws[1..], count); }
  }

  lemma {:induction false} WorkChange(ws: seq<Worker>, ws': seq<Worker>, w: nat, n: nat, n': nat)
    requires w < |ws| == |ws'| && ws' == ws[w := ws'[w]]
    ensures Work(ws', n') + 3 * n + Steps(ws[w]) == Work(ws, n) + 3 * n' + Steps(ws'[w])
    decreases ws
  {
    if w == 0 {
      assert ws'[1..] == ws[1..];
      WorkCount(ws[1..], n, n');
    } else {
      assert ws'[1..] == ws[1..][w - 1 := ws'[w]];
      WorkChange(ws[1..], ws'[1..], w - 1, n, n');
    }
  }

  lemma {:induction false} WorkCount(ws: seq<Worker>, n: nat, n': nat)
    ensures Work(ws, n') + 3 * n == Work(ws, n) + 3 * n'
    decreases ws
  {
    if ws != [] { WorkCount(ws[1..], n, n'); }
  }

  /** From every reachable state on which a worker is left, the workers alone can finish everything: there is a
      continuation of as many steps as there is work left, after which nothing is pending. */
  lemma {:induction false} Finishes<T, R>(f: T -> R, s: State<T, R>)
    returns (states: seq<State<T, R>>, actions: seq<Action<T>>)
    requires Inv(f, s) && s.workers != [] && !AllExited(s)
    ensures |states| == |actions| + 1 && states[0] == s && |actions| == Work(s.workers, s.q.count)
    ensures forall i | 0 <= i < |actions| ::
      WorkerStep(actions[i]) && Enabled(states[i], actions[i]) && states[i + 1] == Step(f, states[i], actions[i])
    ensures states[|actions|].q.pending == 0 && states[|actions|].accepted == s.accepted
    decreases Work(s.workers, s.q.count)
  {
    hide Inv, Work, AllExited;
    NoWork(f, s);
    if s.q.pending == 0 {
      states, actions := [s], [];
    } else {
      var a := CanGoOn(f, s);
      StepWorks(f, s, a);
      StepInv(f, s, a);
      StillWorking(f, s, a);
      var s' := Step(f, s, a);
      var more, acts := Finishes(f, s');
      states, actions := [s] + more, [a] + acts;
    }
  }

  lemma NoWork<T, R>(f: T -> R, s: State<T, R>)
    requires Inv(f, s)
    ensures s.q.pending >= 0 && (s.q.pending == 0 ==> Work(s.workers, s.q.count) == 0)
  {
    WorkIsBusy(s.workers, s.q.count);
  }

  /** After shutdown, once nothing is pending, every worker that is left can leave. */
  lemma {:induction false} CanLeave<T, R>(f: T -> R, s: State<T, R>, w: nat)
    requires Inv(f, s) && s.q.shutdown && s.q.pending == 0 && w < |s.workers| && s.workers[w] != Exited
    ensures Enabled(s, Action<T>.Exit(w))
  {
    if IsBusy(s.workers[w]) { OneBusy(s.workers, w); }
  }

  lemma {:induction false} OneBusy(ws: seq<Worker>, w: nat)
    requires w < |ws| && IsBusy(ws[w])
    ensures Busy(ws) > 0
    decreases ws
  {
    if w > 0 { OneBusy(ws[1..], w - 1); }
  }

  /** The state after the last worker has left: no task runs any more, and every one accepted stays queued. */
  lemma {:induction false} NobodyLeft<T, R>(f: T -> R, states: seq<State<T, R>>, actions: seq<Action<T>>, j: nat,
                                            i: nat)
    requires IsRun(f, states, actions) && j <= i <= |actions| && AllExited(states[j])
    ensures AllExited(states[i]) && states[i].workers == states[j].workers
    ensures states[i].taken == states[j].taken && states[i].results == states[j].results
      && states[i].runs == states[j].runs
    ensures states[i].q.count == states[j].q.count + SubmitsIn(actions, j, i)
    ensures |states[i].accepted| == |states[j].accepted| + SubmitsIn(actions, j, i)
    decreases i
  {
    if j < i {
      NobodyLeft(f, states, actions, j, i - 1);
      var s, a := states[i - 1], actions[i - 1];
      assert Enabled(s, a) && states[i] == Step(f, s, a);
      StandsStill(f, s, a);
    }
  }

  lemma StandsStill<T, R>(f: T -> R, s: State<T, R>, a: Action<T>)
    requires AllExited(s) && Enabled(s, a)
    ensures a.Submit? || a.Shutdown? || a.WaitReturns?
    ensures Step(f, s, a).workers == s.workers
  {
    forall w | 0 <= w < |s.workers| ensures s.workers[w] == Exited {
      assert s.workers[w] in s.workers;
    }
  }

  lemma SomeoneIdle<T, R>(s: State<T, R>)
    requires Init(s)
    ensures !AllExited(s)
  {
    if s.workers != [] { assert s.workers[0] in s.workers; }
  }

  /** The step at which the last worker leaves. */
  lemma {:induction false} LastToLeave<T, R>(f: T -> R, states: seq<State<T, R>>, actions: seq<Action<T>>, i: nat)
    returns (e: nat)
    requires IsRun(f, states, actions) && i <= |actions| && AllExited(states[i])
    ensures e < i && actions[e].Exit? && !AllExited(states[e]) && AllExited(states[e + 1])
    ensures states[e].q.count == 0
    decreases i
  {
    if i == 0 {
      SomeoneIdle(states[0]);
      assert false;
    } else if AllExited(states[i - 1]) {
      e := LastToLeave(f, states, actions, i - 1);
    } else {
      e := i - 1;
      assert states[i] == Step(f, states[e], actions[e]);
      OnlyByExit(f, states[e], actions[e]);
    }
  }

  lemma OnlyByExit<T, R>(f: T -> R, s: State<T, R>, a: Action<T>)
    requires Enabled(s, a) && !AllExited(s) && AllExited(Step(f, s, a))
    ensures a.Exit? && s.q.count == 0
  {
    if a.Take? || a.Run? || a.Retire? { StillWorking(f, s, a); }
  }

  lemma StillWorking<T, R>(f: T -> R, s: State<T, R>, a: Action<T>)
    requires Enabled(s, a) && (a.Take? || a.Run? || a.Retire?)
    ensures !AllExited(Step(f, s, a))
  {
    var s' := Step(f, s, a);
    assert s'.workers[a.w] in s'.workers;
  }

  /** Once all workers have exited, what is left in the queue is exactly what was accepted after the last of
      them left: the queue is empty if and only if that is nothing. Every task accepted before has run. */
  lemma {:induction false} ExitMeansDrained<T, R>(f: T -> R, states: seq<State<T, R>>, actions: seq<Action<T>>, i: nat)
    returns (e: nat)
    requires IsRun(f, states, actions) && i <= |actions| && AllExited(states[i])
    ensures e < i && actions[e].Exit? && !AllExited(states[e]) && AllExited(states[e + 1])
    ensures states[i].q.shutdown && states[i].q.count == states[i].q.pending == SubmitsIn(actions, e + 1, i)
    ensures states[i].q.count == 0 <==> forall k | e < k < i :: !actions[k].Submit?
    ensures var s, before := states[i], |states[e].accepted|;
      && before <= |s.accepted|
      && (forall k | 0 <= k < before :: k in s.results && s.results[k] == f(s.accepted[k]) && s.runs[k] == 1)
      && forall k | before <= k < |s.accepted| :: k !in s.results && s.runs[k] == 0
  {
    hide Inv, AllExited, IsRun;
    e := LastToLeave(f, states, actions, i);
    LastStep(f, states, actions, e);
    NobodyLeft(f, states, actions, e + 1, i);
    NoSubmits(actions, e + 1, i);
    RunInv(f, states, actions, e + 1);
    RunInv(f, states, actions, i);
    AtRest(f, states[e + 1]);
    AtRest(f, states[i]);
  }

  lemma LastStep<T, R>(f: T -> R, states: seq<State<T, R>>, actions: seq<Action<T>>, e: nat)
    requires IsRun(f, states, actions) && e < |actions| && actions[e].Exit?
    ensures |states| == |actions| + 1
    ensures states[e + 1].accepted == states[e].accepted && states[e + 1].q.count == states[e].q.count
  {
    assert states[e + 1] == Step(f, states[e], actions[e]);
  }

  /** With no worker left, just the tasks that were taken have run. */
  lemma AtRest<T, R>(f: T -> R, s: State<T, R>)
    requires Inv(f, s) && AllExited(s)
    ensures s.q.shutdown && s.q.count == s.q.pending && |s.accepted| == s.taken + s.q.count
    ensures forall k | 0 <= k < s.taken :: k in s.results && s.results[k] == f(s.accepted[k]) && s.runs[k] == 1
    ensures forall k | s.taken <= k < |s.accepted| :: k !in s.results && s.runs[k] == 0
  {
    assert s.workers[0] in s.workers;
    NoneBusy(s.workers);
    NoneRunning(s);
  }

  lemma NoneRunning<T, R>(s: State<T, R>)
    requires AllExited(s)
    ensures forall k :: Running(k) !in s.workers
  {
  }

  /** A task accepted after the last worker has left never runs, and `wait` never returns again: in every
      continuation, at every later state. */
  lemma {:induction false} StrandedForever<T, R>(f: T -> R, states: seq<State<T, R>>, actions: seq<Action<T>>, j: nat,
                                                 i: nat)
    requires IsRun(f, states, actions) && j < i <= |actions| && AllExited(states[j]) && actions[j].Submit?
    ensures |states[j].accepted| < |states[i].accepted| && |states[j].accepted| !in states[i].results
    ensures states[i].runs[|states[j].accepted|] == 0 && states[i].q.pending > 0
    ensures i < |actions| ==> actions[i] != WaitReturns
  {
    var s := states[i];
    RunInv(f, states, actions, j);
    RunInv(f, states, actions, i);
    NobodyLeft(f, states, actions, j, i);
    assert !(forall k | j <= k < i :: !actions[k].Submit?);
    NoSubmits(actions, j, i);
    NoneBusy(s.workers);
    if i < |actions| { assert Enabled(s, actions[i]); }
  }

  /** The start of a run in which the only worker leaves and a task is accepted after that. */
  function LateStart<T>(t: T): seq<Action<T>> {
    [Action.Shutdown, Exit(0), Action.Submit(t)]
  }

  ghost predicate Stranded<T, R>(s: State<T, R>) {
    0 < |s.accepted| && 0 !in s.results && s.runs[0] == 0 && s.q.pending > 0
  }

  lemma {:induction false} LateNeverRuns<T, R>(f: T -> R, t: T, states: seq<State<T, R>>, actions: seq<Action<T>>,
                                               i: nat)
    requires IsRun(f, states, actions) && states[0].workers == [Idle]
    requires LateStart(t) <= actions && 3 <= i <= |actions|
    ensures Stranded(states[i])
  {
    hide Inv;
    var start := LateStart(t);
    assert actions[0] == start[0] && actions[1] == start[1] && actions[2] == start[2];
    assert states[1] == Step(f, states[0], actions[0]);
    assert states[2] == Step(f, states[1], actions[1]);
    StrandedForever(f, states, actions, 2, i);
  }

  /** Shutdown is not checked when a task is submitted, so such runs exist; and in every one of them, however
      it goes on, this task never runs. */
  lemma {:induction false} LateTaskStranded<T, R>(f: T -> R, s: State<T, R>, t: T) returns (states: seq<State<T, R>>)
    requires Init(s) && s.workers == [Idle]
    ensures IsRun(f, states, LateStart(t)) && states[0] == s
    ensures forall more: seq<State<T, R>>, acts: seq<Action<T>>, i: nat
      | IsRun(f, more, acts) && more[0] == s && LateStart(t) <= acts && 3 <= i <= |acts| :: Stranded(more[i])
  {
    states := LateRun(f, s, t);
    forall more: seq<State<T, R>>, acts: seq<Action<T>>, i: nat
      | IsRun(f, more, acts) && more[0] == s && LateStart(t) <= acts && 3 <= i <= |acts|
      ensures Stranded(more[i])
    {
      hide IsRun, Stranded, LateStart;
      LateNeverRuns(f, t, more, acts, i);
    }
  }

  lemma LateRun<T, R>(f: T -> R, s: State<T, R>, t: T) returns (states: seq<State<T, R>>)
    requires Init(s) && s.workers == [Idle]
    ensures IsRun(f, states, LateStart(t)) && states[0] == s
  {
    var s1 := Step(f, s, Action.Shutdown);
    var s2 := Step(f, s1, Exit(0));
    states := [s, s1, s2, Step(f, s2, Action.Submit(t))];
  }
}
