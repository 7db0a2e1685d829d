/**
  The worker pool as a rendezvous protocol: `Worker.Start`, `Worker.Stop` and `Pool.Dispatch` over unbuffered
  channels, in every interleaving.
 */
module WorkerPool {

  /** At `inchan <- inmsg`, in the `select`, or handling a message. */
  datatype Worker<T> = Offering | Waiting | Working(msg: T)

  /** A call of `Dispatch`: at the first receive, holding the channel of a worker, or returned. */
  datatype Dispatcher<T> = Wanting(msg: T) | Holding(msg: T, worker: nat) | Done

  /** The pool, with pending calls of `Stop` for each worker, and the history of messages. */
  datatype Pool<T> = Pool(
    workers: seq<Worker<T>>, dispatchers: seq<Dispatcher<T>>, stops: seq<nat>, dispatched: seq<T>, processed: seq<T>)

  /** One atomic step: a call begins, or one rendezvous on a channel, or a handler returns. */
  datatype Step<T> =
    | BeginDispatch(msg: T) | BeginStop(w: nat)
    | Offer(w: nat, d: nat) | Deliver(w: nat, d: nat) | Finish(w: nat) | TakeStop(w: nat)

  predicate Enabled<T>(p: Pool<T>, s: Step<T>) {
    match s
    case BeginDispatch(_) => true
    case BeginStop(w) => w < |p.stops|
    case Offer(w, d) => w < |p.workers| && d < |p.dispatchers| && p.workers[w].Offering? && p.dispatchers[d].Wanting?
    case Deliver(w, d) =>
      w < |p.workers| && d < |p.dispatchers| && p.workers[w].Waiting? && p.dispatchers[d].Holding? && p.dispatchers[d].worker == w
    case Finish(w) => w < |p.workers| && p.workers[w].Working?
    case TakeStop(w) => w < |p.workers| && w < |p.stops| && p.workers[w].Waiting? && p.stops[w] > 0
  }

  /** Taking a stop leaves the `select` only: the worker goes round its loop and offers its channel again. */
  function Take<T>(p: Pool<T>, s: Step<T>): Pool<T>
    requires Enabled(p, s)
  {
    match s
    case BeginDispatch(msg) => p.(dispatchers := p.dispatchers + [Wanting(msg)], dispatched := p.dispatched + [msg])
    case BeginStop(w) => p.(stops := p.stops[w := p.stops[w] + 1])
    case Offer(w, d) =>
      p.(workers := p.workers[w := Waiting], dispatchers := p.dispatchers[d := Holding(p.dispatchers[d].msg, w)])
    case Deliver(w, d) =>
      p.(workers := p.workers[w := Working(p.dispatchers[d].msg)], dispatchers := p.dispatchers[d := Done])
    case Finish(w) => p.(workers := p.workers[w := Offering], processed := p.processed + [p.workers[w].msg])
    case TakeStop(w) => p.(workers := p.workers[w := Offering], stops := p.stops[w := p.stops[w] - 1])
  }

  function Start<T>(n: nat): Pool<T> {
    Pool(seq(n, _ => Offering), [], seq(n, _ => 0), [], [])
  }

  ghost predicate IsRun<T>(p: Pool<T>, steps: seq<Step<T>>, q: Pool<T>)
    decreases |steps|
  {
    if steps == [] then p == q
    else Enabled(p, steps[0]) && IsRun(Take(p, steps[0]), steps[1..], q)
  }

  // ---------------------------------------------------------------- conservation

  ghost function OfWorker<T>(w: Worker<T>): multiset<T> {
    if w.Working? then multiset{w.msg} else multiset{}
  }

  ghost function OfDispatcher<T>(d: Dispatcher<T>): multiset<T> {
    if d.Done? then multiset{} else multiset{d.msg}
  }

  ghost function InWorkers<T>(l: seq<Worker<T>>): multiset<T> {
    if l == [] then multiset{} else OfWorker(l[0]) + InWorkers(l[1..])
  }

  ghost function InDispatchers<T>(l: seq<Dispatcher<T>>): multiset<T> {
    if l == [] then multiset{} else OfDispatcher(l[0]) + InDispatchers(l[1..])
  }

  /** The messages dispatched are those processed, those in a worker and those still with a dispatcher, each once. */
  ghost predicate Conserved<T>(p: Pool<T>) {
    multiset(p.dispatched) == multiset(p.processed) + InWorkers(p.workers) + InDispatchers(p.dispatchers)
  }

  /** Exchanging one part of a sum. */
  lemma Exchange<T>(a: multiset<T>, b: multiset<T>, c: multiset<T>, x: multiset<T>, y: multiset<T>)
    requires b + x == c + y
    ensures a + b + x == a + c + y
  {
    assert a + b + x == a + (b + x);
    assert a + c + y == a + (c + y);
  }

  lemma {:induction false} UpdateWorker<T>(l: seq<Worker<T>>, i: nat, w: Worker<T>)
    requires i < |l|
    ensures InWorkers(l[i := w]) + OfWorker(l[i]) == InWorkers(l) + OfWorker(w)
  {
    hide OfWorker;
    if i == 0 {
      assert l[i := w][1..] == l[1..];
    } else {
      assert l[i := w][1..] == l[1..][i - 1 := w];
      UpdateWorker(l[1..], i - 1, w);
      Exchange(OfWorker(l[0]), InWorkers(l[1..][i - 1 := w]), InWorkers(l[1..]), OfWorker(l[i]), OfWorker(w));
    }
  }

  lemma {:induction false} UpdateDispatcher<T>(l: seq<Dispatcher<T>>, i: nat, d: Dispatcher<T>)
    requires i < |l|
    ensures InDispatchers(l[i := d]) + OfDispatcher(l[i]) == InDispatchers(l) + OfDispatcher(d)
  {
    hide OfDispatcher;
    if i == 0 {
      assert l[i := d][1..] == l[1..];
    } else {
      assert l[i := d][1..] == l[1..][i - 1 := d];
      UpdateDispatcher(l[1..], i - 1, d);
      Exchange(OfDispatcher(l[0]), InDispatchers(l[1..][i - 1 := d]), InDispatchers(l[1..]), OfDispatcher(l[i]), OfDispatcher(d));
    }
  }

  lemma {:induction false} AppendDispatcher<T>(l: seq<Dispatcher<T>>, d: Dispatcher<T>)
    ensures InDispatchers(l + [d]) == InDispatchers(l) + OfDispatcher(d)
  {
    if l == [] {
      assert InDispatchers([d]) == OfDispatcher(d) + InDispatchers([d][1..]);
    } else {
      assert (l + [d])[1..] == l[1..] + [d];
      AppendDispatcher(l[1..], d);
    }
  }

  /** A step that moves the message of one worker and of one dispatcher, and what is processed, keeps the sum if they balance. */
  lemma Balance<T>(p: Pool<T>, q: Pool<T>, w: nat, d: nat)
    requires Conserved(p) && w < |p.workers| && d < |p.dispatchers|
    requires |q.workers| == |p.workers| && q.workers == p.workers[w := q.workers[w]]
    requires |q.dispatchers| == |p.dispatchers| && q.dispatchers == p.dispatchers[d := q.dispatchers[d]]
    requires q.dispatched == p.dispatched && q.processed == p.processed
    requires OfWorker(p.workers[w]) + OfDispatcher(p.dispatchers[d]) == OfWorker(q.workers[w]) + OfDispatcher(q.dispatchers[d])
    ensures Conserved(q)
  {
    UpdateWorker(p.workers, w, q.workers[w]);
    UpdateDispatcher(p.dispatchers, d, q.dispatchers[d]);
    SameSum(InWorkers(p.workers), InWorkers(q.workers), InDispatchers(p.dispatchers), InDispatchers(q.dispatchers),
            OfWorker(p.workers[w]), OfWorker(q.workers[w]), OfDispatcher(p.dispatchers[d]), OfDispatcher(q.dispatchers[d]));
    AddLeft(multiset(p.processed), InWorkers(p.workers), InDispatchers(p.dispatchers));
    AddLeft(multiset(p.processed), InWorkers(q.workers), InDispatchers(q.dispatchers));
  }

  lemma AddLeft<T>(a: multiset<T>, b: multiset<T>, c: multiset<T>)
    ensures a + b + c == a + (b + c)
  {
  }

  lemma SameSum<T>(w: multiset<T>, w': multiset<T>, d: multiset<T>, d': multiset<T>,
                   a: multiset<T>, a': multiset<T>, b: multiset<T>, b': multiset<T>)
    requires w' + a == w + a' && d' + b == d + b' && a + b == a' + b'
    ensures w' + d' == w + d
  {
    forall x: T ensures (w' + d')[x] == (w + d)[x] {
      assert (w' + a)[x] == (w + a')[x] && (d' + b)[x] == (d + b')[x] && (a + b)[x] == (a' + b')[x];
    }
  }

  lemma FinishConserves<T>(p: Pool<T>, w: nat)
    requires Conserved(p) && w < |p.workers| && p.workers[w].Working?
    ensures Conserved(Take(p, Finish(w)))
  {
    UpdateWorker(p.workers, w, Offering);
    var q := Take(p, Finish(w));
    assert InWorkers(q.workers) + multiset{p.workers[w].msg} == InWorkers(p.workers);
    assert multiset(q.processed) == multiset(p.processed) + multiset{p.workers[w].msg};
  }

  lemma BeginConserves<T>(p: Pool<T>, msg: T)
    requires Conserved(p)
    ensures Conserved(Take(p, BeginDispatch(msg)))
  {
    AppendDispatcher(p.dispatchers, Wanting(msg));
    AddLeft(multiset(p.processed) + InWorkers(p.workers), InDispatchers(p.dispatchers), multiset{msg});
    assert multiset(p.dispatched + [msg]) == multiset(p.dispatched) + multiset{msg};
  }

  lemma StopConserves<T>(p: Pool<T>, w: nat)
    requires Conserved(p) && Enabled(p, Step<T>.TakeStop(w))
    ensures Conserved(Take(p, Step<T>.TakeStop(w)))
  {
    UpdateWorker(p.workers, w, Offering);
    assert InWorkers(p.workers[w := Offering]) + multiset{} == InWorkers(p.workers[w := Offering]);
  }

  lemma TakeConserves<T>(p: Pool<T>, s: Step<T>)
    requires Enabled(p, s) && Conserved(p)
    ensures Conserved(Take(p, s))
  {
    match s
    case BeginDispatch(msg) => BeginConserves(p, msg);
    case BeginStop(w) =>
    case Offer(w, d) => Balance(p, Take(p, s), w, d);
    case Deliver(w, d) => Balance(p, Take(p, s), w, d);
    case Finish(w) => FinishConserves(p, w);
    case TakeStop(w) => StopConserves(p, w);
  }

  lemma {:induction false} NothingInWorkers<T>(l: seq<Worker<T>>)
    requires forall w | w in l :: !w.Working?
    ensures InWorkers(l) == multiset{}
  {
    if l != [] {
      NothingInWorkers(l[1..]);
    }
  }

  lemma {:induction false} NothingInDispatchers<T>(l: seq<Dispatcher<T>>)
    requires forall d | d in l :: d.Done?
    ensures InDispatchers(l) == multiset{}
  {
    if l != [] {
      NothingInDispatchers(l[1..]);
    }
  }

  lemma {:induction false} RunConserves<T>(p: Pool<T>, steps: seq<Step<T>>, q: Pool<T>)
    requires Conserved(p) && IsRun(p, steps, q)
    ensures Conserved(q)
    decreases |steps|
  {
    if steps != [] {
      TakeConserves(p, steps[0]);
      RunConserves(Take(p, steps[0]), steps[1..], q);
    }
  }

  /** In every interleaving of dispatchers, workers and stop signals no message is lost and none is handled twice. */
  lemma EveryRunConserves<T>(n: nat, steps: seq<Step<T>>, q: Pool<T>)
    requires IsRun(Start(n), steps, q)
    ensures Conserved(q)
  {
    NothingInWorkers(Start<T>(n).workers);
    RunConserves(Start(n), steps, q);
  }

  // ---------------------------------------------------------------- who holds a channel

  /** Each held channel has one holder and its worker is in the `select`; each worker in the `select` has a holder. */
  ghost predicate Matched<T>(p: Pool<T>) {
    && (forall d | 0 <= d < |p.dispatchers| && p.dispatchers[d].Holding? ::
          p.dispatchers[d].worker < |p.workers| && p.workers[p.dispatchers[d].worker].Waiting?)
    && (forall d, e | 0 <= d < e < |p.dispatchers| && p.dispatchers[d].Holding? && p.dispatchers[e].Holding? ::
          p.dispatchers[d].worker != p.dispatchers[e].worker)
    && (forall w | 0 <= w < |p.workers| && p.workers[w].Waiting? :: Held(p, w))
  }

  ghost predicate Held<T>(p: Pool<T>, w: nat) {
    exists d :: 0 <= d < |p.dispatchers| && p.dispatchers[d].Holding? && p.dispatchers[d].worker == w
  }

  lemma HeldStays<T>(p: Pool<T>, q: Pool<T>, w: nat, gone: nat)
    requires Held(p, w) && |p.dispatchers| <= |q.dispatchers|
    requires gone < |p.dispatchers| && p.dispatchers[gone].Holding? ==> p.dispatchers[gone].worker != w
    requires forall d | 0 <= d < |p.dispatchers| && d != gone :: q.dispatchers[d] == p.dispatchers[d]
    ensures Held(q, w)
  {
    var d :| 0 <= d < |p.dispatchers| && p.dispatchers[d].Holding? && p.dispatchers[d].worker == w;
    assert q.dispatchers[d] == p.dispatchers[d];
  }

  lemma TakeKeepsMatched<T>(p: Pool<T>, s: Step<T>)
    requires Enabled(p, s) && Matched(p) && !s.TakeStop?
    ensures Matched(Take(p, s))
  {
    var q := Take(p, s);
    forall w | 0 <= w < |q.workers| && q.workers[w].Waiting? ensures Held(q, w) {
      match s
      case Offer(v, d) => if w == v { assert q.dispatchers[d].Holding?; } else { HeldStays(p, q, w, d); }
      case Deliver(_, d) => HeldStays(p, q, w, d);
      case BeginDispatch(_) => HeldStays(p, q, w, |p.dispatchers|);
      case BeginStop(_) => HeldStays(p, q, w, |p.dispatchers|);
      case Finish(_) => HeldStays(p, q, w, |p.dispatchers|);
      case TakeStop(_) => assert false;
    }
  }

  lemma {:induction false} RunKeepsMatched<T>(p: Pool<T>, steps: seq<Step<T>>, q: Pool<T>)
    requires Matched(p) && IsRun(p, steps, q) && forall s | s in steps :: !s.TakeStop?
    ensures Matched(q)
    decreases |steps|
  {
    if steps != [] {
      TakeKeepsMatched(p, steps[0]);
      RunKeepsMatched(Take(p, steps[0]), steps[1..], q);
    }
  }

  /** As long as no stop signal was taken, at most one dispatcher holds a worker's channel, and only while that worker waits. */
  lemma WithoutStopsMatched<T>(n: nat, steps: seq<Step<T>>, q: Pool<T>)
    requires IsRun(Start(n), steps, q) && forall s | s in steps :: !s.TakeStop?
    ensures Matched(q)
  {
    RunKeepsMatched(Start(n), steps, q);
  }

  // ---------------------------------------------------------------- progress

  /** A step that begins no call and takes no stop. */
  predicate Internal<T>(s: Step<T>) {
    s.Offer? || s.Deliver? || s.Finish?
  }

  ghost predicate AtRest<T>(p: Pool<T>) {
    (forall w | w in p.workers :: !w.Working?) && (forall d | d in p.dispatchers :: d.Done?)
  }

  /** As long as no stop signal was taken, a pool with a worker never blocks with a message undelivered or unfinished. */
  lemma WithoutStopsProgress<T>(p: Pool<T>) returns (s: Step<T>)
    requires Matched(p) && p.workers != [] && !AtRest(p)
    ensures Internal(s) && Enabled(p, s)
  {
    if w :| 0 <= w < |p.workers| && p.workers[w].Working? {
      s := Finish(w);
    } else {
      var d :| 0 <= d < |p.dispatchers| && !p.dispatchers[d].Done?;
      if p.dispatchers[d].Holding? {
        s := Deliver(p.dispatchers[d].worker, d);
      } else if p.workers[0].Offering? {
        s := Offer(0, d);
      } else {
        assert Held(p, 0);
        var e :| 0 <= e < |p.dispatchers| && p.dispatchers[e].Holding? && p.dispatchers[e].worker == 0;
        s := Deliver(0, e);
      }
    }
  }

  /** When a pool without stops has nothing left to do, everything dispatched has been processed, each message once. */
  lemma RestMeansProcessed<T>(n: nat, steps: seq<Step<T>>, q: Pool<T>)
    requires n > 0 && IsRun(Start(n), steps, q) && forall s | s in steps :: !s.TakeStop?
    requires forall s: Step<T> | Internal(s) :: !Enabled(q, s)
    ensures multiset(q.processed) == multiset(q.dispatched)
  {
    EveryRunConserves(n, steps, q);
    WithoutStopsMatched(n, steps, q);
    WorkerCount(Start(n), steps, q);
    if !AtRest(q) {
      var s := WithoutStopsProgress(q);
      assert false;
    }
    NothingInWorkers(q.workers);
    NothingInDispatchers(q.dispatchers);
  }

  lemma {:induction false} WorkerCount<T>(p: Pool<T>, steps: seq<Step<T>>, q: Pool<T>)
    requires IsRun(p, steps, q)
    ensures |q.workers| == |p.workers|
    decreases |steps|
  {
    if steps != [] {
      WorkerCount(Take(p, steps[0]), steps[1..], q);
    }
  }

  function WorkOf<T>(d: Dispatcher<T>): nat {
    match d case Wanting(_) => 3 case Holding(_, _) => 2 case Done => 0
  }

  function DispatcherWork<T>(l: seq<Dispatcher<T>>): nat {
    if l == [] then 0 else WorkOf(l[0]) + DispatcherWork(l[1..])
  }

  function WorkerWork<T>(l: seq<Worker<T>>): nat {
    if l == [] then 0 else (if l[0].Working? then 1 else 0) + WorkerWork(l[1..])
  }

  /** The work left: three steps for a message that waits, two once a channel is held, one while it is handled. */
  function Work<T>(p: Pool<T>): nat {
    DispatcherWork(p.dispatchers) + WorkerWork(p.workers)
  }

  lemma {:induction false} UpdateDispatcherWork<T>(l: seq<Dispatcher<T>>, i: nat, d: Dispatcher<T>)
    requires i < |l|
    ensures DispatcherWork(l[i := d]) == DispatcherWork(l) - WorkOf(l[i]) + WorkOf(d)
  {
    if i == 0 {
      assert l[i := d][1..] == l[1..];
    } else {
      assert l[i := d][1..] == l[1..][i - 1 := d];
      UpdateDispatcherWork(l[1..], i - 1, d);
    }
  }

  lemma {:induction false} UpdateWorkerWork<T>(l: seq<Worker<T>>, i: nat, w: Worker<T>)
    requires i < |l|
    ensures WorkerWork(l[i := w]) == WorkerWork(l) - (if l[i].Working? then 1 else 0) + if w.Working? then 1 else 0
  {
    if i == 0 {
      assert l[i := w][1..] == l[1..];
    } else {
      assert l[i := w][1..] == l[1..][i - 1 := w];
      UpdateWorkerWork(l[1..], i - 1, w);
    }
  }

  /** Every internal step does one unit of the work left, so internal steps alone always come to an end. */
  lemma InternalStepsEnd<T>(p: Pool<T>, s: Step<T>)
    requires Enabled(p, s) && Internal(s)
    ensures Work(Take(p, s)) == Work(p) - 1
  {
    var q := Take(p, s);
    UpdateWorkerWork(p.workers, s.w, q.workers[s.w]);
    if !s.Finish? {
      UpdateDispatcherWork(p.dispatchers, s.d, q.dispatchers[s.d]);
    }
  }

  // ---------------------------------------------------------------- what a stop does

  /** Every worker offers its channel and no dispatcher is there to take one. */
  predicate Stranded<T>(p: Pool<T>) {
    && (forall w | 0 <= w < |p.workers| :: p.workers[w].Offering?)
    && (forall d | 0 <= d < |p.dispatchers| :: !p.dispatchers[d].Wanting?)
  }

  /** In a stranded pool nothing moves until another call begins, even if a dispatcher holds a channel. */
  lemma StrandedIsStuck<T>(p: Pool<T>, s: Step<T>)
    requires Stranded(p) && Enabled(p, s)
    ensures s.BeginDispatch? || s.BeginStop?
  {
  }

  /**
    One stop signal is enough to strand a message, and another dispatch then makes two dispatchers hold the channel of
    one worker.
   */
  lemma StopStrandsMessage<T>(m: T) returns (steps: seq<Step<T>>, q: Pool<T>, more: seq<Step<T>>, r: Pool<T>)
    ensures IsRun(Start(1), steps, q) && Stranded(q) && q.dispatchers == [Holding(m, 0)] && q.processed == []
    ensures IsRun(q, more, r) && r.dispatchers == [Holding(m, 0), Holding(m, 0)]
  {
    var p0 := Start<T>(1);
    var p1 := Take(p0, BeginDispatch(m));
    var p2 := Take(p1, Offer(0, 0));
    var p3 := Take(p2, BeginStop(0));
    q := Take(p3, TakeStop(0));
    steps := [BeginDispatch(m), Offer(0, 0), BeginStop(0), TakeStop(0)];
    var q1 := Take(q, BeginDispatch(m));
    r := Take(q1, Offer(0, 1));
    more := [BeginDispatch(m), Offer(0, 1)];
    Chain(q1, more[1..], r, q, more);
    Chain(p3, steps[3..], q, p2, steps[2..]);
    Chain(p2, steps[2..], q, p1, steps[1..]);
    Chain(p1, steps[1..], q, p0, steps);
  }

  lemma Chain<T>(p: Pool<T>, tail: seq<Step<T>>, q: Pool<T>, before: Pool<T>, steps: seq<Step<T>>)
    requires steps != [] && tail == steps[1..] && Enabled(before, steps[0]) && Take(before, steps[0]) == p
    requires IsRun(p, tail, q)
    ensures IsRun(before, steps, q)
  {
  }

  // ---------------------------------------------------------------- how many messages stops strand

  function Holds<T>(d: Dispatcher<T>, w: nat): nat {
    if d.Holding? && d.worker == w then 1 else 0
  }

  /** How many dispatchers hold the channel of worker `w`. */
  function Holders<T>(l: seq<Dispatcher<T>>, w: nat): nat {
    if l == [] then 0 else Holds(l[0], w) + Holders(l[1..], w)
  }

  function Waits<T>(p: Pool<T>, w: nat): nat {
    if w < |p.workers| && p.workers[w].Waiting? then 1 else 0
  }

  /** How many stop signals worker `w` took. */
  function StopsTaken<T>(steps: seq<Step<T>>, w: nat): nat {
    if steps == [] then 0 else (if steps[0] == TakeStop(w) then 1 else 0) + StopsTaken(steps[1..], w)
  }

  lemma {:induction false} UpdateHolders<T>(l: seq<Dispatcher<T>>, i: nat, d: Dispatcher<T>, w: nat)
    requires i < |l|
    ensures Holders(l[i := d], w) == Holders(l, w) - Holds(l[i], w) + Holds(d, w)
  {
    if i == 0 {
      assert l[i := d][1..] == l[1..];
    } else {
      assert l[i := d][1..] == l[1..][i - 1 := d];
      UpdateHolders(l[1..], i - 1, d, w);
    }
  }

  lemma {:induction false} AppendHolders<T>(l: seq<Dispatcher<T>>, d: Dispatcher<T>, w: nat)
    ensures Holders(l + [d], w) == Holders(l, w) + Holds(d, w)
  {
    if l == [] {
      assert [d][1..] == [];
    } else {
      assert (l + [d])[1..] == l[1..] + [d];
      AppendHolders(l[1..], d, w);
    }
  }

  lemma TakeHolders<T>(p: Pool<T>, s: Step<T>, w: nat)
    requires Enabled(p, s)
    ensures var q := Take(p, s);
      Holders(q.dispatchers, w) - Waits(q, w)
      == Holders(p.dispatchers, w) - Waits(p, w) + if s == Step<T>.TakeStop(w) then 1 else 0
  {
    match s
    case BeginDispatch(msg) => AppendHolders(p.dispatchers, Wanting(msg), w);
    case Offer(v, d) => UpdateHolders(p.dispatchers, d, Holding(p.dispatchers[d].msg, v), w);
    case Deliver(_, d) => UpdateHolders(p.dispatchers, d, Done, w);
    case _ =>
  }

  lemma {:induction false} RunHolders<T>(p: Pool<T>, steps: seq<Step<T>>, q: Pool<T>, w: nat)
    requires IsRun(p, steps, q)
    ensures Holders(q.dispatchers, w) - Waits(q, w) == Holders(p.dispatchers, w) - Waits(p, w) + StopsTaken(steps, w)
    decreases |steps|
  {
    if steps != [] {
      TakeHolders(p, steps[0], w);
      RunHolders(Take(p, steps[0]), steps[1..], q, w);
    }
  }

  /**
    In every run, the channel of a worker is held once while the worker waits in its `select`, and once more for every
    stop signal the worker took.
   */
  lemma HoldersAreStops<T>(n: nat, steps: seq<Step<T>>, q: Pool<T>, w: nat)
    requires IsRun(Start(n), steps, q)
    ensures Holders(q.dispatchers, w) == Waits(q, w) + StopsTaken(steps, w)
  {
    RunHolders(Start(n), steps, q, w);
  }

  lemma {:induction false} NoHolder<T>(l: seq<Dispatcher<T>>, w: nat)
    ensures Holders(l, w) == 0 <==> forall d | 0 <= d < |l| :: Holds(l[d], w) == 0
  {
    if l != [] {
      NoHolder(l[1..], w);
      assert forall d | 1 <= d < |l| :: l[d] == l[1..][d - 1];
      assert forall d | 0 <= d < |l| - 1 :: l[1..][d] == l[d + 1];
    }
  }

  lemma {:induction false} OneHolder<T>(l: seq<Dispatcher<T>>, w: nat)
    ensures Holders(l, w) <= 1 <==> forall d, e | 0 <= d < e < |l| :: Holds(l[d], w) == 0 || Holds(l[e], w) == 0
  {
    if l != [] {
      OneHolder(l[1..], w);
      NoHolder(l[1..], w);
      assert forall d | 1 <= d < |l| :: l[d] == l[1..][d - 1];
      assert forall d | 0 <= d < |l| - 1 :: l[1..][d] == l[d + 1];
    }
  }

  /** In a matched pool each worker that waits has one holder, and the others none. */
  lemma MatchedCounts<T>(p: Pool<T>, w: nat)
    requires Matched(p)
    ensures Holders(p.dispatchers, w) == Waits(p, w)
  {
    NoHolder(p.dispatchers, w);
    OneHolder(p.dispatchers, w);
    if w < |p.workers| && p.workers[w].Waiting? {
      assert Held(p, w);
      var d :| 0 <= d < |p.dispatchers| && p.dispatchers[d].Holding? && p.dispatchers[d].worker == w;
      assert Holds(p.dispatchers[d], w) == 1;
    }
  }

  lemma {:induction false} NoStopTaken<T>(steps: seq<Step<T>>, w: nat)
    ensures StopsTaken(steps, w) == 0 <==> Step<T>.TakeStop(w) !in steps
  {
    if steps != [] {
      NoStopTaken(steps[1..], w);
      assert Step<T>.TakeStop(w) in steps <==> Step<T>.TakeStop(w) == steps[0] || Step<T>.TakeStop(w) in steps[1..];
    }
  }

  /**
    A run leaves at most one holder for each channel, and only while its worker waits, exactly when no stop signal was
    taken. A stop signal that was taken breaks this for ever.
   */
  lemma MatchedIffNoStops<T>(n: nat, steps: seq<Step<T>>, q: Pool<T>)
    requires IsRun(Start(n), steps, q)
    ensures Matched(q) <==> forall s | s in steps :: !s.TakeStop?
  {
    hide Holders, Waits, StopsTaken;
    if Matched(q) {
      forall s | s in steps ensures !s.TakeStop? {
        if s.TakeStop? {
          MatchedCounts(q, s.w);
          HoldersAreStops(n, steps, q, s.w);
          NoStopTaken(steps, s.w);
        }
      }
    }
    if forall s | s in steps :: !s.TakeStop? {
      WithoutStopsMatched(n, steps, q);
    }
  }

  /** How many stop signals all workers took. */
  function AllStopsTaken<T>(steps: seq<Step<T>>): nat {
    if steps == [] then 0 else (if steps[0].TakeStop? then 1 else 0) + AllStopsTaken(steps[1..])
  }

  function HoldingCount<T>(l: seq<Dispatcher<T>>): nat {
    if l == [] then 0 else (if l[0].Holding? then 1 else 0) + HoldingCount(l[1..])
  }

  function WaitingCount<T>(l: seq<Worker<T>>): nat {
    if l == [] then 0 else (if l[0].Waiting? then 1 else 0) + WaitingCount(l[1..])
  }

  lemma {:induction false} UpdateHolding<T>(l: seq<Dispatcher<T>>, i: nat, d: Dispatcher<T>)
    requires i < |l|
    ensures HoldingCount(l[i := d]) == HoldingCount(l) - (if l[i].Holding? then 1 else 0) + if d.Holding? then 1 else 0
  {
    if i == 0 {
      assert l[i := d][1..] == l[1..];
    } else {
      assert l[i := d][1..] == l[1..][i - 1 := d];
      UpdateHolding(l[1..], i - 1, d);
    }
  }

  lemma {:induction false} UpdateWaiting<T>(l: seq<Worker<T>>, i: nat, w: Worker<T>)
    requires i < |l|
    ensures WaitingCount(l[i := w]) == WaitingCount(l) - (if l[i].Waiting? then 1 else 0) + if w.Waiting? then 1 else 0
  {
    if i == 0 {
      assert l[i := w][1..] == l[1..];
    } else {
      assert l[i := w][1..] == l[1..][i - 1 := w];
      UpdateWaiting(l[1..], i - 1, w);
    }
  }

  lemma {:induction false} AppendHolding<T>(l: seq<Dispatcher<T>>, d: Dispatcher<T>)
    requires !d.Holding?
    ensures HoldingCount(l + [d]) == HoldingCount(l)
  {
    if l == [] {
      assert [d][1..] == [];
    } else {
      assert (l + [d])[1..] == l[1..] + [d];
      AppendHolding(l[1..], d);
    }
  }

  lemma TakeCounts<T>(p: Pool<T>, s: Step<T>)
    requires Enabled(p, s)
    ensures var q := Take(p, s);
      HoldingCount(q.dispatchers) - WaitingCount(q.workers)
      == HoldingCount(p.dispatchers) - WaitingCount(p.workers) + if s.TakeStop? then 1 else 0
  {
    var q := Take(p, s);
    match s
    case BeginDispatch(msg) => AppendHolding(p.dispatchers, Wanting(msg));
    case BeginStop(_) =>
    case Offer(w, d) =>
      UpdateHolding(p.dispatchers, d, q.dispatchers[d]);
      UpdateWaiting(p.workers, w, Waiting);
    case Deliver(w, d) =>
      UpdateHolding(p.dispatchers, d, Done);
      UpdateWaiting(p.workers, w, q.workers[w]);
    case Finish(w) => UpdateWaiting(p.workers, w, Offering);
    case TakeStop(w) => UpdateWaiting(p.workers, w, Offering);
  }

  lemma {:induction false} RunCounts<T>(p: Pool<T>, steps: seq<Step<T>>, q: Pool<T>)
    requires IsRun(p, steps, q)
    ensures HoldingCount(q.dispatchers) - WaitingCount(q.workers)
         == HoldingCount(p.dispatchers) - WaitingCount(p.workers) + AllStopsTaken(steps)
    decreases |steps|
  {
    if steps != [] {
      TakeCounts(p, steps[0]);
      RunCounts(Take(p, steps[0]), steps[1..], q);
    }
  }

  lemma {:induction false} NoneWaiting<T>(l: seq<Worker<T>>)
    requires forall w | w in l :: !w.Waiting?
    ensures WaitingCount(l) == 0
  {
    if l != [] {
      NoneWaiting(l[1..]);
    }
  }

  lemma {:induction false} HeldMessages<T>(l: seq<Dispatcher<T>>)
    requires forall d | d in l :: !d.Wanting?
    ensures |InDispatchers(l)| == HoldingCount(l)
  {
    if l != [] {
      HeldMessages(l[1..]);
    }
  }

  lemma HolderDelivers<T>(p: Pool<T>, w: nat) returns (s: Step<T>)
    requires w < |p.workers| && p.workers[w].Waiting? && Holders(p.dispatchers, w) > 0
    ensures Internal(s) && Enabled(p, s)
  {
    NoHolder(p.dispatchers, w);
    var d :| 0 <= d < |p.dispatchers| && Holds(p.dispatchers[d], w) != 0;
    s := Deliver(w, d);
  }

  /** When nothing but new calls can happen, every worker offers its channel, and no dispatcher waits for one. */
  lemma QuietIsStranded<T>(n: nat, steps: seq<Step<T>>, q: Pool<T>)
    requires n > 0 && IsRun(Start(n), steps, q) && forall s: Step<T> | Internal(s) :: !Enabled(q, s)
    ensures Stranded(q)
  {
    WorkerCount(Start(n), steps, q);
    forall w | 0 <= w < |q.workers| ensures q.workers[w].Offering? {
      assert !Enabled(q, Step<T>.Finish(w));
      if q.workers[w].Waiting? {
        HoldersAreStops(n, steps, q, w);
        var s := HolderDelivers(q, w);
      }
    }
    forall d | 0 <= d < |q.dispatchers| ensures !q.dispatchers[d].Wanting? {
      assert !Enabled(q, Step<T>.Offer(0, d));
    }
  }

  /**
    Each stop signal strands exactly one message: when a pool has nothing left to do, as many of the messages dispatched
    were never processed as stop signals were taken.
   */
  lemma EachStopStrandsOne<T>(n: nat, steps: seq<Step<T>>, q: Pool<T>)
    requires n > 0 && IsRun(Start(n), steps, q) && forall s: Step<T> | Internal(s) :: !Enabled(q, s)
    ensures |q.dispatched| - |q.processed| == AllStopsTaken(steps)
    ensures multiset(q.dispatched) == multiset(q.processed) + InDispatchers(q.dispatchers)
  {
    QuietIsStranded(n, steps, q);
    EveryRunConserves(n, steps, q);
    NothingInWorkers(q.workers);
    NoneWaiting(q.workers);
    NoneWaiting(Start<T>(n).workers);
    RunCounts(Start(n), steps, q);
    HeldMessages(q.dispatchers);
    assert |multiset(q.dispatched)| == |q.dispatched| && |multiset(q.processed)| == |q.processed|;
  }

  // ---------------------------------------------------------------- who can meet whom

  /** Any worker that offers its channel meets any dispatcher that wants one, and keeps its message for the worker. */
  lemma AnyPairMeets<T>(p: Pool<T>, w: nat, d: nat)
    requires w < |p.workers| && d < |p.dispatchers| && p.workers[w].Offering? && p.dispatchers[d].Wanting?
    ensures Enabled(p, Step<T>.Offer(w, d))
    ensures var q := Take(p, Step<T>.Offer(w, d));
      q.workers[w].Waiting? && q.dispatchers[d] == Holding(p.dispatchers[d].msg, w)
      && (forall v | 0 <= v < |p.workers| && v != w :: q.workers[v] == p.workers[v])
      && (forall e | 0 <= e < |p.dispatchers| && e != d :: q.dispatchers[e] == p.dispatchers[e])
  {
  }

  /** A worker in its `select` takes a message from any holder of its channel, or any stop signal sent to it. */
  lemma AnyHolderDelivers<T>(p: Pool<T>, w: nat, d: nat)
    requires w < |p.workers| && d < |p.dispatchers| && p.workers[w].Waiting?
    ensures p.dispatchers[d].Holding? && p.dispatchers[d].worker == w ==>
      Enabled(p, Step<T>.Deliver(w, d)) && Take(p, Step<T>.Deliver(w, d)).workers[w] == Working(p.dispatchers[d].msg)
    ensures w < |p.stops| && p.stops[w] > 0 ==>
      Enabled(p, Step<T>.TakeStop(w)) && Take(p, Step<T>.TakeStop(w)).workers[w].Offering?
  {
  }

  /** A call of `Dispatch` or `Stop` can begin at any time, however many others are pending, and moves nothing by itself. */
  lemma AnyCallBegins<T>(p: Pool<T>, msg: T, w: nat)
    ensures Enabled(p, BeginDispatch(msg))
    ensures var q := Take(p, BeginDispatch(msg));
      q.workers == p.workers && q.stops == p.stops && q.processed == p.processed && q.dispatchers == p.dispatchers + [Wanting(msg)]
    ensures w < |p.stops| ==> Enabled(p, Step<T>.BeginStop(w))
    ensures w < |p.stops| ==> var q := Take(p, Step<T>.BeginStop(w));
      q.workers == p.workers && q.dispatchers == p.dispatchers && q.processed == p.processed && q.stops[w] == p.stops[w] + 1
  {
  }

  /** How many calls of `Stop` for worker `w` began. */
  function StopsBegun<T>(steps: seq<Step<T>>, w: nat): nat {
    if steps == [] then 0 else (if steps[0] == BeginStop(w) then 1 else 0) + StopsBegun(steps[1..], w)
  }

  function StopsPending<T>(p: Pool<T>, w: nat): nat {
    if w < |p.stops| then p.stops[w] else 0
  }

  lemma {:induction false} RunStops<T>(p: Pool<T>, steps: seq<Step<T>>, q: Pool<T>, w: nat)
    requires IsRun(p, steps, q)
    ensures StopsPending(q, w) + StopsTaken(steps, w) == StopsPending(p, w) + StopsBegun(steps, w)
    decreases |steps|
  {
    if steps != [] {
      RunStops(Take(p, steps[0]), steps[1..], q, w);
    }
  }

  /** Every stop signal sent to a worker is taken once or still pending, in every run. */
  lemma StopsConserved<T>(n: nat, steps: seq<Step<T>>, q: Pool<T>, w: nat)
    requires IsRun(Start(n), steps, q)
    ensures StopsPending(q, w) + StopsTaken(steps, w) == StopsBegun(steps, w)
  {
    RunStops(Start(n), steps, q, w);
  }
}
