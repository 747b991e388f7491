/** The two work-sharing pools of the gateway benchmark: asynchronous workers that take
    indices from one shared counter, one request in flight each. Workers interleave only
    where they await an answer. */
module WorkPool {
  import opened Sorting

  // A worker waits for the answer for an index, has found no more work, or has thrown.
  datatype Worker = Waiting(index: nat) | Done | Thrown(index: nat)

  // `started` and `answered` list the indices of the requests made and settled so far.
  datatype State = State(next: nat, succeeded: nat, started: seq<nat>, answered: seq<nat>, workers: seq<Worker>)

  // A worker turns to the shared counter.
  function Take(s: State, count: nat, w: nat): State
    requires w < |s.workers|
  {
    var index := s.next;
    if index < count
    then s.(next := index + 1, started := s.started + [index], workers := s.workers[w := Waiting(index)])
    else s.(next := index + 1, workers := s.workers[w := Done])
  }

  // The workers are created one after the other; each runs up to its first request.
  function Started(count: nat, workerCount: nat): (s: State)
    ensures |s.workers| == workerCount
  {
    if workerCount == 0 then State(0, 0, [], [], [])
    else
      var s := Started(count, workerCount - 1);
      Take(s.(workers := s.workers + [Done]), count, workerCount - 1)
  }

  // The answer for one worker's request arrives.
  datatype Answer = Answer(worker: nat, ok: bool)

  predicate Expected(s: State, a: Answer) {
    a.worker < |s.workers| && s.workers[a.worker].Waiting?
  }

  function Step(s: State, count: nat, a: Answer): State {
    if !Expected(s, a) then s
    else
      var index := s.workers[a.worker].index;
      var t := s.(answered := s.answered + [index]);
      if a.ok then Take(t.(succeeded := t.succeeded + 1), count, a.worker)
      else t.(workers := t.workers[a.worker := Thrown(index)])
  }

  function Run(count: nat, workerCount: nat, trace: seq<Answer>): State {
    if trace == [] then Started(count, workerCount)
    else Step(Run(count, workerCount, trace[..|trace| - 1]), count, trace[|trace| - 1])
  }

  // ----- the pool

  class Pool {
    const count: nat
    var next: nat
    var succeeded: nat
    var started: seq<nat>
    var answered: seq<nat>
    var workers: seq<Worker>

    function Abs(): State
      reads this
    {
      State(next, succeeded, started, answered, workers)
    }

    constructor (count: nat, workerCount: nat)
      ensures this.count == count && Abs() == Started(count, workerCount)
    {
      this.count := count;
      next, succeeded, started, answered, workers := 0, 0, [], [], [];
      new;
      for w := 0 to workerCount
        invariant Abs() == Started(count, w)
      {
        workers := workers + [Done];
        TakeIndex(w);
      }
    }

    /** One turn of a worker's loop, up to its next request or its return. */
    method TakeIndex(w: nat)
      requires w < |workers|
      modifies this
      ensures Abs() == Take(old(Abs()), count, w)
    {
      var index := next;
      next := next + 1;
      if index >= count {
        workers := workers[w := Done];
        return;
      }
      started := started + [index];
      workers := workers[w := Waiting(index)];
    }

    /** A request settles; a failing one makes its worker throw. */
    method OnAnswer(a: Answer)
      modifies this
      ensures Abs() == Step(old(Abs()), count, a)
    {
      if a.worker >= |workers| || !workers[a.worker].Waiting? {
        return;
      }
      var index := workers[a.worker].index;
      answered := answered + [index];
      if !a.ok {
        workers := workers[a.worker := Thrown(index)];
        return;
      }
      succeeded := succeeded + 1;
      TakeIndex(a.worker);
    }
  }

  // ----- what every interleaving keeps

  predicate WaitsFor(w: Worker, index: nat) { w == Waiting(index) }

  // How many workers wait for an answer for `index`.
  function WaitingFor(workers: seq<Worker>, index: nat): nat {
    if workers == [] then 0
    else WaitingFor(workers[..|workers| - 1], index) + (if WaitsFor(workers[|workers| - 1], index) then 1 else 0)
  }

  function InFlight(workers: seq<Worker>): nat {
    if workers == [] then 0
    else InFlight(workers[..|workers| - 1]) + (if workers[|workers| - 1].Waiting? then 1 else 0)
  }

  function ThrownCount(workers: seq<Worker>): nat {
    if workers == [] then 0
    else ThrownCount(workers[..|workers| - 1]) + (if workers[|workers| - 1].Thrown? then 1 else 0)
  }

  function Below(n: nat): seq<nat> { seq(n, i => i) }

  function Min(a: nat, b: nat): nat { if a < b then a else b }

  // Each request made so far is answered or in flight, as often as it was made.
  ghost predicate Accounted(s: State) {
    && (forall i: nat :: multiset(s.answered)[i] + WaitingFor(s.workers, i) == multiset(s.started)[i])
    && |s.answered| + InFlight(s.workers) == |s.started|
    && s.succeeded + ThrownCount(s.workers) == |s.answered|
  }

  ghost predicate Inv(s: State, count: nat) {
    && s.started == Below(Min(s.next, count))
    && Accounted(s)
    && (forall w :: 0 <= w < |s.workers| && s.workers[w].Done? ==> s.next > count)
    && (s.workers != [] ==> s.next > 0) && (s.workers == [] ==> s.next == 0)
  }

  lemma {:induction false} WorkerChanges(workers: seq<Worker>, w: nat, to: Worker)
    requires w < |workers|
    ensures InFlight(workers[w := to]) + (if workers[w].Waiting? then 1 else 0)
      == InFlight(workers) + (if to.Waiting? then 1 else 0)
    ensures ThrownCount(workers[w := to]) + (if workers[w].Thrown? then 1 else 0)
      == ThrownCount(workers) + (if to.Thrown? then 1 else 0)
    decreases |workers|
  {
    var last := |workers| - 1;
    if w < last {
      WorkerChanges(workers[..last], w, to);
      assert workers[w := to][..last] == workers[..last][w := to];
    } else {
      assert workers[w := to][..last] == workers[..last];
    }
  }

  lemma {:induction false} WaitingChanges(workers: seq<Worker>, w: nat, to: Worker, index: nat)
    requires w < |workers|
    ensures WaitingFor(workers[w := to], index) + (if WaitsFor(workers[w], index) then 1 else 0)
      == WaitingFor(workers, index) + (if WaitsFor(to, index) then 1 else 0)
    decreases |workers|
  {
    var last := |workers| - 1;
    if w < last {
      WaitingChanges(workers[..last], w, to, index);
      assert workers[w := to][..last] == workers[..last][w := to];
    } else {
      assert workers[w := to][..last] == workers[..last];
    }
  }

  lemma {:induction false} CountsBound(workers: seq<Worker>)
    ensures InFlight(workers) <= |workers|
    ensures InFlight(workers) == 0 <==> forall w :: 0 <= w < |workers| ==> !workers[w].Waiting?
    ensures ThrownCount(workers) == 0 <==> forall w :: 0 <= w < |workers| ==> !workers[w].Thrown?
    decreases |workers|
  {
    if workers == [] {
    } else {
      var last := |workers| - 1;
      CountsBound(workers[..last]);
      assert forall w :: 0 <= w < last ==> workers[w] == workers[..last][w];
    }
  }

  lemma {:induction false} WaitingBound(workers: seq<Worker>, index: nat)
    ensures WaitingFor(workers, index) <= InFlight(workers)
    decreases |workers|
  {
    if workers == [] {
    } else {
      WaitingBound(workers[..|workers| - 1], index);
    }
  }

  // A request is made by a worker that was not waiting.
  lemma RequestKeeps(s: State, w: nat, index: nat)
    requires Accounted(s) && w < |s.workers| && s.workers[w].Done?
    ensures Accounted(s.(next := index + 1, started := s.started + [index], workers := s.workers[w := Waiting(index)]))
  {
    WorkerChanges(s.workers, w, Waiting(index));
    forall i: nat
      ensures multiset(s.answered)[i] + WaitingFor(s.workers[w := Waiting(index)], i)
        == multiset(s.started + [index])[i]
    {
      WaitingChanges(s.workers, w, Waiting(index), i);
    }
  }

  // An answer moves one index from in flight to answered.
  lemma AnswerKeeps(s: State, w: nat, index: nat, to: Worker, more: nat)
    requires Accounted(s) && w < |s.workers| && s.workers[w] == Waiting(index)
    requires (to == Done && more == 1) || (to == Thrown(index) && more == 0)
    ensures Accounted(
      s.(answered := s.answered + [index], succeeded := s.succeeded + more, workers := s.workers[w := to]))
  {
    WorkerChanges(s.workers, w, to);
    forall i: nat
      ensures multiset(s.answered + [index])[i] + WaitingFor(s.workers[w := to], i) == multiset(s.started)[i]
    {
      WaitingChanges(s.workers, w, to, i);
    }
  }

  lemma TakeKeeps(s: State, count: nat, w: nat)
    requires w < |s.workers| && s.workers[w].Done?
    requires s.started == Below(Min(s.next, count)) && Accounted(s)
    requires forall v :: 0 <= v < |s.workers| && v != w && s.workers[v].Done? ==> s.next > count
    ensures Inv(Take(s, count, w), count)
  {
    hide Accounted;
    if s.next < count {
      RequestKeeps(s, w, s.next);
      assert s.started + [s.next] == Below(s.next + 1);
    } else {
      OnlyCounterMoves(s, w);
    }
  }

  lemma OnlyCounterMoves(s: State, w: nat)
    requires w < |s.workers| && s.workers[w].Done? && Accounted(s)
    ensures Accounted(s.(next := s.next + 1, workers := s.workers[w := Done]))
  {
    assert s.workers[w := Done] == s.workers;
  }

  lemma NewWorkerKeeps(s: State, count: nat)
    requires Inv(s, count)
    ensures Inv(Take(s.(workers := s.workers + [Done]), count, |s.workers|), count)
  {
    hide Take;
    var t := s.(workers := s.workers + [Done]);
    assert t.workers[..|s.workers|] == s.workers;
    TakeKeeps(t, count, |s.workers|);
  }

  lemma {:induction false} StartKeeps(count: nat, workerCount: nat)
    ensures Inv(Started(count, workerCount), count)
  {
    hide Inv, Take;
    if workerCount == 0 {
      NoWorkers(count);
    } else {
      StartKeeps(count, workerCount - 1);
      NewWorkerKeeps(Started(count, workerCount - 1), count);
    }
  }

  lemma NoWorkers(count: nat)
    ensures Inv(Started(count, 0), count)
  {
  }

  lemma StepKeeps(s: State, count: nat, a: Answer)
    requires Inv(s, count)
    ensures Inv(Step(s, count, a), count)
  {
    if Expected(s, a) {
      var w, index := a.worker, s.workers[a.worker].index;
      if a.ok {
        AnswerKeeps(s, w, index, Done, 1);
        var t := s.(answered := s.answered + [index], succeeded := s.succeeded + 1, workers := s.workers[w := Done]);
        TakeKeeps(t, count, w);
        SameTake(s, count, a);
      } else {
        AnswerKeeps(s, w, index, Thrown(index), 0);
      }
    }
  }

  lemma SameTake(s: State, count: nat, a: Answer)
    requires Expected(s, a) && a.ok
    ensures var w, index := a.worker, s.workers[a.worker].index;
      Step(s, count, a)
      == Take(s.(answered := s.answered + [index], succeeded := s.succeeded + 1, workers := s.workers[w := Done]),
           count, w)
  {
    var w := a.worker;
    assert s.workers[w := Done][w := Done] == s.workers[w := Done];
    assert s.workers[w := Done][w := Waiting(s.next)] == s.workers[w := Waiting(s.next)];
  }

  lemma {:induction false} RunKeeps(count: nat, workerCount: nat, trace: seq<Answer>)
    ensures Inv(Run(count, workerCount, trace), count)
    ensures |Run(count, workerCount, trace).workers| == workerCount
    decreases |trace|
  {
    if trace == [] {
      StartKeeps(count, workerCount);
    } else {
      var before := trace[..|trace| - 1];
      RunKeeps(count, workerCount, before);
      StepKeeps(Run(count, workerCount, before), count, trace[|trace| - 1]);
    }
  }

  // ----- the main results

  // Every worker has returned, so `Promise.all` is fulfilled.
  predicate Fulfilled(s: State) {
    forall w :: 0 <= w < |s.workers| ==> s.workers[w].Done?
  }

  /** At every moment of every run, requests have been made in index order and never
      twice, what is answered was requested, and at most one is in flight per worker. */
  lemma NeverTwice(count: nat, workerCount: nat, trace: seq<Answer>)
    ensures var s := Run(count, workerCount, trace);
      && |s.started| <= count && s.started == Below(|s.started|)
      && (forall i: nat :: multiset(s.answered)[i] <= multiset(s.started)[i] <= 1)
      && InFlight(s.workers) == |s.started| - |s.answered| <= workerCount
  {
    var s := Run(count, workerCount, trace);
    RunKeeps(count, workerCount, trace);
    CountsBound(s.workers);
    forall i: nat ensures multiset(s.answered)[i] <= multiset(s.started)[i] <= 1 {
      OnceEach(s.started, i);
    }
  }

  // Every index below `count` was requested and answered once, successfully.
  ghost predicate AllServed(s: State, count: nat) {
    s.started == Below(count) && multiset(s.answered) == multiset(Below(count)) && s.succeeded == count
  }

  lemma NothingWaits(s: State)
    requires Accounted(s) && Fulfilled(s)
    ensures multiset(s.answered) == multiset(s.started) && s.succeeded == |s.started|
  {
    CountsBound(s.workers);
    forall i: nat ensures multiset(s.answered)[i] == multiset(s.started)[i] {
      WaitingBound(s.workers, i);
    }
  }

  lemma ServedIff(s: State, count: nat)
    requires Inv(s, count) && Fulfilled(s)
    ensures AllServed(s, count) <==> s.workers != [] || count == 0
  {
    hide Accounted;
    NothingWaits(s);
    if s.workers != [] {
      assert s.workers[0].Done?;
    } else {
      assert s.started == Below(0);
    }
  }

  /** When `Promise.all` is fulfilled, every index was requested and answered exactly once
      and successfully, if and only if there is a worker or no work at all. */
  lemma FulfilledIff(count: nat, workerCount: nat, trace: seq<Answer>)
    requires Fulfilled(Run(count, workerCount, trace))
    ensures AllServed(Run(count, workerCount, trace), count) <==> workerCount > 0 || count == 0
  {
    hide *;
    RunKeeps(count, workerCount, trace);
    ServedIff(Run(count, workerCount, trace), count);
  }

  lemma {:induction false} CounterAtStart(count: nat, workerCount: nat)
    ensures var s := Started(count, workerCount); s.next == workerCount && s.succeeded == 0
  {
    if workerCount == 0 {
    } else {
      CounterAtStart(count, workerCount - 1);
    }
  }

  lemma {:induction false} CounterCounts(count: nat, workerCount: nat, trace: seq<Answer>)
    ensures var s := Run(count, workerCount, trace); s.next == workerCount + s.succeeded
    decreases |trace|
  {
    if trace == [] {
      CounterAtStart(count, workerCount);
    } else {
      CounterCounts(count, workerCount, trace[..|trace| - 1]);
    }
  }

  /** The pool is never idle: every worker makes a request at once, and each successful answer
      is followed by another one, as long as there is work. Answers that are not successes
      make their workers throw. */
  lemma RequestsCounted(count: nat, workerCount: nat, trace: seq<Answer>)
    ensures var s := Run(count, workerCount, trace);
      && |s.started| == Min(count, workerCount + s.succeeded)
      && s.succeeded + ThrownCount(s.workers) == |s.answered|
  {
    hide *;
    RunKeeps(count, workerCount, trace);
    CounterCounts(count, workerCount, trace);
    InvCounts(Run(count, workerCount, trace), count);
  }

  lemma InvCounts(s: State, count: nat)
    requires Inv(s, count)
    ensures |s.started| == Min(count, s.next) && s.succeeded + ThrownCount(s.workers) == |s.answered|
  {
    hide ThrownCount, InFlight, WaitingFor;
  }

  lemma {:induction false} ThrownStays(count: nat, workerCount: nat, before: seq<Answer>, more: seq<Answer>, w: nat,
      index: nat)
    requires w < workerCount
    requires |Run(count, workerCount, before).workers| == workerCount
    requires Run(count, workerCount, before).workers[w] == Thrown(index)
    ensures |Run(count, workerCount, before + more).workers| == workerCount
    ensures Run(count, workerCount, before + more).workers[w] == Thrown(index)
    decreases |more|
  {
    hide Started;
    if more == [] {
      assert before + more == before;
    } else {
      var front := more[..|more| - 1];
      ThrownStays(count, workerCount, before, front, w, index);
      assert (before + more)[..|before + more| - 1] == before + front;
    }
  }

  /** A failing answer ends its worker for good: the pool is never fulfilled after it. */
  lemma FailureIsFinal(count: nat, workerCount: nat, before: seq<Answer>, a: Answer, more: seq<Answer>)
    requires Expected(Run(count, workerCount, before), a) && !a.ok
    ensures var s := Run(count, workerCount, before + [a] + more);
      var index := Run(count, workerCount, before).workers[a.worker].index;
      a.worker < |s.workers| && s.workers[a.worker] == Thrown(index) && !Fulfilled(s)
  {
    hide Started;
    RunKeeps(count, workerCount, before);
    RunKeeps(count, workerCount, before + [a]);
    assert (before + [a])[..|before|] == before;
    var index := Run(count, workerCount, before).workers[a.worker].index;
    ThrownStays(count, workerCount, before + [a], more, a.worker, index);
  }

  const MAX_SESSION_SEED_CONCURRENCY: nat := 16

  /** The session pool: with min(16, n) workers, at most that many creations are in flight
      and a fulfilled pool has created each of the n sessions exactly once. */
  lemma SessionPool(sessions: nat, trace: seq<Answer>)
    ensures var s := Run(sessions, Min(MAX_SESSION_SEED_CONCURRENCY, sessions), trace);
      && InFlight(s.workers) <= 16 && InFlight(s.workers) <= sessions
      && (Fulfilled(s) ==> AllServed(s, sessions))
  {
    var workers := Min(MAX_SESSION_SEED_CONCURRENCY, sessions);
    NeverTwice(sessions, workers, trace);
    if Fulfilled(Run(sessions, workers, trace)) {
      FulfilledIff(sessions, workers, trace);
    }
  }

  // ----- which session each update goes to

  function PatchesFor(indices: seq<nat>, sessions: nat, session: nat): nat
    requires sessions > 0
  {
    if indices == [] then 0
    else
      PatchesFor(indices[..|indices| - 1], sessions, session)
      + (if indices[|indices| - 1] % sessions == session then 1 else 0)
  }

  lemma {:induction false} PatchesWithout(indices: seq<nat>, i: nat, sessions: nat, session: nat)
    requires sessions > 0 && i < |indices|
    ensures PatchesFor(indices, sessions, session)
      == PatchesFor(indices[..i] + indices[i + 1..], sessions, session)
         + (if indices[i] % sessions == session then 1 else 0)
    decreases |indices|
  {
    var last := |indices| - 1;
    if i == last {
      assert indices[..i] + indices[i + 1..] == indices[..last];
    } else {
      var rest := indices[..i] + indices[i + 1..];
      PatchesWithout(indices[..last], i, sessions, session);
      assert rest[..|rest| - 1] == indices[..last][..i] + indices[..last][i + 1..];
      assert rest[|rest| - 1] == indices[last];
    }
  }

  lemma WithoutOne(indices: seq<nat>, i: nat)
    requires i < |indices|
    ensures multiset(indices[..i] + indices[i + 1..]) == multiset(indices) - multiset{indices[i]}
  {
    assert indices == indices[..i] + [indices[i]] + indices[i + 1..];
  }

  lemma {:induction false} PatchesForgetOrder(a: seq<nat>, b: seq<nat>, sessions: nat, session: nat)
    requires sessions > 0 && multiset(a) == multiset(b)
    ensures PatchesFor(a, sessions, session) == PatchesFor(b, sessions, session)
    decreases |a|
  {
    SameElements(a, b);
    if a == [] {
    } else {
      hide *;
      var last := |a| - 1;
      assert a[last] in b;
      var i :| 0 <= i < |b| && b[i] == a[last];
      WithoutOne(a, last);
      WithoutOne(b, i);
      PatchesForgetOrder(a[..last] + a[last + 1..], b[..i] + b[i + 1..], sessions, session);
      PatchesWithout(a, last, sessions, session);
      PatchesWithout(b, i, sessions, session);
    }
  }

  lemma QuotientIs(n: nat, sessions: nat, q: nat, r: nat)
    requires sessions > 0 && r < sessions && n == q * sessions + r
    ensures n / sessions == q && n % sessions == r
  {
    var d := n / sessions - q;
    assert d * sessions == r - n % sessions;
  }

  lemma NextQuotient(n: nat, sessions: nat)
    requires sessions > 0
    ensures n % sessions + 1 < sessions ==>
      (n + 1) / sessions == n / sessions && (n + 1) % sessions == n % sessions + 1
    ensures n % sessions + 1 == sessions ==> (n + 1) / sessions == n / sessions + 1 && (n + 1) % sessions == 0
  {
    var q, r := n / sessions, n % sessions;
    if r + 1 < sessions {
      QuotientIs(n + 1, sessions, q, r + 1);
    } else {
      assert (q + 1) * sessions == q * sessions + sessions;
      QuotientIs(n + 1, sessions, q + 1, 0);
    }
  }

  lemma {:induction false} PatchesBelow(count: nat, sessions: nat, session: nat)
    requires session < sessions
    ensures PatchesFor(Below(count), sessions, session)
      == count / sessions + (if session < count % sessions then 1 else 0)
  {
    if count == 0 {
      QuotientIs(0, sessions, 0, 0);
    } else {
      PatchesBelow(count - 1, sessions, session);
      assert Below(count)[..count - 1] == Below(count - 1);
      NextQuotient(count - 1, sessions);
    }
  }

  /** The update pool: clients are connected only when there are updates to make, and the
      options ask for at least one, so a fulfilled pool has made every update once. The
      updates are dealt out to the sessions in turn: each gets its share, rounded down, and
      the first ones one more. */
  lemma UpdatePool(updates: nat, clients: nat, sessions: nat, session: nat, trace: seq<Answer>)
    requires clients > 0 && session < sessions
    ensures var s := Run(updates, if updates > 0 then clients else 0, trace);
      && InFlight(s.workers) <= clients
      && (Fulfilled(s) ==>
        && AllServed(s, updates)
        && PatchesFor(s.answered, sessions, session)
           == updates / sessions + (if session < updates % sessions then 1 else 0))
  {
    var workers := if updates > 0 then clients else 0;
    var s := Run(updates, workers, trace);
    hide Run, PatchesFor;
    NeverTwice(updates, workers, trace);
    if Fulfilled(s) {
      FulfilledIff(updates, workers, trace);
      PatchesForgetOrder(s.answered, Below(updates), sessions, session);
      PatchesBelow(updates, sessions, session);
    }
  }

  // Requests still to be made, plus those in flight.
  function Measure(s: State, count: nat): int {
    count - |s.started| + InFlight(s.workers)
  }

  lemma AnswerLowers(s: State, count: nat, a: Answer)
    requires Inv(s, count) && Expected(s, a)
    ensures Measure(Step(s, count, a), count) == Measure(s, count) - 1
  {
    var w, index := a.worker, s.workers[a.worker].index;
    var to := if !a.ok then Thrown(index) else if s.next < count then Waiting(s.next) else Done;
    WorkerChanges(s.workers, w, to);
    assert Step(s, count, a).workers == s.workers[w := to];
  }

  /** Each expected answer lowers the measure by one from `count`, and it never becomes
      negative. Until the pool is fulfilled, an answer is expected or a worker has thrown. */
  lemma PoolDrains(count: nat, workerCount: nat, trace: seq<Answer>, a: Answer)
    ensures var s := Run(count, workerCount, trace);
      && Measure(s, count) >= 0
      && (Expected(s, a) ==> Measure(Step(s, count, a), count) == Measure(s, count) - 1)
    ensures Measure(Run(count, workerCount, []), count) == count
    ensures var s := Run(count, workerCount, trace);
      Fulfilled(s) || (exists w :: 0 <= w < |s.workers| && s.workers[w].Thrown?) || exists b :: Expected(s, b)
  {
    var s := Run(count, workerCount, trace);
    RunKeeps(count, workerCount, trace);
    NeverTwice(count, workerCount, trace);
    NeverTwice(count, workerCount, []);
    StartAnswersNothing(count, workerCount);
    if Expected(s, a) {
      AnswerLowers(s, count, a);
    }
    if !Fulfilled(s) {
      var w :| 0 <= w < |s.workers| && !s.workers[w].Done?;
      if s.workers[w].Waiting? {
        assert Expected(s, Answer(w, true));
      }
    }
  }

  lemma {:induction false} StartAnswersNothing(count: nat, workerCount: nat)
    ensures Started(count, workerCount).answered == []
  {
    if workerCount == 0 {
    } else {
      StartAnswersNothing(count, workerCount - 1);
    }
  }
}
