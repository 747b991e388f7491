/** The probe that waits for a gateway to come back after a restart signal. The loop is
    proved against a reading of the attempt history, whatever the clock, the process and
    the server do. */
module RestartProbe {
  import opened Text

  // ----- attempts

  // A status from the server, or an error of some kind.
  datatype Attempt = Response(code: nat) | Failed(kind: string) {
    function Status(): Option<nat> { if Response? then Some(code) else None }

    function ErrorKind(): Option<string> {
      if Failed? then Some(kind) else if code == 200 then None else Some("http-" + Decimal(code))
    }

    predicate Succeeded() { Status() == Some(200) }

    // An empty kind counts as no kind.
    function ReportedKind(): Option<string> {
      if ErrorKind() == Some("") then None else ErrorKind()
    }
  }

  function StateKey(a: Attempt): string {
    (if a.Status().None? then "none" else Decimal(a.Status().value)) + ":"
    + (if a.ErrorKind().None? then "ok" else a.ErrorKind().value)
  }

  /** Only a success has no error kind; the kind of any other answer names its status. */
  lemma ErrorKindIff(a: Attempt)
    ensures a.ErrorKind().None? <==> a.Succeeded()
    ensures a.Response? && !a.Succeeded() ==>
      var kind := a.ErrorKind().value;
      |kind| > 5 && kind[..5] == "http-" && (forall c :: c in kind[5..] ==> IsDigit(c)) && Number(kind[5..]) == a.code
  {
    if a.Response? && !a.Succeeded() {
      assert a.ErrorKind().value[5..] == Decimal(a.code);
      NumberOfDecimal(a.code);
    }
  }

  // One turn of the loop, as the environment answers it.
  datatype Tick = Tick(top: real, processDone: bool, isDone: bool, attempt: Attempt, after: real)

  datatype Observation = Observation(attempt: Attempt, ms: real)

  datatype Transition = Transition(ms: real, status: Option<nat>, errorKind: Option<string>)

  datatype BenchEvent =
    BenchEvent(iteration: nat, ms: real, status: Option<nat>, kind: string, errorKind: Option<string>)

  datatype ProbeResult = ProbeResult(
    downtimeMs: Option<real>, firstErrorKind: Option<string>, firstRecoveryMs: Option<real>, ms: Option<real>,
    status: Option<nat>, transitions: seq<Transition>, unavailableMs: Option<real>)

  // ----- reading a history of attempts

  function FirstError(h: seq<Observation>): Option<string> {
    if h == [] then None
    else
      var before := FirstError(h[..|h| - 1]);
      if before.None? then h[|h| - 1].attempt.ReportedKind() else before
  }

  // When the first failing attempt was seen.
  function FirstOutage(h: seq<Observation>): Option<real> {
    if h == [] then None
    else
      var before, last := FirstOutage(h[..|h| - 1]), h[|h| - 1];
      if before.None? && !last.attempt.Succeeded() then Some(last.ms) else before
  }

  function LastSuccess(h: seq<Observation>): Option<real> {
    if h == [] then None
    else
      var last := h[|h| - 1];
      if last.attempt.Succeeded() then Some(last.ms) else LastSuccess(h[..|h| - 1])
  }

  function LastStatus(h: seq<Observation>): Option<nat> {
    if h == [] then None else h[|h| - 1].attempt.Status()
  }

  // The history with adjacent repeats removed.
  function Deduped(h: seq<Observation>): seq<Observation> {
    if h == [] then []
    else
      var last := |h| - 1;
      Deduped(h[..last]) + (if last > 0 && h[last - 1].attempt == h[last].attempt then [] else [h[last]])
  }

  function AsTransition(o: Observation): Transition {
    Transition(o.ms, o.attempt.Status(), o.attempt.ReportedKind())
  }

  function Transitions(h: seq<Observation>): seq<Transition> {
    var d := Deduped(h);
    seq(|d|, i requires 0 <= i < |d| => AsTransition(d[i]))
  }

  // ----- which attempts are made

  datatype End = OutOfTime | ProcessDone | DoneEarly | Recovered

  datatype Probe = Probe(history: seq<Observation>, end: End)

  /** The run from turn `i` on. The clock reaches the deadline by the last turn given. */
  function RunProbe(env: seq<Tick>, deadline: real, signalSentAt: real, i: nat, h: seq<Observation>): Probe
    requires i < |env| && env[|env| - 1].top >= deadline
    decreases |env| - i
  {
    var tick := env[i];
    if tick.top >= deadline then Probe(h, OutOfTime)
    else if tick.processDone then Probe(h, ProcessDone)
    else if tick.isDone && FirstOutage(h).None? && LastSuccess(h).Some? then Probe(h, DoneEarly)
    else
      var h' := h + [Observation(tick.attempt, tick.after - signalSentAt)];
      if tick.attempt.Succeeded() && FirstOutage(h).Some? then Probe(h', Recovered)
      else RunProbe(env, deadline, signalSentAt, i + 1, h')
  }

  function Report(p: Probe): ProbeResult {
    var h := p.history;
    var outage, success := FirstOutage(h), LastSuccess(h);
    match p.end
    case DoneEarly => ProbeResult(None, FirstError(h), None, success, Some(200), Transitions(h), None)
    case Recovered =>
      var recovery := if success.Some? then success.value else 0.0;
      var down := if outage.Some? then outage.value else 0.0;
      ProbeResult(Some(recovery - down), FirstError(h), success, success, Some(200), Transitions(h), outage)
    case _ =>
      var kept := if outage.None? then success else None;
      ProbeResult(None, FirstError(h), None, kept, LastStatus(h), Transitions(h), outage)
  }

  function EventOf(o: Observation, iteration: nat, path: string, shift: real): BenchEvent {
    BenchEvent(iteration, o.ms + shift, o.attempt.Status(), path + ":transition", o.attempt.ReportedKind())
  }

  function Events(h: seq<Observation>, iteration: nat, path: string, shift: real): seq<BenchEvent> {
    var d := Deduped(h);
    seq(|d|, i requires 0 <= i < |d| => EventOf(d[i], iteration, path, shift))
  }

  // ----- keys identify attempts

  lemma KeyHead(a: string, x: string)
    requires ':' !in a
    ensures a + ":" + x != "" && (a == "" <==> (a + ":" + x)[0] == ':')
    ensures a == "" ==> (a + ":" + x)[1..] == x
    ensures a != "" ==> (a + ":" + x)[0] == a[0] && (a + ":" + x)[1..] == a[1..] + ":" + x
  {
    if a != "" {
      assert a[0] in a;
    }
  }

  lemma {:induction false} ColonSplits(a: string, x: string, b: string, y: string)
    requires ':' !in a && ':' !in b && a + ":" + x == b + ":" + y
    ensures a == b && x == y
    decreases |a|
  {
    KeyHead(a, x);
    KeyHead(b, y);
    if a == "" {
    } else {
      ColonSplits(a[1..], x, b[1..], y);
      assert a == [a[0]] + a[1..] && b == [b[0]] + b[1..];
    }
  }

  lemma DecimalHasNoColon(n: nat)
    ensures ':' !in Decimal(n) && Decimal(n) != "none"
  {
    assert !IsDigit(':') && !IsDigit('n');
    assert Decimal(n)[0] in Decimal(n);
  }

  /** The loop compares state keys; equal keys mean equal attempts. */
  lemma KeyIdentifies(a: Attempt, b: Attempt)
    ensures StateKey(a) == StateKey(b) <==> a == b
  {
    if StateKey(a) == StateKey(b) {
      if a.Response? { DecimalHasNoColon(a.code); NumberOfDecimal(a.code); }
      if b.Response? { DecimalHasNoColon(b.code); NumberOfDecimal(b.code); }
      ColonSplits(
        if a.Status().None? then "none" else Decimal(a.Status().value),
        if a.ErrorKind().None? then "ok" else a.ErrorKind().value,
        if b.Status().None? then "none" else Decimal(b.Status().value),
        if b.ErrorKind().None? then "ok" else b.ErrorKind().value);
    }
  }

  // ----- the loop

  lemma HistoryStep(h: seq<Observation>, o: Observation)
    ensures var h' := h + [o];
      && FirstError(h') == (if FirstError(h).None? then o.attempt.ReportedKind() else FirstError(h))
      && FirstOutage(h') == (if FirstOutage(h).None? && !o.attempt.Succeeded() then Some(o.ms) else FirstOutage(h))
      && LastSuccess(h') == (if o.attempt.Succeeded() then Some(o.ms) else LastSuccess(h))
      && LastStatus(h') == o.attempt.Status()
  {
    assert (h + [o])[..|h|] == h;
  }

  lemma TransitionsStep(h: seq<Observation>, o: Observation, iteration: nat, path: string, shift: real)
    ensures var h' := h + [o];
      if h != [] && h[|h| - 1].attempt == o.attempt
      then Transitions(h') == Transitions(h) && Events(h', iteration, path, shift) == Events(h, iteration, path, shift)
      else && Transitions(h') == Transitions(h) + [AsTransition(o)]
           && Events(h', iteration, path, shift)
              == Events(h, iteration, path, shift) + [EventOf(o, iteration, path, shift)]
  {
  }

  lemma HistoryStart(iteration: nat, path: string, shift: real)
    ensures FirstError([]) == None && FirstOutage([]) == None && LastSuccess([]) == None && LastStatus([]) == None
    ensures Transitions([]) == [] && Events([], iteration, path, shift) == []
  {
  }

  method WaitForRestartProbe(env: seq<Tick>, deadline: real, signalSentAt: real, sampleStartAt: real,
    iteration: nat, path: string, events: seq<BenchEvent>)
    returns (r: ProbeResult, pushed: seq<BenchEvent>)
    requires env != [] && env[|env| - 1].top >= deadline
    ensures r == Report(RunProbe(env, deadline, signalSentAt, 0, []))
    ensures pushed == events + Events(RunProbe(env, deadline, signalSentAt, 0, []).history, iteration, path,
                                      signalSentAt - sampleStartAt)
  {
    hide FirstError, FirstOutage, LastSuccess, LastStatus, Deduped, Transitions, Events, StateKey;
    HistoryStart(iteration, path, signalSentAt - sampleStartAt);
    pushed := events;
    var firstErrorKind: Option<string>, firstRecoveryMs: Option<real> := None, None;
    var lastStatus: Option<nat>, lastStateKey: Option<string> := None, None;
    var lastSuccessMs: Option<real>, unavailableMs: Option<real> := None, None;
    var transitions: seq<Transition> := [];
    ghost var h: seq<Observation> := [];
    ghost var shift := signalSentAt - sampleStartAt;
    ghost var probe := RunProbe(env, deadline, signalSentAt, 0, []);
    var turn := 0;
    while env[turn].top < deadline
      invariant 0 <= turn < |env|
      invariant probe == RunProbe(env, deadline, signalSentAt, turn, h)
      invariant firstErrorKind == FirstError(h) && lastStatus == LastStatus(h)
      invariant lastSuccessMs == LastSuccess(h) && unavailableMs == FirstOutage(h)
      invariant lastStateKey == (if h == [] then None else Some(StateKey(h[|h| - 1].attempt)))
      invariant transitions == Transitions(h) && firstRecoveryMs == None
      invariant pushed == events + Events(h, iteration, path, shift)
      decreases |env| - turn
    {
      if env[turn].processDone {
        break;
      }
      if env[turn].isDone && unavailableMs.None? && lastSuccessMs.Some? {
        return ProbeResult(None, firstErrorKind, firstRecoveryMs, lastSuccessMs, Some(200), transitions, None), pushed;
      }
      var attempt := env[turn].attempt;
      var now := env[turn].after;
      var elapsedMs := now - signalSentAt;
      ghost var o := Observation(attempt, elapsedMs);
      HistoryStep(h, o);
      TransitionsStep(h, o, iteration, path, shift);
      if h != [] {
        KeyIdentifies(h[|h| - 1].attempt, attempt);
      }
      lastStatus := attempt.Status();
      var stateKey := StateKey(attempt);
      if lastStateKey != Some(stateKey) {
        transitions := transitions + [Transition(elapsedMs, attempt.Status(), attempt.ReportedKind())];
        var kind := path + ":transition";
        pushed := pushed + [BenchEvent(iteration, now - sampleStartAt, attempt.Status(), kind, attempt.ReportedKind())];
        lastStateKey := Some(stateKey);
      }
      if attempt.ReportedKind().Some? && firstErrorKind.None? {
        firstErrorKind := attempt.ErrorKind();
      }
      if attempt.Status() != Some(200) && unavailableMs.None? {
        unavailableMs := Some(elapsedMs);
      }
      if attempt.Status() == Some(200) {
        lastSuccessMs := Some(elapsedMs);
      }
      h := h + [o];
      if attempt.Status() == Some(200) && unavailableMs.Some? {
        firstRecoveryMs := Some(elapsedMs);
        return ProbeResult(Some(elapsedMs - unavailableMs.value), firstErrorKind, firstRecoveryMs, Some(elapsedMs),
                           attempt.Status(), transitions, unavailableMs), pushed;
      }
      turn := turn + 1;
    }
    r := ProbeResult(None, firstErrorKind, firstRecoveryMs, if unavailableMs.None? then lastSuccessMs else None,
                     lastStatus, transitions, unavailableMs);
  }

  // ----- what a run's history looks like

  // Failing attempts before `j` and a success at `j`.
  ghost predicate RecoversAt(h: seq<Observation>, i: nat, j: nat) {
    i < j < |h| && !h[i].attempt.Succeeded() && h[j].attempt.Succeeded()
  }

  // The first failing attempt.
  ghost predicate FailsFirstAt(h: seq<Observation>, i: nat) {
    i < |h| && !h[i].attempt.Succeeded() && forall k :: 0 <= k < i ==> h[k].attempt.Succeeded()
  }

  lemma {:induction false} OutageIff(h: seq<Observation>)
    ensures FirstOutage(h).Some? <==> exists i: nat :: i < |h| && !h[i].attempt.Succeeded()
    ensures FirstOutage(h).Some? ==> exists i: nat :: FailsFirstAt(h, i) && FirstOutage(h) == Some(h[i].ms)
    decreases |h|
  {
    if h == [] {
    } else {
      var front, last := h[..|h| - 1], |h| - 1;
      OutageIff(front);
      if FirstOutage(front).Some? {
        var i: nat :| FailsFirstAt(front, i) && FirstOutage(front) == Some(front[i].ms);
        assert h[i] == front[i] && FailsFirstAt(h, i);
      } else {
        forall k | 0 <= k < last ensures h[k].attempt.Succeeded() {
          assert front[k] == h[k];
        }
        assert FirstOutage(h).Some? ==> FailsFirstAt(h, last);
      }
    }
  }

  // No success follows a failure, except as the very last attempt of a recovery.
  ghost predicate Shaped(p: Probe) {
    var h := p.history;
    && (forall i: nat, j: nat :: RecoversAt(h, i, j) ==> p.end == Recovered && j == |h| - 1)
    && (p.end == Recovered ==> h != [] && h[|h| - 1].attempt.Succeeded() && FirstOutage(h[..|h| - 1]).Some?)
    && (p.end == DoneEarly ==> FirstOutage(h).None? && LastSuccess(h).Some?)
  }

  ghost predicate NeverRecovered(h: seq<Observation>) {
    forall i: nat, j: nat :: !RecoversAt(h, i, j)
  }

  lemma {:induction false} RunIsShaped(env: seq<Tick>, deadline: real, signalSentAt: real, i: nat, h: seq<Observation>)
    requires i < |env| && env[|env| - 1].top >= deadline && NeverRecovered(h)
    ensures Shaped(RunProbe(env, deadline, signalSentAt, i, h))
    decreases |env| - i
  {
    var tick := env[i];
    if tick.top >= deadline || tick.processDone || (tick.isDone && FirstOutage(h).None? && LastSuccess(h).Some?) {
    } else {
      var h' := h + [Observation(tick.attempt, tick.after - signalSentAt)];
      assert h'[..|h|] == h;
      forall a: nat, b: nat | RecoversAt(h', a, b) ensures b == |h| && FirstOutage(h).Some? {
        assert !RecoversAt(h, a, b);
        OutageIff(h);
        assert !h[a].attempt.Succeeded();
      }
      if !(tick.attempt.Succeeded() && FirstOutage(h).Some?) {
        RunIsShaped(env, deadline, signalSentAt, i + 1, h');
      }
    }
  }

  // ----- the main results, on every run

  ghost predicate IsRun(p: Probe, env: seq<Tick>, deadline: real, signalSentAt: real) {
    env != [] && env[|env| - 1].top >= deadline && p == RunProbe(env, deadline, signalSentAt, 0, [])
  }

  /** The reported time is present exactly when the reported status is 200. */
  lemma MsIffSuccess(env: seq<Tick>, deadline: real, signalSentAt: real, p: Probe)
    requires IsRun(p, env, deadline, signalSentAt)
    ensures Report(p).ms.Some? <==> Report(p).status == Some(200)
  {
    RunIsShaped(env, deadline, signalSentAt, 0, []);
    var h := p.history;
    if h != [] {
      var last := |h| - 1;
      OutageIff(h);
      if p.end != Recovered && h[last].attempt.Succeeded() {
        assert LastSuccess(h).Some?;
        if FirstOutage(h).Some? {
          var i: nat :| i < |h| && !h[i].attempt.Succeeded();
          assert RecoversAt(h, i, last);
        }
      }
    }
  }

  // The first failure is at `i`, and the first success after it at `j`.
  ghost predicate FirstRecovery(h: seq<Observation>, i: nat, j: nat) {
    FailsFirstAt(h, i) && RecoversAt(h, i, j) && forall k :: i < k < j ==> !h[k].attempt.Succeeded()
  }

  lemma RecoveryOf(p: Probe) returns (i: nat, j: nat)
    requires Shaped(p) && p.end == Recovered
    ensures FirstRecovery(p.history, i, j) && j == |p.history| - 1
    ensures FirstOutage(p.history) == Some(p.history[i].ms) && LastSuccess(p.history) == Some(p.history[j].ms)
  {
    var h := p.history;
    var front := h[..|h| - 1];
    j := |h| - 1;
    OutageIff(front);
    i :| FailsFirstAt(front, i) && FirstOutage(front) == Some(front[i].ms);
    assert h[i] == front[i] && FailsFirstAt(h, i) && RecoversAt(h, i, j);
    forall k | i < k < j ensures !h[k].attempt.Succeeded() {
      assert !RecoversAt(h, i, k);
    }
  }

  // What the report says of a recovery from `i` to `j`.
  ghost predicate ReportsRecovery(p: Probe, i: nat, j: nat) {
    && FirstRecovery(p.history, i, j) && j == |p.history| - 1
    && Report(p).downtimeMs == Some(p.history[j].ms - p.history[i].ms)
    && Report(p).unavailableMs == Some(p.history[i].ms) && Report(p).firstRecoveryMs == Some(p.history[j].ms)
  }

  /** Downtime is reported exactly when a failing attempt is followed by a success. It is
      then the first such success minus the first failure, and the run ends there. */
  lemma DowntimeIffRecovery(env: seq<Tick>, deadline: real, signalSentAt: real, p: Probe)
    requires IsRun(p, env, deadline, signalSentAt)
    ensures Report(p).downtimeMs.Some? <==> exists i: nat, j: nat :: RecoversAt(p.history, i, j)
    ensures Report(p).downtimeMs.Some? ==> exists i: nat, j: nat :: ReportsRecovery(p, i, j)
  {
    RunIsShaped(env, deadline, signalSentAt, 0, []);
    if p.end == Recovered {
      var i, j := RecoveryOf(p);
      assert ReportsRecovery(p, i, j);
    }
  }

  // The clock never runs backwards.
  ghost predicate ClockAdvances(env: seq<Tick>) {
    forall i, j :: 0 <= i < j < |env| ==> env[i].after <= env[j].after
  }

  ghost predicate TimesUp(h: seq<Observation>) {
    forall a, b :: 0 <= a < b < |h| ==> h[a].ms <= h[b].ms
  }

  lemma {:induction false} TimesIncrease(env: seq<Tick>, deadline: real, signalSentAt: real, i: nat,
      h: seq<Observation>)
    requires i < |env| && env[|env| - 1].top >= deadline && ClockAdvances(env)
    requires |h| == i && forall k :: 0 <= k < i ==> h[k].ms == env[k].after - signalSentAt
    ensures var h' := RunProbe(env, deadline, signalSentAt, i, h).history;
      TimesUp(h')
    decreases |env| - i
  {
    var tick := env[i];
    if tick.top >= deadline || tick.processDone || (tick.isDone && FirstOutage(h).None? && LastSuccess(h).Some?) {
      forall a, b | 0 <= a < b < |h| ensures h[a].ms <= h[b].ms {
        assert env[a].after <= env[b].after;
      }
    } else {
      var h' := h + [Observation(tick.attempt, tick.after - signalSentAt)];
      assert forall k :: 0 <= k <= i ==> h'[k].ms == env[k].after - signalSentAt;
      forall a, b | 0 <= a < b < |h'| ensures h'[a].ms <= h'[b].ms {
        assert env[a].after <= env[b].after;
      }
      if !(tick.attempt.Succeeded() && FirstOutage(h).Some?) {
        TimesIncrease(env, deadline, signalSentAt, i + 1, h');
      }
    }
  }

  /** With a clock that never runs backwards, downtime is never negative. */
  lemma DowntimeNonNegative(env: seq<Tick>, deadline: real, signalSentAt: real, p: Probe)
    requires IsRun(p, env, deadline, signalSentAt) && ClockAdvances(env)
    ensures Report(p).downtimeMs.Some? ==> Report(p).downtimeMs.value >= 0.0
  {
    DowntimeIffRecovery(env, deadline, signalSentAt, p);
    TimesIncrease(env, deadline, signalSentAt, 0, []);
    if Report(p).downtimeMs.Some? {
      var i: nat, j: nat :| ReportsRecovery(p, i, j);
      assert p.history[i].ms <= p.history[j].ms;
    }
  }

  // The attempt at `k` is the first, or differs from the one before it.
  predicate ChangesAt(h: seq<Observation>, k: nat) {
    k < |h| && (k == 0 || h[k - 1].attempt != h[k].attempt)
  }

  // Exactly the change points, in order.
  ghost predicate AreChangePoints(h: seq<Observation>, points: seq<nat>) {
    && (forall k: nat :: k in points <==> ChangesAt(h, k))
    && (forall a, b :: 0 <= a < b < |points| ==> points[a] < points[b])
  }

  lemma PointsStep(h: seq<Observation>, o: Observation, points: seq<nat>)
    requires AreChangePoints(h, points)
    ensures ChangesAt(h + [o], |h|) ==> AreChangePoints(h + [o], points + [|h|])
    ensures !ChangesAt(h + [o], |h|) ==> AreChangePoints(h + [o], points)
  {
    var h' := h + [o];
    forall k: nat ensures ChangesAt(h', k) <==> k in points || (k == |h| && ChangesAt(h', k)) {
      assert ChangesAt(h, k) <==> k in points;
    }
    forall a | 0 <= a < |points| ensures points[a] < |h| {
      assert points[a] in points;
      assert ChangesAt(h, points[a]);
    }
  }

  lemma {:induction false} DedupedAre(h: seq<Observation>) returns (points: seq<nat>)
    ensures AreChangePoints(h, points) && |Deduped(h)| == |points|
    ensures forall i :: 0 <= i < |points| ==> points[i] < |h| && Deduped(h)[i] == h[points[i]]
    decreases |h|
  {
    points := [];
    if h == [] {
    } else {
      var front, last := h[..|h| - 1], |h| - 1;
      var before := DedupedAre(front);
      assert h == front + [h[last]];
      PointsStep(front, h[last], before);
      points := if ChangesAt(h, last) then before + [last] else before;
    }
  }

  /** The transitions are the attempt history with adjacent repeats removed: the attempts
      at the change points, in order, and nothing else. */
  lemma TransitionsAreChanges(h: seq<Observation>) returns (points: seq<nat>)
    ensures AreChangePoints(h, points)
    ensures |Transitions(h)| == |points|
    ensures forall i :: 0 <= i < |points| ==> points[i] < |h| && Transitions(h)[i] == AsTransition(h[points[i]])
  {
    hide Deduped, AreChangePoints;
    points := DedupedAre(h);
  }

  // ----- the same, on the turns themselves

  // The attempts of the first `n` turns, timed from the signal.
  function Attempts(env: seq<Tick>, n: nat, signalSentAt: real): seq<Observation>
    requires n <= |env|
  {
    seq(n, k requires 0 <= k < n => Observation(env[k].attempt, env[k].after - signalSentAt))
  }

  ghost predicate AllSucceed(env: seq<Tick>, n: nat)
    requires n <= |env|
  {
    forall k :: 0 <= k < n ==> env[k].attempt.Succeeded()
  }

  // The attempt of turn `n - 1` succeeds after one that failed.
  ghost predicate RecoversBefore(env: seq<Tick>, n: nat)
    requires n <= |env|
  {
    n > 0 && env[n - 1].attempt.Succeeded() && !AllSucceed(env, n - 1)
  }

  // The caller is done, and every attempt so far, of which there is one, has succeeded.
  ghost predicate DoneBefore(env: seq<Tick>, n: nat)
    requires n < |env|
  {
    env[n].isDone && n > 0 && AllSucceed(env, n)
  }

  ghost predicate EndsBefore(env: seq<Tick>, deadline: real, n: nat)
    requires n < |env|
  {
    RecoversBefore(env, n) || env[n].top >= deadline || env[n].processDone || DoneBefore(env, n)
  }

  // The run makes `n` attempts: nothing ends it earlier.
  ghost predicate MakesAttempts(env: seq<Tick>, deadline: real, n: nat) {
    && n < |env| && EndsBefore(env, deadline, n) && forall m: nat :: m < n ==> !EndsBefore(env, deadline, m)
  }

  ghost predicate EndsAs(p: Probe, env: seq<Tick>, deadline: real, n: nat)
    requires n < |env|
  {
    && (p.end == Recovered <==> RecoversBefore(env, n))
    && (p.end == OutOfTime <==> !RecoversBefore(env, n) && env[n].top >= deadline)
    && (p.end == ProcessDone <==> !RecoversBefore(env, n) && env[n].top < deadline && env[n].processDone)
  }

  lemma AttemptsStep(env: seq<Tick>, n: nat, signalSentAt: real)
    requires n < |env|
    ensures Attempts(env, n + 1, signalSentAt)
      == Attempts(env, n, signalSentAt) + [Observation(env[n].attempt, env[n].after - signalSentAt)]
  {
  }

  // The first turn whose attempt fails.
  ghost predicate FailsFirst(env: seq<Tick>, n: nat, i: nat)
    requires n <= |env|
  {
    i < n && !env[i].attempt.Succeeded() && AllSucceed(env, i)
  }

  // The first turn whose attempt has an error to report.
  ghost predicate ErrsFirst(env: seq<Tick>, n: nat, i: nat)
    requires n <= |env|
  {
    i < n && env[i].attempt.ReportedKind().Some? && forall k :: 0 <= k < i ==> env[k].attempt.ReportedKind().None?
  }

  lemma NothingAttempted(env: seq<Tick>, signalSentAt: real)
    ensures var h := Attempts(env, 0, signalSentAt);
      LastStatus(h).None? && LastSuccess(h).None? && FirstOutage(h).None? && FirstError(h).None?
  {
  }

  // One turn more.
  lemma TurnStep(env: seq<Tick>, n: nat, signalSentAt: real)
    requires n < |env|
    ensures var h, h' := Attempts(env, n, signalSentAt), Attempts(env, n + 1, signalSentAt);
      var attempt, ms := env[n].attempt, env[n].after - signalSentAt;
      && FirstError(h') == (if FirstError(h).None? then attempt.ReportedKind() else FirstError(h))
      && FirstOutage(h') == (if FirstOutage(h).None? && !attempt.Succeeded() then Some(ms) else FirstOutage(h))
      && LastSuccess(h') == (if attempt.Succeeded() then Some(ms) else LastSuccess(h))
  {
    AttemptsStep(env, n, signalSentAt);
    HistoryStep(Attempts(env, n, signalSentAt), Observation(env[n].attempt, env[n].after - signalSentAt));
  }

  lemma {:induction false} ErrorOnTicks(env: seq<Tick>, n: nat, signalSentAt: real, i: nat)
    requires n <= |env|
    ensures var h := Attempts(env, n, signalSentAt);
      && (FirstError(h).None? <==> forall k :: 0 <= k < n ==> env[k].attempt.ReportedKind().None?)
      && (ErrsFirst(env, n, i) ==> FirstError(h) == env[i].attempt.ReportedKind())
  {
    hide FirstError, FirstOutage, LastSuccess, Attempts;
    if n == 0 {
      NothingAttempted(env, signalSentAt);
    } else {
      ErrorOnTicks(env, n - 1, signalSentAt, i);
      TurnStep(env, n - 1, signalSentAt);
    }
  }

  lemma {:induction false} FailureOnTicks(env: seq<Tick>, n: nat, signalSentAt: real, i: nat)
    requires n <= |env|
    ensures var h := Attempts(env, n, signalSentAt);
      && (FirstOutage(h).None? <==> AllSucceed(env, n))
      && (FailsFirst(env, n, i) ==> FirstOutage(h) == Some(env[i].after - signalSentAt))
  {
    hide FirstError, FirstOutage, LastSuccess, Attempts;
    if n == 0 {
      NothingAttempted(env, signalSentAt);
    } else {
      FailureOnTicks(env, n - 1, signalSentAt, i);
      TurnStep(env, n - 1, signalSentAt);
    }
  }

  lemma {:induction false} SuccessOnTicks(env: seq<Tick>, n: nat, signalSentAt: real)
    requires n <= |env|
    ensures LastSuccess(Attempts(env, n, signalSentAt)).Some? <==> exists k :: 0 <= k < n && env[k].attempt.Succeeded()
  {
    hide FirstError, FirstOutage, LastSuccess, Attempts;
    if n == 0 {
      NothingAttempted(env, signalSentAt);
    } else {
      SuccessOnTicks(env, n - 1, signalSentAt);
      TurnStep(env, n - 1, signalSentAt);
    }
  }

  lemma OutageOnTicks(env: seq<Tick>, n: nat, signalSentAt: real)
    requires n <= |env|
    ensures FirstOutage(Attempts(env, n, signalSentAt)).None? <==> AllSucceed(env, n)
    ensures LastSuccess(Attempts(env, n, signalSentAt)).Some? <==> exists k :: 0 <= k < n && env[k].attempt.Succeeded()
  {
    hide FirstOutage, LastSuccess, Attempts;
    FailureOnTicks(env, n, signalSentAt, 0);
    SuccessOnTicks(env, n, signalSentAt);
  }

  // From turn `i` on, if nothing has ended the run before.
  lemma {:induction false} RunFrom(env: seq<Tick>, deadline: real, signalSentAt: real, i: nat) returns (n: nat)
    requires i < |env| && env[|env| - 1].top >= deadline && !RecoversBefore(env, i)
    requires forall m: nat :: m < i ==> !EndsBefore(env, deadline, m)
    ensures MakesAttempts(env, deadline, n)
    ensures var p := RunProbe(env, deadline, signalSentAt, i, Attempts(env, i, signalSentAt));
      p.history == Attempts(env, n, signalSentAt) && EndsAs(p, env, deadline, n)
    decreases |env| - i
  {
    hide FirstOutage, LastSuccess, Attempts;
    OutageOnTicks(env, i, signalSentAt);
    AttemptsStep(env, i, signalSentAt);
    if env[i].top >= deadline || env[i].processDone {
      n := i;
    } else if DoneBefore(env, i) {
      assert env[0].attempt.Succeeded();
      n := i;
    } else {
      DoneIff(env, i, signalSentAt);
      if RecoversBefore(env, i + 1) {
        n := i + 1;
      } else {
        n := RunFrom(env, deadline, signalSentAt, i + 1);
      }
    }
  }

  // How the loop tests for an early end.
  lemma DoneIff(env: seq<Tick>, i: nat, signalSentAt: real)
    requires i < |env|
    ensures var h := Attempts(env, i, signalSentAt);
      DoneBefore(env, i) <==> env[i].isDone && FirstOutage(h).None? && LastSuccess(h).Some?
  {
    hide FirstOutage, LastSuccess, Attempts;
    OutageOnTicks(env, i, signalSentAt);
    if i > 0 && AllSucceed(env, i) {
      assert env[0].attempt.Succeeded();
    }
  }

  /** Which attempts a run makes: one per turn, up to the first turn before which an attempt
      has recovered, or at which the deadline has passed, the process is done, or the caller
      is done after nothing but successes. */
  lemma RunMakes(env: seq<Tick>, deadline: real, signalSentAt: real, p: Probe) returns (n: nat)
    requires IsRun(p, env, deadline, signalSentAt)
    ensures MakesAttempts(env, deadline, n)
    ensures p.history == Attempts(env, n, signalSentAt) && EndsAs(p, env, deadline, n)
  {
    assert Attempts(env, 0, signalSentAt) == [];
    n := RunFrom(env, deadline, signalSentAt, 0);
  }

  lemma AttemptsUnique(env: seq<Tick>, deadline: real, m: nat, n: nat)
    requires MakesAttempts(env, deadline, m) && MakesAttempts(env, deadline, n)
    ensures m == n
  {
  }

  lemma FirstsOnTicks(env: seq<Tick>, n: nat, signalSentAt: real)
    requires n <= |env|
    ensures var h := Attempts(env, n, signalSentAt);
      && (FirstError(h).None? <==> forall k :: 0 <= k < n ==> env[k].attempt.ReportedKind().None?)
      && (forall i: nat :: ErrsFirst(env, n, i) ==> FirstError(h) == env[i].attempt.ReportedKind())
      && (FirstOutage(h).None? <==> AllSucceed(env, n))
      && (forall i: nat :: FailsFirst(env, n, i) ==> FirstOutage(h) == Some(env[i].after - signalSentAt))
  {
    hide FirstError, FirstOutage, Attempts, AllSucceed;
    ErrorOnTicks(env, n, signalSentAt, 0);
    FailureOnTicks(env, n, signalSentAt, 0);
    forall i: nat | ErrsFirst(env, n, i)
      ensures FirstError(Attempts(env, n, signalSentAt)) == env[i].attempt.ReportedKind()
    {
      ErrorOnTicks(env, n, signalSentAt, i);
    }
    forall i: nat | FailsFirst(env, n, i)
      ensures FirstOutage(Attempts(env, n, signalSentAt)) == Some(env[i].after - signalSentAt)
    {
      FailureOnTicks(env, n, signalSentAt, i);
    }
  }

  lemma LastsOnTicks(env: seq<Tick>, n: nat, signalSentAt: real)
    requires 0 < n <= |env|
    ensures var h := Attempts(env, n, signalSentAt);
      && LastStatus(h) == env[n - 1].attempt.Status()
      && (env[n - 1].attempt.Succeeded() ==> LastSuccess(h) == Some(env[n - 1].after - signalSentAt))
  {
  }

  /** What a run of `n` attempts reports, on the turns. The status, and the time of a
      success, are those of the last attempt. Outages and errors are the first ones. Downtime
      is the time from the first failing attempt to the last one, present exactly when the
      run recovers. */
  lemma ReportOnTicks(env: seq<Tick>, deadline: real, signalSentAt: real, p: Probe, n: nat)
    requires IsRun(p, env, deadline, signalSentAt) && MakesAttempts(env, deadline, n)
    ensures Report(p).status == if n == 0 then None else env[n - 1].attempt.Status()
    ensures Report(p).ms
      == if n > 0 && env[n - 1].attempt.Succeeded() then Some(env[n - 1].after - signalSentAt) else None
    ensures Report(p).firstRecoveryMs == if RecoversBefore(env, n) then Some(env[n - 1].after - signalSentAt) else None
    ensures Report(p).unavailableMs.None? <==> AllSucceed(env, n)
    ensures forall i: nat :: FailsFirst(env, n, i) ==> Report(p).unavailableMs == Some(env[i].after - signalSentAt)
    ensures Report(p).firstErrorKind.None? <==> forall k :: 0 <= k < n ==> env[k].attempt.ReportedKind().None?
    ensures forall i: nat :: ErrsFirst(env, n, i) ==> Report(p).firstErrorKind == env[i].attempt.ReportedKind()
    ensures Report(p).downtimeMs.Some? <==> RecoversBefore(env, n)
    ensures forall i: nat :: RecoversBefore(env, n) && FailsFirst(env, n, i) ==>
      Report(p).downtimeMs == Some(env[n - 1].after - env[i].after)
    ensures Report(p).transitions == Transitions(Attempts(env, n, signalSentAt))
  {
    var m := RunMakes(env, deadline, signalSentAt, p);
    AttemptsUnique(env, deadline, m, n);
    hide RunProbe, FirstError, FirstOutage, LastSuccess, LastStatus, Transitions, Attempts, IsRun, MakesAttempts;
    FirstsOnTicks(env, n, signalSentAt);
    OutageOnTicks(env, n, signalSentAt);
    DoneEarlyMeans(env, deadline, signalSentAt, p, n);
    NothingAttempted(env, signalSentAt);
    if n > 0 {
      LastsOnTicks(env, n, signalSentAt);
    }
    if RecoversBefore(env, n) {
      var i := FirstFailure(env, n - 1);
      assert FailsFirst(env, n, i);
    }
  }

  lemma DoneEarlyMeans(env: seq<Tick>, deadline: real, signalSentAt: real, p: Probe, n: nat)
    requires n < |env| && EndsBefore(env, deadline, n) && EndsAs(p, env, deadline, n)
    ensures p.end == DoneEarly ==> n > 0 && AllSucceed(env, n) && env[n - 1].attempt.Status() == Some(200)
  {
    if p.end == DoneEarly {
      assert DoneBefore(env, n);
      assert env[n - 1].attempt.Succeeded();
    }
  }

  lemma {:induction false} FirstFailure(env: seq<Tick>, n: nat) returns (i: nat)
    requires n <= |env| && !AllSucceed(env, n)
    ensures FailsFirst(env, n, i)
    decreases n
  {
    if AllSucceed(env, n - 1) {
      i := n - 1;
    } else {
      i := FirstFailure(env, n - 1);
    }
  }

  ghost predicate Recorded(t: Transition, e: BenchEvent, turn: Tick, signalSentAt: real, sampleStartAt: real,
      iteration: nat, path: string)
  {
    && t == Transition(turn.after - signalSentAt, turn.attempt.Status(), turn.attempt.ReportedKind())
    && e == BenchEvent(iteration, turn.after - sampleStartAt, turn.attempt.Status(), path + ":transition",
                       turn.attempt.ReportedKind())
  }

  /** Each change of the attempts gives one transition, timed from the signal, and one event,
      timed from the start of the sample, in order. */
  lemma EventsOnTicks(env: seq<Tick>, n: nat, signalSentAt: real, sampleStartAt: real, iteration: nat, path: string)
      returns (points: seq<nat>)
    requires n <= |env|
    ensures var h := Attempts(env, n, signalSentAt);
      var events := Events(h, iteration, path, signalSentAt - sampleStartAt);
      && AreChangePoints(h, points) && |Transitions(h)| == |events| == |points|
      && forall i :: 0 <= i < |points| ==>
           points[i] < n
           && Recorded(Transitions(h)[i], events[i], env[points[i]], signalSentAt, sampleStartAt, iteration, path)
  {
    hide Deduped, AreChangePoints;
    points := DedupedAre(Attempts(env, n, signalSentAt));
  }
}
