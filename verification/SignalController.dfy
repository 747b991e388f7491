/** The parent-signal controller of the prompt probe: it is armed before the child is
    spawned, keeps the first signal for the exit code, and lets later signals escalate. */
module SignalController {
  import opened Text

  datatype Signal = SIGHUP | SIGINT | SIGTERM

  const ALL_SIGNALS: set<Signal> := {SIGHUP, SIGINT, SIGTERM}

  // The promise chain: `stop` runs in a later microtask, and the exit follows whether
  // `stop` is fulfilled or rejected.
  datatype Shutdown =
    | NotStarted
    | Scheduled(attached: nat, code: int)
    | Stopping(attached: nat, code: int)
    | Finished

  // What the controller remembers, and the calls it has made so far.
  datatype State = State(
    attachment: Option<nat>, forceKillPending: bool, receivedSignal: Option<Signal>,
    shutdown: Shutdown, handlers: set<Signal>,
    stops: seq<nat>, kills: seq<nat>, exits: seq<int>)

  // `Settle` is the moment the chain's last callback runs; a signal that arrives while
  // the promise is still being unwound comes before it in the trace.
  datatype Event =
    | Deliver(signal: Signal)
    | Attach(id: nat)
    | Dispose
    | RunStop
    | Settle(fulfilled: bool)

  // ----- one event

  function StartShutdown(s: State, exitCode: Signal -> int): State {
    if s.attachment.None? || s.receivedSignal.None? || s.shutdown != NotStarted then s
    else
      var killed := if s.forceKillPending then s.kills + [s.attachment.value] else s.kills;
      s.(forceKillPending := false, kills := killed,
         shutdown := Scheduled(s.attachment.value, exitCode(s.receivedSignal.value)))
  }

  function Step(s: State, e: Event, exitCode: Signal -> int): State {
    match e
    case Deliver(signal) =>
      if signal !in s.handlers then s
      else if s.receivedSignal.None? then StartShutdown(s.(receivedSignal := Some(signal)), exitCode)
      else if s.attachment.Some? then s.(kills := s.kills + [s.attachment.value])
      else s.(forceKillPending := true)
    case Attach(id) =>
      StartShutdown(if s.attachment.None? then s.(attachment := Some(id)) else s, exitCode)
    case Dispose => s.(handlers := {})
    case RunStop =>
      if s.shutdown.Scheduled? then
        s.(shutdown := Stopping(s.shutdown.attached, s.shutdown.code), stops := s.stops + [s.shutdown.attached])
      else s
    case Settle(_) =>
      if s.shutdown.Stopping? then
        s.(shutdown := Finished, handlers := {}, exits := s.exits + [s.shutdown.code])
      else s
  }

  const ARMED := State(None, false, None, NotStarted, ALL_SIGNALS, [], [], [])

  function Run(trace: seq<Event>, exitCode: Signal -> int): State {
    if trace == [] then ARMED
    else Step(Run(trace[..|trace| - 1], exitCode), trace[|trace| - 1], exitCode)
  }

  // ----- the controller

  class Controller {
    var attachment: Option<nat>
    var forceKillPending: bool
    var receivedSignal: Option<Signal>
    var shutdown: Shutdown
    var handlers: set<Signal>
    var stops: seq<nat>
    var kills: seq<nat>
    var exits: seq<int>
    const exitCode: Signal -> int

    function Abs(): State
      reads this
    {
      State(attachment, forceKillPending, receivedSignal, shutdown, handlers, stops, kills, exits)
    }

    constructor (exitCode: Signal -> int)
      ensures Abs() == ARMED && this.exitCode == exitCode
    {
      attachment, forceKillPending, receivedSignal, shutdown := None, false, None, NotStarted;
      handlers := ALL_SIGNALS;
      stops, kills, exits := [], [], [];
      this.exitCode := exitCode;
    }

    // A throwing `forceKill` of the attachment is swallowed.
    method ForceKill()
      modifies this`kills
      ensures kills == old(kills) + (if attachment.Some? then [attachment.value] else [])
    {
      if attachment.Some? {
        kills := kills + [attachment.value];
      }
    }

    method BeginShutdown()
      modifies this
      ensures Abs() == StartShutdown(old(Abs()), exitCode)
    {
      if attachment.None? || receivedSignal.None? || shutdown != NotStarted {
        return;
      }
      var attached, code := attachment.value, exitCode(receivedSignal.value);
      if forceKillPending {
        forceKillPending := false;
        ForceKill();
      }
      shutdown := Scheduled(attached, code);
    }

    /** A signal arrives; it reaches the controller while its handler is registered. */
    method OnSignal(signal: Signal)
      modifies this
      ensures Abs() == Step(old(Abs()), Deliver(signal), exitCode)
    {
      if signal !in handlers {
        return;
      }
      if receivedSignal.Some? {
        if attachment.Some? {
          ForceKill();
        } else {
          forceKillPending := true;
        }
        return;
      }
      receivedSignal := Some(signal);
      BeginShutdown();
    }

    method AttachChild(next: nat)
      modifies this
      ensures Abs() == Step(old(Abs()), Attach(next), exitCode)
    {
      if attachment.None? {
        attachment := Some(next);
      }
      BeginShutdown();
    }

    method DisposeHandlers()
      modifies this
      ensures Abs() == Step(old(Abs()), Dispose, exitCode)
    {
      handlers := {};
    }

    /** The microtask that calls `stop` on the attachment captured at the start. */
    method RunScheduledStop()
      modifies this
      ensures Abs() == Step(old(Abs()), RunStop, exitCode)
    {
      if shutdown.Scheduled? {
        stops := stops + [shutdown.attached];
        shutdown := Stopping(shutdown.attached, shutdown.code);
      }
    }

    /** The promise of `stop` settles, either way. */
    method OnStopSettled(fulfilled: bool)
      modifies this
      ensures Abs() == Step(old(Abs()), Settle(fulfilled), exitCode)
    {
      if shutdown.Stopping? {
        var code := shutdown.code;
        shutdown := Finished;
        DisposeHandlers();
        exits := exits + [code];
      }
    }
  }

  // ----- the trace, read without the controller

  function FirstAttach(trace: seq<Event>): Option<nat> {
    if trace == [] then None
    else
      var before := FirstAttach(trace[..|trace| - 1]);
      var e := trace[|trace| - 1];
      if before.None? && e.Attach? then Some(e.id) else before
  }

  // `stop` has run: its task came after both an attachment and a delivered signal.
  predicate StopRan(trace: seq<Event>) {
    exists i: nat :: i < |trace| && trace[i] == RunStop && Ready(trace[..i])
  }

  predicate Ready(trace: seq<Event>)
    decreases |trace|, 1
  {
    FirstAttach(trace).Some? && Delivered(trace) != []
  }

  // `stop` has run and then settled.
  predicate Exited(trace: seq<Event>)
    decreases |trace|, 2
  {
    exists i: nat, j: nat :: i < j < |trace| && trace[i] == RunStop && Ready(trace[..i]) && trace[j].Settle?
  }

  // The signals that arrive while the handlers are registered.
  function Delivered(trace: seq<Event>): seq<Signal>
    decreases |trace|, 0
  {
    if trace == [] then []
    else
      var before, e := trace[..|trace| - 1], trace[|trace| - 1];
      Delivered(before) + (if e.Deliver? && Dispose !in before && !Exited(before) then [e.signal] else [])
  }

  // How many signals were delivered before anything was attached.
  function DeliveredUnattached(trace: seq<Event>): nat {
    if trace == [] then 0
    else
      var before := trace[..|trace| - 1];
      DeliveredUnattached(before)
        + (if FirstAttach(before).None? then |Delivered(trace)| - |Delivered(before)| else 0)
  }

  // All that matters of a trace.
  datatype Facts = Facts(first: Option<nat>, delivered: seq<Signal>, early: nat,
                         disposed: bool, stopRan: bool, exited: bool)

  function FactsOf(trace: seq<Event>): Facts {
    Facts(FirstAttach(trace), Delivered(trace), DeliveredUnattached(trace),
          Dispose in trace, StopRan(trace), Exited(trace))
  }

  /** One attempt for each extra signal after the attachment, and one at the attachment
      if any extra signal came before it. The first signal is never extra. */
  function ExpectedKills(f: Facts): int {
    var all := |f.delivered|;
    if f.first.None? || all <= 1 then 0
    else if f.early <= 1 then all - 1
    else all - f.early + 1
  }

  // ----- what every reachable state satisfies

  predicate IsReady(f: Facts) { f.first.Some? && f.delivered != [] }

  ghost predicate MemoryAgrees(f: Facts, s: State) {
    && s.attachment == f.first
    && s.receivedSignal == (if f.delivered == [] then None else Some(f.delivered[0]))
    && s.handlers == (if f.disposed || f.exited then {} else ALL_SIGNALS)
    && s.forceKillPending == (f.first.None? && |f.delivered| >= 2)
  }

  // The state of the chain, as the trace tells it.
  ghost predicate ShutdownAgrees(f: Facts, s: State, exitCode: Signal -> int) {
    && (s.shutdown == NotStarted <==> !IsReady(f))
    && (f.stopRan <==> s.shutdown.Stopping? || s.shutdown.Finished?)
    && (f.exited <==> s.shutdown.Finished?)
    && (s.shutdown.Scheduled? || s.shutdown.Stopping? ==>
          s.shutdown.attached == f.first.value && s.shutdown.code == exitCode(f.delivered[0]))
  }

  ghost predicate CallsAgree(f: Facts, s: State, exitCode: Signal -> int) {
    && (f.stopRan ==> IsReady(f)) && (f.exited ==> f.stopRan)
    && s.stops == (if f.stopRan then [f.first.value] else [])
    && s.exits == (if f.exited then [exitCode(f.delivered[0])] else [])
  }

  ghost predicate KillsAgree(f: Facts, s: State) {
    && |s.kills| == ExpectedKills(f)
    && (forall k :: k in s.kills ==> f.first == Some(k))
    && f.early <= |f.delivered|
    && (f.first.None? ==> f.early == |f.delivered|)
  }

  ghost predicate Agrees(f: Facts, s: State, exitCode: Signal -> int) {
    MemoryAgrees(f, s) && ShutdownAgrees(f, s, exitCode) && CallsAgree(f, s, exitCode) && KillsAgree(f, s)
  }

  lemma StopRanStep(before: seq<Event>, e: Event)
    ensures StopRan(before + [e]) <==> StopRan(before) || (e == RunStop && Ready(before))
  {
    var trace := before + [e];
    assert forall i: nat :: i <= |before| ==> trace[..i] == before[..i];
    if i: nat :| i < |before| && before[i] == RunStop && Ready(before[..i]) {
      assert trace[i] == RunStop && Ready(trace[..i]);
    }
    if e == RunStop && Ready(before) {
      assert before[..|before|] == before;
      assert trace[|before|] == RunStop && Ready(trace[..|before|]);
    }
    if i: nat :| i < |trace| && trace[i] == RunStop && Ready(trace[..i]) && i < |before| {
      assert before[i] == RunStop && Ready(before[..i]);
    }
  }

  lemma ExitedStep(before: seq<Event>, e: Event)
    ensures Exited(before + [e]) <==> Exited(before) || (e.Settle? && StopRan(before))
  {
    var trace := before + [e];
    assert forall i: nat :: i <= |before| ==> trace[..i] == before[..i];
    if i: nat, j: nat :| i < j < |before| && before[i] == RunStop && Ready(before[..i]) && before[j].Settle? {
      assert i < j < |trace| && trace[i] == RunStop && Ready(trace[..i]) && trace[j].Settle?;
    }
    if e.Settle? && StopRan(before) {
      var i: nat :| i < |before| && before[i] == RunStop && Ready(before[..i]);
      assert i < |before| < |trace| && trace[i] == RunStop && Ready(trace[..i]) && trace[|before|].Settle?;
    }
    if i: nat, j: nat :| i < j < |trace| && trace[i] == RunStop && Ready(trace[..i]) && trace[j].Settle? {
      assert before[i] == RunStop && Ready(before[..i]);
      assert j < |before| ==> before[j].Settle?;
    }
  }

  // What one more event changes about a trace.
  function FactStep(f: Facts, e: Event): Facts {
    match e
    case Deliver(signal) =>
      if f.disposed || f.exited then f
      else f.(delivered := f.delivered + [signal], early := if f.first.None? then f.early + 1 else f.early)
    case Attach(id) => if f.first.None? then f.(first := Some(id)) else f
    case Dispose => f.(disposed := true)
    case RunStop => f.(stopRan := f.stopRan || IsReady(f))
    case Settle(_) => f.(exited := f.exited || f.stopRan)
  }

  lemma FactsStep(before: seq<Event>, e: Event)
    ensures FactsOf(before + [e]) == FactStep(FactsOf(before), e)
  {
    assert (before + [e])[..|before|] == before;
    assert Delivered(before) + [] == Delivered(before);
    StopRanStep(before, e);
    ExitedStep(before, e);
  }

  lemma SignalIsHandled(signal: Signal)
    ensures signal in ALL_SIGNALS
  {
    assert signal.SIGHUP? || signal.SIGINT? || signal.SIGTERM?;
  }

  lemma StepKeeps(f: Facts, s: State, e: Event, exitCode: Signal -> int)
    requires Agrees(f, s, exitCode)
    ensures Agrees(FactStep(f, e), Step(s, e, exitCode), exitCode)
  {
    if e.Deliver? {
      SignalIsHandled(e.signal);
    }
  }

  lemma {:induction false} RunAgrees(trace: seq<Event>, exitCode: Signal -> int)
    ensures Agrees(FactsOf(trace), Run(trace, exitCode), exitCode)
    decreases |trace|
  {
    if trace == [] {
    } else {
      var before, e := trace[..|trace| - 1], trace[|trace| - 1];
      assert trace == before + [e];
      RunAgrees(before, exitCode);
      FactsStep(before, e);
      StepKeeps(FactsOf(before), Run(before, exitCode), e, exitCode);
    }
  }

  // ----- safety over every trace

  /** `stop` runs at most once, and only on the first attachment. */
  lemma StopsOnce(trace: seq<Event>, exitCode: Signal -> int)
    ensures StopRan(trace) ==> FirstAttach(trace).Some? && Run(trace, exitCode).stops == [FirstAttach(trace).value]
    ensures !StopRan(trace) ==> Run(trace, exitCode).stops == []
  {
    RunAgrees(trace, exitCode);
  }

  /** The process exits at most once: exactly when `stop` has run and then settled, by
      fulfilment or rejection, and with the code of the first delivered signal. */
  lemma ExitsOnce(trace: seq<Event>, exitCode: Signal -> int)
    ensures var exits := Run(trace, exitCode).exits;
      && (exits != [] <==> Exited(trace))
      && (Exited(trace) ==> StopRan(trace) && Delivered(trace) != [] && exits == [exitCode(Delivered(trace)[0])])
  {
    RunAgrees(trace, exitCode);
  }

  /** Force-kill attempts, all on the first attachment, are counted by the trace. */
  lemma KillsCounted(trace: seq<Event>, exitCode: Signal -> int)
    ensures |Run(trace, exitCode).kills| == ExpectedKills(FactsOf(trace))
    ensures forall k :: k in Run(trace, exitCode).kills ==> FirstAttach(trace) == Some(k)
  {
    RunAgrees(trace, exitCode);
  }

  /** Handlers stay registered until the controller is disposed of or the process exits. */
  lemma HandlersUntilDone(trace: seq<Event>, exitCode: Signal -> int)
    ensures Run(trace, exitCode).handlers == if Dispose in trace || Exited(trace) then {} else ALL_SIGNALS
  {
    RunAgrees(trace, exitCode);
  }

  // One state continues another: nothing is undone, and after an exit nothing is added.
  ghost predicate Continues(s: State, t: State) {
    && s.stops <= t.stops && s.kills <= t.kills && s.exits <= t.exits
    && (s.attachment.Some? ==> t.attachment == s.attachment)
    && (s.receivedSignal.Some? ==> t.receivedSignal == s.receivedSignal)
    && (s.exits != [] ==> t.exits == s.exits && t.stops == s.stops && t.kills == s.kills)
  }

  lemma StepContinues(s: State, e: Event, exitCode: Signal -> int)
    requires s.exits != [] ==> s.handlers == {} && s.shutdown.Finished?
    ensures Continues(s, Step(s, e, exitCode))
  {
  }

  lemma {:induction false} HistoryGrows(before: seq<Event>, more: seq<Event>, exitCode: Signal -> int)
    ensures Continues(Run(before, exitCode), Run(before + more, exitCode))
    decreases |more|
  {
    if more == [] {
      assert before + more == before;
    } else {
      var front, e := more[..|more| - 1], more[|more| - 1];
      HistoryGrows(before, front, exitCode);
      assert before + more == before + front + [e];
      assert (before + front + [e])[..|before + front|] == before + front;
      FinishedAfterExit(before + front, exitCode);
      StepContinues(Run(before + front, exitCode), e, exitCode);
    }
  }

  lemma FinishedAfterExit(trace: seq<Event>, exitCode: Signal -> int)
    ensures var s := Run(trace, exitCode); s.exits != [] ==> s.handlers == {} && s.shutdown.Finished?
  {
    RunAgrees(trace, exitCode);
  }

  /** After the exit nothing more is called, whatever arrives. */
  lemma ExitIsFinal(before: seq<Event>, more: seq<Event>, exitCode: Signal -> int)
    requires Exited(before)
    ensures var s, t := Run(before, exitCode), Run(before + more, exitCode);
      t.stops == s.stops && t.kills == s.kills && t.exits == s.exits
  {
    RunAgrees(before, exitCode);
    HistoryGrows(before, more, exitCode);
  }
}
