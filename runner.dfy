/**
 * `runCommand` (server.js, lines 35-74): a child process is watched
 * through events (a chunk on stdout or stderr, an `error`, `close` with
 * an exit code, expiry of the timeout timer) and a promise is settled
 * once. Real processes and timers are not modelled; the events that reach
 * the handlers are the input.
 */
module Runner {
  import opened Errors
  import opened Text

  /** The marker of the disposal error the compiler toolchain reports on teardown. */
  const SuppressedMarker := "SuppressedError"

  /** `DEFAULT_TIMEOUT_MS` when `TEALSCRIPT_TIMEOUT_MS` is not set. */
  const DefaultTimeoutMs: nat := 20000

  /** The default timeout prints as `20000`. */
  lemma DefaultTimeoutDigits()
    ensures NatToDecimal(DefaultTimeoutMs) == "20000"
  {
    assert NatToDecimal(2) == "2";
    assert NatToDecimal(20) == NatToDecimal(2) + "0";
    assert NatToDecimal(200) == NatToDecimal(20) + "0";
    assert NatToDecimal(2000) == NatToDecimal(200) + "0";
    assert NatToDecimal(20000) == NatToDecimal(2000) + "0";
  }

  /** The `code` argument of `close`: a number, or `null` when the child was ended by a signal. */
  datatype ExitCode = Code(n: int) | Null

  function ExitCodeText(code: ExitCode): string {
    match code
    case Code(n) => IntToDecimal(n)
    case Null => "null"
  }

  datatype Event =
    | StdoutData(chunk: string)
    | StderrData(chunk: string)
    | ChildError(error: JsError)
    | Close(code: ExitCode)
    | TimerExpired

  /** The state of the promise `runCommand` returns, with what it settled with. */
  datatype RunOutcome =
    | Pending
    | Resolved(stdout: string, stderr: string)
    | ExitRejected(code: ExitCode, stderr: string)
    | ErrorRejected(error: JsError)
    | TimedOut(afterMs: nat, stderr: string)
  {
    predicate Rejected() {
      ExitRejected? || ErrorRejected? || TimedOut?
    }
  }

  /** Line 42: an `error` whose message mentions the marker is dropped. */
  predicate IsSuppressed(err: JsError) {
    err.message != "" && Contains(err.message, SuppressedMarker)
  }

  /**
   * Lines 62-72: on `close` the promise resolves when the exit code is 0
   * or when the stderr gathered so far contains the marker anywhere;
   * otherwise it rejects, carrying the code and that stderr.
   */
  function CloseOutcome(code: ExitCode, stdout: string, stderr: string): RunOutcome {
    if code != Code(0) && !Contains(stderr, SuppressedMarker) then ExitRejected(code, stderr)
    else Resolved(stdout, stderr)
  }

  /** The `Error` the promise rejects with (lines 54, 59 and 66-68). */
  function Rejection(o: RunOutcome): JsError
    requires o.Rejected()
  {
    match o
    case ExitRejected(code, stderr) =>
      JsError("Error", "Process exited with code " + ExitCodeText(code) + "\n" + stderr)
    case ErrorRejected(err) => err
    case TimedOut(ms, stderr) =>
      JsError("Error", "Process timed out after " + NatToDecimal(ms) + "ms\n" + stderr)
  }

  // ---------------------------------------------------------------------
  // Reference semantics: the outcome is decided by the first event that
  // can settle the promise, with the output gathered before it.
  // ---------------------------------------------------------------------

  /** An event that settles a pending promise. */
  predicate Decisive(e: Event) {
    e.Close? || e.TimerExpired? || (e.ChildError? && !IsSuppressed(e.error))
  }

  function OutChunk(e: Event): string {
    if e.StdoutData? then e.chunk else ""
  }

  function ErrChunk(e: Event): string {
    if e.StderrData? then e.chunk else ""
  }

  /** The stdout chunks of `events`, in arrival order. */
  function StdoutOf(events: seq<Event>): string {
    if events == [] then "" else OutChunk(events[0]) + StdoutOf(events[1..])
  }

  /** The stderr chunks of `events`, in arrival order. */
  function StderrOf(events: seq<Event>): string {
    if events == [] then "" else ErrChunk(events[0]) + StderrOf(events[1..])
  }

  /** The index of the first decisive event, or `|events|` when there is none. */
  function FirstDecisive(events: seq<Event>): (i: nat)
    ensures i <= |events|
    ensures forall j :: 0 <= j < i ==> !Decisive(events[j])
    ensures i < |events| ==> Decisive(events[i])
  {
    if events == [] || Decisive(events[0]) then 0 else 1 + FirstDecisive(events[1..])
  }

  /** What the decisive event `e` settles the promise with, given the output gathered before it. */
  function Verdict(e: Event, stdout: string, stderr: string, timeoutMs: nat): (o: RunOutcome)
    requires Decisive(e)
    ensures o != Pending
  {
    match e
    case Close(code) => CloseOutcome(code, stdout, stderr)
    case ChildError(err) => ErrorRejected(err)
    case TimerExpired => TimedOut(timeoutMs, stderr)
  }

  /** The settled value after `events`. */
  function OutcomeOf(events: seq<Event>, timeoutMs: nat): RunOutcome {
    var i := FirstDecisive(events);
    if i == |events| then Pending
    else Verdict(events[i], StdoutOf(events[..i]), StderrOf(events[..i]), timeoutMs)
  }

  /** The child raised `error` after the timeout removed its listeners, which Node throws as unhandled. */
  predicate ErrorAfterTimeout(events: seq<Event>) {
    var i := FirstDecisive(events);
    i < |events| && events[i].TimerExpired?
    && exists j :: i < j < |events| && events[j].ChildError?
  }

  // ---------------------------------------------------------------------
  // Lemmas about the reference semantics
  // ---------------------------------------------------------------------

  /** Stdout is the concatenation of its chunks: appending events appends their chunks. */
  lemma {:induction false} StdoutAppend(a: seq<Event>, b: seq<Event>)
    ensures StdoutOf(a + b) == StdoutOf(a) + StdoutOf(b)
  {
    if a == [] {
      assert a + b == b;
    } else {
      var ab := a + b;
      assert ab[0] == a[0] && ab[1..] == a[1..] + b;
      StdoutAppend(a[1..], b);
      var c, x, y := OutChunk(a[0]), StdoutOf(a[1..]), StdoutOf(b);
      assert c + (x + y) == (c + x) + y;
    }
  }

  /** Stderr is the concatenation of its chunks: appending events appends their chunks. */
  lemma {:induction false} StderrAppend(a: seq<Event>, b: seq<Event>)
    ensures StderrOf(a + b) == StderrOf(a) + StderrOf(b)
  {
    if a == [] {
      assert a + b == b;
    } else {
      var ab := a + b;
      assert ab[0] == a[0] && ab[1..] == a[1..] + b;
      StderrAppend(a[1..], b);
      var c, x, y := ErrChunk(a[0]), StderrOf(a[1..]), StderrOf(b);
      assert c + (x + y) == (c + x) + y;
    }
  }

  lemma StreamsAppend(a: seq<Event>, b: seq<Event>)
    ensures StdoutOf(a + b) == StdoutOf(a) + StdoutOf(b)
    ensures StderrOf(a + b) == StderrOf(a) + StderrOf(b)
  {
    StdoutAppend(a, b);
    StderrAppend(a, b);
  }

  lemma StreamsOfOne(e: Event)
    ensures StdoutOf([e]) == OutChunk(e) && StderrOf([e]) == ErrChunk(e)
  {
    assert [e][1..] == [];
  }

  /** The streams of `a`, then one event `e`, then `b`. */
  lemma StreamsAround(a: seq<Event>, e: Event, b: seq<Event>)
    ensures StdoutOf(a + [e] + b) == StdoutOf(a) + OutChunk(e) + StdoutOf(b)
    ensures StderrOf(a + [e] + b) == StderrOf(a) + ErrChunk(e) + StderrOf(b)
  {
    StreamsAppend(a, [e]);
    StreamsAppend(a + [e], b);
    StreamsOfOne(e);
  }

  /** Neither stream affects the other: a stderr chunk adds nothing to stdout, and a stdout chunk nothing to stderr. */
  lemma StreamsIndependent(a: seq<Event>, b: seq<Event>, chunk: string)
    ensures StdoutOf(a + [StderrData(chunk)] + b) == StdoutOf(a + b)
    ensures StderrOf(a + [StdoutData(chunk)] + b) == StderrOf(a + b)
  {
    StreamsAround(a, StderrData(chunk), b);
    StreamsAround(a, StdoutData(chunk), b);
    StreamsAppend(a, b);
    assert StdoutOf(a) + "" + StdoutOf(b) == StdoutOf(a) + StdoutOf(b);
    assert StderrOf(a) + "" + StderrOf(b) == StderrOf(a) + StderrOf(b);
  }

  lemma FirstDecisiveUnique(events: seq<Event>, i: nat)
    requires i <= |events|
    requires forall j :: 0 <= j < i ==> !Decisive(events[j])
    requires i < |events| ==> Decisive(events[i])
    ensures FirstDecisive(events) == i
  {
  }

  /** How one more event changes the settled value: not at all once settled. */
  lemma OutcomeStep(xs: seq<Event>, e: Event, timeoutMs: nat)
    ensures OutcomeOf(xs + [e], timeoutMs)
            == if OutcomeOf(xs, timeoutMs) != Pending then OutcomeOf(xs, timeoutMs)
               else if Decisive(e) then Verdict(e, StdoutOf(xs), StderrOf(xs), timeoutMs)
               else Pending
  {
    var ys := xs + [e];
    var i := FirstDecisive(xs);
    if i < |xs| {
      FirstDecisiveUnique(ys, i);
      assert ys[..i] == xs[..i];
    } else if Decisive(e) {
      FirstDecisiveUnique(ys, |xs|);
      assert ys[..|xs|] == xs;
    } else {
      FirstDecisiveUnique(ys, |ys|);
    }
  }

  /** Settle once: after the promise has settled, no further event changes its value. */
  lemma {:induction false} SettlesOnce(xs: seq<Event>, ys: seq<Event>, timeoutMs: nat)
    requires OutcomeOf(xs, timeoutMs) != Pending
    ensures OutcomeOf(xs + ys, timeoutMs) == OutcomeOf(xs, timeoutMs)
    decreases |ys|
  {
    if ys == [] {
      assert xs + ys == xs;
    } else {
      var zs := ys[..|ys| - 1];
      SettlesOnce(xs, zs, timeoutMs);
      OutcomeStep(xs + zs, ys[|ys| - 1], timeoutMs);
      assert xs + zs + [ys[|ys| - 1]] == xs + ys;
    }
  }

  /** The timer is the backstop: if it expires, the promise has settled, whatever came before. */
  lemma TimerSettles(xs: seq<Event>, timeoutMs: nat)
    ensures OutcomeOf(xs + [TimerExpired], timeoutMs) != Pending
    ensures OutcomeOf(xs, timeoutMs) == Pending ==>
              OutcomeOf(xs + [TimerExpired], timeoutMs) == TimedOut(timeoutMs, StderrOf(xs))
  {
    OutcomeStep(xs, TimerExpired, timeoutMs);
  }

  /** A suppressed `error` is dropped: it adds nothing to either stream. */
  lemma SuppressedErrorKeepsStreams(xs: seq<Event>, err: JsError, ys: seq<Event>)
    ensures StdoutOf(xs + [ChildError(err)] + ys) == StdoutOf(xs + ys)
    ensures StderrOf(xs + [ChildError(err)] + ys) == StderrOf(xs + ys)
  {
    StreamsAround(xs, ChildError(err), ys);
    StreamsAppend(xs, ys);
    assert OutChunk(ChildError(err)) == "" && ErrChunk(ChildError(err)) == "";
    assert StdoutOf(xs) + "" == StdoutOf(xs);
    assert StderrOf(xs) + "" == StderrOf(xs);
  }

  /** A suppressed `error` is dropped: removing it from the history does not change the settled value. */
  lemma {:induction false} SuppressedErrorIgnored(xs: seq<Event>, err: JsError, ys: seq<Event>, timeoutMs: nat)
    requires IsSuppressed(err)
    ensures OutcomeOf(xs + [ChildError(err)] + ys, timeoutMs) == OutcomeOf(xs + ys, timeoutMs)
    decreases |ys|
  {
    var se := ChildError(err);
    if ys == [] {
      OutcomeStep(xs, se, timeoutMs);
      assert xs + [se] + ys == xs + [se];
      assert xs + ys == xs;
    } else {
      var zs := ys[..|ys| - 1];
      var e := ys[|ys| - 1];
      var with := xs + [se] + zs;
      var without := xs + zs;
      SuppressedErrorIgnored(xs, err, zs, timeoutMs);
      SuppressedErrorKeepsStreams(xs, err, zs);
      assert OutcomeOf(with, timeoutMs) == OutcomeOf(without, timeoutMs);
      assert StdoutOf(with) == StdoutOf(without) && StderrOf(with) == StderrOf(without);
      OutcomeStep(with, e, timeoutMs);
      OutcomeStep(without, e, timeoutMs);
      assert with + [e] == xs + [se] + ys;
      assert without + [e] == xs + ys;
    }
  }

  /** The rejection that a settled `ErrorRejected` carries is an unsuppressed `error` event of the history. */
  lemma ErrorRejectionIsReal(events: seq<Event>, timeoutMs: nat)
    requires OutcomeOf(events, timeoutMs).ErrorRejected?
    ensures !IsSuppressed(OutcomeOf(events, timeoutMs).error)
    ensures ChildError(OutcomeOf(events, timeoutMs).error) in events
  {
  }

  /**
   * The tolerance is a substring test: a non-zero exit whose stderr holds
   * the marker anywhere, among any other diagnostics, still resolves.
   */
  lemma CloseToleratesMarkerAnywhere(code: ExitCode, stdout: string, before: string, after: string)
    ensures CloseOutcome(code, stdout, before + SuppressedMarker + after)
            == Resolved(stdout, before + SuppressedMarker + after)
  {
    ContainsInContext(before, SuppressedMarker, after);
  }

  /** A non-zero exit without the marker rejects, and the message ends with everything on stderr. */
  lemma ExitRejectionReportsStderr(n: int, stdout: string, stderr: string)
    requires n != 0 && !Contains(stderr, SuppressedMarker)
    ensures CloseOutcome(Code(n), stdout, stderr) == ExitRejected(Code(n), stderr)
    ensures var m := Rejection(CloseOutcome(Code(n), stdout, stderr)).message;
            |m| >= |stderr| && m[|m| - |stderr|..] == stderr
  {
  }

  // ---------------------------------------------------------------------
  // The event-driven implementation
  // ---------------------------------------------------------------------

  /** The closure state of one `runCommand` call. */
  class CommandRun {
    const timeoutMs: nat
    var stdout: string
    var stderr: string
    var outcome: RunOutcome
    /** The timeout timer is set and not cleared. */
    var timerArmed: bool
    /** The listeners on the child (`error`, `actualError`, `close`) are attached. */
    var childListening: bool
    /** SIGKILL was sent. */
    var killed: bool
    /** An `error` was emitted with no listener, which Node throws. */
    var uncaughtError: bool

    /**
     * The timer is cleared exactly when the promise settles, the child is
     * killed and loses its listeners exactly when the timeout settled it.
     */
    ghost predicate Valid()
      reads this
    {
      && (timerArmed <==> outcome.Pending?)
      && (killed <==> outcome.TimedOut?)
      && (childListening <==> !killed)
      && (uncaughtError ==> killed)
      && (outcome.TimedOut? ==> outcome.afterMs == timeoutMs)
    }

    /** Lines 36-55: the spawn, the listeners, both buffers empty and the timer set. */
    constructor (timeoutMs: nat)
      ensures Valid() && this.timeoutMs == timeoutMs
      ensures stdout == "" && stderr == "" && outcome == Pending
      ensures timerArmed && childListening && !killed && !uncaughtError
    {
      this.timeoutMs := timeoutMs;
      stdout, stderr := "", "";
      outcome := Pending;
      timerArmed, childListening, killed, uncaughtError := true, true, false, false;
    }

    /** `resolve`/`reject`: only the first call has an effect. */
    method Settle(o: RunOutcome)
      modifies this`outcome
      ensures outcome == if old(outcome).Pending? then o else old(outcome)
    {
      if outcome.Pending? {
        outcome := o;
      }
    }

    /** Runs the handlers attached for one event. */
    method Deliver(e: Event)
      requires Valid()
      modifies this
      ensures Valid()
      ensures stdout == old(stdout) + OutChunk(e)
      ensures stderr == old(stderr) + ErrChunk(e)
      ensures outcome == if old(outcome) != Pending then old(outcome)
                         else if Decisive(e) then Verdict(e, old(stdout), old(stderr), timeoutMs)
                         else Pending
      ensures uncaughtError == (old(uncaughtError) || (old(killed) && e.ChildError?))
    {
      match e
      case StdoutData(chunk) =>
        // the stream listeners are never removed, not even by the timeout
        stdout := stdout + chunk;
      case StderrData(chunk) =>
        stderr := stderr + chunk;
      case ChildError(err) =>
        if !childListening {
          uncaughtError := true;
        } else if !IsSuppressed(err) {
          // emitted as `actualError`
          timerArmed := false;
          Settle(ErrorRejected(err));
        }
      case Close(code) =>
        if childListening {
          timerArmed := false;
          Settle(CloseOutcome(code, stdout, stderr));
        }
      case TimerExpired =>
        // a cleared timer never fires
        if timerArmed {
          childListening := false;
          killed := true;
          timerArmed := false;
          Settle(TimedOut(timeoutMs, stderr));
        }
    }
  }

  lemma ErrorAfterTimeoutStep(xs: seq<Event>, e: Event, timeoutMs: nat)
    ensures ErrorAfterTimeout(xs + [e])
            == (ErrorAfterTimeout(xs) || (OutcomeOf(xs, timeoutMs).TimedOut? && e.ChildError?))
  {
    var ys := xs + [e];
    var i := FirstDecisive(xs);
    if i < |xs| {
      FirstDecisiveUnique(ys, i);
      if ErrorAfterTimeout(xs) {
        var j :| i < j < |xs| && xs[j].ChildError?;
        assert ys[j].ChildError?;
      }
      if e.ChildError? && xs[i].TimerExpired? {
        assert ys[|xs|].ChildError?;
      }
    } else if Decisive(e) {
      FirstDecisiveUnique(ys, |xs|);
    } else {
      FirstDecisiveUnique(ys, |ys|);
    }
  }

  /**
   * Feeds the events to one `runCommand` call. The settled value is the
   * one the first decisive event gives, each stream is the concatenation
   * of its own chunks, the child is killed exactly when the timeout
   * settled the call, and an unhandled `error` arises exactly when the
   * child reports an error after the timeout removed its listeners.
   */
  method RunCommand(events: seq<Event>, timeoutMs: nat)
    returns (outcome: RunOutcome, stdout: string, stderr: string, killed: bool, uncaughtError: bool)
    ensures outcome == OutcomeOf(events, timeoutMs)
    ensures stdout == StdoutOf(events) && stderr == StderrOf(events)
    ensures killed <==> outcome.TimedOut?
    ensures uncaughtError <==> ErrorAfterTimeout(events)
  {
    var run := new CommandRun(timeoutMs);
    for k := 0 to |events|
      invariant run.Valid() && run.timeoutMs == timeoutMs
      invariant run.outcome == OutcomeOf(events[..k], timeoutMs)
      invariant run.stdout == StdoutOf(events[..k]) && run.stderr == StderrOf(events[..k])
      invariant run.uncaughtError == ErrorAfterTimeout(events[..k])
    {
      var e := events[k];
      OutcomeStep(events[..k], e, timeoutMs);
      StreamsAppend(events[..k], [e]);
      ErrorAfterTimeoutStep(events[..k], e, timeoutMs);
      assert events[..k + 1] == events[..k] + [e];
      run.Deliver(e);
    }
    assert events[..|events|] == events;
    outcome, stdout, stderr, killed, uncaughtError := run.outcome, run.stdout, run.stderr, run.killed, run.uncaughtError;
  }
}
