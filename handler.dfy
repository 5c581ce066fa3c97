/**
 * The `POST /compile` handler (server.js, lines 97-222): validation,
 * workspace set-up, the compiler run, artifact collection and filtering,
 * removal of the workspace, and the mapping of every path to an HTTP
 * status and a JSON envelope.
 */
module Handler {
  import opened Errors
  import opened Text
  import opened Request
  import opened Runner
  import opened Artifacts

  const NoArtifactsMessage := "No .arc32.json or .arc4.json files produced"

  /** `{ ok: true, files }` or `{ ok: false, error }`. */
  datatype Envelope = Success(files: map<string, Artifact>) | Failure(error: string)

  datatype Response = Response(status: int, body: Envelope)

  /**
   * Lines 118-172 taken as one step. `mkdtempSync` either throws (and
   * `tmpRoot` stays unassigned) or creates the workspace; one of the later
   * steps (directories, template copy, source write, configuration files)
   * may still throw.
   */
  datatype Setup =
    | MkdtempFails(error: JsError)
    | PrepareFails(error: JsError)
    | Prepared

  /**
   * The output directory after the compiler ran: readable (present or
   * missing), or a filesystem error raised while walking it.
   */
  datatype Output =
    | Readable(dir: Option<seq<Node>>)
    | Unreadable(error: JsError)

  /**
   * The value `await runCommand(...)` produces: the child's events up to
   * the deadline, after which the timer expires if nothing settled the
   * call before.
   */
  function Awaited(events: seq<Event>, timeoutMs: nat): (o: RunOutcome)
    ensures o != Pending
  {
    TimerSettles(events, timeoutMs);
    OutcomeOf(events + [TimerExpired], timeoutMs)
  }

  /** Lines 205-210: an empty filtered map is a failure, anything else is returned. */
  function Finish(files: map<string, Artifact>): (r: Response)
    ensures r.status == 200 || r.status == 500
    ensures r.body.Success? <==> r.status == 200
    ensures r.status == 200 <==> files != map[]
    ensures r.status == 200 ==> r.body.files == files
    ensures r.status == 500 ==> r.body == Failure(NoArtifactsMessage)
  {
    if |files| == 0 then Response(500, Failure(NoArtifactsMessage)) else Response(200, Success(files))
  }

  /** Lines 181-210: a rejected run or an unreadable output directory is thrown; otherwise the filtered artifacts are returned. */
  function AfterRun(outcome: RunOutcome, output: Output): (r: Response)
    requires outcome != Pending
    ensures r.status == 200 || r.status == 500
    ensures r.body.Success? <==> r.status == 200
    ensures r.status == 200 <==> outcome.Resolved? && output.Readable? && ContractArtifacts(Collected(output.dir)) != map[]
  {
    if outcome.Rejected() then Response(500, Failure(ErrorText(Rejection(outcome))))
    else if output.Unreadable? then Response(500, Failure(ErrorText(output.error)))
    else Finish(ContractArtifacts(Collected(output.dir)))
  }

  /** Lines 115-210 for an accepted submission; every error thrown becomes a 500 in the `catch` block. */
  function AfterValidation(submission: Submission, setup: Setup, events: seq<Event>, timeoutMs: nat, output: Output): (r: Response)
    ensures r.status == 200 || r.status == 500
    ensures r.body.Success? <==> r.status == 200
  {
    var name := SafeFilename(submission.filename);
    if name.Err? then Response(500, Failure(ErrorText(name.error)))
    else if !setup.Prepared? then Response(500, Failure(ErrorText(setup.error)))
    else AfterRun(Awaited(events, timeoutMs), output)
  }

  /** The response for every combination of inputs. */
  function ExpectedResponse(body: Option<JsonValue>, setup: Setup, events: seq<Event>, timeoutMs: nat, output: Output): Response {
    match Validate(body)
    case Rejected(message) => Response(400, Failure(message))
    case Accepted(submission) => AfterValidation(submission, setup, events, timeoutMs, output)
  }

  /** `tmpRoot` is assigned: the request got past validation, the file name and `mkdtempSync`. */
  predicate CreatesWorkspace(body: Option<JsonValue>, setup: Setup) {
    Validate(body).Accepted? && SafeFilename(Validate(body).submission.filename).Ok? && !setup.MkdtempFails?
  }

  /** The saved name is `.` or `..`, which `path.basename` lets through. */
  predicate SavesUnderDotName(body: Option<JsonValue>) {
    Validate(body).Accepted?
    && SafeFilename(Validate(body).submission.filename) in {Ok("."), Ok("..")}
  }

  /**
   * Line 148 writes the source to `path.join(srcDir, name)`, which for `.`
   * or `..` is a directory (`src` or the workspace itself), so the write
   * throws and the preparation cannot complete. A `Setup` that describes a
   * real filesystem agrees with this.
   */
  predicate SetupFits(body: Option<JsonValue>, setup: Setup) {
    SavesUnderDotName(body) ==> !setup.Prepared?
  }

  /**
   * Lines 181-196: awaits the run, then collects and filters the output
   * directory. A rejected run or a failed read is what the code throws;
   * otherwise the result is the filtered map, and either way it determines
   * the response `AfterRun` gives.
   */
  method RunAndCollect(events: seq<Event>, timeoutMs: nat, output: Output) returns (r: Result<map<string, Artifact>>)
    ensures r.Err? <==> Awaited(events, timeoutMs).Rejected() || output.Unreadable?
    ensures r.Ok? ==> r.value == ContractArtifacts(Collected(output.dir))
    ensures AfterRun(Awaited(events, timeoutMs), output)
            == if r.Err? then Response(500, Failure(ErrorText(r.error))) else Finish(r.value)
  {
    var outcome, stdout, stderr, killed, uncaught := RunCommand(events + [TimerExpired], timeoutMs);
    if outcome.Rejected() {
      return Err(Rejection(outcome));
    }
    if output.Unreadable? {
      return Err(output.error);
    }
    var all := ReadAllFilesRecursively(output.dir);
    var artifacts := FilterArtifacts(all);
    return Ok(artifacts);
  }

  /**
   * Lines 115-221 for an accepted submission. `tmpRoot` is assigned exactly
   * when the file name is a string and `mkdtempSync` succeeds; once it is,
   * the workspace is removed exactly once on every path (on the success
   * path before the empty-result check, otherwise in the `catch` block) and
   * is left behind only when that removal throws, which never changes the
   * response.
   */
  method CompileSubmission(submission: Submission, setup: Setup, events: seq<Event>, timeoutMs: nat,
                           output: Output, removalThrows: bool)
    returns (response: Response, tmpRootAssigned: bool, removals: nat, workspaceLeft: bool)
    ensures response == AfterValidation(submission, setup, events, timeoutMs, output)
    ensures tmpRootAssigned <==> SafeFilename(submission.filename).Ok? && !setup.MkdtempFails?
    ensures removals == if tmpRootAssigned then 1 else 0
    ensures workspaceLeft <==> tmpRootAssigned && removalThrows
  {
    tmpRootAssigned, removals, workspaceLeft := false, 0, false;
    var thrown: JsError;
    // try {
    var name := SafeFilename(submission.filename);
    if name.Err? {
      thrown := name.error;
    } else if setup.MkdtempFails? {
      thrown := setup.error;
    } else {
      tmpRootAssigned := true;
      if setup.PrepareFails? {
        thrown := setup.error;
      } else {
        var collected := RunAndCollect(events, timeoutMs, output);
        if collected.Err? {
          thrown := collected.error;
        } else {
          // removal of the workspace, whose failure is only logged
          removals := removals + 1;
          workspaceLeft := removalThrows;
          if |collected.value| == 0 {
            response := Response(500, Failure(NoArtifactsMessage));
            return;
          }
          response := Response(200, Success(collected.value));
          return;
        }
      }
    }
    // } catch (err) {
    if tmpRootAssigned {
      removals := removals + 1;
      workspaceLeft := removalThrows;
    }
    response := Response(500, Failure(ErrorText(thrown)));
  }

  /**
   * Lines 97-222. The response is the one `ExpectedResponse` gives, whether
   * or not removing the workspace fails; a rejected body gets its 400
   * before any workspace exists, and an assigned `tmpRoot` is removed
   * exactly once.
   */
  method HandleCompile(body: Option<JsonValue>, setup: Setup, events: seq<Event>, timeoutMs: nat,
                       output: Output, removalThrows: bool)
    returns (response: Response, tmpRootAssigned: bool, removals: nat, workspaceLeft: bool)
    ensures response == ExpectedResponse(body, setup, events, timeoutMs, output)
    ensures tmpRootAssigned <==> CreatesWorkspace(body, setup)
    ensures removals == if tmpRootAssigned then 1 else 0
    ensures workspaceLeft <==> tmpRootAssigned && removalThrows
  {
    var validation := Validate(body);
    if validation.Rejected? {
      return Response(400, Failure(validation.message)), false, 0, false;
    }
    response, tmpRootAssigned, removals, workspaceLeft :=
      CompileSubmission(validation.submission, setup, events, timeoutMs, output, removalThrows);
  }

  /** Once the workspace is prepared, the response depends only on the run and the output directory. */
  lemma PreparedRequestsReachTheRun(body: Option<JsonValue>, setup: Setup, events: seq<Event>, timeoutMs: nat, output: Output)
    requires CreatesWorkspace(body, setup) && setup.Prepared?
    ensures ExpectedResponse(body, setup, events, timeoutMs, output) == AfterRun(Awaited(events, timeoutMs), output)
  {
    var v := Validate(body);
    assert ExpectedResponse(body, setup, events, timeoutMs, output) == AfterValidation(v.submission, setup, events, timeoutMs, output);
  }

  // ---------------------------------------------------------------------
  // Properties of the outcome mapping
  // ---------------------------------------------------------------------

  /** Every response is 200 with `ok: true`, or 400 or 500 with `ok: false`. */
  lemma StatusAndEnvelopeAgree(body: Option<JsonValue>, setup: Setup, events: seq<Event>, timeoutMs: nat, output: Output)
    ensures var r := ExpectedResponse(body, setup, events, timeoutMs, output);
            (r.status == 200 || r.status == 400 || r.status == 500)
            && (r.body.Success? <==> r.status == 200)
  {
  }

  /**
   * A body that is not an object with a string `code` gets 400 with the
   * "Invalid request body" message; a whitespace-only `code` gets 400 with
   * the "non-empty string" message; 400 arises in no other case, and never
   * with a workspace.
   */
  lemma BadRequestsGet400(body: Option<JsonValue>, setup: Setup, events: seq<Event>, timeoutMs: nat, output: Output)
    ensures var r := ExpectedResponse(body, setup, events, timeoutMs, output);
            && (!HasStringCode(body) ==> r == Response(400, Failure(InvalidBodyMessage)))
            && (HasStringCode(body) && AllWhitespace(Request.Code(body)) ==> r == Response(400, Failure(EmptyCodeMessage)))
            && (r.status == 400 <==> !HasStringCode(body) || AllWhitespace(Request.Code(body)))
            && (r.status == 400 ==> !CreatesWorkspace(body, setup))
  {
    match Validate(body)
    case Rejected(message) =>
      assert ExpectedResponse(body, setup, events, timeoutMs, output) == Response(400, Failure(message));
    case Accepted(submission) =>
      assert ExpectedResponse(body, setup, events, timeoutMs, output) == AfterValidation(submission, setup, events, timeoutMs, output);
  }

  /**
   * 200 is given exactly when every step succeeded and the filter kept at
   * least one artifact; the files returned are then exactly the kept ones.
   */
  lemma SuccessIffArtifacts(body: Option<JsonValue>, setup: Setup, events: seq<Event>, timeoutMs: nat, output: Output)
    ensures var r := ExpectedResponse(body, setup, events, timeoutMs, output);
            r.status == 200 <==>
              && Validate(body).Accepted?
              && SafeFilename(Validate(body).submission.filename).Ok?
              && setup.Prepared?
              && Awaited(events, timeoutMs).Resolved?
              && output.Readable?
              && ContractArtifacts(Collected(output.dir)) != map[]
    ensures var r := ExpectedResponse(body, setup, events, timeoutMs, output);
            r.status == 200 ==> r.body.files == ContractArtifacts(Collected(output.dir))
  {
    var o := Awaited(events, timeoutMs);
    assert o.Resolved? <==> !o.Rejected();
  }

  /**
   * A file name that `path.basename` reduces to `.` or `..` never compiles:
   * the workspace is created and removed, and the answer is a 500.
   */
  lemma DotNamesNeverCompile(body: Option<JsonValue>, setup: Setup, events: seq<Event>, timeoutMs: nat, output: Output)
    requires SavesUnderDotName(body) && SetupFits(body, setup)
    ensures ExpectedResponse(body, setup, events, timeoutMs, output).status == 500
    ensures CreatesWorkspace(body, setup) <==> !setup.MkdtempFails?
  {
    var v := Validate(body);
    assert ExpectedResponse(body, setup, events, timeoutMs, output)
           == AfterValidation(v.submission, setup, events, timeoutMs, output);
  }

  /** Lines 190-210: a run that resolved but left no `.arc32.json` or `.arc4.json` file is answered with a 500. */
  lemma NoArtifactsAfterRun(outcome: RunOutcome, dir: Option<seq<Node>>)
    requires outcome.Resolved?
    requires forall key :: key in Collected(dir) ==> !IsContractArtifact(key)
    ensures AfterRun(outcome, Readable(dir)) == Response(500, Failure(NoArtifactsMessage))
  {
    assert ContractArtifacts(Collected(dir)) == map[];
  }

  /** A compiler run that succeeded but left no `.arc32.json` or `.arc4.json` file is still a 500. */
  lemma NoArtifactsIsFailure(body: Option<JsonValue>, setup: Setup, events: seq<Event>, timeoutMs: nat, dir: Option<seq<Node>>)
    requires CreatesWorkspace(body, setup) && setup.Prepared?
    requires Awaited(events, timeoutMs).Resolved?
    requires forall key :: key in Collected(dir) ==> !IsContractArtifact(key)
    ensures ExpectedResponse(body, setup, events, timeoutMs, Readable(dir)) == Response(500, Failure(NoArtifactsMessage))
  {
    PreparedRequestsReachTheRun(body, setup, events, timeoutMs, Readable(dir));
    NoArtifactsAfterRun(Awaited(events, timeoutMs), dir);
  }

  /** Lines 181-187 and 211-221: a rejected run is answered with a 500 carrying the rejection's message. */
  lemma RejectedRunReported(outcome: RunOutcome, output: Output)
    requires outcome.Rejected()
    ensures AfterRun(outcome, output) == Response(500, Failure(ErrorText(Rejection(outcome))))
  {
  }

  /** A non-zero exit, with no marker on stderr and nothing decisive before it, is what the handler awaits. */
  lemma NonZeroExitAwaited(before: seq<Event>, n: int, timeoutMs: nat)
    requires forall k :: 0 <= k < |before| ==> !Decisive(before[k])
    requires n != 0 && !Contains(StderrOf(before), SuppressedMarker)
    ensures Awaited(before + [Close(Code(n))], timeoutMs) == ExitRejected(Code(n), StderrOf(before))
  {
    var events := before + [Close(Code(n))];
    FirstDecisiveUnique(before, |before|);
    OutcomeStep(before, Close(Code(n)), timeoutMs);
    assert OutcomeOf(events, timeoutMs) == ExitRejected(Code(n), StderrOf(before));
    SettlesOnce(events, [TimerExpired], timeoutMs);
  }

  /** Lines 62-72 and 211-221: an exit rejection is answered with a 500 whose error ends with all of the captured stderr. */
  lemma ExitRejectedAnswered(n: int, stderr: string, output: Output)
    ensures var r := AfterRun(ExitRejected(Code(n), stderr), output);
            r.status == 500 && r.body.Failure? && EndsWith(r.body.error, stderr)
  {
    var o := ExitRejected(Code(n), stderr);
    RejectedRunReported(o, output);
    var message := Rejection(o).message;
    assert message == ("Process exited with code " + ExitCodeText(Code(n)) + "\n") + stderr;
  }

  /** A child that never settles the call is timed out by the timer, with its stderr so far. */
  lemma SilentChildAwaited(events: seq<Event>, timeoutMs: nat)
    requires forall k :: 0 <= k < |events| ==> !Decisive(events[k])
    ensures Awaited(events, timeoutMs) == TimedOut(timeoutMs, StderrOf(events))
  {
    FirstDecisiveUnique(events, |events|);
    TimerSettles(events, timeoutMs);
  }

  /** Lines 51-55 and 211-221: the timeout is answered with a 500 naming the limit and carrying the stderr so far. */
  lemma TimeoutAnswered(timeoutMs: nat, stderr: string, output: Output)
    ensures AfterRun(TimedOut(timeoutMs, stderr), output)
            == Response(500, Failure("Process timed out after " + NatToDecimal(timeoutMs) + "ms\n" + stderr))
  {
    var o := TimedOut(timeoutMs, stderr);
    RejectedRunReported(o, output);
    var message := "Process timed out after " + NatToDecimal(timeoutMs) + "ms\n" + stderr;
    assert Rejection(o).message == message;
    assert message[0] == 'P';
  }

  /** With `TEALSCRIPT_TIMEOUT_MS` unset (line 11), the timeout is answered with a message naming 20000 ms. */
  lemma DefaultTimeoutAnswered(stderr: string, output: Output)
    ensures AfterRun(TimedOut(DefaultTimeoutMs, stderr), output)
            == Response(500, Failure("Process timed out after 20000ms\n" + stderr))
  {
    TimeoutAnswered(DefaultTimeoutMs, stderr, output);
    DefaultTimeoutDigits();
    assert "Process timed out after " + "20000" + "ms\n" == "Process timed out after 20000ms\n";
  }

  /** A child that never settles the call before the deadline is killed and reported as a timeout with its stderr so far. */
  lemma SilentChildTimesOut(body: Option<JsonValue>, setup: Setup, events: seq<Event>, timeoutMs: nat, output: Output)
    requires CreatesWorkspace(body, setup) && setup.Prepared?
    requires forall k :: 0 <= k < |events| ==> !Decisive(events[k])
    ensures ExpectedResponse(body, setup, events, timeoutMs, output)
            == Response(500, Failure("Process timed out after " + NatToDecimal(timeoutMs) + "ms\n" + StderrOf(events)))
  {
    PreparedRequestsReachTheRun(body, setup, events, timeoutMs, output);
    SilentChildAwaited(events, timeoutMs);
    TimeoutAnswered(timeoutMs, StderrOf(events), output);
  }

  /** A clean exit with nothing decisive before it resolves with the captured output. */
  lemma CleanExitAwaited(before: seq<Event>, timeoutMs: nat)
    requires forall k :: 0 <= k < |before| ==> !Decisive(before[k])
    ensures Awaited(before + [Close(Code(0))], timeoutMs) == Resolved(StdoutOf(before), StderrOf(before))
  {
    var events := before + [Close(Code(0))];
    FirstDecisiveUnique(before, |before|);
    OutcomeStep(before, Close(Code(0)), timeoutMs);
    assert OutcomeOf(events, timeoutMs) == Resolved(StdoutOf(before), StderrOf(before));
    SettlesOnce(events, [TimerExpired], timeoutMs);
  }

  /** One chunk on each stream and then `close(0)` resolves with those two chunks. */
  lemma CleanRunAwaited(stdout: string, stderr: string, timeoutMs: nat)
    ensures Awaited([StdoutData(stdout), StderrData(stderr), Close(Code(0))], timeoutMs) == Resolved(stdout, stderr)
  {
    var before := [StdoutData(stdout)] + [StderrData(stderr)];
    StreamsAppend([StdoutData(stdout)], [StderrData(stderr)]);
    StreamsOfOne(StdoutData(stdout));
    StreamsOfOne(StderrData(stderr));
    CleanExitAwaited(before, timeoutMs);
    assert before + [Close(Code(0))] == [StdoutData(stdout), StderrData(stderr), Close(Code(0))];
  }

  /**
   * An output directory holding one text file yields exactly that file,
   * stored as UTF-8 under its name; a file named `__proto__` yields no entry.
   */
  lemma SingleFileCollected(name: string, text: string, b64: string)
    ensures Collected(Some([File(name, Some(text), b64)]))
            == if name == ProtoKey then map[] else map[name := Artifact(Utf8, text)]
  {
    var nodes := [File(name, Some(text), b64)];
    var w := Write(name, Artifact(Utf8, text));
    assert Writes(nodes, "") == [w] by {
      assert nodes[1..] == [];
    }
    assert [w][1..] == [];
    assert Store(map[], [w]) == Assign(map[], w);
    if name != ProtoKey {
      assert Assign(map[], w) == map[name := Artifact(Utf8, text)];
    }
  }

  /** Lines 181-210 for that run: the one artifact is returned with a 200. */
  lemma SingleArtifactAfterRun(stdout: string, stderr: string, name: string, text: string, b64: string, timeoutMs: nat)
    requires IsContractArtifact(name)
    ensures AfterRun(Awaited([StdoutData(stdout), StderrData(stderr), Close(Code(0))], timeoutMs),
                     Readable(Some([File(name, Some(text), b64)])))
            == Response(200, Success(map[name := Artifact(Utf8, text)]))
  {
    var files := map[name := Artifact(Utf8, text)];
    CleanRunAwaited(stdout, stderr, timeoutMs);
    assert name != ProtoKey by {
      assert |ProtoKey| < |Arc4Suffix| < |Arc32Suffix|;
    }
    SingleFileCollected(name, text, b64);
    assert ContractArtifacts(files) == files;
  }

  /**
   * A valid request whose compiler writes one known artifact as text gets
   * 200 with exactly that one entry, as UTF-8, holding the text.
   */
  lemma SingleArtifactRoundTrip(code: string, stdout: string, stderr: string, name: string, text: string, b64: string,
                                timeoutMs: nat)
    requires !AllWhitespace(code)
    requires IsContractArtifact(name)
    ensures var body := Some(JObject(map["code" := JString(code)]));
            var events := [StdoutData(stdout), StderrData(stderr), Close(Code(0))];
            var dir := Some([File(name, Some(text), b64)]);
            ExpectedResponse(body, Prepared, events, timeoutMs, Readable(dir))
            == Response(200, Success(map[name := Artifact(Utf8, text)]))
  {
    var body := Some(JObject(map["code" := JString(code)]));
    var events := [StdoutData(stdout), StderrData(stderr), Close(Code(0))];
    var dir := Some([File(name, Some(text), b64)]);
    ValidateDefaultsFilename(code);
    assert CreatesWorkspace(body, Prepared);
    PreparedRequestsReachTheRun(body, Prepared, events, timeoutMs, Readable(dir));
    SingleArtifactAfterRun(stdout, stderr, name, text, b64, timeoutMs);
  }
}
