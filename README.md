# TealScript compile server: the `/compile` endpoint

The server accepts `POST /compile` with a JSON body `{ code, filename? }`.
It checks the body and reduces the file name to a safe base name. It
creates a temporary workspace, writes the source into it and runs the
TealScript compiler as a child process with a timeout. It then collects
every file of the output directory, keeps the `.arc32.json` and
`.arc4.json` artifacts, removes the workspace and answers with
`{ ok: true, files }` or `{ ok: false, error }`.

The model has six modules:

- `Text`: the JavaScript string operations the server uses. These are
  `includes` (a substring test), `endsWith`, `trim` with the ECMAScript
  whitespace set, and decimal rendering of numbers in template literals.
- `PosixPath`: `path.basename` with POSIX semantics, and `path.join` for
  the relative keys of the artifact walk.
- `Errors`: `Option`, `Result`, and a JavaScript `Error` as a name and a
  message. `err.message || String(err)` becomes `ErrorText`.
- `Request`: the JSON body as `express.json()` leaves it. It models the
  validation of lines 104-113 and the safe file name of line 115.
- `Runner`: `runCommand`. The child process is seen through the events
  that reach its listeners: output chunks, `error`, `close` and expiry of
  the timer. There is a reference semantics, `OutcomeOf`, where the first
  event that can settle the promise decides its value. There is also the
  event-driven closure state, the class `CommandRun`. `RunCommand` feeds
  the events to it and is proved equal to the reference semantics.
- `Artifacts`: `readAllFilesRecursively`/`walk` over a directory tree
  value, and the suffix filter. The walk is a method proved equal to a
  fold of writes (`Store` of `Writes`). The writes are in turn related to
  the tree's own list of regular files (`Files`). On a tree whose listings
  have distinct names that are non-empty, slash-free and neither `.` nor
  `..`, this gives one entry per regular file,
  keyed by its `/`-joined path. The one exception is a top-level file
  named `__proto__`: assigning that key on a plain object runs the
  inherited setter and creates no entry.
- `Handler`: the route handler. `HandleCompile` follows the code's
  try/catch flow. It is proved to give the response that the functional
  description `ExpectedResponse` gives. It is also proved to remove an
  assigned workspace exactly once on every path.

The outside world is reduced to inputs of `HandleCompile`:

- the parsed body;
- a `Setup` value saying whether `mkdtempSync` or a later preparation step
  throws;
- the child's events;
- the timeout;
- the output directory as a tree, or an error raised while reading it;
- whether removing the workspace throws.

The timer always expires at the end of the events. If nothing settled the
call before then, it times out.

The close handler tolerates a non-zero exit when the stderr gathered so
far contains `SuppressedError` anywhere. This is a substring test
(`includes`), not a test that stderr consists only of that error. The same
holds for the `error` listener, which drops any error whose message
mentions the marker. The model follows the code here
(`Runner.CloseToleratesMarkerAnywhere`).

## Model

| member | source | states |
|---|---|---|
| `Text.ContainsIffOccurs` | server.js:42 | `includes` holds exactly when the pattern occurs at some position of the string |
| `Text.ContainsInContext` | server.js:65 | any text before and after an occurrence never hides it from `includes` |
| `Text.TrimStart` | server.js:111 | the result is the suffix that starts at the first non-whitespace character; everything dropped is whitespace |
| `Text.TrimEnd` | server.js:111 | the result is the prefix that ends at the last non-whitespace character; everything dropped is whitespace |
| `Text.TrimEmptyIffAllWhitespace` | server.js:111 | `code.trim()` is empty exactly when every character of `code` is ECMAScript whitespace |
| `Text.NatToDecimal` | server.js:54 | a number renders as one or more decimal digits, without a leading zero unless it is 0 |
| `Text.DecimalRoundTrip` | server.js:54 | reading the rendered digits back gives the number, so distinct timeouts print differently |
| `Text.IntToDecimal` | server.js:66 | an exit code renders with a minus sign exactly when negative, followed by digits that read back as its magnitude |
| `PosixPath.StripTrailingSlashes` | server.js:115 | the result is a prefix of the input followed only by slashes, and does not itself end in `/` |
| `PosixPath.LastSegment` | server.js:115 | the result is a slash-free suffix preceded by `/` or the start |
| `PosixPath.LastSegmentUnique` | server.js:115 | only one suffix is slash-free and preceded by `/` or the start, so those properties determine the last segment |
| `PosixPath.BasenameIsLastComponent` | server.js:115 | `basename` gives a slash-free piece of the input, followed only by slashes and preceded by `/` or the start; it is empty exactly when the input is all slashes |
| `PosixPath.LastComponentUnique` | server.js:115 | at most one non-empty slash-free piece of a path is followed only by slashes and preceded by `/` or the start |
| `PosixPath.BasenameDropsDirectories` | server.js:115 | a path ending in a non-empty slash-free name gives that name |
| `PosixPath.BasenameKeepsDotNames` | server.js:115 | `".."` and `"."` are returned unchanged |
| `PosixPath.BasenameOfTraversal` | server.js:115 | `"../../etc/passwd"` gives `"passwd"` |
| `PosixPath.SplitJoin` | server.js:82 | splitting a `/`-joined list of one or more slash-free names at `/` gives back the list |
| `PosixPath.JoinPathInjective` | server.js:82 | different lists of one or more slash-free names join to different keys |
| `PosixPath.JoinRelativeThenPath` | server.js:81-83 | joining a base with a name and then with a further path equals joining the base with the longer path |
| `Request.Validate` | server.js:104-113 | accepted exactly when the body is an object with a string `code` that is not all whitespace; otherwise 400 with the matching one of the two messages; `code` is kept unchanged; the file name is the submitted one when truthy, otherwise the default |
| `Request.ValidateDefaultsFilename` | server.js:100-106 | a missing or empty `filename` gives the default `contract.algo.ts` |
| `Request.SafeFilename` | server.js:115 | a string gives a non-empty name without `/`: the default exactly when the input is all slashes, otherwise a last component of the input (slash-free, followed only by slashes, preceded by `/` or the start); a non-string throws the `TypeError` of `path.basename` |
| `Request.SafeFilenameIsLastComponent` | server.js:115 | any non-empty last component of the submitted name is exactly the saved name, so the default never replaces a non-empty basename |
| `Request.SafeFilenameExamples` | server.js:115 | directories are dropped, `".."` passes through, `"../../etc/passwd"` gives `"passwd"`, `"/"` gives the default |
| `Runner.DefaultTimeoutDigits` | server.js:11 | the default timeout of 20000 ms prints as `20000` |
| `Runner.StreamsAppend` | server.js:46-49 | each captured stream is the concatenation of its chunks in arrival order |
| `Runner.StreamsIndependent` | server.js:48-49 | a stderr chunk adds nothing to stdout, and a stdout chunk nothing to stderr |
| `Runner.SuppressedErrorKeepsStreams` | server.js:41-49 | an `error` event adds nothing to either stream |
| `Runner.OutcomeStep` | server.js:36-72 | one more event leaves a settled value unchanged; on a pending promise, a decisive event settles it with the output gathered so far |
| `Runner.SettlesOnce` | server.js:36-72 | once the promise has settled, no later events change its value |
| `Runner.TimerSettles` | server.js:51-55 | if the timer expires the promise has settled, and a still-pending call times out with the stderr gathered so far |
| `Runner.SuppressedErrorIgnored` | server.js:41-44 | removing an `error` whose message mentions `SuppressedError` from the history never changes the settled value |
| `Runner.ErrorRejectionIsReal` | server.js:41-60 | a rejection with an error carries an `error` event of the history that was not suppressed |
| `Runner.CloseToleratesMarkerAnywhere` | server.js:62-72 | any exit code resolves when the marker appears anywhere in stderr |
| `Runner.ExitRejectionReportsStderr` | server.js:62-70 | a non-zero exit without the marker rejects, and the message ends with all of stderr |
| `Runner.ErrorAfterTimeoutStep` | server.js:41-53 | an unhandled `error` arises exactly from an `error` event after the timeout removed the listeners |
| `Runner.CommandRun.constructor` | server.js:36-55 | both buffers are empty, the promise is pending, the timer is armed and the listeners are attached |
| `Runner.CommandRun.Settle` | server.js:36 | only the first `resolve` or `reject` has an effect |
| `Runner.CommandRun.Deliver` | server.js:41-72 | one event's listeners: chunks are appended; the value changes as the reference semantics says; the invariant holds (timer armed iff pending, killed iff timed out, listeners attached iff not killed); an `error` after the kill is unhandled |
| `Runner.RunCommand` | server.js:35-74 | the settled value, both streams, the kill and the unhandled error are those of the reference semantics on the same events |
| `Artifacts.Assign` | server.js:86-88 | `out[rel] = …` on a plain object: the key is added or overwritten and every other entry is kept, except that `__proto__` runs the inherited setter and leaves the own entries unchanged |
| `Artifacts.Walk` | server.js:79-92 | the walk leaves `out` as the fold of the stores its entries produce, in order; a store under `__proto__` creates no entry |
| `Artifacts.ReadAllFilesRecursively` | server.js:76-95 | a missing directory gives `{}`; otherwise the result is the walk from the directory with an empty base, stores under `__proto__` included as no-ops |
| `Artifacts.WritesAppend` | server.js:80-91 | the stores of two listings in a row are those of the first followed by those of the second |
| `Artifacts.FilesDistinct` | server.js:79-92 | in a tree whose listings have distinct, slash-free names, every regular file has its own path of slash-free names |
| `Artifacts.WritesFollowFiles` | server.js:79-92 | the walk stores exactly the tree's regular files, in order, each under the base joined with its path, with what reading it yields |
| `Artifacts.TopLevelWrites` | server.js:79-93 | from the top, the stores are one per file, keyed by the file's `/`-joined path, and no two share a key |
| `Artifacts.TopLevelKeys` | server.js:79-93 | from the top, the keys stored are exactly the files' joined paths, one distinct path per file |
| `Artifacts.CollectedFiles` | server.js:76-95 | on a well-formed tree, the files' joined paths are distinct, the result's keys are exactly those paths other than `__proto__`, and each holds the UTF-8 text or else the base64 rendering of its file |
| `Artifacts.FilePathShape` | server.js:79-92 | a file's path has one name only for an entry of the top directory, under that entry's name, and every top-level regular file has such a path |
| `Artifacts.ProtoPathIsTopLevelFile` | server.js:82-88 | some file has the path `__proto__` exactly when the top directory holds a regular file of that name; every file with that path is a top-level entry named `__proto__`, and no file below a subdirectory has it, so with `CollectedFiles` every such file gets its own entry |
| `PosixPath.SlashFreeJoinIsOneName` | server.js:82 | a joined path without `/` is made of a single name |
| `Artifacts.CollectedKeysAreFilePaths` | server.js:76-95 | every key of the result is the path of a regular file; directories and other entries are never keys |
| `Artifacts.FilterArtifacts` | server.js:190-196 | the kept keys are exactly those ending in `.arc32.json` or `.arc4.json`, with their values unchanged |
| `Artifacts.FilterIdempotentAndShrinking` | server.js:190-196 | filtering twice is filtering once, and the result is a sub-map of the input |
| `Handler.Awaited` | server.js:182 | the awaited call is always settled once the timer has expired |
| `Handler.Finish` | server.js:205-210 | an empty filtered map gives 500 with the "No ... produced" message; a non-empty one gives 200 with exactly those files |
| `Handler.AfterRun` | server.js:181-210 | 200 exactly when the run resolved, the output was readable and the filter kept something; otherwise 500 |
| `Handler.AfterValidation` | server.js:115-221 | every accepted submission is answered 200 with `ok: true` or 500 with `ok: false` |
| `Handler.RunAndCollect` | server.js:181-196 | throws exactly when the run rejected or the output could not be read; otherwise yields the filtered artifacts; either way it determines the response |
| `Handler.CompileSubmission` | server.js:115-221 | the try/catch flow gives the functional response; `tmpRoot` is assigned exactly when the name is a string and `mkdtempSync` succeeds; an assigned workspace is removed exactly once, and is left behind only when that removal throws |
| `Handler.HandleCompile` | server.js:97-222 | the response is the one `ExpectedResponse` gives, whether or not removal fails; a rejected body never creates a workspace |
| `Handler.PreparedRequestsReachTheRun` | server.js:175-210 | once the workspace is prepared, the response depends only on the run and the output directory |
| `Handler.StatusAndEnvelopeAgree` | server.js:97-222 | every status is 200, 400 or 500, and `ok` is true exactly for 200 |
| `Handler.BadRequestsGet400` | server.js:104-113 | a non-object body or a non-string `code` gets the "Invalid request body" 400; a whitespace-only `code` gets the "non-empty string" 400; 400 arises in no other case and never with a workspace |
| `Handler.SuccessIffArtifacts` | server.js:97-222 | 200 exactly when validation, the file name, the preparation, the run and the read all succeed and the filter kept at least one artifact; the files returned are then exactly the kept ones |
| `Handler.DotNamesNeverCompile` | server.js:115-148 | a file name reduced to `.` or `..` never compiles: with a setup that agrees with line 148, the workspace is created exactly when `mkdtempSync` succeeds and the answer is a 500 |
| `Handler.NoArtifactsAfterRun` | server.js:205-207 | a resolved run without `.arc32.json`/`.arc4.json` files gives 500 with the "No ... produced" message |
| `Handler.NoArtifactsIsFailure` | server.js:190-207 | the same for a whole request that reached the run |
| `Handler.RejectedRunReported` | server.js:211-221 | a rejected run gives 500 carrying the rejection's message |
| `Handler.NonZeroExitAwaited` | server.js:62-70 | a non-zero exit, with nothing decisive before it and no marker on stderr, is the awaited rejection, carrying that stderr |
| `Handler.ExitRejectedAnswered` | server.js:62-72 | an exit rejection is answered 500 with an error that ends with all of the captured stderr |
| `Handler.SilentChildAwaited` | server.js:51-55 | a child that settles nothing before the deadline times out with its stderr so far |
| `Handler.TimeoutAnswered` | server.js:51-55 | a timeout is answered 500 with "Process timed out after N ms", a newline and the stderr |
| `Handler.DefaultTimeoutAnswered` | server.js:51-55 | with the default timeout, the answer is 500 with "Process timed out after 20000ms", a newline and the stderr |
| `Handler.SilentChildTimesOut` | server.js:51-55 | a prepared request whose child settles nothing gets that timeout response |
| `Handler.CleanExitAwaited` | server.js:62-72 | after any events of which none settles the promise, exit code 0 resolves with all the stdout and stderr captured so far |
| `Handler.CleanRunAwaited` | server.js:62-72 | one stdout chunk, one stderr chunk and `close(0)` resolve with exactly those two strings |
| `Handler.SingleFileCollected` | server.js:76-95 | a directory with one readable file gives exactly one UTF-8 entry under its name, or `{}` when that name is `__proto__` |
| `Handler.SingleArtifactAfterRun` | server.js:181-210 | after a clean exit, that one artifact is returned with 200 |
| `Handler.SingleArtifactRoundTrip` | server.js:97-222 | a body `{ code }` with non-blank code, a clean compiler run and one artifact file gives 200 with exactly that file as UTF-8 |

## Left out

- Express itself is not part of this model: routing, the body parser, the raw-body capture, the body size limit, the request log and the JSON serialisation of the response (key order included). The body arrives already parsed, as `None` when there is none.
- JSON numbers are integers here, and a non-empty string, non-zero number, array or object is truthy. Floating-point values such as `NaN` are not modelled.
- Real processes, signals and timers are not modelled. The child is the sequence of events its listeners receive. `SIGKILL` is the `killed` flag. Spawning `npx` with its arguments and environment is not modelled, because it affects only which events occur.
- The timeout constant is a parameter. Reading `TEALSCRIPT_TIMEOUT_MS` from the environment (line 11) is not modelled; `Runner.DefaultTimeoutMs` records its default.
- Workspace preparation (lines 116-172) is one `Setup` value: the UUID, `mkdtempSync`, the directories, the template copies, the source write and the nested `tsconfig.json`. Only whether `mkdtempSync` or a later step throws, and with which error, matters to the response. The directory name and the file contents are not modelled.
- `Handler.HandleCompile` takes `Setup` as an input independent of the saved name. For the names `.` and `..`, which line 115 lets through, the write at line 148 targets a directory and throws, so such a request cannot reach `Prepared`. `HandleCompile` does not enforce this; the predicate `Handler.SetupFits` states the constraint, and `Handler.DotNamesNeverCompile` proves that every request meeting it gets a 500. The text of the error thrown (it names the random workspace path) is not modelled.
- The filesystem is not modelled. The output directory is a tree value, or an `Unreadable` error raised while walking it. The error thrown when the base64 fallback read also fails is one of those errors.
- `Artifacts.CollectedFiles`, `Artifacts.TopLevelWrites`, `Artifacts.TopLevelKeys`, `Artifacts.FilesDistinct`, `Artifacts.WritesFollowFiles` and `Artifacts.CollectedKeysAreFilePaths` assume a well-formed tree (`WellFormed`): names in one listing are distinct, non-empty, free of `/` and not `.` or `..`. On disk the names of one directory are distinct, but Node decodes names that are not valid UTF-8 lossily (with U+FFFD), so two listed names can arrive equal; such trees are still walked by `Artifacts.Walk` (the later store wins, as in JavaScript), only these lemmas do not describe them. `path.join` normalisation of `.`, `..` and empty names is not modelled.
- Object property order is not modelled. The collected and filtered objects are maps, so the insertion order of `Object.entries` is not kept. The other difference between a plain object and a map, the inherited `__proto__` setter, is modelled by `Artifacts.Assign`; it is the only accessor property `Object.prototype` has, so no other file name behaves differently.
- The full `TypeError` text that `path.basename` throws for a non-string file name is not modelled. Node appends a description of the received value; only the fixed first sentence is kept.
- Strings are sequences of Unicode scalar values, not UTF-16 code units.
- Logging (`console.log`, `console.warn`, `console.error`) is not modelled, including the warnings for a failed workspace removal. Such a failure is the `workspaceLeft` result.
- Concurrent requests are not modelled. Each call of `HandleCompile` is one request on its own.
- Node throws an `error` emitted after the timeout removed the listeners as an unhandled exception, which ends the process. `RunCommand` reports it as `uncaughtError`, but `HandleCompile` still answers with the timeout response that was already settled.
- The startup of the server (`app.listen`) is not modelled.
