# packit-service dispatcher and status reporter, modelled in Dafny

This project models the two central pieces of the packit-service worker:

- **The job dispatcher** (packit_service/worker/jobs.py). It covers:
  - the `/packit` comment-command parser,
  - matching an event against a repository's package configuration to find the job handlers to run,
  - resolving each handler's job configurations,
  - `SteveJobs.process_jobs`: the allow-list gate and the submission of one task group per handler,
  - `SteveJobs.process_message`: topic pre-filter, parsing, the private-namespace check, and the installation and Pagure-label special cases.
- **The status reporter** (packit_service/worker/reporting.py, `StatusReporter`). It covers:
  - setting commit statuses, including the Pagure URL fix-up,
  - the GitLab/GitHub error policy and the commit-comment fallback,
  - mirroring a status as a Pagure pull-request flag,
  - the table comment,
  - plain comments.

Modules:

| file | module | contents |
|---|---|---|
| base.dfy | `Base` | `Option`, subsequences, `Filter`, Python's `split("\n")` and `"\n".join` |
| events.dfy | `Events` | job configurations, events, projects, the handler registry |
| comment_parser.dfy | `CommentParser` | `get_packit_commands_from_comment` |
| matcher.dfy | `Matcher` | `get_handlers_for_event`, `get_handlers_for_comment`, `get_config_for_handler_kls` |
| dispatcher.dfy | `Dispatcher` | `process_jobs`, `process_message` |
| reporting.dfy | `Reporting` | `StatusReporter` |

Handler classes are a type parameter `H`. The static tables live in a `Registry`:
- `MAP_JOB_TYPE_TO_HANDLER`
- `MAP_REQUIRED_JOB_TYPE_TO_HANDLER`
- `SUPPORTED_EVENTS_FOR_HANDLER`
- `MAP_COMMENT_TO_HANDLER`
- the handler topics

Python iterates a set of handler classes in an unspecified order. The model represents that order as `Registry.iterate`, which `ValidRegistry` requires to visit each member exactly once.

Celery is modelled as a recorded list of submissions. The forge (ogr) is modelled as an oracle. Every reporter operation returns the forge calls it made, in order, and whether it returned or raised. In `set_status`, an exception other than a GitHub exception or a GitLab create error with code 400, 403 or 404 propagates unchanged, after the fallback comment where one applies. The commit states are ogr's `CommitStatus` members. ogr is not part of this model, so their names ("pending", "success", "failure", "error", "canceled", "running") are taken as given. They fix the state line of the fallback comment and, upper-cased, the table rows.

## Model

| member | source | states |
|---|---|---|
| CommentParser.Commands | packit_service/worker/jobs.py:128-152 | At most three command words. Each is non-empty and starts with a non-space. The first two contain no whitespace. A blank comment, or one without `/packit`, has no commands. |
| CommentParser.SplitShape | packit_service/worker/jobs.py:141 | `split(maxsplit=k)` gives at most `k + 1` pieces. Each piece is a word, and the first `k` contain no whitespace. There are no pieces exactly when only whitespace is left. |
| CommentParser.SplitRender | packit_service/worker/jobs.py:141 | Round trip of the split. Well-formed words joined by single spaces split back into exactly those words, wherever the text starts. |
| CommentParser.ParseRender | packit_service/worker/jobs.py:128-152 | Round trip. Text without the marker, then `/packit`, a space and a well-formed command of one to three words, parses back to exactly those words. |
| CommentParser.FirstMarkerAfter | packit_service/worker/jobs.py:135 | `find` returns the first occurrence. After marker-free text, the marker is found right where it is placed. |
| CommentParser.GluedMarker | packit_service/worker/jobs.py:141-146 | Only the first `/packit` counts. If it is glued to further text, the comment has no command, even when a valid one follows. |
| CommentParser.MarkerAlone | packit_service/worker/jobs.py:148-150 | `/packit` followed only by whitespace has no command. |
| CommentParser.ExampleRemainder | packit_service/worker/jobs.py:141 | With `maxsplit=3`, the third argument keeps the rest of the line: `/packit a b c d` gives `a`, `b`, `c d`. |
| CommentParser.ExampleBuild | packit_service/worker/jobs.py:128-152 | `/packit build` gives `build`. |
| CommentParser.ExampleNoMarker | packit_service/worker/jobs.py:135-139 | `random text` gives no command. |
| CommentParser.ExampleGlued | packit_service/worker/jobs.py:141-146 | `/packitbuild` gives no command. |
| Matcher.UniqueMatching | packit_service/worker/jobs.py:86-92 | The kept jobs have no repetitions and keep the earlier list as a prefix. A job is kept iff it was already kept, or it is configured and has the event's trigger. |
| Matcher.HandlersForComment | packit_service/worker/jobs.py:155-163 | No handlers without a command. Otherwise the handlers bound to the first command word. A comment that never mentions `/packit` selects no handler. |
| Matcher.HandlersForCommand | packit_service/worker/jobs.py:155-163 | A comment of marker-free text, then `/packit`, a space and a well-formed command selects exactly the handlers bound to the command's first word. |
| Matcher.Collect | packit_service/worker/jobs.py:108-118 | A handler is collected iff it supports the event kind, passes the comment restriction, and some job brings it in directly or as a requirement. |
| Matcher.HandlersForEvent | packit_service/worker/jobs.py:68-125 | Sound: each handler supports the event and is brought in by a job with the event's trigger. Complete for non-comment events. For the five comment events, exactly the configured handlers of the comment's command. |
| Matcher.CommentWithoutHandlers | packit_service/worker/jobs.py:94-105 | A comment event without a command, or with an unbound command, runs no handler whatever the configuration. |
| Matcher.ConfigsForHandler | packit_service/worker/jobs.py:166-210 | Result: an order-preserving subsequence of the configured jobs, all with the event's trigger. These are the jobs mapped directly to the handler or, if there are none, the jobs requiring it. Duplicates are kept with their multiplicity. |
| Matcher.MatchedHandlerHasConfigs | packit_service/worker/jobs.py:166-210 | Every matched handler gets at least one job configuration. |
| Dispatcher.RunHandlers | packit_service/worker/jobs.py:256-291 | The loop submits the groups of a prefix of the handler order. It completes iff every handler is allowed. Otherwise it stops at the first rejected handler, before submitting its group. |
| Dispatcher.ProcessJobs | packit_service/worker/jobs.py:228-303 | No configuration gives one neutral success. No matching handler gives nothing. Without rejection there is one group per handler, in order, and successes for the last handler's configurations. A rejection gives failures for the rejected handler's configurations. |
| Dispatcher.OneGroupPerHandler | packit_service/worker/jobs.py:256-291 | Without rejection, exactly one distinct group per matched handler is submitted, and nothing else. |
| Dispatcher.RejectionAborts | packit_service/worker/jobs.py:266-283 | A rejection returns only "not allowlisted" failures. Neither the rejected handler nor any later one gets a group. |
| Dispatcher.ProcessMessage | packit_service/worker/jobs.py:305-398 | Drops an unknown topic, an unparsable or pre-check-failing event, and a private project outside the enabled namespaces. Installation and label events get a single signature without a job and one success. Everything else is exactly `process_jobs`. |
| Dispatcher.NoDefaultForEmptyDispatch | packit_service/worker/jobs.py:387-396 | When `process_jobs` matches nothing, `process_message` adds no default success. |
| Reporting.ProjectWithCommit | packit_service/worker/reporting.py:52-64 | A GitLab merge request resolves to its source project, anything else to the project itself. The lookup happens only then. Once resolved, the value is cached. |
| Reporting.ProjectWithCommitCached | packit_service/worker/reporting.py:57-64 | A second resolution returns the same project and makes no forge call. |
| Reporting.MirrorToPullRequest | packit_service/worker/reporting.py:94-111 | With a pull request id, the pull request is looked up first. A flag follows iff the pull request takes flags and its head is the reported commit. The flag's uid is the MD5 of the check name. |
| Reporting.SetStatus | packit_service/worker/reporting.py:153-192 | The calls come in the source's order: the lookup of the project holding the commit, the status call, the fallback comment, then the mirroring unless something was raised. Every call is for this check, with its state, description and fixed-up URL. Raises iff the error is neither a GitHub error nor a GitLab 400/403/404, and then with that error. |
| Reporting.SetStatusCalls | packit_service/worker/reporting.py:153-192 | Exactly one status call, for this check, on the commit, with Pagure's empty URL replaced. The fallback comment is posted iff GitHub failed or GitLab failed with a code other than 400. The pull request is flagged iff nothing was raised and the flag applies. No pull-request comment and no status query is made. |
| Reporting.FallbackBodyLines | packit_service/worker/reporting.py:135-151 | The fallback comment lists the name, the state, the URL or "not provided", an empty line, then the description. |
| Reporting.ReportEach | packit_service/worker/reporting.py:89-92 | One status per check name, in order. On a return, no name's status error propagates. On a raise, the last reported name is the first whose error propagates, and the loop raises that error. Each reported name posts its fallback comment iff its error falls back, and gets its flag iff it did not raise and the flag applies, in order. Every call, including fallback comments and flags, is one `set_status` makes for one of the names, with the given state, description and URL. |
| Reporting.ReportReturnsIff | packit_service/worker/reporting.py:89-92 | The loop returns iff no name's status error propagates. |
| Reporting.Report | packit_service/worker/reporting.py:66-92 | A falsy argument makes no call. A single name is treated as a one-element list. The checks set are the names in order, or a non-empty prefix of them when a call raised. A raise carries the error of the last reported name, the first whose error propagates. Each reported name's fallback comment and flag appear as `set_status` makes them. Every call carries the given state, description and URL and is for one of the names. |
| Reporting.ReportWithoutErrors | packit_service/worker/reporting.py:66-92 | When the forge accepts every status, every name is reported and nothing raises. |
| Reporting.Comment | packit_service/worker/reporting.py:197-201 | Comments on the pull request when its id is set and non-zero, otherwise on the commit. |
| Reporting.TableBodyLines | packit_service/worker/reporting.py:127-133 | The table comment's lines are the two header lines, one row per check in order, the description heading, an empty line, then the description. |
| Reporting.ReportStatusByComment | packit_service/worker/reporting.py:113-133 | `None` raises before any call. A single name is a one-element list. The body is the status table. |
| Reporting.StatusTablePosted | packit_service/worker/reporting.py:113-133 | The comment the reporter posts contains the whole table, row by row. |
| Reporting.GetStatusesAsWritten | packit_service/worker/reporting.py:194-195 | The caller always receives `None`. |
| Reporting.GetStatusesLosesStatuses | packit_service/worker/reporting.py:194-195 | Even when the commit has statuses, none are returned. |
| Reporting.GetStatuses | packit_service/worker/reporting.py:194-195 | As intended: returns the statuses of the commit on the project that holds it, fetched by the last call. |

## Left out

- Logging, and the debug messages in every branch.
- Celery execution: submissions are recorded, not run.
- How `Allowlist.check_and_report` decides and what it reports: the gate is a parameter.
- The contents of the registry tables. They are registered by decorators in handler modules that are not part of this model; the registry is a parameter.
- The Python set iteration order over handler classes: `Registry.iterate` is any order that visits each handler once.
- The event class hierarchy behind `isinstance`: `SUPPORTED_EVENTS_FOR_HANDLER` is taken as already closed under it.
- The event's database trigger (`db_trigger.job_config_trigger_type`), which is an event field here.
- `CommentParser.Commands`: whitespace covers only the ASCII and Latin-1 characters `str.split` treats as whitespace, not the rest of Unicode.
- The event parsers (`Parser.parse_event`, `CentosEventParser`) and `pre_check` are parameters of the model.
- `is_private()` is a field of the project.
- `Reporting.SetStatus`: comments and flags are assumed never to fail, and `trim=True` is not modelled.
- `Reporting.SetStatus`: `get_pr` is assumed never to raise, both when resolving the project holding the commit and when mirroring. In the source such an error would skip the fallback comment and the flag and propagate. `Forge.getPr` is a total function.
- `Reporting.Comment`: `get_pr` and the comment calls are assumed never to raise, so the outcome is always a return.
- `Reporting.ProjectWithCommit`: the `get_pr` lookup is assumed never to raise.
- `hashlib.md5` is an oracle (`Forge.md5Hex`), so the uid property is stated for equal check names only.
- `str.upper()` is modelled on ASCII only, which covers the enum member names. The names are ogr's `CommitStatus` members, taken as given because ogr is not part of this model.

`process_message` adds its default success only when `processing_results` is `None`, that is, when no job processing took place (packit_service/worker/jobs.py:388-396). An empty list from `process_jobs` is returned unchanged (`Dispatcher.NoDefaultForEmptyDispatch`).

## Findings

| source | as written | input that shows it | evidently intended | confidence | as-written member | corrected member |
|---|---|---|---|---|---|---|
| packit_service/worker/reporting.py:194-195 | `get_statuses` fetches the commit statuses but has no `return`, so it yields `None` | any commit with at least one status | return the list of statuses | high; not executed | Reporting.GetStatusesAsWritten, Reporting.GetStatusesLosesStatuses | Reporting.GetStatuses |
