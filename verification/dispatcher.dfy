/** Turning an event into submitted task groups and acknowledgement results
    (`SteveJobs.process_jobs` and `SteveJobs.process_message` in
    packit_service/worker/jobs.py). The task queue is a recorded list of
    submissions; the allow-list, the parsers and the service configuration
    are parameters. */
module Dispatcher {
  import opened Base
  import opened Events
  import opened Matcher

  /** A task signature: the handler to run, the event, and the job
      configuration it runs for (none for installation and label events). */
  datatype Signature<H> = Signature(handler: H, event: Event, job: Option<JobConfig>)

  /** One submission to the task queue: a group of signatures applied
      together, or a single signature. */
  datatype Submission<H> = Group(signatures: seq<Signature<H>>) | Single(signature: Signature<H>)

  /** The acknowledgement returned to the caller (TaskResults). */
  datatype TaskResult = TaskResult(success: bool, msg: string, jobConfig: Option<JobConfig>, event: Event)

  /** What a dispatch returns, together with what it submitted, in order. */
  datatype Dispatch<H> = Dispatch(results: seq<TaskResult>, submitted: seq<Submission<H>>)

  const NoConfigMsg: string := "No packit config found in the repository."
  const NotAllowlistedMsg: string := "Account is not allowlisted!"
  const JobCreatedMsg: string := "Job created."

  /** The allow-list gate `Allowlist.check_and_report`, as a function of the
      event and the job configurations it is asked about. */
  type AllowGate = (Event, seq<JobConfig>) -> bool

  /** Where the service configuration and the two parsers come in. */
  datatype Environment<!R> = Environment(
    allow: AllowGate,
    parse: R -> Option<Event>,
    parseCentos: R -> Option<Event>,
    enabledPrivateNamespaces: set<string>)

  /** The group submitted for handler `h` with configurations `cfgs`: one
      signature per configuration, in order. */
  function GroupOf<H>(h: H, e: Event, cfgs: seq<JobConfig>): (g: Submission<H>)
    ensures g.Group?
    ensures |g.signatures| == |cfgs|
    ensures forall i :: 0 <= i < |g.signatures| ==> g.signatures[i] == Signature(h, e, Some(cfgs[i]))
  {
    Group(seq(|cfgs|, i requires 0 <= i < |cfgs| => Signature(h, e, Some(cfgs[i]))))
  }

  /** The group of a matched handler, with its resolved configurations. */
  function GroupFor<H(!new)>(reg: Registry<H>, h: H, e: Event, pc: PackageConfig): Submission<H> {
    GroupOf(h, e, ConfigsForHandler(reg, h, e, pc))
  }

  /** One result per configuration, in order. */
  function ResultsFor(e: Event, cfgs: seq<JobConfig>, success: bool, msg: string): (rs: seq<TaskResult>)
    ensures |rs| == |cfgs|
    ensures forall i :: 0 <= i < |rs| ==> rs[i] == TaskResult(success, msg, Some(cfgs[i]), e)
  {
    seq(|cfgs|, i requires 0 <= i < |cfgs| => TaskResult(success, msg, Some(cfgs[i]), e))
  }

  /** How the loop over the matched handlers ended: rejected by the
      allow-list with the rejected handler's configurations, or completed
      with the configurations of the handler visited last. */
  datatype LoopEnd = Rejected(configs: seq<JobConfig>) | Completed(lastConfigs: seq<JobConfig>)

  datatype Run<H> = Run(end: LoopEnd, submitted: seq<Submission<H>>)

  /** The allow-list accepts the configurations of every handler in `order`. */
  predicate AllAllowed<H>(allow: AllowGate, e: Event, configsOf: H -> seq<JobConfig>, order: seq<H>) {
    forall i :: 0 <= i < |order| ==> allow(e, configsOf(order[i]))
  }

  /** Every handler is allowed iff the first one and all the others are. */
  lemma AllAllowedCons<H>(allow: AllowGate, e: Event, configsOf: H -> seq<JobConfig>, order: seq<H>)
    requires order != []
    ensures AllAllowed(allow, e, configsOf, order) <==>
      allow(e, configsOf(order[0])) && AllAllowed(allow, e, configsOf, order[1..])
  {
    var tail := order[1..];
    if allow(e, configsOf(order[0])) && AllAllowed(allow, e, configsOf, tail) {
      forall i | 0 <= i < |order| ensures allow(e, configsOf(order[i])) {
        if i > 0 { assert order[i] == tail[i - 1]; }
      }
    }
    if AllAllowed(allow, e, configsOf, order) {
      forall i | 0 <= i < |tail| ensures allow(e, configsOf(tail[i])) {
        assert tail[i] == order[i + 1];
      }
    }
  }

  /** The allowed group of the first handler, then the groups of the
      following handlers, are the groups of `order` position by position. */
  lemma SubmittedCons<H>(configsOf: H -> seq<JobConfig>, allow: AllowGate, e: Event,
                         order: seq<H>, rest: seq<Submission<H>>)
    requires order != [] && allow(e, configsOf(order[0]))
    requires |rest| < |order|
    requires forall i :: 0 <= i < |rest| ==>
      rest[i] == GroupOf(order[1..][i], e, configsOf(order[1..][i])) && allow(e, configsOf(order[1..][i]))
    ensures var subs := [GroupOf(order[0], e, configsOf(order[0]))] + rest;
      forall i :: 0 <= i < |subs| ==>
        subs[i] == GroupOf(order[i], e, configsOf(order[i])) && allow(e, configsOf(order[i]))
  {
    var subs := [GroupOf(order[0], e, configsOf(order[0]))] + rest;
    forall i | 0 <= i < |subs|
      ensures subs[i] == GroupOf(order[i], e, configsOf(order[i])) && allow(e, configsOf(order[i]))
    {
      if i > 0 {
        assert subs[i] == rest[i - 1];
        assert order[1..][i - 1] == order[i];
      }
    }
  }

  /** The loop of `process_jobs` over `order`, where `configsOf` resolves a
      handler's configurations and `last` holds the most recently resolved
      ones. */
  function RunHandlers<H>(configsOf: H -> seq<JobConfig>, allow: AllowGate, e: Event,
                          order: seq<H>, last: seq<JobConfig>): (run: Run<H>)
    ensures |run.submitted| <= |order|
    // every submission is the group of the handler at the same position, and was allowed
    ensures forall i :: 0 <= i < |run.submitted| ==>
      run.submitted[i] == GroupOf(order[i], e, configsOf(order[i])) && allow(e, configsOf(order[i]))
    ensures run.end.Completed? <==> AllAllowed(allow, e, configsOf, order)
    ensures run.end.Completed? ==> |run.submitted| == |order|
    ensures run.end.Completed? && order != [] ==> run.end.lastConfigs == configsOf(order[|order| - 1])
    ensures run.end.Completed? && order == [] ==> run.end.lastConfigs == last
    // a rejection stops at the first rejected handler, before its group
    ensures run.end.Rejected? ==>
      && |run.submitted| < |order|
      && !allow(e, configsOf(order[|run.submitted|]))
      && run.end.configs == configsOf(order[|run.submitted|])
    decreases |order|
  {
    if order == [] then Run(Completed(last), [])
    else
      var cfgs := configsOf(order[0]);
      AllAllowedCons(allow, e, configsOf, order);
      if !allow(e, cfgs) then Run(Rejected(cfgs), [])
      else
        var tail := order[1..];
        var rest := RunHandlers(configsOf, allow, e, tail, cfgs);
        SubmittedCons(configsOf, allow, e, order, rest.submitted);
        var subs := [GroupOf(order[0], e, cfgs)] + rest.submitted;
        assert rest.end.Rejected? ==> tail[|rest.submitted|] == order[|subs|];
        assert tail != [] ==> tail[|tail| - 1] == order[|order| - 1];
        Run(rest.end, subs)
  }

  /** The configuration resolver for one event and package configuration. */
  function ConfigsOf<H(!new)>(reg: Registry<H>, e: Event, pc: PackageConfig): H -> seq<JobConfig> {
    h => ConfigsForHandler(reg, h, e, pc)
  }

  /** The matched handlers in the order the loop visits them. */
  function Order<H(!new)>(reg: Registry<H>, e: Event, pc: PackageConfig): seq<H> {
    reg.iterate(HandlersForEvent(reg, e, pc))
  }

  /** `process_jobs`: schedule every matched handler's group unless the
      allow-list rejects one. */
  function ProcessJobs<H(!new)>(reg: Registry<H>, allow: AllowGate, e: Event): (d: Dispatch<H>)
    requires ValidRegistry(reg)
    // no configuration: one neutral success, nothing submitted
    ensures e.packageConfig.None? ==>
      d.submitted == [] && |d.results| == 1
      && d.results[0].success && d.results[0].jobConfig.None? && d.results[0].msg == NoConfigMsg
    // configuration but nothing matched: no results, nothing submitted
    ensures e.packageConfig.Some? && HandlersForEvent(reg, e, e.packageConfig.value) == {} ==>
      d == Dispatch([], [])
    ensures e.packageConfig.Some? ==>
      var pc := e.packageConfig.value;
      var order := Order(reg, e, pc);
      var configsOf := ConfigsOf(reg, e, pc);
      // submissions are the groups of a prefix of the visiting order
      && |d.submitted| <= |order|
      && (forall i :: 0 <= i < |d.submitted| ==> d.submitted[i] == GroupFor(reg, order[i], e, pc))
      // without rejection: every handler's group, and successes for the last handler only
      && (AllAllowed(allow, e, configsOf, order) ==>
            |d.submitted| == |order|
            && (order != [] ==>
                  d.results == ResultsFor(e, ConfigsForHandler(reg, order[|order| - 1], e, pc), true, JobCreatedMsg)))
      // with rejection: failures for the first rejected handler, no group from it on
      && (!AllAllowed(allow, e, configsOf, order) ==>
            var k := |d.submitted|;
            && k < |order|
            && (forall i :: 0 <= i < k ==> allow(e, ConfigsForHandler(reg, order[i], e, pc)))
            && !allow(e, ConfigsForHandler(reg, order[k], e, pc))
            && d.results == ResultsFor(e, ConfigsForHandler(reg, order[k], e, pc), false, NotAllowlistedMsg))
  {
    if e.packageConfig.None? then
      Dispatch([TaskResult(true, NoConfigMsg, None, e)], [])
    else
      var pc := e.packageConfig.value;
      var handlers := HandlersForEvent(reg, e, pc);
      if handlers == {} then
        assert Enumerates(reg.iterate(handlers), handlers);
        DistinctSize(reg.iterate(handlers), handlers);
        Dispatch([], [])
      else
        var order := reg.iterate(handlers);
        var run := RunHandlers(ConfigsOf(reg, e, pc), allow, e, order, []);
        match run.end
        case Rejected(cfgs) => Dispatch(ResultsFor(e, cfgs, false, NotAllowlistedMsg), run.submitted)
        case Completed(cfgs) => Dispatch(ResultsFor(e, cfgs, true, JobCreatedMsg), run.submitted)
  }

  /** Groups of different matched handlers are different submissions. */
  lemma GroupsDiffer<H(!new)>(reg: Registry<H>, h1: H, h2: H, e: Event, pc: PackageConfig)
    requires h1 in HandlersForEvent(reg, e, pc)
    requires h1 != h2
    ensures GroupFor(reg, h1, e, pc) != GroupFor(reg, h2, e, pc)
  {
    MatchedHandlerHasConfigs(reg, h1, e, pc);
    var g1 := GroupFor(reg, h1, e, pc);
    var g2 := GroupFor(reg, h2, e, pc);
    assert g1.signatures[0].handler == h1;
    if |g2.signatures| > 0 {
      assert g2.signatures[0].handler == h2;
    }
  }

  /** Different matched handlers never share a group. */
  lemma GroupsInjective<H(!new)>(reg: Registry<H>, e: Event, pc: PackageConfig)
    ensures forall h1, h2 :: h1 in HandlersForEvent(reg, e, pc) && h1 != h2 ==>
      GroupFor(reg, h1, e, pc) != GroupFor(reg, h2, e, pc)
  {
    forall h1, h2 | h1 in HandlersForEvent(reg, e, pc) && h1 != h2
      ensures GroupFor(reg, h1, e, pc) != GroupFor(reg, h2, e, pc)
    {
      GroupsDiffer(reg, h1, h2, e, pc);
    }
  }

  /** The images under an injective `group` of an enumeration of `matched`,
      position by position, hold each member's image exactly once and
      nothing else. */
  lemma EnumeratedImages<H, G>(order: seq<H>, matched: set<H>, group: H -> G, subs: seq<G>)
    requires Enumerates(order, matched)
    requires forall h1, h2 :: h1 in matched && h1 != h2 ==> group(h1) != group(h2)
    requires |subs| == |order|
    requires forall i :: 0 <= i < |subs| ==> subs[i] == group(order[i])
    ensures |subs| == |matched|
    ensures forall h :: h in matched ==> group(h) in subs
    ensures forall i, j :: 0 <= i < j < |subs| ==> subs[i] != subs[j]
    ensures forall g :: g in subs ==> exists h :: h in matched && g == group(h)
  {
    DistinctSize(order, matched);
    forall h | h in matched ensures group(h) in subs {
      var i :| 0 <= i < |order| && order[i] == h;
      assert subs[i] == group(h);
    }
    forall i, j | 0 <= i < j < |subs| ensures subs[i] != subs[j] {
      assert order[i] in order;
    }
    forall g | g in subs ensures exists h :: h in matched && g == group(h) {
      var i :| 0 <= i < |subs| && subs[i] == g;
      assert order[i] in order;
    }
  }

  /** Without a rejection, exactly one group is submitted per matched
      handler, each with one signature per resolved configuration. */
  lemma OneGroupPerHandler<H(!new)>(reg: Registry<H>, allow: AllowGate, e: Event)
    requires ValidRegistry(reg)
    requires e.packageConfig.Some?
    requires forall h :: h in HandlersForEvent(reg, e, e.packageConfig.value) ==>
      allow(e, ConfigsForHandler(reg, h, e, e.packageConfig.value))
    ensures var pc := e.packageConfig.value;
      var d := ProcessJobs(reg, allow, e);
      && |d.submitted| == |HandlersForEvent(reg, e, pc)|
      && (forall h :: h in HandlersForEvent(reg, e, pc) ==> GroupFor(reg, h, e, pc) in d.submitted)
      && (forall i, j :: 0 <= i < j < |d.submitted| ==> d.submitted[i] != d.submitted[j])
      && (forall g :: g in d.submitted ==> exists h :: h in HandlersForEvent(reg, e, pc) && g == GroupFor(reg, h, e, pc))
  {
    var pc := e.packageConfig.value;
    var order := Order(reg, e, pc);
    MatchedAllAllowed(reg, allow, e);
    var d := ProcessJobs(reg, allow, e);
    GroupsInjective(reg, e, pc);
    EnumeratedImages(order, HandlersForEvent(reg, e, pc), h => GroupFor(reg, h, e, pc), d.submitted);
  }

  /** When every matched handler is allowed, the loop over them completes
      (and the order enumerates the matched handlers). */
  lemma MatchedAllAllowed<H(!new)>(reg: Registry<H>, allow: AllowGate, e: Event)
    requires ValidRegistry(reg)
    requires e.packageConfig.Some?
    requires forall h :: h in HandlersForEvent(reg, e, e.packageConfig.value) ==>
      allow(e, ConfigsForHandler(reg, h, e, e.packageConfig.value))
    ensures var pc := e.packageConfig.value;
      && Enumerates(Order(reg, e, pc), HandlersForEvent(reg, e, pc))
      && AllAllowed(allow, e, ConfigsOf(reg, e, pc), Order(reg, e, pc))
  {
    var pc := e.packageConfig.value;
    var order := Order(reg, e, pc);
    assert Enumerates(order, HandlersForEvent(reg, e, pc));
    forall i | 0 <= i < |order| ensures allow(e, ConfigsForHandler(reg, order[i], e, pc)) {
      assert order[i] in order;
    }
  }

  /** A sequence without repetitions that has exactly the members of `s`
      is as long as `s` is large. */
  lemma {:induction false} DistinctSize<H>(order: seq<H>, s: set<H>)
    requires forall i, j :: 0 <= i < j < |order| ==> order[i] != order[j]
    requires forall h :: h in order <==> h in s
    ensures |order| == |s|
    decreases |order|
  {
    if order != [] {
      var h := order[0];
      var tail := order[1..];
      assert forall x :: x in tail <==> x in s - {h} by {
        forall x ensures x in tail <==> x in s - {h} {
          if x in tail {
            var i :| 0 <= i < |tail| && tail[i] == x;
            assert order[i + 1] == x;
          }
          if x in s - {h} {
            assert x in order;
            var i :| 0 <= i < |order| && order[i] == x;
            assert i != 0;
            assert tail[i - 1] == x;
          }
        }
      }
      DistinctSize(tail, s - {h});
    }
  }

  /** The images under an injective `group` of the first `k` or fewer
      members of an enumeration of `matched` contain no image of a member
      from position `k` on. */
  lemma LaterImagesAbsent<H, G>(order: seq<H>, matched: set<H>, group: H -> G, subs: seq<G>, k: nat)
    requires Enumerates(order, matched)
    requires forall h1, h2 :: h1 in matched && h1 != h2 ==> group(h1) != group(h2)
    requires |subs| <= k <= |order|
    requires forall i :: 0 <= i < |subs| ==> subs[i] == group(order[i])
    ensures forall i :: k <= i < |order| ==> group(order[i]) !in subs
  {
    forall i | k <= i < |order| ensures group(order[i]) !in subs {
      forall x | 0 <= x < |subs| ensures subs[x] != group(order[i]) {
        assert order[x] in order;
      }
    }
  }

  /** A rejection at position `k` stops the dispatch at or before `k`, and
      it reports failures. */
  lemma RejectedAt<H(!new)>(reg: Registry<H>, allow: AllowGate, e: Event, k: nat)
    requires ValidRegistry(reg)
    requires e.packageConfig.Some?
    requires k < |Order(reg, e, e.packageConfig.value)|
    requires !allow(e, ConfigsForHandler(reg, Order(reg, e, e.packageConfig.value)[k], e, e.packageConfig.value))
    ensures var d := ProcessJobs(reg, allow, e);
      && |d.submitted| <= k
      && (forall r :: r in d.results ==> !r.success && r.msg == NotAllowlistedMsg && r.jobConfig.Some?)
  {
    var pc := e.packageConfig.value;
    NotAllAllowed(allow, e, ConfigsOf(reg, e, pc), Order(reg, e, pc), k);
  }

  /** One rejected handler is enough for the loop not to complete. */
  lemma NotAllAllowed<H>(allow: AllowGate, e: Event, configsOf: H -> seq<JobConfig>, order: seq<H>, k: nat)
    requires k < |order| && !allow(e, configsOf(order[k]))
    ensures !AllAllowed(allow, e, configsOf, order)
  {
  }

  /** A rejection aborts the dispatch: the results are one failure per
      configuration of the rejected handler, and neither that handler nor
      any handler visited after it gets a group. */
  lemma RejectionAborts<H(!new)>(reg: Registry<H>, allow: AllowGate, e: Event, k: nat)
    requires ValidRegistry(reg)
    requires e.packageConfig.Some?
    requires k < |Order(reg, e, e.packageConfig.value)|
    requires !allow(e, ConfigsForHandler(reg, Order(reg, e, e.packageConfig.value)[k], e, e.packageConfig.value))
    ensures var pc := e.packageConfig.value;
      var order := Order(reg, e, pc);
      var d := ProcessJobs(reg, allow, e);
      && (forall r :: r in d.results ==> !r.success && r.msg == NotAllowlistedMsg && r.jobConfig.Some?)
      && (forall i :: k <= i < |order| ==> GroupFor(reg, order[i], e, pc) !in d.submitted)
  {
    var pc := e.packageConfig.value;
    var order := Order(reg, e, pc);
    var d := ProcessJobs(reg, allow, e);
    RejectedAt(reg, allow, e, k);
    assert Enumerates(order, HandlersForEvent(reg, e, pc));
    GroupsInjective(reg, e, pc);
    LaterImagesAbsent(order, HandlersForEvent(reg, e, pc), h => GroupFor(reg, h, e, pc), d.submitted, k);
  }

  /** `process_message`: topic pre-filter, parsing, the private-namespace
      check, the two event kinds scheduled without configuration, and
      otherwise `process_jobs`. */
  function ProcessMessage<H(!new), R>(reg: Registry<H>, env: Environment<R>, raw: R,
                                      topic: Option<string>, source: Option<string>): (d: Dispatch<H>)
    requires ValidRegistry(reg)
    // an unknown non-empty topic is dropped before parsing
    ensures topic.Some? && topic.value != [] && !KnownTopic(reg, topic.value) ==> d == Dispatch([], [])
    // a message the parser rejects, or whose event fails its pre-check, is dropped
    ensures PassesTopic(reg, topic) && !Accepted(env, raw, source) ==> d == Dispatch([], [])
    ensures PassesTopic(reg, topic) && Accepted(env, raw, source) ==>
      var e := Parse(env, raw, source).value;
      // private projects outside the enabled namespaces are dropped
      && (Denied(env, e) ==> d == Dispatch([], []))
      // installation and label events: one signature without job, one neutral success
      && (!Denied(env, e) && (e.kind.Installation? || e.kind.PullRequestLabelPagure?) ==>
            && d.submitted == [Single(Signature(if e.kind.Installation? then reg.installationHandler else reg.labelHandler, e, None))]
            && d.results == [TaskResult(true, JobCreatedMsg, None, e)])
      // every other event is dispatched by process_jobs, whose results are kept as they are
      && (!Denied(env, e) && !e.kind.Installation? && !e.kind.PullRequestLabelPagure? ==>
            d == ProcessJobs(reg, env.allow, e))
  {
    if !PassesTopic(reg, topic) then Dispatch([], [])
    else if !Accepted(env, raw, source) then Dispatch([], [])
    else
      var e := Parse(env, raw, source).value;
      if Denied(env, e) then Dispatch([], [])
      else if e.kind.Installation? then
        Dispatch([TaskResult(true, JobCreatedMsg, None, e)], [Single(Signature(reg.installationHandler, e, None))])
      else if e.kind.PullRequestLabelPagure? then
        Dispatch([TaskResult(true, JobCreatedMsg, None, e)], [Single(Signature(reg.labelHandler, e, None))])
      else
        ProcessJobs(reg, env.allow, e)
  }

  /** Some handler class declares `topic` as its topic. */
  predicate KnownTopic<H(!new)>(reg: Registry<H>, topic: string) {
    exists i :: 0 <= i < |reg.all| && reg.topic(reg.all[i]) == Some(topic)
  }

  /** An absent or empty topic is not filtered. */
  predicate PassesTopic<H(!new)>(reg: Registry<H>, topic: Option<string>) {
    topic.None? || topic.value == [] || KnownTopic(reg, topic.value)
  }

  /** The CentOS parser for `centosmsg` messages, the general parser otherwise. */
  function Parse<R>(env: Environment<R>, raw: R, source: Option<string>): Option<Event> {
    if source == Some("centosmsg") then env.parseCentos(raw) else env.parse(raw)
  }

  predicate Accepted<R>(env: Environment<R>, raw: R, source: Option<string>) {
    Parse(env, raw, source).Some? && Parse(env, raw, source).value.preCheck
  }

  /** `hostname/namespace` of a project. */
  function ServiceWithNamespace(p: Project): string {
    p.hostname + "/" + p.namespace
  }

  /** Private projects are served only in the enabled namespaces; an event
      without a project skips the check. */
  predicate Denied<R>(env: Environment<R>, e: Event) {
    e.project.Some? && e.project.value.isPrivate
    && ServiceWithNamespace(e.project.value) !in env.enabledPrivateNamespaces
  }

  /** No default acknowledgement is added when `process_jobs` returns
      nothing: the message then yields no results and no submission. */
  lemma NoDefaultForEmptyDispatch<H(!new), R>(reg: Registry<H>, env: Environment<R>, raw: R,
                                               topic: Option<string>, source: Option<string>)
    requires ValidRegistry(reg)
    requires PassesTopic(reg, topic) && Accepted(env, raw, source)
    requires var e := Parse(env, raw, source).value;
      !e.kind.Installation? && !e.kind.PullRequestLabelPagure?
      && e.packageConfig.Some? && HandlersForEvent(reg, e, e.packageConfig.value) == {}
    ensures ProcessMessage(reg, env, raw, topic, source) == Dispatch([], [])
  {
  }
}
