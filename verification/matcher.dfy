/** Which handlers must run for an event, and with which job configurations
    (`get_handlers_for_event`, `get_handlers_for_comment` and
    `get_config_for_handler_kls` in packit_service/worker/jobs.py). */
module Matcher {
  import opened Base
  import opened Events
  import CommentParser

  /** Job `j` brings handler `h` in: directly, or because `j`'s job type
      requires `h` to run first. */
  predicate Contributes<H(!new)>(reg: Registry<H>, j: JobConfig, h: H) {
    h in reg.direct(j.jobType) || h in reg.required(j.jobType)
  }

  predicate Distinct<T(==)>(s: seq<T>) {
    forall i, j :: 0 <= i < j < |s| ==> s[i] != s[j]
  }

  /** The jobs of `jobs` whose trigger is `t`, each kept at its first
      occurrence only, appended to `seen` (the list the source builds before
      matching handlers). */
  function UniqueMatching(jobs: seq<JobConfig>, t: TriggerType, seen: seq<JobConfig>): (r: seq<JobConfig>)
    requires Distinct(seen)
    ensures Distinct(r)
    ensures |seen| <= |r| && r[..|seen|] == seen
    ensures forall j :: j in r <==> j in seen || (j in jobs && j.trigger == t)
    decreases |jobs|
  {
    if jobs == [] then seen
    else
      var j := jobs[0];
      assert forall x :: x in jobs ==> x == j || x in jobs[1..];
      if j.trigger == t && j !in seen then
        var r := UniqueMatching(jobs[1..], t, seen + [j]);
        assert r[..|seen|] == r[..|seen + [j]|][..|seen|];
        r
      else
        UniqueMatching(jobs[1..], t, seen)
  }

  /** The handlers bound to a comment's first command; none when the comment
      holds no command. */
  function HandlersForComment<H(!new)>(reg: Registry<H>, comment: string): (hs: set<H>)
    ensures CommentParser.Commands(comment) == [] ==> hs == {}
    ensures CommentParser.Commands(comment) != [] ==> hs == reg.byCommand(CommentParser.Commands(comment)[0])
    // text that never mentions `/packit` selects nothing
    ensures CommentParser.NoMarker(comment) ==> hs == {}
  {
    var commands := CommentParser.Commands(comment);
    if commands == [] then {} else reg.byCommand(commands[0])
  }

  /** A comment holding `/packit`, a space and a command selects the handlers
      bound to the command's first word, whatever marker-free text precedes
      it. */
  lemma HandlersForCommand<H(!new)>(reg: Registry<H>, prefix: string, args: seq<string>)
    requires CommentParser.NoMarker(prefix)
    requires CommentParser.WellFormedArgs(args)
    ensures HandlersForComment(reg, prefix + CommentParser.Marker + " " + CommentParser.Render(args)) == reg.byCommand(args[0])
  {
    CommentParser.ParseRender(prefix, args);
  }

  /** A handler may run for an event of kind `kind` under an optional comment
      restriction. */
  predicate Admits<H(!new)>(reg: Registry<H>, kind: EventKind, restriction: Option<set<H>>, h: H) {
    kind in reg.supported(h) && (restriction.None? || h in restriction.value)
  }

  /** The handlers contributed by `jobs` and admitted for the event. */
  function Collect<H(!new)>(reg: Registry<H>, kind: EventKind, restriction: Option<set<H>>, jobs: seq<JobConfig>): (hs: set<H>)
    ensures forall h :: h in hs <==>
      Admits(reg, kind, restriction, h) && exists j :: j in jobs && Contributes(reg, j, h)
    decreases |jobs|
  {
    if jobs == [] then {}
    else
      var j := jobs[0];
      assert forall x :: x in jobs ==> x == j || x in jobs[1..];
      var here := set h | h in reg.direct(j.jobType) + reg.required(j.jobType) && Admits(reg, kind, restriction, h);
      var rest := Collect(reg, kind, restriction, jobs[1..]);
      forall h ensures h in here + rest <==>
        Admits(reg, kind, restriction, h) && exists x :: x in jobs && Contributes(reg, x, h)
      {
        if h in here {
          assert j in jobs && Contributes(reg, j, h);
        }
        if Admits(reg, kind, restriction, h) && exists x :: x in jobs && Contributes(reg, x, h) {
          var x :| x in jobs && Contributes(reg, x, h);
          if x != j { assert x in jobs[1..]; }
        }
      }
      here + rest
  }

  /** The comment restriction of an event: the handlers of its command for
      the five comment kinds, no restriction otherwise. */
  function Restriction<H(!new)>(reg: Registry<H>, e: Event): Option<set<H>> {
    if IsCommentKind(e.kind) then Some(HandlersForComment(reg, e.comment)) else None
  }

  /** The handlers to run for `e` under the package configuration `pc`. */
  function HandlersForEvent<H(!new)>(reg: Registry<H>, e: Event, pc: PackageConfig): (hs: set<H>)
    // soundness: supported, and brought in by a job with the event's trigger
    ensures forall h :: h in hs ==>
      e.kind in reg.supported(h) && exists j :: j in pc.jobs && j.trigger == e.trigger && Contributes(reg, j, h)
    // for comment events, never more than the command's handlers
    ensures IsCommentKind(e.kind) ==> hs <= HandlersForComment(reg, e.comment)
    // completeness for other events
    ensures !IsCommentKind(e.kind) ==> forall j, h ::
      j in pc.jobs && j.trigger == e.trigger && Contributes(reg, j, h) && e.kind in reg.supported(h) ==> h in hs
    // completeness for comment events, within the command's handlers
    ensures IsCommentKind(e.kind) ==> forall j, h ::
      (j in pc.jobs && j.trigger == e.trigger && Contributes(reg, j, h) && e.kind in reg.supported(h)
       && h in HandlersForComment(reg, e.comment)) ==> h in hs
  {
    var jobs := UniqueMatching(pc.jobs, e.trigger, []);
    Collect(reg, e.kind, Restriction(reg, e), jobs)
  }

  /** A comment event whose text holds no command, or whose command is bound
      to no handler, runs nothing, whatever jobs are configured. */
  lemma CommentWithoutHandlers<H(!new)>(reg: Registry<H>, e: Event, pc: PackageConfig)
    requires IsCommentKind(e.kind)
    requires CommentParser.Commands(e.comment) == []
      || reg.byCommand(CommentParser.Commands(e.comment)[0]) == {}
    ensures HandlersForEvent(reg, e, pc) == {}
  {
  }

  /** Some trigger-matching job maps directly to `h`. */
  predicate HasDirect<H(!new)>(reg: Registry<H>, h: H, e: Event, pc: PackageConfig) {
    exists j :: j in pc.jobs && j.trigger == e.trigger && h in reg.direct(j.jobType)
  }

  /** The job configurations handler `h` runs with for `e`: the
      trigger-matching jobs mapped directly to `h`, or, when there are none,
      the trigger-matching jobs that require `h`. */
  function ConfigsForHandler<H(!new)>(reg: Registry<H>, h: H, e: Event, pc: PackageConfig): (r: seq<JobConfig>)
    ensures IsSubsequence(r, pc.jobs)
    ensures forall j :: j in r ==> j.trigger == e.trigger
    ensures HasDirect(reg, h, e, pc) ==> forall j ::
      j in r <==> j in pc.jobs && j.trigger == e.trigger && h in reg.direct(j.jobType)
    ensures !HasDirect(reg, h, e, pc) ==> forall j ::
      j in r <==> j in pc.jobs && j.trigger == e.trigger && h in reg.required(j.jobType)
    // duplicates are kept: each selected job appears as often as in the configuration
    ensures forall j :: j in r ==> multiset(r)[j] == multiset(pc.jobs)[j]
  {
    var direct := Filter(pc.jobs, (j: JobConfig) => j.trigger == e.trigger && h in reg.direct(j.jobType));
    if direct != [] then direct
    else Filter(pc.jobs, (j: JobConfig) => j.trigger == e.trigger && h in reg.required(j.jobType))
  }

  /** Every handler the matcher selects finds at least one configuration. */
  lemma MatchedHandlerHasConfigs<H(!new)>(reg: Registry<H>, h: H, e: Event, pc: PackageConfig)
    requires h in HandlersForEvent(reg, e, pc)
    ensures ConfigsForHandler(reg, h, e, pc) != []
  {
    var j :| j in pc.jobs && j.trigger == e.trigger && Contributes(reg, j, h);
    if !HasDirect(reg, h, e, pc) {
      assert h in reg.required(j.jobType);
      assert j in ConfigsForHandler(reg, h, e, pc);
    }
  }
}
