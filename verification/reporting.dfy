/** Publishing commit statuses back to the forge (`StatusReporter` in
    packit_service/worker/reporting.py). The forge is an oracle; every
    operation returns the calls it made, in order, and whether it returned
    or raised. */
module Reporting {
  import opened Base
  import opened Events

  /** ogr's CommitStatus. */
  datatype CommitState = Pending | Success | Failure | Error | Canceled | Running

  /** The enum member's `name`. */
  function StateName(s: CommitState): (name: string)
    ensures name != [] && '\n' !in name
  {
    match s
    case Pending => "pending"
    case Success => "success"
    case Failure => "failure"
    case Error => "error"
    case Canceled => "canceled"
    case Running => "running"
  }

  /** `str.upper()` on ASCII text. */
  function UpperAscii(s: string): (u: string)
    ensures |u| == |s|
    ensures forall i :: 0 <= i < |s| ==> u[i] == (if 'a' <= s[i] <= 'z' then s[i] - 'a' + 'A' else s[i])
  {
    seq(|s|, i requires 0 <= i < |s| => if 'a' <= s[i] <= 'z' then s[i] - 'a' + 'A' else s[i])
  }

  /** The `check_names` argument: `None`, a single string, or a list. */
  datatype CheckNames = NoNames | OneName(name: string) | Names(names: seq<string>)

  /** The pull request object `get_pr` returns: its head commit, whether it
      offers `set_flag` (Pagure pull requests do), and its source project. */
  datatype PullRequest = PullRequest(headCommit: string, hasSetFlag: bool, sourceProject: Project)

  /** What a forge call can raise. `TypeError` is Python's error for
      iterating `None`. */
  datatype Exception = GitlabCreateError(responseCode: int) | GithubException | OtherError | TypeError

  /** One status record as `get_commit_statuses` lists it. */
  datatype StatusRecord = StatusRecord(state: CommitState, context: string, url: string)

  /** The forge calls the reporter makes. */
  datatype Call =
    | GetPr(project: Project, prId: int)
    | SetCommitStatus(project: Project, commit: string, state: CommitState, url: string,
                      description: string, checkName: string)
    | CommitComment(project: Project, commit: string, body: string)
    | PrComment(project: Project, prId: int, body: string)
    | SetFlag(project: Project, prId: int, username: string, comment: string, url: string,
              status: CommitState, uid: string)
    | GetCommitStatuses(project: Project, commit: string)

  /** The forge as seen from the reporter: pull-request lookup, what a
      status call raises (if anything), the statuses of a commit, and the
      hexadecimal MD5 digest used for flag uids. */
  datatype Forge = Forge(
    getPr: (Project, int) -> PullRequest,
    statusError: Call -> Option<Exception>,
    commitStatuses: (Project, string) -> seq<StatusRecord>,
    md5Hex: string -> string)

  /** The reporter's state: the target project, the commit, the optional
      pull request, and the lazily resolved project holding the commit. */
  datatype Reporter = Reporter(project: Project, commitSha: string, prId: Option<int>, withCommit: Option<Project>)

  datatype Outcome = Returned | Raised(error: Exception)

  /** The reporter after an operation, the calls made, and the outcome. */
  datatype Step = Step(reporter: Reporter, calls: seq<Call>, outcome: Outcome)

  /** The same reporter, possibly with its project holding the commit
      resolved. */
  predicate SameTarget(r: Reporter, r': Reporter) {
    r'.project == r.project && r'.commitSha == r.commitSha && r'.prId == r.prId
  }

  datatype Resolved = Resolved(project: Project, reporter: Reporter, calls: seq<Call>)

  /** The project on which the commit status is set: for a GitLab merge
      request its source project, otherwise the project itself. */
  function CommitProject(r: Reporter, forge: Forge): Project {
    if r.project.service == GitLab && r.prId.Some? then forge.getPr(r.project, r.prId.value).sourceProject
    else r.project
  }

  /** The project holding the commit: the cached one, or the one resolved
      now. */
  function CommitProjectOf(r: Reporter, forge: Forge): Project {
    if r.withCommit.Some? then r.withCommit.value else CommitProject(r, forge)
  }

  /** The `project_with_commit` property: resolved on first use, cached
      afterwards. */
  function ProjectWithCommit(r: Reporter, forge: Forge): (res: Resolved)
    ensures SameTarget(r, res.reporter)
    ensures res.reporter.withCommit == Some(res.project)
    ensures r.withCommit.Some? ==> res == Resolved(r.withCommit.value, r, [])
    ensures r.withCommit.None? ==> res.project == CommitProject(r, forge)
    // only a GitLab merge request needs the lookup
    ensures res.calls != [] <==> r.withCommit.None? && r.project.service == GitLab && r.prId.Some?
  {
    if r.withCommit.Some? then Resolved(r.withCommit.value, r, [])
    else
      var p := CommitProject(r, forge);
      var calls := if r.project.service == GitLab && r.prId.Some? then [GetPr(r.project, r.prId.value)] else [];
      Resolved(p, r.(withCommit := Some(p)), calls)
  }

  /** Resolving twice gives the same project and makes no further call. */
  lemma ProjectWithCommitCached(r: Reporter, forge: Forge)
    ensures var first := ProjectWithCommit(r, forge);
      ProjectWithCommit(first.reporter, forge) == Resolved(first.project, first.reporter, [])
  {
  }

  /** The placeholder Pagure gets instead of an empty URL. */
  const CentosPlaceholderUrl: string := "https://wiki.centos.org/Manuals/ReleaseNotes/CentOSStream"

  /** The URL after the Pagure fix-up. */
  function StatusUrl(project: Project, url: string): (u: string)
    ensures u != []
      || (url == [] && project.service != Pagure)
    ensures project.service == Pagure && url == [] ==> u == CentosPlaceholderUrl
    ensures project.service != Pagure || url != [] ==> u == url
  {
    if url == [] && project.service == Pagure then CentosPlaceholderUrl else url
  }

  /** The first three lines of the fallback comment. */
  function FallbackHead(state: CommitState, checkName: string, url: string): seq<string> {
    ["- name: " + checkName,
     "- state: " + StateName(state),
     "- url: " + (if url != [] then url else "not provided")]
  }

  /** The commit comment posted when setting the status fails. */
  function FallbackBody(state: CommitState, description: string, checkName: string, url: string): string {
    JoinLines(FallbackHead(state, checkName, url)) + "\n\n" + description
  }

  lemma FallbackHeadUnbroken(state: CommitState, checkName: string, url: string)
    requires '\n' !in checkName && '\n' !in url
    ensures NoLineBreaks(FallbackHead(state, checkName, url))
  {
    assert '\n' !in (if url != [] then url else "not provided");
  }

  /** A blank line in front of `rest` is one more, empty, line. */
  lemma LinesAfterBreak(head: string, rest: string)
    ensures head + "\n\n" + rest == head + "\n" + ("\n" + rest)
    ensures Lines("\n" + rest) == [""] + Lines(rest)
  {
    LinesAfterLine([], rest);
    assert [] + "\n" + rest == "\n" + rest;
  }

  /** The fallback comment reads, line by line: name, state, url (or "not
      provided"), an empty line, then the description. */
  lemma FallbackBodyLines(state: CommitState, description: string, checkName: string, url: string)
    requires '\n' !in checkName && '\n' !in url
    ensures Lines(FallbackBody(state, description, checkName, url)) ==
      ["- name: " + checkName,
       "- state: " + StateName(state),
       "- url: " + (if url != [] then url else "not provided"),
       ""] + Lines(description)
  {
    var head := FallbackHead(state, checkName, url);
    FallbackHeadUnbroken(state, checkName, url);
    LinesAfterBreak(JoinLines(head), description);
    LinesOfJoin(head, "\n" + description);
    assert head + ([""] + Lines(description)) == head + [""] + Lines(description);
  }

  /** The status call `set_status` makes. */
  function StatusCall(r: Reporter, forge: Forge, state: CommitState, description: string,
                      checkName: string, url: string): Call {
    SetCommitStatus(ProjectWithCommit(r, forge).project, r.commitSha, state,
                    StatusUrl(r.project, url), description, checkName)
  }

  /** A failed status call is reported by a commit comment instead: for a
      GitHub exception always, for a GitLab create error unless its code is
      400 (the pipeline is merely queued). */
  predicate FallsBack(err: Option<Exception>) {
    err.Some? && (err.value.GithubException? || (err.value.GitlabCreateError? && err.value.responseCode != 400))
  }

  /** A failed status call propagates unless it is a GitHub exception or a
      GitLab create error with code 400, 403 or 404. */
  predicate Propagates(err: Option<Exception>) {
    err.Some? && !err.value.GithubException?
    && !(err.value.GitlabCreateError? && err.value.responseCode in {400, 403, 404})
  }

  /** The check names of the status calls in `calls`, in order. */
  function StatusChecks(calls: seq<Call>): seq<string> {
    if calls == [] then []
    else (if calls[0].SetCommitStatus? then [calls[0].checkName] else []) + StatusChecks(calls[1..])
  }

  lemma {:induction false} StatusChecksAppend(a: seq<Call>, b: seq<Call>)
    ensures StatusChecks(a + b) == StatusChecks(a) + StatusChecks(b)
    decreases |a|
  {
    if a != [] {
      assert (a + b)[1..] == a[1..] + b;
      StatusChecksAppend(a[1..], b);
    } else {
      assert a + b == b;
    }
  }

  /** The kind of a forge call, to project a trace onto one kind. */
  datatype CallKind = LookupKind | StatusKind | CommitCommentKind | PrCommentKind | FlagKind | StatusesKind

  function KindOf(c: Call): CallKind {
    match c
    case GetPr(_, _) => LookupKind
    case SetCommitStatus(_, _, _, _, _, _) => StatusKind
    case CommitComment(_, _, _) => CommitCommentKind
    case PrComment(_, _, _) => PrCommentKind
    case SetFlag(_, _, _, _, _, _, _) => FlagKind
    case GetCommitStatuses(_, _) => StatusesKind
  }

  /** The calls of kind `k`, in order. */
  function Only(calls: seq<Call>, k: CallKind): (r: seq<Call>)
    ensures |r| <= |calls|
    ensures calls == [] ==> r == []
  {
    if calls == [] then []
    else (if KindOf(calls[0]) == k then [calls[0]] else []) + Only(calls[1..], k)
  }

  lemma {:induction false} OnlyAppend(a: seq<Call>, b: seq<Call>, k: CallKind)
    ensures Only(a + b, k) == Only(a, k) + Only(b, k)
    decreases |a|
  {
    if a != [] {
      var head := if KindOf(a[0]) == k then [a[0]] else [];
      assert (a + b)[0] == a[0];
      assert (a + b)[1..] == a[1..] + b;
      assert Only(a + b, k) == head + Only(a[1..] + b, k);
      OnlyAppend(a[1..], b, k);
      assert Only(a, k) == head + Only(a[1..], k);
    } else {
      assert a + b == b;
    }
  }

  /** The pull request still points at the reported commit and takes flags. */
  predicate MirrorApplies(r: Reporter, forge: Forge) {
    r.prId.Some? && forge.getPr(r.project, r.prId.value).hasSetFlag
    && forge.getPr(r.project, r.prId.value).headCommit == r.commitSha
  }

  /** The flag mirroring a status: the check name is the flag's user name and,
      hashed, its uid, so a later report of the same check updates it. */
  function Flag(r: Reporter, forge: Forge, checkName: string, description: string,
                url: string, state: CommitState): Call
    requires r.prId.Some?
  {
    SetFlag(r.project, r.prId.value, checkName, description, url, state, forge.md5Hex(checkName))
  }

  /** `__set_pull_request_status`: flag the pull request, when there is one,
      it takes flags and its head is still the reported commit. */
  function MirrorToPullRequest(r: Reporter, forge: Forge, checkName: string, description: string,
                               url: string, state: CommitState): (calls: seq<Call>)
    // the lookup whenever there is a pull request, then the flag when it applies
    ensures calls == (if r.prId.Some? then [GetPr(r.project, r.prId.value)] else [])
      + (if MirrorApplies(r, forge) then [Flag(r, forge, checkName, description, url, state)] else [])
    ensures Only(calls, FlagKind) ==
      if MirrorApplies(r, forge) then [Flag(r, forge, checkName, description, url, state)] else []
    ensures forall k :: k != LookupKind && k != FlagKind ==> Only(calls, k) == []
    ensures StatusChecks(calls) == []
  {
    if r.prId.None? then []
    else
      var pr := forge.getPr(r.project, r.prId.value);
      var lookup := [GetPr(r.project, r.prId.value)];
      if pr.hasSetFlag && pr.headCommit == r.commitSha then
        var calls := lookup + [Flag(r, forge, checkName, description, url, state)];
        assert calls[1..] == [calls[1]];
        assert calls[1..][1..] == [];
        assert StatusChecks(calls[1..]) == [];
        calls
      else lookup
  }

  /** What setting the status raised, if anything. */
  function StatusError(r: Reporter, forge: Forge, state: CommitState, description: string,
                       checkName: string, url: string): Option<Exception> {
    forge.statusError(StatusCall(r, forge, state, description, checkName, url))
  }

  lemma {:induction false} OnlyOfFour(a: seq<Call>, b: seq<Call>, c: seq<Call>, d: seq<Call>, k: CallKind)
    ensures Only(a + b + c + d, k) == Only(a, k) + Only(b, k) + Only(c, k) + Only(d, k)
  {
    OnlyAppend(a + b + c, d, k);
    OnlyAppend(a + b, c, k);
    OnlyAppend(a, b, k);
  }

  lemma {:induction false} StatusChecksOfFour(a: seq<Call>, b: seq<Call>, c: seq<Call>, d: seq<Call>)
    ensures StatusChecks(a + b + c + d) == StatusChecks(a) + StatusChecks(b) + StatusChecks(c) + StatusChecks(d)
  {
    StatusChecksAppend(a + b + c, d);
    StatusChecksAppend(a + b, c);
    StatusChecksAppend(a, b);
  }

  /** The projection of a single call. */
  lemma OnlyOne(c: Call, k: CallKind)
    ensures Only([c], k) == if KindOf(c) == k then [c] else []
  {
    assert [c][1..] == [];
  }

  /** One projection of a lookup, one status call, an optional commit
      comment and a mirroring trace. */
  lemma ComposeKind(lookup: seq<Call>, call: Call, fallback: seq<Call>, mirror: seq<Call>, k: CallKind)
    requires lookup == [] || (|lookup| == 1 && lookup[0].GetPr?)
    requires call.SetCommitStatus?
    requires fallback == [] || (|fallback| == 1 && fallback[0].CommitComment?)
    ensures Only(lookup + [call] + fallback + mirror, k)
      == (if k == LookupKind then lookup else []) + (if k == StatusKind then [call] else [])
         + (if k == CommitCommentKind then fallback else []) + Only(mirror, k)
  {
    OnlyOfFour(lookup, [call], fallback, mirror, k);
    OnlyOne(call, k);
    if lookup != [] {
      OnlyOne(lookup[0], k);
      assert lookup == [lookup[0]];
    }
    if fallback != [] {
      OnlyOne(fallback[0], k);
      assert fallback == [fallback[0]];
    }
  }

  /** The checks of a lookup, one status call, an optional commit comment
      and a mirroring trace without status calls. */
  lemma ComposeChecks(lookup: seq<Call>, call: Call, fallback: seq<Call>, mirror: seq<Call>)
    requires lookup == [] || (|lookup| == 1 && lookup[0].GetPr?)
    requires call.SetCommitStatus?
    requires fallback == [] || (|fallback| == 1 && fallback[0].CommitComment?)
    requires StatusChecks(mirror) == []
    ensures StatusChecks(lookup + [call] + fallback + mirror) == [call.checkName]
  {
    StatusChecksOfFour(lookup, [call], fallback, mirror);
    assert [call][1..] == [];
    if lookup != [] { assert lookup[1..] == []; }
    if fallback != [] { assert fallback[1..] == []; }
  }

  /** A lookup, one status call, an optional commit comment and a mirroring
      trace, put together. */
  lemma Compose(lookup: seq<Call>, call: Call, fallback: seq<Call>, mirror: seq<Call>)
    requires lookup == [] || (|lookup| == 1 && lookup[0].GetPr?)
    requires call.SetCommitStatus?
    requires fallback == [] || (|fallback| == 1 && fallback[0].CommitComment?)
    requires forall k :: k != LookupKind && k != FlagKind ==> Only(mirror, k) == []
    requires StatusChecks(mirror) == []
    ensures var calls := lookup + [call] + fallback + mirror;
      && Only(calls, StatusKind) == [call]
      && Only(calls, CommitCommentKind) == fallback
      && Only(calls, FlagKind) == Only(mirror, FlagKind)
      && Only(calls, PrCommentKind) == []
      && Only(calls, StatusesKind) == []
      && StatusChecks(calls) == [call.checkName]
  {
    ComposeKind(lookup, call, fallback, mirror, StatusKind);
    ComposeKind(lookup, call, fallback, mirror, CommitCommentKind);
    ComposeKind(lookup, call, fallback, mirror, FlagKind);
    ComposeKind(lookup, call, fallback, mirror, PrCommentKind);
    ComposeKind(lookup, call, fallback, mirror, StatusesKind);
    ComposeChecks(lookup, call, fallback, mirror);
  }

  /** A call `set_status` may make for the check `checkName`: a pull-request
      lookup, the status itself, the fallback comment, or the flag. */
  predicate SetStatusMakes(r: Reporter, forge: Forge, state: CommitState, description: string,
                           checkName: string, url: string, c: Call) {
    var url' := StatusUrl(r.project, url);
    match c
    case GetPr(p, id) => p == r.project && r.prId == Some(id)
    case SetCommitStatus(p, commit, s, u, d, n) =>
      p == CommitProjectOf(r, forge) && commit == r.commitSha && s == state && u == url'
      && d == description && n == checkName
    case CommitComment(p, commit, body) =>
      p == r.project && commit == r.commitSha && body == FallbackBody(state, description, checkName, url')
    case SetFlag(p, id, user, comment, u, s, uid) =>
      p == r.project && r.prId == Some(id) && user == checkName && comment == description
      && u == url' && s == state && uid == forge.md5Hex(checkName)
    case PrComment(_, _, _) => false
    case GetCommitStatuses(_, _) => false
  }

  /** Every call in `calls` is one `set_status` makes for `checkName`. */
  predicate AllMade(r: Reporter, forge: Forge, state: CommitState, description: string,
                    checkName: string, url: string, calls: seq<Call>) {
    forall c :: c in calls ==> SetStatusMakes(r, forge, state, description, checkName, url, c)
  }

  lemma AllMadeFour(r: Reporter, forge: Forge, state: CommitState, description: string,
                    checkName: string, url: string, a: seq<Call>, b: seq<Call>, c: seq<Call>, d: seq<Call>)
    requires AllMade(r, forge, state, description, checkName, url, a)
    requires AllMade(r, forge, state, description, checkName, url, b)
    requires AllMade(r, forge, state, description, checkName, url, c)
    requires AllMade(r, forge, state, description, checkName, url, d)
    ensures AllMade(r, forge, state, description, checkName, url, a + b + c + d)
  {
  }

  /** Resolving the project holding the commit looks up only the reporter's
      own pull request. */
  lemma LookupMade(r: Reporter, forge: Forge, state: CommitState, description: string,
                   checkName: string, url: string)
    ensures AllMade(r, forge, state, description, checkName, url, ProjectWithCommit(r, forge).calls)
  {
    var calls := ProjectWithCommit(r, forge).calls;
    if calls != [] {
      assert calls == [GetPr(r.project, r.prId.value)];
    }
  }

  /** The status call targets the project holding the commit. */
  lemma StatusCallMade(r: Reporter, forge: Forge, state: CommitState, description: string,
                       checkName: string, url: string)
    ensures AllMade(r, forge, state, description, checkName, url, [StatusCall(r, forge, state, description, checkName, url)])
  {
    assert ProjectWithCommit(r, forge).project == CommitProjectOf(r, forge);
  }

  /** The mirroring looks up the pull request and flags it for this check. */
  lemma MirrorMade(r: Reporter, forge: Forge, state: CommitState, description: string,
                   checkName: string, url: string)
    ensures AllMade(r, forge, state, description, checkName, url,
                    MirrorToPullRequest(r, forge, checkName, description, StatusUrl(r.project, url), state))
  {
    var calls := MirrorToPullRequest(r, forge, checkName, description, StatusUrl(r.project, url), state);
    forall c | c in calls
      ensures SetStatusMakes(r, forge, state, description, checkName, url, c)
    {
      if c != GetPr(r.project, r.prId.value) {
        assert c == Flag(r, forge, checkName, description, StatusUrl(r.project, url), state);
      }
    }
  }

  /** The commit comment `set_status` posts when the status call failed in
      a way that falls back. */
  function FallbackCalls(r: Reporter, state: CommitState, description: string, checkName: string,
                         url: string, err: Option<Exception>): (calls: seq<Call>)
    ensures calls == [] || (|calls| == 1 && calls[0].CommitComment?)
  {
    if FallsBack(err) then [CommitComment(r.project, r.commitSha, FallbackBody(state, description, checkName, url))]
    else []
  }

  /** `set_status`: set the commit status, fall back to a commit comment or
      raise according to the error, then mirror onto the pull request. */
  function SetStatus(r: Reporter, forge: Forge, state: CommitState, description: string,
                     checkName: string, url: string): (st: Step)
    ensures SameTarget(r, st.reporter)
    ensures CommitProjectOf(st.reporter, forge) == CommitProjectOf(r, forge)
    // the error policy
    ensures var err := StatusError(r, forge, state, description, checkName, url);
      && (st.outcome.Raised? <==> Propagates(err))
      && (st.outcome.Raised? ==> st.outcome.error == err.value)
    // the calls in order: resolving the project holding the commit, the
    // status, the fallback comment, then (unless it raised) the mirroring
    ensures st.calls == ProjectWithCommit(r, forge).calls
      + [StatusCall(r, forge, state, description, checkName, url)]
      + FallbackCalls(r, state, description, checkName, StatusUrl(r.project, url),
                      StatusError(r, forge, state, description, checkName, url))
      + (if st.outcome.Raised? then []
         else MirrorToPullRequest(r, forge, checkName, description, StatusUrl(r.project, url), state))
    // every call is about this check, with its state, description and URL
    ensures AllMade(r, forge, state, description, checkName, url, st.calls)
  {
    var url' := StatusUrl(r.project, url);
    var res := ProjectWithCommit(r, forge);
    var err := StatusError(r, forge, state, description, checkName, url);
    var fallback := FallbackCalls(r, state, description, checkName, url', err);
    var mirror := if Propagates(err) then [] else MirrorToPullRequest(r, forge, checkName, description, url', state);
    LookupMade(r, forge, state, description, checkName, url);
    StatusCallMade(r, forge, state, description, checkName, url);
    MirrorMade(r, forge, state, description, checkName, url);
    AllMadeFour(r, forge, state, description, checkName, url, res.calls,
                [StatusCall(r, forge, state, description, checkName, url)], fallback, mirror);
    Step(res.reporter, res.calls + [StatusCall(r, forge, state, description, checkName, url)] + fallback + mirror,
         if Propagates(err) then Raised(err.value) else Returned)
  }

  /** What `set_status` does, kind by kind: exactly one status call, for this
      check, with the fixed-up URL, on the project holding the commit; the
      fallback comment on the target project exactly when the error falls
      back; the flag exactly when nothing was raised and the pull request
      takes it; never a pull-request comment or a status query. */
  lemma SetStatusCalls(r: Reporter, forge: Forge, state: CommitState, description: string,
                       checkName: string, url: string)
    ensures var st := SetStatus(r, forge, state, description, checkName, url);
      && Only(st.calls, StatusKind) == [StatusCall(r, forge, state, description, checkName, url)]
      && StatusChecks(st.calls) == [checkName]
      && Only(st.calls, PrCommentKind) == [] && Only(st.calls, StatusesKind) == []
    ensures var st := SetStatus(r, forge, state, description, checkName, url);
      var err := StatusError(r, forge, state, description, checkName, url);
      Only(st.calls, CommitCommentKind) ==
        if FallsBack(err)
        then [CommitComment(r.project, r.commitSha, FallbackBody(state, description, checkName, StatusUrl(r.project, url)))]
        else []
    ensures var st := SetStatus(r, forge, state, description, checkName, url);
      Only(st.calls, FlagKind) ==
        if st.outcome.Returned? && MirrorApplies(r, forge)
        then [Flag(r, forge, checkName, description, StatusUrl(r.project, url), state)]
        else []
  {
    var url' := StatusUrl(r.project, url);
    var res := ProjectWithCommit(r, forge);
    var err := StatusError(r, forge, state, description, checkName, url);
    var mirror := if Propagates(err) then [] else MirrorToPullRequest(r, forge, checkName, description, url', state);
    assert res.calls == [] || res.calls == [GetPr(r.project, r.prId.value)];
    Compose(res.calls, StatusCall(r, forge, state, description, checkName, url),
            FallbackCalls(r, state, description, checkName, url', err), mirror);
  }

  /** The check names `report` iterates over: none for a falsy argument
      (`None`, `""` or `[]`), a single name as a one-element list. */
  function NormalisedNames(names: CheckNames): seq<string> {
    match names
    case NoNames => []
    case OneName(n) => if n == [] then [] else [n]
    case Names(ns) => ns
  }

  /** `p` is a non-empty prefix of `s`. */
  predicate NonEmptyPrefix<T(==)>(p: seq<T>, s: seq<T>) {
    1 <= |p| <= |s| && p == s[..|p|]
  }

  /** The first element of a list followed by a prefix of the rest. */
  lemma ConsPrefix<T>(names: seq<T>, p: seq<T>)
    requires names != []
    ensures [names[0]] + names[1..] == names
    ensures p == [] || NonEmptyPrefix(p, names[1..]) ==> NonEmptyPrefix([names[0]] + p, names)
  {
    if p != [] && NonEmptyPrefix(p, names[1..]) {
      assert [names[0]] + names[1..][..|p|] == names[..|p| + 1];
    }
  }

  /** Every call in `calls` is one `set_status` makes for one of `names`. */
  predicate NamedCalls(r: Reporter, forge: Forge, state: CommitState, description: string,
                       url: string, names: seq<string>, calls: seq<Call>) {
    forall c :: c in calls ==> exists n :: n in names && SetStatusMakes(r, forge, state, description, n, url, c)
  }

  /** The calls for the first name followed by those for the rest, made by a
      reporter with the same target and the same project holding the
      commit, are calls for the whole list. */
  lemma NamedCallsCons(r: Reporter, r': Reporter, forge: Forge, state: CommitState, description: string,
                       url: string, names: seq<string>, a: seq<Call>, b: seq<Call>)
    requires names != []
    requires SameTarget(r, r') && CommitProjectOf(r', forge) == CommitProjectOf(r, forge)
    requires AllMade(r, forge, state, description, names[0], url, a)
    requires NamedCalls(r', forge, state, description, url, names[1..], b)
    ensures NamedCalls(r, forge, state, description, url, names, a + b)
  {
    forall c | c in a + b
      ensures exists n :: n in names && SetStatusMakes(r, forge, state, description, n, url, c)
    {
      if c in a {
        assert names[0] in names;
      } else {
        var n :| n in names[1..] && SetStatusMakes(r', forge, state, description, n, url, c);
        assert SetStatusMakes(r, forge, state, description, n, url, c);
      }
    }
  }

  /** No name's status error propagates. */
  predicate NoneRaises(r: Reporter, forge: Forge, state: CommitState, description: string,
                       url: string, names: seq<string>) {
    forall i :: 0 <= i < |names| ==> !Propagates(StatusError(r, forge, state, description, names[i], url))
  }

  /** The last reported name is the first whose status error propagates,
      and `error` is that error. */
  predicate RaisedAtLast(r: Reporter, forge: Forge, state: CommitState, description: string,
                         url: string, reported: seq<string>, error: Exception) {
    && reported != []
    && NoneRaises(r, forge, state, description, url, reported[..|reported| - 1])
    && var e := StatusError(r, forge, state, description, reported[|reported| - 1], url);
       Propagates(e) && error == e.value
  }

  /** The fallback comments for the reported names, in order. */
  function ReportedFallbacks(r: Reporter, forge: Forge, state: CommitState, description: string,
                             url: string, names: seq<string>): seq<Call>
    decreases |names|
  {
    if names == [] then []
    else FallbackCalls(r, state, description, names[0], StatusUrl(r.project, url),
                       StatusError(r, forge, state, description, names[0], url))
         + ReportedFallbacks(r, forge, state, description, url, names[1..])
  }

  /** The flags for the reported names whose status call did not raise, in
      order. */
  function ReportedFlags(r: Reporter, forge: Forge, state: CommitState, description: string,
                         url: string, names: seq<string>): seq<Call>
    decreases |names|
  {
    if names == [] then []
    else (if !Propagates(StatusError(r, forge, state, description, names[0], url)) && MirrorApplies(r, forge)
          then [Flag(r, forge, names[0], description, StatusUrl(r.project, url), state)] else [])
         + ReportedFlags(r, forge, state, description, url, names[1..])
  }

  /** A reporter with the same target and the same project holding the
      commit meets the same status error. */
  lemma SameStatusError(r: Reporter, r': Reporter, forge: Forge, state: CommitState, description: string,
                        checkName: string, url: string)
    requires SameTarget(r, r') && CommitProjectOf(r', forge) == CommitProjectOf(r, forge)
    ensures StatusError(r', forge, state, description, checkName, url) == StatusError(r, forge, state, description, checkName, url)
  {
    assert ProjectWithCommit(r, forge).project == CommitProjectOf(r, forge);
    assert ProjectWithCommit(r', forge).project == CommitProjectOf(r', forge);
  }

  /** ... and so posts the same fallback comments, name by name, ... */
  lemma {:induction false} SameFallbacks(r: Reporter, r': Reporter, forge: Forge, state: CommitState,
                                         description: string, url: string, names: seq<string>)
    requires SameTarget(r, r') && CommitProjectOf(r', forge) == CommitProjectOf(r, forge)
    ensures ReportedFallbacks(r', forge, state, description, url, names) == ReportedFallbacks(r, forge, state, description, url, names)
    decreases |names|
  {
    if names != [] {
      SameStatusError(r, r', forge, state, description, names[0], url);
      SameFallbacks(r, r', forge, state, description, url, names[1..]);
    }
  }

  /** ... sets the same flags ... */
  lemma {:induction false} SameFlags(r: Reporter, r': Reporter, forge: Forge, state: CommitState,
                                     description: string, url: string, names: seq<string>)
    requires SameTarget(r, r') && CommitProjectOf(r', forge) == CommitProjectOf(r, forge)
    ensures ReportedFlags(r', forge, state, description, url, names) == ReportedFlags(r, forge, state, description, url, names)
    decreases |names|
  {
    if names != [] {
      SameStatusError(r, r', forge, state, description, names[0], url);
      SameFlags(r, r', forge, state, description, url, names[1..]);
    }
  }

  /** ... and raises for the same names. */
  lemma SameNoneRaises(r: Reporter, r': Reporter, forge: Forge, state: CommitState,
                       description: string, url: string, names: seq<string>)
    requires SameTarget(r, r') && CommitProjectOf(r', forge) == CommitProjectOf(r, forge)
    ensures NoneRaises(r', forge, state, description, url, names) == NoneRaises(r, forge, state, description, url, names)
  {
    forall i | 0 <= i < |names| {
      SameStatusError(r, r', forge, state, description, names[i], url);
    }
  }

  lemma SameRaisedAtLast(r: Reporter, r': Reporter, forge: Forge, state: CommitState, description: string,
                         url: string, reported: seq<string>, error: Exception)
    requires SameTarget(r, r') && CommitProjectOf(r', forge) == CommitProjectOf(r, forge)
    requires RaisedAtLast(r', forge, state, description, url, reported, error)
    ensures RaisedAtLast(r, forge, state, description, url, reported, error)
  {
    SameNoneRaises(r, r', forge, state, description, url, reported[..|reported| - 1]);
    SameStatusError(r, r', forge, state, description, reported[|reported| - 1], url);
  }

  /** Unfolding the per-name references at the first name. */
  lemma ReportedCons(r: Reporter, forge: Forge, state: CommitState, description: string,
                     url: string, n: string, rest: seq<string>)
    ensures var e := StatusError(r, forge, state, description, n, url);
      ReportedFallbacks(r, forge, state, description, url, [n] + rest)
      == FallbackCalls(r, state, description, n, StatusUrl(r.project, url), e)
         + ReportedFallbacks(r, forge, state, description, url, rest)
    ensures var e := StatusError(r, forge, state, description, n, url);
      ReportedFlags(r, forge, state, description, url, [n] + rest)
      == (if !Propagates(e) && MirrorApplies(r, forge)
          then [Flag(r, forge, n, description, StatusUrl(r.project, url), state)] else [])
         + ReportedFlags(r, forge, state, description, url, rest)
  {
    assert ([n] + rest)[0] == n;
    assert ([n] + rest)[1..] == rest;
  }

  /** A name that does not raise, in front of names that behave as
      reported. */
  lemma OutcomeCons(r: Reporter, forge: Forge, state: CommitState, description: string,
                    url: string, n: string, rest: seq<string>, outcome: Outcome)
    requires !Propagates(StatusError(r, forge, state, description, n, url))
    requires outcome.Returned? ==> NoneRaises(r, forge, state, description, url, rest)
    requires outcome.Raised? ==> RaisedAtLast(r, forge, state, description, url, rest, outcome.error)
    ensures outcome.Returned? ==> NoneRaises(r, forge, state, description, url, [n] + rest)
    ensures outcome.Raised? ==> RaisedAtLast(r, forge, state, description, url, [n] + rest, outcome.error)
  {
    var all := [n] + rest;
    if outcome.Raised? {
      assert all[..|all| - 1] == [n] + rest[..|rest| - 1];
      assert all[|all| - 1] == rest[|rest| - 1];
      var pre := all[..|all| - 1];
      forall i | 0 <= i < |pre|
        ensures !Propagates(StatusError(r, forge, state, description, pre[i], url))
      {
        if i > 0 { assert pre[i] == rest[..|rest| - 1][i - 1]; }
      }
    } else {
      forall i | 0 <= i < |all|
        ensures !Propagates(StatusError(r, forge, state, description, all[i], url))
      {
        if i > 0 { assert all[i] == rest[i - 1]; }
      }
    }
  }

  /** The fallback comments and flags of one returning `set_status` followed
      by those of the remaining names. */
  lemma SideCallsCons(r: Reporter, forge: Forge, state: CommitState, description: string,
                      url: string, n: string, rest: seq<string>, a: seq<Call>, b: seq<Call>)
    requires !Propagates(StatusError(r, forge, state, description, n, url))
    requires Only(a, CommitCommentKind) == FallbackCalls(r, state, description, n, StatusUrl(r.project, url),
                                                          StatusError(r, forge, state, description, n, url))
    requires Only(a, FlagKind) == if MirrorApplies(r, forge)
      then [Flag(r, forge, n, description, StatusUrl(r.project, url), state)] else []
    requires Only(b, CommitCommentKind) == ReportedFallbacks(r, forge, state, description, url, rest)
    requires Only(b, FlagKind) == ReportedFlags(r, forge, state, description, url, rest)
    ensures Only(a + b, CommitCommentKind) == ReportedFallbacks(r, forge, state, description, url, [n] + rest)
    ensures Only(a + b, FlagKind) == ReportedFlags(r, forge, state, description, url, [n] + rest)
  {
    OnlyAppend(a, b, CommitCommentKind);
    OnlyAppend(a, b, FlagKind);
    ReportedCons(r, forge, state, description, url, n, rest);
  }

  /** A `set_status` that raised reports exactly its own name. */
  lemma RaisedFirst(r: Reporter, forge: Forge, state: CommitState, description: string,
                    url: string, n: string, a: seq<Call>, error: Exception)
    requires var e := StatusError(r, forge, state, description, n, url); Propagates(e) && error == e.value
    requires Only(a, CommitCommentKind) == FallbackCalls(r, state, description, n, StatusUrl(r.project, url),
                                                          StatusError(r, forge, state, description, n, url))
    requires Only(a, FlagKind) == []
    ensures Only(a, CommitCommentKind) == ReportedFallbacks(r, forge, state, description, url, [n])
    ensures Only(a, FlagKind) == ReportedFlags(r, forge, state, description, url, [n])
    ensures RaisedAtLast(r, forge, state, description, url, [n], error)
  {
    ReportedCons(r, forge, state, description, url, n, []);
    assert [n] + [] == [n];
    assert [n][..0] == [];
  }

  /** The report of the remaining names, made by the reporter after the
      first, returning `set_status`, carries over to the original reporter. */
  lemma ReportEachCons(r: Reporter, r': Reporter, forge: Forge, state: CommitState, description: string,
                       url: string, n: string, a: seq<Call>, rest: Step)
    requires SameTarget(r, r') && CommitProjectOf(r', forge) == CommitProjectOf(r, forge)
    requires !Propagates(StatusError(r, forge, state, description, n, url))
    requires Only(a, CommitCommentKind) == FallbackCalls(r, state, description, n, StatusUrl(r.project, url),
                                                          StatusError(r, forge, state, description, n, url))
    requires Only(a, FlagKind) == if MirrorApplies(r, forge)
      then [Flag(r, forge, n, description, StatusUrl(r.project, url), state)] else []
    requires StatusChecks(a + rest.calls) == [n] + StatusChecks(rest.calls)
    requires var reported := StatusChecks(rest.calls);
      && (rest.outcome.Returned? ==> NoneRaises(r', forge, state, description, url, reported))
      && (rest.outcome.Raised? ==> RaisedAtLast(r', forge, state, description, url, reported, rest.outcome.error))
      && Only(rest.calls, CommitCommentKind) == ReportedFallbacks(r', forge, state, description, url, reported)
      && Only(rest.calls, FlagKind) == ReportedFlags(r', forge, state, description, url, reported)
    ensures var reported := StatusChecks(a + rest.calls);
      && (rest.outcome.Returned? ==> NoneRaises(r, forge, state, description, url, reported))
      && (rest.outcome.Raised? ==> RaisedAtLast(r, forge, state, description, url, reported, rest.outcome.error))
      && Only(a + rest.calls, CommitCommentKind) == ReportedFallbacks(r, forge, state, description, url, reported)
      && Only(a + rest.calls, FlagKind) == ReportedFlags(r, forge, state, description, url, reported)
  {
    var reported := StatusChecks(rest.calls);
    SameFallbacks(r, r', forge, state, description, url, reported);
    SameFlags(r, r', forge, state, description, url, reported);
    SameNoneRaises(r, r', forge, state, description, url, reported);
    if rest.outcome.Raised? {
      SameRaisedAtLast(r, r', forge, state, description, url, reported, rest.outcome.error);
    }
    OutcomeCons(r, forge, state, description, url, n, reported, rest.outcome);
    SideCallsCons(r, forge, state, description, url, n, reported, a, rest.calls);
  }

  /** `set_status` once per name, in order, stopping at the first raise. */
  function ReportEach(r: Reporter, forge: Forge, state: CommitState, description: string,
                      url: string, names: seq<string>): (st: Step)
    ensures SameTarget(r, st.reporter)
    ensures CommitProjectOf(st.reporter, forge) == CommitProjectOf(r, forge)
    // every call carries the state, description and URL, and is for one of the names
    ensures NamedCalls(r, forge, state, description, url, names, st.calls)
    ensures st.outcome.Returned? ==> StatusChecks(st.calls) == names
    ensures st.outcome.Raised? ==> NonEmptyPrefix(StatusChecks(st.calls), names)
    // the outcome: a return only when no name's status error propagates;
    // a raise with the error of the last reported name, none before it raising
    ensures st.outcome.Returned? ==> NoneRaises(r, forge, state, description, url, names)
    ensures st.outcome.Raised? ==> RaisedAtLast(r, forge, state, description, url, StatusChecks(st.calls), st.outcome.error)
    // each reported name's fallback comment and flag, in order
    ensures Only(st.calls, CommitCommentKind) == ReportedFallbacks(r, forge, state, description, url, StatusChecks(st.calls))
    ensures Only(st.calls, FlagKind) == ReportedFlags(r, forge, state, description, url, StatusChecks(st.calls))
    decreases |names|
  {
    if names == [] then Step(r, [], Returned)
    else
      var first := SetStatus(r, forge, state, description, names[0], url);
      SetStatusCalls(r, forge, state, description, names[0], url);
      ConsPrefix(names, []);
      if first.outcome.Raised? then
        RaisedFirst(r, forge, state, description, url, names[0], first.calls, first.outcome.error);
        first
      else
        var rest := ReportEach(first.reporter, forge, state, description, url, names[1..]);
        StatusChecksAppend(first.calls, rest.calls);
        NamedCallsCons(r, first.reporter, forge, state, description, url, names, first.calls, rest.calls);
        ConsPrefix(names, StatusChecks(rest.calls));
        ReportEachCons(r, first.reporter, forge, state, description, url, names[0], first.calls, rest);
        Step(rest.reporter, first.calls + rest.calls, rest.outcome)
  }

  /** A raise at the end of a prefix of the names is a raise for one of
      the names. */
  lemma RaisedSomewhere(r: Reporter, forge: Forge, state: CommitState, description: string,
                        url: string, reported: seq<string>, names: seq<string>, error: Exception)
    requires NonEmptyPrefix(reported, names)
    requires RaisedAtLast(r, forge, state, description, url, reported, error)
    ensures !NoneRaises(r, forge, state, description, url, names)
  {
    var k := |reported| - 1;
    assert reported[k] == names[k];
  }

  /** The loop returns exactly when no name's status error propagates. */
  lemma ReportReturnsIff(r: Reporter, forge: Forge, state: CommitState, description: string,
                         url: string, names: seq<string>)
    ensures ReportEach(r, forge, state, description, url, names).outcome.Returned?
      <==> NoneRaises(r, forge, state, description, url, names)
  {
    var st := ReportEach(r, forge, state, description, url, names);
    if st.outcome.Raised? {
      RaisedSomewhere(r, forge, state, description, url, StatusChecks(st.calls), names, st.outcome.error);
    }
  }

  /** `report`: set the status of each normalised check name. */
  function Report(r: Reporter, forge: Forge, state: CommitState, description: string,
                  url: string, names: CheckNames): (st: Step)
    ensures SameTarget(r, st.reporter)
    // every call carries the state, description and URL, and is for one of the names
    ensures NamedCalls(r, forge, state, description, url, NormalisedNames(names), st.calls)
    // a falsy argument: nothing at all
    ensures NormalisedNames(names) == [] ==> st == Step(r, [], Returned)
    // a single name is reported as a one-element list
    ensures names.OneName? && names.name != [] && st.outcome.Returned? ==> StatusChecks(st.calls) == [names.name]
    // one status call per name, in list order
    ensures st.outcome.Returned? ==> StatusChecks(st.calls) == NormalisedNames(names)
    // a raise stops the loop after the failing name
    ensures st.outcome.Raised? ==> NonEmptyPrefix(StatusChecks(st.calls), NormalisedNames(names))
    // it raises the error of the last reported name, and only when that
    // name's status error propagates
    ensures st.outcome.Returned? ==> NoneRaises(r, forge, state, description, url, NormalisedNames(names))
    ensures st.outcome.Raised? ==> RaisedAtLast(r, forge, state, description, url, StatusChecks(st.calls), st.outcome.error)
    // each reported name's fallback comment and flag, in order
    ensures Only(st.calls, CommitCommentKind) == ReportedFallbacks(r, forge, state, description, url, StatusChecks(st.calls))
    ensures Only(st.calls, FlagKind) == ReportedFlags(r, forge, state, description, url, StatusChecks(st.calls))
  {
    ReportEach(r, forge, state, description, url, NormalisedNames(names))
  }

  /** When the forge accepts every status call, `report` sets one status
      per name and never raises. */
  lemma {:induction false} ReportWithoutErrors(r: Reporter, forge: Forge, state: CommitState, description: string,
                                               url: string, names: seq<string>)
    requires forall c :: forge.statusError(c) == None
    ensures ReportEach(r, forge, state, description, url, names).outcome == Returned
    ensures StatusChecks(ReportEach(r, forge, state, description, url, names).calls) == names
    decreases |names|
  {
    if names != [] {
      var first := SetStatus(r, forge, state, description, names[0], url);
      SetStatusCalls(r, forge, state, description, names[0], url);
      ReportWithoutErrors(first.reporter, forge, state, description, url, names[1..]);
    }
  }

  /** `comment`: on the pull request when the id is set and non-zero,
      otherwise on the commit. */
  function Comment(r: Reporter, body: string): (st: Step)
    ensures st.reporter == r && st.outcome == Returned
    ensures r.prId.Some? && r.prId.value != 0 ==>
      st.calls == [GetPr(r.project, r.prId.value), PrComment(r.project, r.prId.value, body)]
    ensures r.prId.None? || r.prId.value == 0 ==>
      st.calls == [CommitComment(r.project, r.commitSha, body)]
  {
    if r.prId.Some? && r.prId.value != 0 then
      Step(r, [GetPr(r.project, r.prId.value), PrComment(r.project, r.prId.value, body)], Returned)
    else
      Step(r, [CommitComment(r.project, r.commitSha, body)], Returned)
  }

  /** The two header lines of the status table. */
  const TableHeader: seq<string> := ["| Job | Result |", "| ------------- | ------------ |"]

  /** One table row: the check linking to `url`, and the upper-cased state. */
  function TableRow(check: string, url: string, state: CommitState): string {
    "| [" + check + "](" + url + ") | " + UpperAscii(StateName(state)) + " |"
  }

  function TableRows(checks: seq<string>, url: string, state: CommitState): (rows: seq<string>)
    ensures |rows| == |checks|
    ensures forall i :: 0 <= i < |checks| ==> rows[i] == TableRow(checks[i], url, state)
  {
    seq(|checks|, i requires 0 <= i < |checks| => TableRow(checks[i], url, state))
  }

  /** The heading above the description in the table comment. */
  const DescriptionHeading: string := "### Description"

  /** The body `report_status_by_comment` posts. */
  function TableBody(state: CommitState, url: string, checks: seq<string>, description: string): string {
    JoinLines(TableHeader + TableRows(checks, url, state)) + "\n" + DescriptionHeading + "\n\n" + description
  }

  lemma RowUnbroken(check: string, url: string, state: CommitState)
    requires '\n' !in check && '\n' !in url
    ensures '\n' !in TableRow(check, url, state)
  {
    var up := UpperAscii(StateName(state));
    assert '\n' !in up by {
      forall k | 0 <= k < |up| ensures up[k] != '\n' {
        assert StateName(state)[k] != '\n';
      }
    }
    assert TableRow(check, url, state) == "| [" + check + "](" + url + ") | " + up + " |";
  }

  lemma TableLinesUnbroken(state: CommitState, url: string, checks: seq<string>)
    requires '\n' !in url
    requires forall i :: 0 <= i < |checks| ==> '\n' !in checks[i]
    ensures NoLineBreaks(TableHeader + TableRows(checks, url, state))
  {
    var rows := TableRows(checks, url, state);
    forall i | 0 <= i < |rows| ensures '\n' !in rows[i] {
      RowUnbroken(checks[i], url, state);
    }
    var ls := TableHeader + rows;
    forall i | 0 <= i < |ls| ensures '\n' !in ls[i] {
      if i >= 2 { assert ls[i] == rows[i - 2]; }
    }
  }

  /** The description block under the table: its heading, an empty line,
      then the description's own lines. */
  lemma DescriptionLines(description: string)
    ensures Lines(DescriptionHeading + "\n\n" + description) == [DescriptionHeading, ""] + Lines(description)
  {
    assert '\n' !in DescriptionHeading;
    LinesAfterBreak(DescriptionHeading, description);
    LinesAfterLine(DescriptionHeading, "\n" + description);
  }

  /** The table comment reads, line by line: the two header lines, one row
      per check in order, the description heading, an empty line, then the
      description. */
  lemma TableBodyLines(state: CommitState, url: string, checks: seq<string>, description: string)
    requires '\n' !in url
    requires forall i :: 0 <= i < |checks| ==> '\n' !in checks[i]
    ensures Lines(TableBody(state, url, checks, description)) ==
      TableHeader + TableRows(checks, url, state) + [DescriptionHeading, ""] + Lines(description)
  {
    var ls := TableHeader + TableRows(checks, url, state);
    var rest := DescriptionHeading + "\n\n" + description;
    TableLinesUnbroken(state, url, checks);
    assert TableBody(state, url, checks, description) == JoinLines(ls) + "\n" + rest;
    LinesOfJoin(ls, rest);
    DescriptionLines(description);
  }

  /** `report_status_by_comment`: one comment with a table row per check
      name. Iterating `None` raises before anything is posted. */
  function ReportStatusByComment(r: Reporter, state: CommitState, url: string, names: CheckNames,
                                 description: string): (st: Step)
    ensures st.reporter == r
    ensures names.NoNames? ==> st == Step(r, [], Raised(TypeError))
    ensures !names.NoNames? ==>
      var checks := if names.OneName? then [names.name] else names.names;
      st == Comment(r, TableBody(state, url, checks, description))
  {
    match names
    case NoNames => Step(r, [], Raised(TypeError))
    case OneName(n) => Comment(r, TableBody(state, url, [n], description))
    case Names(ns) => Comment(r, TableBody(state, url, ns, description))
  }

  /** `get_statuses` as written: the statuses are fetched from the project
      holding the commit, but the method has no `return`, so its caller
      always receives `None`. */
  function GetStatusesAsWritten(r: Reporter, forge: Forge): (res: (Option<seq<StatusRecord>>, Step))
    ensures res.0 == None
    ensures SameTarget(r, res.1.reporter)
  {
    var p := ProjectWithCommit(r, forge);
    (None, Step(p.reporter, p.calls + [GetCommitStatuses(p.project, r.commitSha)], Returned))
  }

  /** Even when the commit has statuses, the as-written method returns none
      of them. */
  lemma GetStatusesLosesStatuses(r: Reporter, forge: Forge)
    requires forge.commitStatuses(ProjectWithCommit(r, forge).project, r.commitSha) != []
    ensures GetStatusesAsWritten(r, forge).0 != Some(forge.commitStatuses(ProjectWithCommit(r, forge).project, r.commitSha))
  {
  }

  /** `get_statuses` as intended: the statuses of the commit on the project
      holding it. */
  function GetStatuses(r: Reporter, forge: Forge): (res: (seq<StatusRecord>, Step))
    ensures SameTarget(r, res.1.reporter)
    ensures res.0 == forge.commitStatuses(CommitProjectOf(r, forge), r.commitSha)
    ensures res.1.outcome == Returned
    ensures |res.1.calls| >= 1 && res.1.calls[|res.1.calls| - 1] == GetCommitStatuses(CommitProjectOf(r, forge), r.commitSha)
  {
    var p := ProjectWithCommit(r, forge);
    (forge.commitStatuses(p.project, r.commitSha),
     Step(p.reporter, p.calls + [GetCommitStatuses(p.project, r.commitSha)], Returned))
  }

  /** The comment `report_status_by_comment` posts lists, line by line, the
      table header, one row per check name in order, and the description. */
  lemma StatusTablePosted(r: Reporter, state: CommitState, url: string, checks: seq<string>, description: string)
    requires '\n' !in url
    requires forall i :: 0 <= i < |checks| ==> '\n' !in checks[i]
    ensures var st := ReportStatusByComment(r, state, url, Names(checks), description);
      && st.outcome == Returned
      && |st.calls| >= 1
      && (st.calls[|st.calls| - 1].PrComment? || st.calls[|st.calls| - 1].CommitComment?)
      && Lines(st.calls[|st.calls| - 1].body) ==
           TableHeader + TableRows(checks, url, state) + [DescriptionHeading, ""] + Lines(description)
  {
    TableBodyLines(state, url, checks, description);
  }
}
