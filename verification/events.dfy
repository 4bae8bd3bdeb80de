/** The data the dispatcher works on: job configurations from a repository's
    packit configuration, the inbound events, forge projects, and the static
    handler registry. */
module Events {
  import opened Base

  /** The lifecycle point a job reacts to (JobConfigTriggerType). */
  datatype TriggerType = Release | PullRequest | Commit

  /** The job types a package configuration may declare (packit's JobType). */
  datatype JobType =
    | CoprBuild | Build | ProductionBuild | KojiBuild | Tests
    | ProposeDownstream | SyncFromDownstream

  /** One job of the package configuration; `metadata` stands for the
      job-specific settings the dispatcher never looks into. */
  datatype JobConfig = JobConfig(jobType: JobType, trigger: TriggerType, metadata: string)

  /** The parsed packit configuration: its jobs in file order. */
  datatype PackageConfig = PackageConfig(jobs: seq<JobConfig>)

  /** The forges a project can live on. */
  datatype Service = GitHub | GitLab | Pagure

  /** A forge project as the dispatcher and the reporter see it. `isPrivate`
      is the answer of the forge's `is_private()`. */
  datatype Project = Project(service: Service, hostname: string, namespace: string, isPrivate: bool)

  /** The concrete event classes of the webhook and message parsers. */
  datatype EventKind =
    | PullRequestGithub | PullRequestPagure | MergeRequestGitlab
    | PushGithub | PushGitlab | PushPagure | ReleaseGithub
    | PullRequestCommentGithub | PullRequestCommentPagure | IssueComment
    | MergeRequestCommentGitlab | IssueCommentGitlab
    | Installation | PullRequestLabelPagure
    | CoprBuildEvent | KojiBuildEvent | TestingFarmResults | DistGitCommit

  /** The five event classes that carry a user comment and therefore go
      through the command parser. */
  predicate IsCommentKind(k: EventKind) {
    k.PullRequestCommentGithub? || k.PullRequestCommentPagure? || k.IssueComment?
    || k.MergeRequestCommentGitlab? || k.IssueCommentGitlab?
  }

  /** A parsed event. `trigger` is the job-config trigger type of the event's
      database trigger, `comment` the comment text (read only for comment
      kinds), `preCheck` the answer of the event's `pre_check()`. */
  datatype Event = Event(
    kind: EventKind,
    trigger: TriggerType,
    comment: string,
    project: Option<Project>,
    packageConfig: Option<PackageConfig>,
    preCheck: bool)

  /** The static handler registry over handler kinds `H`:
      - `direct`: MAP_JOB_TYPE_TO_HANDLER,
      - `required`: MAP_REQUIRED_JOB_TYPE_TO_HANDLER,
      - `supported`: SUPPORTED_EVENTS_FOR_HANDLER, already closed under the
        event class hierarchy,
      - `byCommand`: MAP_COMMENT_TO_HANDLER (an unknown command maps to the
        empty set),
      - `topic` and `all`: each handler class's optional `topic` attribute and
        the list of all handler classes,
      - `installationHandler`, `labelHandler`: the installation and Pagure label handlers,
      - `iterate`: the order in which iterating a set of handlers visits it. */
  datatype Registry<!H> = Registry(
    direct: JobType -> set<H>,
    required: JobType -> set<H>,
    supported: H -> set<EventKind>,
    byCommand: string -> set<H>,
    topic: H -> Option<string>,
    all: seq<H>,
    installationHandler: H,
    labelHandler: H,
    iterate: set<H> -> seq<H>)

  /** `order` visits every member of `s` exactly once. */
  predicate Enumerates<H(==)>(order: seq<H>, s: set<H>) {
    && (forall i, j :: 0 <= i < j < |order| ==> order[i] != order[j])
    && (forall h :: h in order ==> h in s)
    && (forall h :: h in s ==> h in order)
  }

  /** Iterating a set visits each member once, as iterating a Python set does. */
  ghost predicate ValidRegistry<H(!new)>(reg: Registry<H>) {
    forall s: set<H> :: Enumerates(reg.iterate(s), s)
  }
}
