/** The health monitor's configuration and the figures `generate_health_report`
    computes from the four checks: the number of projects, the healthy
    repositories and clean working copies of the overview, the dependency
    lines, the system status and the number of packages needing updates. The
    report text itself is not modelled. */
module HealthReport {
  import opened Wrappers
  import opened PyStrings
  import opened PyDicts
  import GitHubStatus
  import LocalGitStatus
  import Dependencies
  import SystemHealth

  /** The repositories the monitor queries, as `owner/name`. */
  const Repositories: seq<string> := [
    "reggienitro/claude-config",
    "reggienitro/article-to-audio-extension",
    "reggienitro/bee-supabase-integration",
    "reggienitro/personal-data-lake",
    "reggienitro/knowledge-scraper"
  ]

  /** The local projects: name and working-copy path. */
  const LocalProjects: Dict<string, string> := [
    ("claude-config", "/Users/aettefagh/claude-config"),
    ("article-to-audio", "/Users/aettefagh/AI projects/claude-tools/article-to-audio-extension"),
    ("bee-supabase", "/Users/aettefagh/AI projects/automation-tools/bee-supabase-integration"),
    ("personal-data-lake", "/Users/aettefagh/AI projects/automation-tools/personal-data-lake"),
    ("knowledge-scraper", "/Users/aettefagh/AI projects/claude-tools/knowledge-scraper")
  ]

  /** No repository and no project is configured twice. */
  lemma ConfigDistinct()
    ensures UniqueKeys(LocalProjects)
    ensures forall i :: 0 <= i < |Repositories| ==> LastAssignment(Repositories, i)
  {
  }

  /** How many of the status labels carry the check mark. */
  function CountMarked(labels: seq<string>): (n: nat)
    ensures n <= |labels|
    ensures n == |labels| <==> forall i :: 0 <= i < |labels| ==> '✅' in labels[i]
    ensures n == 0 <==> forall i :: 0 <= i < |labels| ==> '✅' !in labels[i]
  {
    if labels == [] then 0
    else
      var init := labels[..|labels| - 1];
      assert forall i :: 0 <= i < |init| ==> init[i] == labels[i];
      CountMarked(init) + (if '✅' in labels[|labels| - 1] then 1 else 0)
  }

  function GitHubLabels(sts: seq<GitHubStatus.RepoStatus>): seq<string> {
    seq(|sts|, i requires 0 <= i < |sts| => GitHubStatus.Label(sts[i]))
  }

  function LocalLabels(sts: seq<LocalGitStatus.LocalStatus>): seq<string> {
    seq(|sts|, i requires 0 <= i < |sts| => LocalGitStatus.Label(sts[i]))
  }

  /** The overview's healthy repositories are all of them exactly when every
      repository is healthy, and none exactly when none is. */
  lemma HealthyCountIff(sts: seq<GitHubStatus.RepoStatus>)
    ensures CountMarked(GitHubLabels(sts)) <= |sts|
    ensures CountMarked(GitHubLabels(sts)) == |sts| <==> forall i :: 0 <= i < |sts| ==> sts[i].Healthy?
    ensures CountMarked(GitHubLabels(sts)) == 0 <==> forall i :: 0 <= i < |sts| ==> !sts[i].Healthy?
  {
    var ls := GitHubLabels(sts);
    assert forall i :: 0 <= i < |sts| ==> ('✅' in ls[i] <==> sts[i].Healthy?);
  }

  /** A working copy counts as clean when its label carries the check mark. */
  predicate IsClean(st: LocalGitStatus.LocalStatus) {
    st.Checked? && st.dirtyCount == 0
  }

  /** The overview's clean working copies are all of them exactly when every
      one was checked and has no uncommitted change, and none exactly when
      none is so. */
  lemma CleanCountIff(sts: seq<LocalGitStatus.LocalStatus>)
    ensures CountMarked(LocalLabels(sts)) <= |sts|
    ensures CountMarked(LocalLabels(sts)) == |sts| <==> forall i :: 0 <= i < |sts| ==> IsClean(sts[i])
    ensures CountMarked(LocalLabels(sts)) == 0 <==> forall i :: 0 <= i < |sts| ==> !IsClean(sts[i])
  {
    var ls := LocalLabels(sts);
    assert forall i :: 0 <= i < |sts| ==> ('✅' in ls[i] <==> IsClean(sts[i]));
  }

  /** What the report shows, before it is formatted. */
  datatype Report = Report(
    totalProjects: nat,
    healthyRepos: nat,
    cleanRepos: nat,
    github: Dict<string, GitHubStatus.RepoStatus>,
    local: Dict<string, LocalGitStatus.LocalStatus>,
    dependencies: Dict<string, Dependencies.DepsEntry>,
    dependencyLines: seq<Dependencies.DepLine>,
    system: SystemHealth.SystemStatus,
    packagesToUpdate: nat)

  /** `generate_health_report` without the text: the four checks run in turn
      over the configuration, with `replies`, `copies`, `probes` and `system`
      standing for what the network, the file system and the commands return,
      and `sep` for the separator the output parsing splits on. */
  method GenerateHealthReport(
    replies: seq<GitHubStatus.RepoReply>,
    copies: seq<LocalGitStatus.WorkingCopy>,
    probes: seq<Dependencies.DepsProbe>,
    system: SystemHealth.SystemProbe,
    sep: string)
    returns (r: Report)
    requires |replies| == |Repositories| && |copies| == |LocalProjects| && |probes| == |LocalProjects|
    requires sep != []
    ensures r.totalProjects == |Repositories|
    ensures UniqueKeys(r.github) && forall k :: k in Keys(r.github) <==> k in Repositories
    ensures r.healthyRepos == CountMarked(GitHubLabels(Values(r.github))) && r.healthyRepos <= |r.github|
    ensures forall i :: 0 <= i < |Repositories| ==>
      Get(r.github, Repositories[i]) == Some(GitHubStatus.Classify(replies[i]))
    ensures |r.local| == |LocalProjects|
    ensures forall i :: 0 <= i < |LocalProjects| ==>
      r.local[i] == (LocalProjects[i].0, LocalGitStatus.CheckProject(LocalProjects[i].1, copies[i], sep))
    ensures r.cleanRepos == CountMarked(LocalLabels(Values(r.local))) && r.cleanRepos <= |LocalProjects|
    ensures UniqueKeys(r.dependencies)
    ensures forall k :: k in Keys(r.dependencies) <==>
      exists i :: 0 <= i < |LocalProjects| && probes[i].present && LocalProjects[i].0 == k
    ensures forall i :: 0 <= i < |LocalProjects| && probes[i].present ==>
      Get(r.dependencies, LocalProjects[i].0) == Some(Dependencies.CheckProjectDeps(probes[i]))
    ensures r.dependencyLines == Dependencies.SectionLines(r.dependencies)
    ensures r.packagesToUpdate == Dependencies.UpdateCount(r.dependencies)
    ensures r.packagesToUpdate == Dependencies.PythonShown(r.dependencyLines)
    ensures r.system == SystemHealth.CheckSystemHealth(system, sep)
  {
    ConfigDistinct();
    var github := GitHubStatus.CheckGitHubStatus(Repositories, replies);
    var local := LocalGitStatus.CheckLocalGitStatus(LocalProjects, copies, sep);
    var deps := Dependencies.CheckDependencies(LocalProjects, probes);
    var sys := SystemHealth.CheckSystemHealth(system, sep);
    var lines := Dependencies.DependencySection(deps);
    Dependencies.UpdateCountShown(deps);
    r := Report(|Repositories|, CountMarked(GitHubLabels(Values(github))), CountMarked(LocalLabels(Values(local))),
                github, local, deps, lines, sys, Dependencies.UpdateCount(deps));
  }
}
