/** The dependency part of the health monitor: `check_dependencies` builds one
    entry per existing project from `pip list --outdated` and `npm audit`, and
    the report turns each entry into summary lines and totals the outdated
    Python packages. What the commands returned, already decoded from JSON, or
    the exception they raised, is the input. */
module Dependencies {
  import opened Wrappers
  import opened PyStrings
  import opened PyDicts

  /** `pip list --outdated --format=json`: its return code and the names of the
      packages in the decoded list (`[]` for blank output), or the exception
      decoding raised. */
  datatype PipRun = PipRun(returnCode: int, outdated: Result<seq<string>, string>)

  /** `metadata.vulnerabilities` of an audit: the values of the dictionary
      (`{}` when the key is missing), or something that is not a dictionary. */
  datatype Vulnerabilities = VulnCounts(counts: seq<int>) | NotADict

  /** The audit metadata (`totalDependencies` defaulting to 0). */
  datatype AuditMeta = AuditMeta(vulnerabilities: Vulnerabilities, totalDeps: int)

  /** `npm audit --json`: its return code and the metadata, `None` when the
      output could not be decoded or read. */
  datatype NpmRun = NpmRun(returnCode: int, audit: Option<AuditMeta>)

  /** What the monitor finds at one existing project: the exception changing
      into it raised (if any), whether `requirements.txt` and `package.json`
      exist, and each tool's run or the exception running it raised. */
  datatype DepsProbe = DepsProbe(
    present: bool,
    chdirError: Option<string>,
    hasRequirements: bool, pip: Result<PipRun, string>,
    hasPackageJson: bool, npm: Result<NpmRun, string>)

  datatype PythonDeps = PythonDeps(outdatedCount: nat, outdatedPackages: seq<string>)

  /** `deps['nodejs']`: the audit figures, or `Could not parse audit`. */
  datatype NodeDeps = Audited(vulnerabilities: Vulnerabilities, totalDeps: int) | Unparsed

  /** The entry stored under a project's name. */
  datatype DepsEntry =
    | Deps(python: Option<PythonDeps>, nodejs: Option<NodeDeps>)
    | DepsError(error: string)

  const PackagesShown := 5

  /** The Python step raises: running pip raised, or it exited 0 and its output
      could not be decoded. */
  predicate PythonRaises(p: DepsProbe) {
    p.hasRequirements && (p.pip.Failure? || (p.pip.value.returnCode == 0 && p.pip.value.outdated.Failure?))
  }

  /** The Node.js step raises: running npm raised (a bad audit is caught). */
  predicate NodeRaises(p: DepsProbe) {
    p.hasPackageJson && p.npm.Failure?
  }

  /** The Python step: nothing without `requirements.txt` or when pip fails,
      else the count of outdated packages and the first five names. */
  function PythonCheck(p: DepsProbe): (r: Result<Option<PythonDeps>, string>)
    ensures r.Failure? <==> PythonRaises(p)
    ensures r.Success? ==> (r.value.Some? <==> p.hasRequirements && p.pip.Success? && p.pip.value.returnCode == 0)
    ensures r.Success? && r.value.Some? ==>
      && p.pip.Success? && p.pip.value.outdated.Success?
      && var names := p.pip.value.outdated.value;
      && r.value.value.outdatedCount == |names|
      && |r.value.value.outdatedPackages| <= PackagesShown
      && r.value.value.outdatedPackages <= names
      && r.value.value.outdatedPackages == Take(names, PackagesShown)
  {
    if !p.hasRequirements then Success(None)
    else match p.pip
      case Failure(e) => Failure(e)
      case Success(run) =>
        if run.returnCode != 0 then Success(None)
        else match run.outdated
          case Failure(e) => Failure(e)
          case Success(names) => Success(Some(PythonDeps(|names|, Take(names, PackagesShown))))
  }

  /** The Node.js step: nothing without `package.json` or when npm exits other
      than 0 or 1, else the audit figures or `Unparsed`. */
  function NodeCheck(p: DepsProbe): (r: Result<Option<NodeDeps>, string>)
    ensures r.Failure? <==> NodeRaises(p)
    ensures r.Success? ==>
      (r.value.Some? <==> p.hasPackageJson && p.npm.Success? && p.npm.value.returnCode in {0, 1})
    ensures r.Success? && r.value.Some? ==>
      p.npm.Success? && (r.value.value == Unparsed <==> p.npm.value.audit.None?)
    ensures r.Success? && r.value.Some? && p.npm.value.audit.Some? ==>
      r.value.value == Audited(p.npm.value.audit.value.vulnerabilities, p.npm.value.audit.value.totalDeps)
  {
    if !p.hasPackageJson then Success(None)
    else match p.npm
      case Failure(e) => Failure(e)
      case Success(run) =>
        if run.returnCode !in {0, 1} then Success(None)
        else match run.audit
          case None => Success(Some(Unparsed))
          case Some(m) => Success(Some(Audited(m.vulnerabilities, m.totalDeps)))
  }

  /** The entry for one existing project: an error entry (at most 100
      characters) exactly when changing directory or one of the two steps
      raised, the Python step's exception taking precedence; otherwise the
      figures of both steps. */
  function CheckProjectDeps(p: DepsProbe): (e: DepsEntry)
    ensures e.DepsError? <==> p.chdirError.Some? || PythonRaises(p) || NodeRaises(p)
    ensures e.DepsError? ==> |e.error| <= ErrorLength
    ensures p.chdirError.Some? ==> e == DepsError(Take(p.chdirError.value, ErrorLength))
    ensures p.chdirError.None? && PythonRaises(p) ==> e == DepsError(Take(PythonCheck(p).error, ErrorLength))
    ensures p.chdirError.None? && !PythonRaises(p) && NodeRaises(p) ==>
      e == DepsError(Take(NodeCheck(p).error, ErrorLength))
    ensures e.Deps? ==> Success(e.python) == PythonCheck(p) && Success(e.nodejs) == NodeCheck(p)
  {
    if p.chdirError.Some? then DepsError(Take(p.chdirError.value, ErrorLength))
    else match PythonCheck(p)
      case Failure(e) => DepsError(Take(e, ErrorLength))
      case Success(python) =>
        match NodeCheck(p)
        case Failure(e) => DepsError(Take(e, ErrorLength))
        case Success(nodejs) => Deps(python, nodejs)
  }

  /** The dictionary `check_dependencies` builds after the first `n` projects:
      a missing project is skipped, any other is assigned its entry. */
  function EntriesAfter(projects: Dict<string, string>, probes: seq<DepsProbe>, n: nat): Dict<string, DepsEntry>
    requires |probes| == |projects| && n <= |projects|
  {
    if n == 0 then []
    else
      var d := EntriesAfter(projects, probes, n - 1);
      if probes[n - 1].present then Assign(d, projects[n - 1].0, CheckProjectDeps(probes[n - 1])) else d
  }

  /** The keys are the existing projects, each once. */
  lemma {:induction false} EntriesAfterKeys(projects: Dict<string, string>, probes: seq<DepsProbe>, n: nat)
    requires |probes| == |projects| && n <= |projects|
    ensures UniqueKeys(EntriesAfter(projects, probes, n))
    ensures forall k :: k in Keys(EntriesAfter(projects, probes, n)) <==>
      exists i :: 0 <= i < n && probes[i].present && projects[i].0 == k
  {
    if n > 0 {
      var d := EntriesAfter(projects, probes, n - 1);
      EntriesAfterKeys(projects, probes, n - 1);
      if probes[n - 1].present {
        AssignUnique(d, projects[n - 1].0, CheckProjectDeps(probes[n - 1]));
        AssignKeys(d, projects[n - 1].0, CheckProjectDeps(probes[n - 1]));
      }
    }
  }

  /** With distinct project names, an existing project's entry is its own. */
  lemma {:induction false} EntriesAfterGet(projects: Dict<string, string>, probes: seq<DepsProbe>, n: nat, i: nat)
    requires |probes| == |projects| && i < n <= |projects| && UniqueKeys(projects) && probes[i].present
    ensures Get(EntriesAfter(projects, probes, n), projects[i].0) == Some(CheckProjectDeps(probes[i]))
  {
    var d := EntriesAfter(projects, probes, n - 1);
    var k := projects[n - 1].0;
    if probes[n - 1].present {
      AssignGet(d, k, CheckProjectDeps(probes[n - 1]), projects[i].0);
    }
    if i < n - 1 {
      EntriesAfterGet(projects, probes, n - 1, i);
    }
  }

  /** `check_dependencies`: `probes[i]` is what the monitor finds for the
      `i`-th configured project. */
  method CheckDependencies(projects: Dict<string, string>, probes: seq<DepsProbe>)
    returns (status: Dict<string, DepsEntry>)
    requires |probes| == |projects| && UniqueKeys(projects)
    ensures UniqueKeys(status)
    ensures forall k :: k in Keys(status) <==>
      exists i :: 0 <= i < |projects| && probes[i].present && projects[i].0 == k
    ensures forall i :: 0 <= i < |projects| && probes[i].present ==>
      Get(status, projects[i].0) == Some(CheckProjectDeps(probes[i]))
  {
    status := [];
    var i := 0;
    while i < |projects|
      invariant 0 <= i <= |projects|
      invariant status == EntriesAfter(projects, probes, i)
    {
      if probes[i].present {
        status := Assign(status, projects[i].0, CheckProjectDeps(probes[i]));
      }
      i := i + 1;
    }
    EntriesAfterKeys(projects, probes, i);
    forall j | 0 <= j < |projects| && probes[j].present
      ensures Get(status, projects[j].0) == Some(CheckProjectDeps(probes[j]))
    {
      EntriesAfterGet(projects, probes, i, j);
    }
  }

  /** `sum(xs)` */
  function Sum(xs: seq<int>): int {
    if xs == [] then 0 else Sum(xs[..|xs| - 1]) + xs[|xs| - 1]
  }

  /** The vulnerabilities the report counts for a Node.js entry: the sum of the
      dictionary's values, 0 when it is not a dictionary or the audit was not
      parsed. */
  function VulnTotal(n: NodeDeps): int {
    match n
    case Audited(VulnCounts(cs), _) => Sum(cs)
    case Audited(NotADict, _) => 0
    case Unparsed => 0
  }

  const WarningIcon := "⚠️"
  const OkIcon := "✅"

  /** The icon of a dependency line: a warning exactly for a positive count. */
  function Icon(count: int): (icon: string)
    ensures icon == WarningIcon <==> count > 0
    ensures icon == OkIcon <==> count <= 0
  {
    if count > 0 then WarningIcon else OkIcon
  }

  /** One line of the report's dependency section. */
  datatype DepLine =
    | ErrorLine(project: string, error: string)
    | PythonLine(project: string, icon: string, outdated: nat)
    | NodeLine(project: string, icon: string, vulnerabilities: int)

  /** The lines for one entry: only the error line for an error entry, else a
      Python line and then a Node.js line for the steps that produced figures,
      and no error line. */
  function EntryLines(project: string, e: DepsEntry): (ls: seq<DepLine>)
    ensures e.DepsError? ==> ls == [ErrorLine(project, e.error)]
    ensures e.Deps? ==> |ls| == (if e.python.Some? then 1 else 0) + (if e.nodejs.Some? then 1 else 0)
    ensures forall l :: l in ls ==> l.project == project
    ensures forall l :: l in ls && l.PythonLine? ==> e.Deps? && e.python.Some? && l.outdated == e.python.value.outdatedCount && (l.icon == WarningIcon <==> l.outdated > 0)
    ensures forall l :: l in ls && l.NodeLine? ==> e.Deps? && e.nodejs.Some? && l.vulnerabilities == VulnTotal(e.nodejs.value) && (l.icon == WarningIcon <==> l.vulnerabilities > 0)
    ensures e.Deps? ==> forall l :: l in ls ==> !l.ErrorLine?
    ensures e.Deps? ==> (e.python.Some? <==> exists l :: l in ls && l.PythonLine?)
    ensures e.Deps? ==> (e.nodejs.Some? <==> exists l :: l in ls && l.NodeLine?)
    ensures forall i, j :: 0 <= i < |ls| && 0 <= j < |ls| && ls[i].PythonLine? && ls[j].NodeLine? ==> i < j
  {
    match e
    case DepsError(err) => [ErrorLine(project, err)]
    case Deps(python, nodejs) =>
      (if python.Some? then [PythonLine(project, Icon(python.value.outdatedCount), python.value.outdatedCount)] else [])
      + (if nodejs.Some? then [NodeLine(project, Icon(VulnTotal(nodejs.value)), VulnTotal(nodejs.value))] else [])
  }

  /** The lines of the whole dependency section, entry by entry. */
  function SectionLines(deps: Dict<string, DepsEntry>): seq<DepLine> {
    if deps == [] then []
    else SectionLines(deps[..|deps| - 1]) + EntryLines(deps[|deps| - 1].0, deps[|deps| - 1].1)
  }

  /** The report's dependency section, appended entry by entry. */
  method DependencySection(deps: Dict<string, DepsEntry>) returns (lines: seq<DepLine>)
    ensures lines == SectionLines(deps)
  {
    lines := [];
    var i := 0;
    while i < |deps|
      invariant 0 <= i <= |deps|
      invariant lines == SectionLines(deps[..i])
    {
      assert deps[..i + 1][..i] == deps[..i];
      lines := lines + EntryLines(deps[i].0, deps[i].1);
      i := i + 1;
    }
    assert deps[..i] == deps;
  }

  /** The outdated count an entry contributes to the update total: 0 for an
      error entry or one without Python figures. */
  function OutdatedOf(e: DepsEntry): nat {
    if e.Deps? && e.python.Some? then e.python.value.outdatedCount else 0
  }

  /** The number of packages the recommendations say need updates. */
  function UpdateCount(deps: Dict<string, DepsEntry>): (n: nat)
    ensures n == 0 <==> forall i :: 0 <= i < |deps| ==> OutdatedOf(deps[i].1) == 0
    ensures forall i :: 0 <= i < |deps| ==> OutdatedOf(deps[i].1) <= n
  {
    if deps == [] then 0
    else
      var init := deps[..|deps| - 1];
      var n := UpdateCount(init);
      assert forall i :: 0 <= i < |init| ==> deps[i] == init[i];
      n + OutdatedOf(deps[|deps| - 1].1)
  }

  /** The outdated figures shown on the Python lines, added up. */
  function PythonShown(lines: seq<DepLine>): nat {
    if lines == [] then 0
    else PythonShown(lines[..|lines| - 1]) + (if lines[|lines| - 1].PythonLine? then lines[|lines| - 1].outdated else 0)
  }

  lemma {:induction false} PythonShownAppend(a: seq<DepLine>, b: seq<DepLine>)
    ensures PythonShown(a + b) == PythonShown(a) + PythonShown(b)
  {
    if b != [] {
      PythonShownAppend(a, b[..|b| - 1]);
      assert (a + b)[..|a + b| - 1] == a + b[..|b| - 1];
    } else {
      assert a + b == a;
    }
  }

  /** The update total equals what the dependency section's Python lines show. */
  lemma {:induction false} UpdateCountShown(deps: Dict<string, DepsEntry>)
    ensures UpdateCount(deps) == PythonShown(SectionLines(deps))
  {
    if deps != [] {
      var init, project, e := deps[..|deps| - 1], deps[|deps| - 1].0, deps[|deps| - 1].1;
      UpdateCountShown(init);
      PythonShownAppend(SectionLines(init), EntryLines(project, e));
      var ls := EntryLines(project, e);
      if e.Deps? {
        if e.python.Some? {
          assert ls[..1] == [ls[0]] && ls[0].PythonLine?;
          PythonShownAppend(ls[..1], ls[1..]);
          assert ls == ls[..1] + ls[1..];
          assert forall l :: l in ls[1..] ==> l.NodeLine?;
          NoPythonShown(ls[1..]);
        } else {
          NoPythonShown(ls);
        }
      }
    }
  }

  lemma {:induction false} NoPythonShown(lines: seq<DepLine>)
    requires forall l :: l in lines ==> !l.PythonLine?
    ensures PythonShown(lines) == 0
  {
    if lines != [] {
      assert forall l :: l in lines[..|lines| - 1] ==> l in lines;
      NoPythonShown(lines[..|lines| - 1]);
    }
  }
}
