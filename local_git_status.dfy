/** The working-copy part of the health monitor (`check_local_git_status`):
    each configured project directory becomes one status record. Whether the
    directory and its `.git` exist, whether changing into it failed, and what the
    four `git` commands printed (or the exception running them raised) are the
    input. */
module LocalGitStatus {
  import opened Wrappers
  import opened PyStrings
  import opened PyDicts
  import opened OutputLines

  /** Standard output of `git status --porcelain`, `git branch --show-current`,
      `git log -1 --oneline` and `git status -b --porcelain`. */
  datatype GitOutputs = GitOutputs(porcelain: string, branch: string, lastCommit: string, branchPorcelain: string)

  /** What the monitor finds at one project path: whether it exists, the
      exception changing into it raised (if any), whether `.git` exists there,
      and the outputs of the git commands or the exception running them raised. */
  datatype WorkingCopy = WorkingCopy(present: bool, chdirError: Option<string>, hasGitDir: bool, git: Result<GitOutputs, string>)

  /** The `remote_status` text, by what the branch line says. */
  datatype RemoteState = UpToDate | AheadOfRemote | BehindRemote

  /** The record stored under a project's name. */
  datatype LocalStatus =
    | DirectoryNotFound(path: string)
    | NotAGitRepository(path: string)
    | Checked(dirtyCount: nat, branch: string, lastCommit: string, remote: RemoteState,
              dirtyFiles: seq<string>, path: string)
    | GitError(error: string, path: string)

  const DirtyFilesShown := 5

  /** The remote state read from `git status -b --porcelain`: "ahead" wins over
      "behind", and neither word means up to date. */
  function Remote(branchPorcelain: string): (r: RemoteState)
    ensures r == AheadOfRemote <==> Contains(branchPorcelain, "ahead")
    ensures r == BehindRemote <==> Contains(branchPorcelain, "behind") && !Contains(branchPorcelain, "ahead")
    ensures r == UpToDate <==> !Contains(branchPorcelain, "ahead") && !Contains(branchPorcelain, "behind")
  {
    if Contains(branchPorcelain, "ahead") then AheadOfRemote
    else if Contains(branchPorcelain, "behind") then BehindRemote
    else UpToDate
  }

  /** The `remote_status` string; only an up-to-date branch carries the check mark. */
  function RemoteLabel(r: RemoteState): (l: string)
    ensures '✅' in l <==> r == UpToDate
  {
    match r
    case UpToDate => "✅ Up to date"
    case AheadOfRemote => "⚠️ Ahead of remote"
    case BehindRemote => "⚠️ Behind remote"
  }

  /** `dirty_files`: the pieces of the stripped porcelain output, none when
      that output is empty. */
  function DirtyFiles(porcelain: string, sep: string): (fs: seq<string>)
    requires sep != []
    ensures fs == [] <==> AllSpace(porcelain)
    ensures fs != [] ==> Join(fs, sep) == Strip(porcelain)
    ensures forall i :: 0 <= i < |fs| ==> !Contains(fs[i], sep)
  {
    if Strip(porcelain) != [] then Pieces(porcelain, sep) else []
  }

  /** How many of the pieces hold something besides whitespace. */
  function CountNonBlank(pieces: seq<string>): (n: nat)
    ensures n <= |pieces|
    ensures n == 0 <==> forall i :: 0 <= i < |pieces| ==> AllSpace(pieces[i])
    ensures n == |pieces| <==> forall i :: 0 <= i < |pieces| ==> NonBlank(pieces[i])
  {
    if pieces == [] then 0
    else
      var rest := CountNonBlank(pieces[1..]);
      assert forall i :: 1 <= i < |pieces| ==> pieces[i] == pieces[1..][i - 1];
      (if NonBlank(pieces[0]) then 1 else 0) + rest
  }

  /** `dirty_count` */
  function DirtyCount(porcelain: string, sep: string): (n: nat)
    requires sep != []
    ensures AllSpace(porcelain) ==> n == 0
    ensures n <= |DirtyFiles(porcelain, sep)|
  {
    CountNonBlank(DirtyFiles(porcelain, sep))
  }

  /** The record for one project. The checks run in a fixed order: a missing
      directory, a failed change of directory, a missing `.git`, a failed git
      command; only then are the git outputs read. At most five dirty files are
      kept, and none when the count is zero. */
  function CheckProject(path: string, wc: WorkingCopy, sep: string): (st: LocalStatus)
    requires sep != []
    ensures st.path == path
    ensures st.DirectoryNotFound? <==> !wc.present
    ensures st.NotAGitRepository? <==> wc.present && wc.chdirError.None? && !wc.hasGitDir
    ensures st.Checked? <==> wc.present && wc.chdirError.None? && wc.hasGitDir && wc.git.Success?
    ensures st.GitError? ==> |st.error| <= ErrorLength
    ensures wc.present && wc.chdirError.Some? ==> st == GitError(Take(wc.chdirError.value, ErrorLength), path)
    ensures wc.present && wc.chdirError.None? && wc.hasGitDir && wc.git.Failure? ==>
      st == GitError(Take(wc.git.error, ErrorLength), path)
    ensures st.Checked? ==>
      var g := wc.git.value;
      && st.dirtyCount == DirtyCount(g.porcelain, sep)
      && |st.dirtyFiles| <= DirtyFilesShown
      && (st.dirtyCount == 0 <==> st.dirtyFiles == [])
      && st.dirtyFiles <= DirtyFiles(g.porcelain, sep)
      && (st.dirtyCount > 0 ==> st.dirtyFiles == Take(DirtyFiles(g.porcelain, sep), DirtyFilesShown))
      && st.remote == Remote(g.branchPorcelain)
      && st.branch == Strip(g.branch) && st.lastCommit == Strip(g.lastCommit)
  {
    if !wc.present then DirectoryNotFound(path)
    else if wc.chdirError.Some? then GitError(Take(wc.chdirError.value, ErrorLength), path)
    else if !wc.hasGitDir then NotAGitRepository(path)
    else match wc.git
      case Failure(e) => GitError(Take(e, ErrorLength), path)
      case Success(g) =>
        var files := DirtyFiles(g.porcelain, sep);
        var n := CountNonBlank(files);
        Checked(n, Strip(g.branch), Strip(g.lastCommit), Remote(g.branchPorcelain),
                if n > 0 then Take(files, DirtyFilesShown) else [], path)
  }

  /** The git outputs are never consulted for a missing directory, a failed
      change of directory or a directory without `.git`. */
  lemma GitNotConsulted(path: string, wc: WorkingCopy, git': Result<GitOutputs, string>, sep: string)
    requires sep != []
    requires !wc.present || wc.chdirError.Some? || !wc.hasGitDir
    ensures CheckProject(path, wc.(git := git'), sep) == CheckProject(path, wc, sep)
  {
  }

  /** The `'status'` string of a record; it carries the check mark exactly when
      the working copy is clean. */
  function Label(st: LocalStatus): (l: string)
    ensures '✅' in l <==> st.Checked? && st.dirtyCount == 0
    ensures l != []
    ensures l[0] == '❌' <==> st.DirectoryNotFound? || st.GitError?
    ensures st.Checked? && st.dirtyCount > 0 ==>
      l == "⚠️ " + NatToString(st.dirtyCount) + " uncommitted changes"
  {
    match st
    case DirectoryNotFound(_) => "❌ Directory Not Found"
    case NotAGitRepository(_) => "⚠️ Not a Git Repository"
    case Checked(n, _, _, _, _, _) =>
      if n == 0 then "✅ Clean"
      else
        var digits := NatToString(n);
        assert '✅' !in digits by { assert IsDigits(digits); }
        assert ("⚠️ " + digits + " uncommitted changes")[0] == '⚠';
        "⚠️ " + digits + " uncommitted changes"
    case GitError(_, _) => "❌ Git Error"
  }

  /** `check_local_git_status`: one record per configured project, in the
      order of the configuration. `copies[i]` is what the file system and git
      report for the `i`-th project. */
  method CheckLocalGitStatus(projects: Dict<string, string>, copies: seq<WorkingCopy>, sep: string)
    returns (status: Dict<string, LocalStatus>)
    requires sep != [] && |copies| == |projects| && UniqueKeys(projects)
    ensures |status| == |projects|
    ensures forall i :: 0 <= i < |projects| ==>
      status[i] == (projects[i].0, CheckProject(projects[i].1, copies[i], sep))
  {
    status := [];
    var i := 0;
    while i < |projects|
      invariant 0 <= i <= |projects| && |status| == i
      invariant forall j :: 0 <= j < i ==> status[j] == (projects[j].0, CheckProject(projects[j].1, copies[j], sep))
    {
      var (project, path) := projects[i];
      forall j | 0 <= j < i ensures Keys(status)[j] != project {
        assert Keys(status)[j] == projects[j].0;
      }
      AssignNew(status, project, CheckProject(path, copies[i], sep));
      status := Assign(status, project, CheckProject(path, copies[i], sep));
      i := i + 1;
    }
  }

  /** As written, porcelain output without a backslash, which is what git
      prints, counts as one change however many files it lists. */
  lemma AsWrittenCountsOne(porcelain: string)
    requires '\\' !in porcelain
    ensures DirtyCount(porcelain, AsWrittenSeparator) == if AllSpace(porcelain) then 0 else 1
  {
    if !AllSpace(porcelain) {
      NoBackslashOnePiece(porcelain);
      var t := Strip(porcelain);
      assert t != [] && !IsSpace(t[0]);
      assert DirtyFiles(porcelain, AsWrittenSeparator) == [t];
    }
  }

  /** With a newline separator, porcelain output of non-blank lines counts one
      change per line, and the dirty files are the lines trimmed at the ends. */
  lemma NewlineCountsLines(lines: seq<string>)
    requires |lines| >= 1
    requires forall i :: 0 <= i < |lines| ==> NonBlank(lines[i]) && '\n' !in lines[i]
    ensures DirtyFiles(Join(lines, LineSeparator), LineSeparator) == Trimmed(lines)
    ensures DirtyCount(Join(lines, LineSeparator), LineSeparator) == |lines|
  {
    JoinNonBlankTail(lines, LineSeparator);
    NewlineSplitsLines(lines);
  }

  /** Two modified files: counted as one change as written, as two with a newline separator. */
  lemma PorcelainExample()
    ensures DirtyCount(ExamplePorcelain, AsWrittenSeparator) == 1
    ensures DirtyCount(ExamplePorcelain, LineSeparator) == 2
  {
    ExampleLines();
    NewlineCountsLines(["M a", "M b"]);
    AsWrittenCountsOne(ExamplePorcelain);
  }

  const ExamplePorcelain := "M a\nM b"

  lemma ExampleLines()
    ensures Join(["M a", "M b"], LineSeparator) == ExamplePorcelain
    ensures NonBlank("M a") && NonBlank("M b") && NonBlank(ExamplePorcelain)
    ensures '\\' !in ExamplePorcelain
  {
    assert !IsSpace("M a"[0]) && !IsSpace("M b"[0]) && !IsSpace(ExamplePorcelain[0]);
  }
}
