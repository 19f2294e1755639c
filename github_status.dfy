/** The repository-host part of the health monitor (`check_github_status`):
    each configured repository's two HTTP replies become one status record. The
    HTTP requests themselves are not modelled; what they returned, or the
    exception they raised, is the input. */
module GitHubStatus {
  import opened Wrappers
  import opened PyStrings
  import opened PyDicts

  /** One element of the commits listing, as far as the monitor reads it. */
  datatype Commit = Commit(sha: string, message: string, date: string)

  /** The repository fields the monitor copies; `None` where the reply lacks the key. */
  datatype RepoInfo = RepoInfo(
    updatedAt: Option<string>,
    defaultBranch: Option<string>,
    size: Option<int>,
    language: Option<string>,
    openIssuesCount: Option<int>)

  /** The reply to the commits request (`per_page=1`): its status code and its JSON list. */
  datatype CommitsReply = CommitsReply(statusCode: int, commits: seq<Commit>)

  /** What fetching one repository produced. `Raised` is an exception from the
      repository request; `Answered` carries the status code, the body text, the
      decoded repository fields and the outcome of the commits request, which the
      monitor only makes after a 200 (`Failure` is an exception it raised). */
  datatype RepoReply =
    | Raised(exception: string)
    | Answered(statusCode: int, text: string, info: RepoInfo, commits: Result<CommitsReply, string>)

  /** The `latest_commit` record. */
  datatype CommitSummary = CommitSummary(sha: string, message: string, date: string)

  /** The record stored under a repository's name. */
  datatype RepoStatus =
    | Healthy(lastUpdated: Option<string>, defaultBranch: Option<string>, size: Option<int>,
              language: Option<string>, openIssues: Option<int>, latestCommit: Option<CommitSummary>)
    | HttpError(code: int, error: string)
    | ConnectionError(error: string)

  /** The text of the exception that indexing an empty commits list raises. */
  const IndexErrorText := "list index out of range"

  const ShaLength := 8
  const MessageLength := 50

  /** The `'status'` string of a record; only a healthy record carries the check mark. */
  function Label(st: RepoStatus): (l: string)
    ensures l == "✅ Healthy" <==> st.Healthy?
    ensures '✅' in l <==> st.Healthy?
  {
    match st
    case Healthy(_, _, _, _, _, _) => "✅ Healthy"
    case HttpError(code, _) =>
      var digits := IntToString(code);
      assert '✅' !in digits by {
        if code >= 0 { assert IsDigits(digits); } else { assert IsDigits(digits[1..]); assert digits == [digits[0]] + digits[1..]; }
      }
      assert ("❌ Error " + digits)[0] == '❌';
      "❌ Error " + digits
    case ConnectionError(_) => "❌ Connection Error"
  }

  /** The `latest_commit` record: the SHA cut to 8 characters, the message cut to
      50 characters and always followed by `...`, the date as given. */
  function Summarize(c: Commit): (s: CommitSummary)
    ensures |s.sha| <= ShaLength && s.sha <= c.sha
    ensures |s.sha| == ShaLength || s.sha == c.sha
    ensures |s.message| >= 3 && |s.message| <= MessageLength + 3
    ensures s.message[|s.message| - 3..] == "..."
    ensures s.message[..|s.message| - 3] <= c.message
    ensures |s.message| == MessageLength + 3 || s.message[..|s.message| - 3] == c.message
    ensures s.date == c.date
  {
    CommitSummary(Take(c.sha, ShaLength), Take(c.message, MessageLength) + "...", c.date)
  }

  /** The record for one repository: healthy exactly when the repository request
      answered 200 and the commits request neither raised nor answered 200 with an
      empty list; an error record with the code for any other answer; otherwise a
      connection error. Every error text is at most 100 characters of the
      exception or body text. */
  function Classify(reply: RepoReply): (st: RepoStatus)
    ensures st.Healthy? <==>
      reply.Answered? && reply.statusCode == 200 && reply.commits.Success?
      && !(reply.commits.value.statusCode == 200 && reply.commits.value.commits == [])
    ensures st.HttpError? <==> reply.Answered? && reply.statusCode != 200
    ensures st.HttpError? ==>
      st.code == reply.statusCode && |st.error| <= ErrorLength && st.error <= reply.text
    ensures reply.Raised? ==>
      st.ConnectionError? && |st.error| <= ErrorLength && st.error <= reply.exception
    ensures st.ConnectionError? ==> |st.error| <= ErrorLength
    ensures st.HttpError? ==> st.error == Take(reply.text, ErrorLength)
    ensures reply.Raised? ==> st == ConnectionError(Take(reply.exception, ErrorLength))
    ensures reply.Answered? && reply.statusCode == 200 && reply.commits.Failure? ==>
      st == ConnectionError(Take(reply.commits.error, ErrorLength))
    ensures reply.Answered? && reply.statusCode == 200 && reply.commits.Success? ==>
      reply.commits.value.statusCode == 200 && reply.commits.value.commits == [] ==>
      st == ConnectionError(Take(IndexErrorText, ErrorLength))
    ensures st.Healthy? ==>
      var cr := reply.commits.value;
      && st.openIssues == reply.info.openIssuesCount
      && st.lastUpdated == reply.info.updatedAt
      && st.defaultBranch == reply.info.defaultBranch
      && st.size == reply.info.size
      && st.language == reply.info.language
      && (st.latestCommit.Some? <==> cr.statusCode == 200)
      && (st.latestCommit.Some? ==> st.latestCommit.value == Summarize(cr.commits[0]))
  {
    match reply
    case Raised(e) => ConnectionError(Take(e, ErrorLength))
    case Answered(code, text, info, commits) =>
      if code != 200 then HttpError(code, Take(text, ErrorLength))
      else match commits
        case Failure(e) => ConnectionError(Take(e, ErrorLength))
        case Success(cr) =>
          if cr.statusCode == 200 && cr.commits == [] then
            ConnectionError(Take(IndexErrorText, ErrorLength))
          else
            Healthy(info.updatedAt, info.defaultBranch, info.size, info.language, info.openIssuesCount,
                    if cr.statusCode == 200 then Some(Summarize(cr.commits[0])) else None)
  }

  /** A repository's label is `✅ Healthy` exactly when both requests went
      through, the first with 200; any other repository status code gives
      `❌ Error <code>`. */
  lemma HealthyLabelIff(reply: RepoReply)
    ensures Label(Classify(reply)) == "✅ Healthy" <==>
      reply.Answered? && reply.statusCode == 200 && reply.commits.Success?
      && !(reply.commits.value.statusCode == 200 && reply.commits.value.commits == [])
    ensures reply.Answered? && reply.statusCode != 200 ==>
      Label(Classify(reply)) == "❌ Error " + IntToString(reply.statusCode)
  {
  }

  /** `check_github_status`: one record per repository, keyed by its name, in
      the order the repositories are listed; a name listed twice keeps the
      record of its last occurrence. `replies[i]` is what the requests for
      `repositories[i]` produced. */
  method CheckGitHubStatus(repositories: seq<string>, replies: seq<RepoReply>)
    returns (status: Dict<string, RepoStatus>)
    requires |replies| == |repositories|
    ensures UniqueKeys(status)
    ensures forall k :: k in Keys(status) <==> k in repositories
    ensures forall i :: 0 <= i < |repositories| && LastAssignment(repositories, i) ==>
      Get(status, repositories[i]) == Some(Classify(replies[i]))
  {
    ghost var records := seq(|replies|, j requires 0 <= j < |replies| => Classify(replies[j]));
    status := [];
    var i := 0;
    while i < |repositories|
      invariant 0 <= i <= |repositories|
      invariant status == AssignAll(repositories[..i], records[..i])
    {
      assert repositories[..i + 1][..i] == repositories[..i];
      assert records[..i + 1][..i] == records[..i];
      status := Assign(status, repositories[i], Classify(replies[i]));
      i := i + 1;
    }
    assert repositories[..i] == repositories && records[..i] == records;
    AssignAllKeys(repositories, records);
    forall j | 0 <= j < |repositories| && LastAssignment(repositories, j)
      ensures Get(status, repositories[j]) == Some(Classify(replies[j]))
    {
      AssignAllGet(repositories, records, j);
    }
  }
}
