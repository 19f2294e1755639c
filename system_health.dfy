/** The system part of the health monitor (`check_system_health`): disk figures
    read from `df -h /`, whether the API-key file exists, and the versions of
    Python and git. What the commands printed, or the exception running them
    raised, is the input. */
module SystemHealth {
  import opened Wrappers
  import opened PyStrings
  import opened OutputLines

  /** What the monitor finds: the output of `df -h /`, the exception `vm_stat`
      raised (its output is never read), whether the API-key file exists, and
      the outputs of `python3 --version` and `git --version`; a `Failure` is the
      exception running the command raised. */
  datatype SystemProbe = SystemProbe(
    df: Result<string, string>,
    vmStatError: Option<string>,
    envFilePresent: bool,
    pythonVersion: Result<string, string>,
    gitVersion: Result<string, string>)

  datatype DiskUsage = DiskUsage(total: string, used: string, available: string, percentage: string)

  /** The dictionary `check_system_health` returns. */
  datatype SystemStatus =
    | SystemReport(disk: DiskUsage, mcpServers: string, pythonVersion: string, gitVersion: string)
    | SystemError(error: string)

  const NotAvailable := "N/A"
  const McpAvailable := "✅ Available"
  const McpMissing := "❌ Not configured"

  /** `disk_info`: the whitespace-separated fields of the second output line,
      none when there is no second line. */
  function DiskInfo(out: string, sep: string): (info: seq<string>)
    requires sep != []
    ensures |Pieces(out, sep)| <= 1 ==> info == []
    ensures forall i :: 0 <= i < |info| ==> info[i] != [] && NoSpace(info[i])
    ensures |Pieces(out, sep)| > 1 ==> Concat(info) == NonSpace(Pieces(out, sep)[1])
    ensures |Pieces(out, sep)| > 1 ==> (info == [] <==> AllSpace(Pieces(out, sep)[1]))
    ensures |Pieces(out, sep)| > 1 ==> forall words, gaps ::
      WordLayout(words, gaps) && Pieces(out, sep)[1] == Spaced(words, gaps) ==> info == words
  {
    var lines := Pieces(out, sep);
    if |lines| > 1 then
      SplitWhitespaceLayouts(lines[1]);
      SplitWhitespace(lines[1])
    else []
  }

  /** `disk_info[i]`, or `N/A` when there are not more than `i` fields. */
  function Field(info: seq<string>, i: nat): (f: string)
    ensures i < |info| ==> f == info[i]
    ensures i >= |info| ==> f == NotAvailable
  {
    if |info| > i then info[i] else NotAvailable
  }

  /** The disk figures are fields 1 to 4 of the second line; all are `N/A`
      when the output has fewer than two lines. */
  function DiskFields(out: string, sep: string): (d: DiskUsage)
    requires sep != []
    ensures var info := DiskInfo(out, sep);
      d == DiskUsage(Field(info, 1), Field(info, 2), Field(info, 3), Field(info, 4))
    ensures |Pieces(out, sep)| <= 1 ==> d == DiskUsage(NotAvailable, NotAvailable, NotAvailable, NotAvailable)
  {
    var info := DiskInfo(out, sep);
    DiskUsage(Field(info, 1), Field(info, 2), Field(info, 3), Field(info, 4))
  }

  /** `check_system_health`: the first exception, in the order the commands
      run, becomes the whole result, untruncated; otherwise the disk figures,
      the MCP line and the stripped version strings. */
  function CheckSystemHealth(p: SystemProbe, sep: string): (s: SystemStatus)
    requires sep != []
    ensures s.SystemError? <==>
      p.df.Failure? || p.vmStatError.Some? || p.pythonVersion.Failure? || p.gitVersion.Failure?
    ensures p.df.Failure? ==> s == SystemError(p.df.error)
    ensures p.df.Success? && p.vmStatError.Some? ==> s == SystemError(p.vmStatError.value)
    ensures p.df.Success? && p.vmStatError.None? && p.pythonVersion.Failure? ==>
      s == SystemError(p.pythonVersion.error)
    ensures p.df.Success? && p.vmStatError.None? && p.pythonVersion.Success? && p.gitVersion.Failure? ==>
      s == SystemError(p.gitVersion.error)
    ensures s.SystemReport? ==>
      && s.disk == DiskFields(p.df.value, sep)
      && (s.mcpServers == McpAvailable <==> p.envFilePresent)
      && (s.mcpServers == McpMissing <==> !p.envFilePresent)
      && s.pythonVersion == Strip(p.pythonVersion.value)
      && s.gitVersion == Strip(p.gitVersion.value)
  {
    match p.df
    case Failure(e) => SystemError(e)
    case Success(out) =>
      if p.vmStatError.Some? then SystemError(p.vmStatError.value)
      else
        var disk := DiskFields(out, sep);
        var mcp := if p.envFilePresent then McpAvailable else McpMissing;
        match p.pythonVersion
        case Failure(e) => SystemError(e)
        case Success(python) =>
          match p.gitVersion
          case Failure(e) => SystemError(e)
          case Success(git) => SystemReport(disk, mcp, Strip(python), Strip(git))
  }

  /** As written, `df` output without a backslash, which is what `df` prints,
      yields `N/A` for every disk figure. */
  lemma AsWrittenDiskUnavailable(out: string)
    requires '\\' !in out
    ensures DiskFields(out, AsWrittenSeparator) == DiskUsage(NotAvailable, NotAvailable, NotAvailable, NotAvailable)
  {
    NoBackslashOnePiece(out);
  }

  /** A row of words laid out with gaps free of newlines and nothing after
      the last word holds no newline, is not blank and does not end in
      whitespace. */
  lemma {:induction false} RowFacts(words: seq<string>, gaps: seq<string>)
    requires |words| >= 1 && WordLayout(words, gaps) && gaps[|words|] == []
    requires forall i :: 0 <= i < |gaps| ==> '\n' !in gaps[i]
    ensures var row := Spaced(words, gaps);
      NonBlank(row) && '\n' !in row && !IsSpace(row[|row| - 1])
  {
    var row := Spaced(words, gaps);
    var w, rest := words[0], Spaced(words[1..], gaps[1..]);
    assert row == gaps[0] + w + rest;
    assert '\n' !in w by {
      forall j | 0 <= j < |w| ensures w[j] != '\n' { assert !IsSpace(w[j]); }
    }
    assert !IsSpace(row[|gaps[0]|]) by { assert row[|gaps[0]|] == w[0]; }
    if |words| == 1 {
      assert rest == [];
      assert row[|row| - 1] == w[|w| - 1];
    } else {
      LayoutTail(words, gaps);
      RowFacts(words[1..], gaps[1..]);
      assert row[|row| - 1] == rest[|rest| - 1];
    }
  }

  /** With a newline separator, a header line followed by a row of words gives
      the row's fields 1 to 4 as the disk figures, however the columns are
      padded. */
  lemma NewlineDiskFields(header: string, words: seq<string>, gaps: seq<string>)
    requires NonBlank(header) && '\n' !in header
    requires |words| >= 5 && WordLayout(words, gaps) && gaps[|words|] == []
    requires forall i :: 0 <= i < |gaps| ==> '\n' !in gaps[i]
    ensures DiskFields(header + "\n" + Spaced(words, gaps), LineSeparator)
      == DiskUsage(words[1], words[2], words[3], words[4])
  {
    var row := Spaced(words, gaps);
    assert NonBlank(row) && '\n' !in row && !IsSpace(row[|row| - 1]) by { RowFacts(words, gaps); }
    assert SplitWhitespace(row) == words by { SplitWhitespaceSpaced(words, gaps); }
    DiskInfoOfRow(header, row);
  }

  lemma DiskInfoOfRow(header: string, row: string)
    requires NonBlank(header) && '\n' !in header
    requires NonBlank(row) && '\n' !in row && !IsSpace(row[|row| - 1])
    ensures DiskInfo(header + "\n" + row, LineSeparator) == SplitWhitespace(row)
  {
    NewlineTwoLines(header, row);
  }

  lemma NewlineTwoLines(header: string, row: string)
    requires NonBlank(header) && '\n' !in header
    requires NonBlank(row) && '\n' !in row && !IsSpace(row[|row| - 1])
    ensures Pieces(header + "\n" + row, LineSeparator) == [StripLeft(header), row]
  {
    JoinTwo(header, row);
    NewlineSplitsTwo(header, row);
    StripRightOfStripped(row);
  }

  lemma JoinTwo(header: string, row: string)
    ensures Join([header, row], LineSeparator) == header + "\n" + row
  {
    assert [header, row][1..] == [row];
  }

  lemma NewlineSplitsTwo(header: string, row: string)
    requires NonBlank(header) && '\n' !in header
    requires NonBlank(row) && '\n' !in row
    ensures Pieces(Join([header, row], LineSeparator), LineSeparator) == [StripLeft(header), StripRight(row)]
  {
    var lines := [header, row];
    assert Pieces(Join(lines, LineSeparator), LineSeparator) == Trimmed(lines) by {
      assert forall i :: 0 <= i < |lines| ==> NonBlank(lines[i]) && '\n' !in lines[i];
      NewlineSplitsLines(lines);
    }
    TrimmedTwo(header, row);
  }

  lemma TrimmedTwo(header: string, row: string)
    ensures Trimmed([header, row]) == [StripLeft(header), StripRight(row)]
  {
    assert [header, row][1..1] == [];
  }
}
