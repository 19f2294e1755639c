# Project health monitor and project creator, modelled in Dafny

This project models two maintenance scripts of a personal project workspace.

**The health monitor** (`project_health_monitor.py`) produces a report from four checks:

- **GitHub status.** Each configured GitHub repository gets a status record built from two HTTP replies: the repository itself and its latest commit.
- **Local status.** Each configured local working copy gets a record. It says whether the directory exists, whether it is a git repository, how many uncommitted changes it has, its branch, its last commit, and whether it is ahead of or behind its remote.
- **Dependencies.** Each existing project gets an entry built from `pip list --outdated` and `npm audit`.
- **System.** The system record holds the disk figures from `df -h /`, whether the API-key file exists, and the Python and git versions.

From these records the report computes the overview counts (healthy repositories, clean working copies), the lines of its dependency section, and the number of packages that need updates.

**The project creator** (`create_project.py`) makes a new project in these steps:

1. It checks the category.
2. It refuses a project directory that already exists.
3. It makes the project directory.
4. It fills the directory by copying a template directory's children. When there is no template, it creates a skeleton of `src`, `tests`, `docs` and `config` instead, each holding a `.gitkeep`.
5. It writes `README.md`, `.gitignore` and `CLAUDE.md`.

**How the model is built.**

- Python strings are `seq<char>`. The `str` methods used are modelled in `PyStrings`: strip, split on a separator, split on whitespace, `in`, slicing, `replace` and `title`.
- Python dictionaries are insertion-ordered association lists (`PyDicts`).
- An exception is a `Failure`/`Option` value or an error record.
- Whatever the network, the file system or a subprocess returns is an input to the model: a reply, a probe or a working-copy description.
- The `check_*` loops that fill dictionaries are methods with loop invariants. Each is proved equal to the per-item classification function.
- The project creator works on `FileTree.FileSystem`, a class whose `entries` map paths to directories and files.
  - `CreateProject` is proved to produce exactly the result and tree that the function `ProjectCreation.Plan` describes.
  - The properties of `Plan` are then proved as lemmas: refusal order, kept entries, the skeleton, the template copy, and the three generated files.

## Model

| member | source | states |
|---|---|---|
| GitHubStatus.Label | project_health_monitor.py:62-85 | The status text is `✅ Healthy` exactly for a healthy record, and only a healthy record's text carries the check mark. |
| GitHubStatus.Summarize | project_health_monitor.py:69-73 | The stored SHA is a prefix of the commit SHA, at most 8 characters long. The stored message is a prefix of at most 50 characters of the commit message followed by `...`. The date is unchanged. |
| GitHubStatus.Classify | project_health_monitor.py:48-85 | A repository is healthy exactly when the repository request answered 200 and the commits request went through; a 200 with an empty commit list raises IndexError, which is caught as a connection error. Any other code gives an error record with that code and the body text cut to its first 100 characters. An exception from either request, or the IndexError, gives a connection error holding its text cut to its first 100 characters. A healthy record copies the repository fields, and it has a latest commit exactly when the commits request answered 200. |
| GitHubStatus.HealthyLabelIff | project_health_monitor.py:54-79 | The label is `✅ Healthy` if and only if the two requests succeed as above. A non-200 code gives the label `❌ Error <code>`. |
| GitHubStatus.CheckGitHubStatus | project_health_monitor.py:39-87 | The result has one key per listed repository and no other keys. Each repository's record is the classification of its own replies; a repository listed twice keeps its last record. |
| LocalGitStatus.Remote | project_health_monitor.py:132-137 | The branch is ahead whenever `ahead` occurs, behind only when `behind` occurs without `ahead`, and up to date exactly when neither word occurs. |
| LocalGitStatus.RemoteLabel | project_health_monitor.py:133-137 | Only the up-to-date remote text carries the check mark. |
| LocalGitStatus.DirtyFiles | project_health_monitor.py:129 | The list is empty exactly when the porcelain output is blank. Otherwise its pieces, joined with the separator, give back the stripped output, and no piece contains the separator, so the output is cut at every separator. |
| LocalGitStatus.CountNonBlank | project_health_monitor.py:130 | The count never exceeds the number of pieces. It is 0 exactly when every piece is blank, and equals the number of pieces exactly when none is blank. |
| LocalGitStatus.DirtyCount | project_health_monitor.py:129-130 | A blank porcelain output counts 0 changes, and the count never exceeds the number of dirty-file pieces. |
| LocalGitStatus.CheckProject | project_health_monitor.py:93-153 | The checks run in a fixed order: missing directory, failed change of directory, missing `.git`, failed git command. Each status holds exactly in its case, and the path is kept. A git error holds the text of the change-of-directory or git exception cut to its first 100 characters. A checked record holds:<br>- the dirty count;<br>- the first 5 dirty files (all of them when there are fewer), and none exactly when the count is 0;<br>- the remote state;<br>- the stripped branch and last commit. |
| LocalGitStatus.GitNotConsulted | project_health_monitor.py:94-111 | For a missing directory, a failed change of directory or a missing `.git`, the git outputs do not affect the record. |
| LocalGitStatus.Label | project_health_monitor.py:94-153 | The status carries the check mark exactly for a checked, clean working copy. It starts with `❌` exactly for a missing directory or a git error. A checked copy with changes is labelled `⚠️ <count> uncommitted changes`, with the count in decimal. |
| LocalGitStatus.CheckLocalGitStatus | project_health_monitor.py:89-155 | There is one record per configured project, in configuration order. Each is the project's name paired with its `CheckProject` record. |
| LocalGitStatus.AsWrittenCountsOne | project_health_monitor.py:129-130 | With the separator the code uses, any porcelain output without a backslash counts 0 changes when blank and 1 otherwise, however many lines it has. |
| LocalGitStatus.NewlineCountsLines | project_health_monitor.py:129-130 | With a newline separator, output made of non-blank lines gives those lines, trimmed at the two ends, as dirty files, and counts one change per line. |
| LocalGitStatus.PorcelainExample | project_health_monitor.py:129-130 | `M a` newline `M b` counts 1 change with the separator the code uses and 2 with a newline. |
| OutputLines.NoBackslashOnePiece | project_health_monitor.py:129 | Output without a backslash is never split by the two-character separator the code uses. |
| OutputLines.NewlineSplitsLines | project_health_monitor.py:129 | Stripping and splitting newline-joined non-blank lines gives the lines back, the first stripped on the left and the last on the right. |
| Dependencies.PythonCheck | project_health_monitor.py:169-180 | The step raises exactly when pip raised, or when pip exited 0 and its output could not be decoded. It gives figures exactly when `requirements.txt` exists and pip exited 0: the number of outdated packages and the first 5 of their names (all of them when there are fewer). |
| Dependencies.NodeCheck | project_health_monitor.py:182-195 | The step raises exactly when running npm raised. It gives figures exactly when `package.json` exists and npm exited 0 or 1; an audit that cannot be read becomes `Could not parse audit`, and a read audit's vulnerabilities and total dependencies are stored as decoded. |
| Dependencies.CheckProjectDeps | project_health_monitor.py:165-202 | The entry is an error exactly when changing directory or either step raised. It then holds the exception's text cut to its first 100 characters: the change of directory's first, then the Python step's, then the Node.js step's. Otherwise the entry holds both steps' figures. |
| Dependencies.EntriesAfterKeys | project_health_monitor.py:161-197 | The keys are exactly the existing projects, each once. |
| Dependencies.EntriesAfterGet | project_health_monitor.py:161-197 | Each existing project's entry is the result of its own checks. |
| Dependencies.CheckDependencies | project_health_monitor.py:157-204 | The result has unique keys, exactly the existing projects, and each existing project maps to its entry. |
| Dependencies.Icon | project_health_monitor.py:293 | The icon is the warning sign exactly when the count is positive. |
| Dependencies.EntryLines | project_health_monitor.py:284-300 | An error entry gives only its error line. Any other entry gives no error line, a Python line exactly when it has Python figures and a Node.js line exactly when it has Node.js figures, the Python line first. The Python line shows the outdated count and the Node.js line the vulnerability total (0 when the vulnerabilities are not a dictionary). Each line's icon is a warning exactly when its figure is positive. |
| Dependencies.DependencySection | project_health_monitor.py:282-300 | The section built by appending, entry by entry, equals `SectionLines`, the concatenation of every entry's lines in order. |
| Dependencies.UpdateCount | project_health_monitor.py:319 | The update total is 0 exactly when no entry has outdated Python packages, and no entry's count exceeds it. |
| Dependencies.UpdateCountShown | project_health_monitor.py:284-319 | The update total equals the sum of the outdated figures on the section's Python lines. |
| Dependencies.PythonShownAppend | project_health_monitor.py:284-300 | The Python figures shown by two runs of lines add up. |
| SystemHealth.DiskInfo | project_health_monitor.py:211-212 | There are no fields unless the output has a second piece. Every field is non-empty and holds no whitespace, and the fields together are exactly that piece's non-whitespace characters, in order; there are none exactly when the piece is blank. Whenever the piece is words laid out with whitespace gaps, of any length between words and possibly empty at the ends, the fields are exactly those words. |
| SystemHealth.DiskFields | project_health_monitor.py:211-225 | The total, used, available and percentage figures are fields 1 to 4 of the second piece, and all are `N/A` when there is at most one piece. |
| SystemHealth.CheckSystemHealth | project_health_monitor.py:206-233 | The result is an error exactly when some command raised. The first exception, in the order the commands run, is kept in full. Otherwise the record holds the disk figures, an MCP line that says available exactly when the API-key file exists, and the stripped versions. |
| SystemHealth.AsWrittenDiskUnavailable | project_health_monitor.py:211-225 | With the separator the code uses, `df` output without a backslash gives `N/A` for all four disk figures. |
| SystemHealth.NewlineDiskFields | project_health_monitor.py:211-225 | With a newline separator, a header line followed by a row of at least five words, with columns padded by runs of whitespace of any length, gives words 1 to 4 of the row as the disk figures. |
| HealthReport.ConfigDistinct | project_health_monitor.py:24-37 | No repository and no local project is configured twice. |
| HealthReport.CountMarked | project_health_monitor.py:250-251 | The overview count never exceeds the number of labels. It equals that number exactly when every label carries the check mark, and is 0 exactly when none does. |
| HealthReport.HealthyCountIff | project_health_monitor.py:250 | All repositories count as healthy exactly when every record is healthy, and none exactly when none is. |
| HealthReport.CleanCountIff | project_health_monitor.py:251 | All working copies count as clean exactly when every one was checked with no changes, and none exactly when none was. |
| HealthReport.GenerateHealthReport | project_health_monitor.py:235-319 | The report holds:<br>- 5 projects in total;<br>- healthy and clean counts taken from the records' labels;<br>- exactly the configured repositories as keys, each with its classified record;<br>- each project's working-copy record;<br>- the dependency entries, keyed by exactly the existing projects, each with its own checks' entry;<br>- the dependency lines of those entries and the update total of those entries, equal to what the lines' Python figures show;<br>- the system record. |
| PyStrings.Strip | project_health_monitor.py:129 | The stripped text is empty exactly when the input is all whitespace. Otherwise it starts and ends with a non-whitespace character and occurs inside the input. |
| PyStrings.StripOnlyEnds | project_health_monitor.py:129 | The stripped text is a slice of the input with only whitespace before it and after it. |
| PyStrings.Split | project_health_monitor.py:129 | The pieces, joined with the separator, give back the input, and no piece contains the separator. |
| PyStrings.SplitWhitespaceSpaced | project_health_monitor.py:212 | `split()` cuts at every run of whitespace, however long, and drops whitespace at the two ends: words laid out with non-empty whitespace gaps between them come back as exactly those words. |
| PyStrings.TitleAt | create_project.py:87 | Title-casing keeps the length and every non-letter, changes a letter only in case, and makes a letter upper-case exactly when it starts a run of letters. |
| PyStrings.TitleIdempotent | create_project.py:87 | Title-casing twice is title-casing once. |
| PyStrings.NatToStringValue | project_health_monitor.py:140 | The decimal text of a count reads back as that count. |
| PyStrings.ReplaceChar | create_project.py:87 | The length is kept. Every occurrence of the replaced character becomes the new character, the replaced character no longer occurs, and every other character is unchanged. |
| FileTree.WithDirsFacts | create_project.py:46 | Making the directories keeps the tree well formed and keeps every entry. The target becomes a directory, and only directories on the way to it are added. |
| FileTree.CopyMirrors | create_project.py:52-56 | After the copy, what lies below the project is exactly a copy of what lies below the template. |
| FileTree.CopyWellFormed | create_project.py:52-56 | Copying into an empty directory keeps the tree well formed. |
| FileTree.CopyKeeps | create_project.py:52-56 | Copying into an empty directory keeps every existing entry. |
| FileTree.RerootedFile | create_project.py:53-54 | Copying a file child adds exactly one file, with the same content, under the same name. |
| FileTree.FileSystem.MakeDirs | create_project.py:46 | The call fails, changing nothing, exactly when a prefix of the path is a file. Otherwise the missing directories are made. |
| FileTree.FileSystem.MakeDir | create_project.py:82 | The call fails when the parent is not a directory or the path is a file. An existing directory is kept, and otherwise one directory is added. |
| FileTree.FileSystem.Touch | create_project.py:83 | An existing path, file or directory, is kept and the call succeeds. A new path fails, changing nothing, when its parent is not a directory; otherwise an empty file is added. |
| FileTree.FileSystem.WriteFile | create_project.py:177-178 | The call fails, changing nothing, when the parent is not a directory or the path is a directory. Otherwise the path holds the new content. |
| FileTree.FileSystem.CopyChildrenOf | create_project.py:52-56 | Whatever order the children are taken in, the tree becomes the one described by `CopyChildren`: files copied, directories copied whole. |
| ProjectCreation.GitignoreContent | create_project.py:183-292 | The text of the `.gitignore` document. The base block is always a prefix. The content is exactly the base block when the template is unknown, and a known template's block starts on a new line after a blank line. |
| ProjectCreation.ReadmeTitleFacts | create_project.py:87 | The heading has the name's length and contains no dash. Each dash becomes a space, and other non-letters stay. A letter changes only in case, and is upper-case exactly when it starts a run of letters of the name. |
| ProjectCreation.InvalidCategoryFirst | create_project.py:30-32 | An unknown category is refused and nothing changes, whatever else holds. |
| ProjectCreation.ExistingProjectRefused | create_project.py:34-38 | With a valid category, an existing project path is refused and nothing changes. |
| ProjectCreation.FreshProject | create_project.py:37-46 | A project directory made where nothing was becomes an empty directory, and every other entry is kept. |
| ProjectCreation.BasicFacts | create_project.py:78-83 | The skeleton keeps the tree well formed and keeps every entry. Below the project there is exactly the skeleton: each skeleton directory with an empty `.gitkeep`. |
| ProjectCreation.SuccessFacts | create_project.py:27-76 | After a successful run:<br>- the category was valid and the project did not exist before;<br>- the result is the project path, a directory in a tree that stays well formed;<br>- every earlier entry is untouched;<br>- `README.md`, `.gitignore` and `CLAUDE.md` hold the generated documents, even where the template had files of those names. |
| ProjectCreation.NoTemplateSkeleton | create_project.py:49-83 | Without a template directory, the project holds exactly `src`, `tests`, `docs` and `config`, each with an empty `.gitkeep`, plus the three documents. |
| ProjectCreation.TemplateCopied | create_project.py:49-64 | With a template directory, everything below the template is copied below the project under the same relative path, except where the three documents replace it. Nothing else lies below the project. |
| ProjectCreation.ProjectCreator.constructor | create_project.py:18-25 | The base and templates paths lie below the home directory, and the three categories are known. |
| ProjectCreation.ProjectCreator.CreateProject | create_project.py:27-76 | The result and the new tree are exactly those of `Plan`, and the tree stays well formed. |
| ProjectCreation.ProjectCreator.CreateBasicStructure | create_project.py:78-83 | In an empty project directory, the loop adds exactly the skeleton. |
| ProjectCreation.ProjectCreator.CreateReadme | create_project.py:85-178 | `README.md` gets the title, the description (or `Project description` when the description is empty), the name and the category. The write fails only where `open` would. |
| ProjectCreation.ProjectCreator.CreateGitignore | create_project.py:180-295 | `.gitignore` gets the document for the template, whose text is `GitignoreContent`. The write fails only where `open` would. |
| ProjectCreation.ProjectCreator.CreateClaudeMd | create_project.py:297-345 | `CLAUDE.md` gets the name and the category. The write fails only where `open` would. |

## Left out

- HTTP requests, subprocesses, `os.chdir`, `load_dotenv` and `json.loads` are not executed. Their results, or the exceptions they raise, are inputs to the model.
- GitHubStatus.Classify: a failure of `response.json()` on a 200 reply is not modelled. The decoded repository fields are given.
- LocalGitStatus.CheckProject: the four git commands are one input, so an exception is attributed to the commands as a group rather than to the one that raised.
- Dependencies.NodeCheck: vulnerability values are integers. `sum()` over non-numeric values, which would raise in the report, is not modelled.
- The report text is not modelled: headings, the per-repository and per-project lines, the three-file preview of dirty files, and the fixed recommendations. The report also writes the two characters backslash-n where it means line breaks.
- A healthy record with no `updated_at` would make the report's `[:10]` slice raise. Report formatting is outside the model, so this is not modelled either.
- Timestamps (`datetime.now`, `date.today`) are left out. They appear only in the report and the generated documents.
- The free text of `README.md` and `CLAUDE.md` is not modelled. Each document is recorded by the values filled into it: the title, the description, the name and the category.
- In the file tree, `.gitignore` holds a record of its template rather than its text. `GitignoreContent` gives that text, the base block copied verbatim, with its properties proved. The tree lemmas thereby avoid reasoning about a 2000-character literal.
- `git init`, `git add` and `git commit` after the files are written are left out, as are the final messages. Their failures would raise after the tree is complete.
- `shutil.copy2` metadata, symbolic links and `copytree` error handling are left out. The tree holds only directories and files.
- Path normalisation is left out. A project name, category or template that contains `/` or is empty is taken as one path component.
- `str.title` is modelled on ASCII letters only. Other characters are kept as they are.
- The command-line interface is left out: argparse, `list_templates`, `list_categories`, `save_report` and `main`.
- The monitor computes no thresholds, overall verdict or exit code; it only classifies and counts, and so does the model.

## Findings

| source | as written | input that shows it | evidently intended | confidence | as-written member | corrected member |
|---|---|---|---|---|---|---|
| project_health_monitor.py:129 | The porcelain output is split on `'\\n'`, the two characters backslash and n. | `git status --porcelain` printing `M a`, a newline, then `M b`: the output is one piece, so `dirty_count` is 1. | Split on newlines, one change per line: `dirty_count` is 2. | not executed | LocalGitStatus.AsWrittenCountsOne | LocalGitStatus.NewlineCountsLines |
| project_health_monitor.py:211 | The `df -h /` output is split on `'\\n'`, the two characters backslash and n. | Any `df` output, such as a header line, a newline, then `/dev/disk1 466Gi 200Gi 250Gi 45% /`: the output is one piece, so every disk figure is `N/A`. | Split on newlines: total, used, available and percentage are `466Gi`, `200Gi`, `250Gi` and `45%`. | not executed | SystemHealth.AsWrittenDiskUnavailable | SystemHealth.NewlineDiskFields |

The parsing functions and `GenerateHealthReport` take the separator as a parameter. `OutputLines.AsWrittenSeparator` is the code's two-character separator and `OutputLines.LineSeparator` is the newline. The lemmas above prove what each one yields. `LocalGitStatus.PorcelainExample` works through the first row's input with both separators.
