/** The project creator (`create_project.py`): checks the category and that the
    project does not exist yet, makes the project directory, fills it from a
    template directory or with a basic skeleton, and writes README.md,
    .gitignore and CLAUDE.md. The file system is a `FileTree.FileSystem`. */
module ProjectCreation {
  import opened Wrappers
  import opened PyStrings
  import opened FileTree

  /** The categories a project may belong to, with their descriptions. */
  const Categories: map<string, string> := map[
    "claude-tools" := "Claude Code utilities and extensions",
    "automation-tools" := "Automation and productivity tools",
    "ml-projects" := "Machine learning and AI projects"
  ]

  /** Where projects and templates live below the home directory. */
  function BasePath(home: Path): Path { home + ["AI projects"] }
  function TemplatesPath(home: Path): Path { home + ["claude-config", ".claude", "templates"] }

  function ProjectPath(home: Path, category: string, name: string): Path {
    BasePath(home) + [category, name]
  }

  function TemplatePath(home: Path, template: string): Path {
    TemplatesPath(home) + [template]
  }

  /** Nothing inside the templates directory lies on the way to a project. */
  lemma TemplateApart(home: Path, category: string, name: string, template: string, s: Path)
    ensures !(TemplatePath(home, template) + s <= ProjectPath(home, category, name))
  {
    var x := TemplatePath(home, template) + s;
    assert x[|home|] == "claude-config";
    assert ProjectPath(home, category, name)[|home|] == "AI projects";
  }

  // The skeleton made when there is no template.

  const BasicDirs: seq<string> := ["src", "tests", "docs", "config"]
  const KeepFile := ".gitkeep"

  function BasicPaths(p: Path, dirs: seq<string>): set<Path> {
    (set d | d in dirs :: p + [d]) + (set d | d in dirs :: p + [d, KeepFile])
  }

  /** A skeleton directory directly below `p`, or its empty `.gitkeep`. */
  function SkeletonNode(p: Path, q: Path): Node {
    if |q| == |p| + 1 then Dir else File(Text(""))
  }

  /** Each of `dirs` as a directory below `p`, holding an empty `.gitkeep`. */
  function BasicEntries(p: Path, dirs: seq<string>): Entries {
    map q | q in BasicPaths(p, dirs) :: SkeletonNode(p, q)
  }

  // The .gitignore text: a base block and, for four templates, a block of its own.

  /** The base block, as the source spells it. */
  const BaseIgnore := @"# Environment & Secrets
.env
.env.*
*.pem
*.key
api_keys/
secrets/

# Python
__pycache__/
*.py[cod]
*$py.class
*.so
.Python
build/
develop-eggs/
dist/
downloads/
eggs/
.eggs/
lib/
lib64/
parts/
sdist/
var/
wheels/
*.egg-info/
.installed.cfg
*.egg
venv/

# IDE
.vscode/
.idea/
*.swp
*.swo
*~

# OS
.DS_Store
.DS_Store?
._*
.Spotlight-V100
.Trashes
ehthumbs.db
Thumbs.db

# Logs
logs/
*.log

# Testing
.pytest_cache/
.coverage
htmlcov/
.tox/
coverage.xml

# Data files
data/
*.db
*.sqlite
*.csv
temp/
tmp/
"

  /** The template-specific blocks, keyed by template name. */
  const IgnoreBlocks: map<string, string> := map[
    "web-app" := "\n" + @"# Node.js
node_modules/
npm-debug.log*
yarn-debug.log*
yarn-error.log*

# Build outputs
dist/
build/
.next/
",
    "ml-project" := "\n" + @"# ML Models
models/
*.pkl
*.model
*.h5
*.pt
*.pth

# Jupyter
.ipynb_checkpoints/
*.ipynb

# Data
datasets/
*.parquet
",
    "cli-tool" := "\n" + @"# Binaries
bin/
*.exe
",
    "mcp-server" := "\n" + @"# MCP specific
.mcp/
mcp-logs/
"
  ]

  function TemplateBlock(template: string): string {
    if template in IgnoreBlocks then IgnoreBlocks[template] else ""
  }

  /** The text of `GitignoreDoc(template)`: the base block always comes first; a known
      template adds its block after a blank line, any other template adds
      nothing. */
  function GitignoreContent(template: string): (c: string)
    ensures BaseIgnore <= c
    ensures c == BaseIgnore <==> template !in IgnoreBlocks
    ensures template in IgnoreBlocks ==> c[|BaseIgnore|] == '\n' && c[|BaseIgnore| - 1] == '\n'
  {
    assert BaseIgnore[|BaseIgnore| - 1] == '\n';
    assert template in IgnoreBlocks ==> IgnoreBlocks[template] != [] && IgnoreBlocks[template][0] == '\n' by {
      if template == "web-app" {
        assert IgnoreBlocks[template][0] == '\n';
      } else if template == "ml-project" {
        assert IgnoreBlocks[template][0] == '\n';
      } else if template == "cli-tool" {
        assert IgnoreBlocks[template][0] == '\n';
      } else if template == "mcp-server" {
        assert IgnoreBlocks[template][0] == '\n';
      }
    }
    BaseIgnore + TemplateBlock(template)
  }

  // README.md and CLAUDE.md.

  const DefaultDescription := "Project description"

  /** The README heading: dashes become spaces, then the words are title-cased. */
  function ReadmeTitle(name: string): string {
    Title(ReplaceChar(name, '-', ' '))
  }

  /** The heading has the name's length and no dash; a dash becomes a space,
      other non-letters stay, and a letter keeps its letter but is upper-case
      exactly when it starts a run of letters of the name. */
  lemma ReadmeTitleFacts(name: string)
    ensures |ReadmeTitle(name)| == |name|
    ensures '-' !in ReadmeTitle(name)
    ensures forall i :: 0 <= i < |name| && name[i] == '-' ==> ReadmeTitle(name)[i] == ' '
    ensures forall i :: 0 <= i < |name| && name[i] != '-' && !IsCased(name[i]) ==> ReadmeTitle(name)[i] == name[i]
    ensures forall i :: 0 <= i < |name| && IsCased(name[i]) ==>
      && ToLower(ReadmeTitle(name)[i]) == ToLower(name[i])
      && (IsUpper(ReadmeTitle(name)[i]) <==> StartsWord(name, i))
  {
    var s := ReplaceChar(name, '-', ' ');
    var t := ReadmeTitle(name);
    if name != [] {
      TitleAt(s, 0);
    }
    forall i | 0 <= i < |name|
      ensures t[i] != '-'
      ensures name[i] == '-' ==> t[i] == ' '
      ensures name[i] != '-' && !IsCased(name[i]) ==> t[i] == name[i]
      ensures IsCased(name[i]) ==> ToLower(t[i]) == ToLower(name[i]) && (IsUpper(t[i]) <==> StartsWord(name, i))
    {
      TitleAt(s, i);
      assert s[i] == if name[i] == '-' then ' ' else name[i];
      if i > 0 {
        assert s[i - 1] == if name[i - 1] == '-' then ' ' else name[i - 1];
      }
    }
  }

  function Readme(name: string, description: string, category: string): Content {
    ReadmeDoc(ReadmeTitle(name), if description == "" then DefaultDescription else description, name, category)
  }

  const ReadmeName := "README.md"
  const GitignoreName := ".gitignore"
  const ClaudeName := "CLAUDE.md"

  function DocPaths(p: Path): set<Path> {
    {p + [ReadmeName], p + [GitignoreName], p + [ClaudeName]}
  }

  /** Why a run stops; each is an exception in the source. */
  datatype CreateError =
    | InvalidCategory(category: string)
    | AlreadyExists(path: Path)
    | MakeDirsFailed(path: Path)
    | TemplateNotADirectory(path: Path)
    | WriteFailed(path: Path)

  /** The three files, in the order they are written; the first that cannot
      be written stops the run, leaving the earlier ones in place. */
  function WriteDocs(e: Entries, p: Path, readmeDoc: Content, gitignoreDoc: Content, claudeDoc: Content)
    : (Result<Path, CreateError>, Entries)
  {
    var readme, gitignore, claude := p + [ReadmeName], p + [GitignoreName], p + [ClaudeName];
    if !CanWrite(e, readme) then (Failure(WriteFailed(readme)), e)
    else
      var e1 := e[readme := File(readmeDoc)];
      if !CanWrite(e1, gitignore) then (Failure(WriteFailed(gitignore)), e1)
      else
        var e2 := e1[gitignore := File(gitignoreDoc)];
        if !CanWrite(e2, claude) then (Failure(WriteFailed(claude)), e2)
        else (Success(p), e2[claude := File(claudeDoc)])
  }

  /** `create_project` up to the git commands: the result and the tree afterwards. */
  function Plan(home: Path, e: Entries, name: string, category: string, template: string, description: string)
    : (Result<Path, CreateError>, Entries)
  {
    if category !in Categories then (Failure(InvalidCategory(category)), e)
    else
      var p := ProjectPath(home, category, name);
      if p in e then (Failure(AlreadyExists(p)), e)
      else if HasFilePrefix(e, p) then (Failure(MakeDirsFailed(p)), e)
      else
        var made := WithDirs(e, p);
        var tp := TemplatePath(home, template);
        if tp in made && made[tp].File? then (Failure(TemplateNotADirectory(tp)), made)
        else
          var filled := if tp in made then CopyChildren(made, tp, p) else made + BasicEntries(p, BasicDirs);
          WriteDocs(filled, p, Readme(name, description, category), GitignoreDoc(template), ClaudeDoc(name, category))
  }

  /** A category outside the three is refused before anything else is looked at. */
  lemma InvalidCategoryFirst(home: Path, e: Entries, name: string, category: string, template: string, description: string)
    requires category !in Categories
    ensures Plan(home, e, name, category, template, description) == (Failure(InvalidCategory(category)), e)
  {
  }

  /** With a valid category, an existing project path is refused and nothing changes. */
  lemma ExistingProjectRefused(home: Path, e: Entries, name: string, category: string, template: string, description: string)
    requires category in Categories && ProjectPath(home, category, name) in e
    ensures Plan(home, e, name, category, template, description)
      == (Failure(AlreadyExists(ProjectPath(home, category, name))), e)
  {
  }

  /** Making a project directory that did not exist: it becomes an empty
      directory and every other entry is kept. */
  lemma FreshProject(e: Entries, p: Path)
    requires WellFormed(e) && p != [] && p !in e && !HasFilePrefix(e, p)
    ensures WellFormed(WithDirs(e, p)) && p in WithDirs(e, p) && WithDirs(e, p)[p].Dir?
    ensures NothingBelow(e, p) && NothingBelow(WithDirs(e, p), p)
    ensures forall q :: q in e ==> q in WithDirs(e, p) && WithDirs(e, p)[q] == e[q]
    ensures forall q :: !(q <= p) ==> (q in WithDirs(e, p) <==> q in e)
  {
    WithDirsFacts(e, p);
    BelowMeansDir(e, p);
  }

  /** The skeleton below an empty project directory keeps the tree well
      formed, and below the project there is exactly the skeleton. */
  lemma BasicFacts(e: Entries, p: Path)
    requires WellFormed(e) && p in e && e[p].Dir? && NothingBelow(e, p)
    ensures WellFormed(e + BasicEntries(p, BasicDirs))
    ensures forall q :: q in e ==> q in e + BasicEntries(p, BasicDirs) && (e + BasicEntries(p, BasicDirs))[q] == e[q]
    ensures forall q :: p < q ==> (q in e + BasicEntries(p, BasicDirs) <==> q in BasicPaths(p, BasicDirs))
    ensures forall d :: d in BasicDirs ==>
      && p + [d] in e + BasicEntries(p, BasicDirs) && (e + BasicEntries(p, BasicDirs))[p + [d]] == Dir
      && p + [d, KeepFile] in e + BasicEntries(p, BasicDirs)
      && (e + BasicEntries(p, BasicDirs))[p + [d, KeepFile]] == File(Text(""))
  {
    var b := BasicEntries(p, BasicDirs);
    var m := e + b;
    forall q | q in b ensures p < q && (|q| == |p| + 1 || (|q| == |p| + 2 && q[..|p| + 1] in b)) {
      var d :| d in BasicDirs && (q == p + [d] || q == p + [d, KeepFile]);
      if q == p + [d, KeepFile] {
        assert q[..|p| + 1] == p + [d];
      }
    }
    forall q | q in e ensures q !in b {
      assert !(p < q);
    }
    forall q | q in m ensures IsDir(m, Parent(q)) {
      if q in b {
        if |q| == |p| + 1 {
          assert Parent(q) == p;
        } else {
          assert Parent(q) == q[..|p| + 1];
        }
      } else {
        assert IsDir(e, Parent(q));
      }
    }
    forall d | d in BasicDirs
      ensures p + [d] in m && m[p + [d]] == Dir && p + [d, KeepFile] in m && m[p + [d, KeepFile]] == File(Text(""))
    {
      assert p + [d] in BasicPaths(p, BasicDirs);
      assert p + [d, KeepFile] in BasicPaths(p, BasicDirs);
    }
  }

  /** The three files are written: the run succeeds, the tree stays well
      formed, and they hold their documents. */
  lemma WriteDocsFacts(e: Entries, p: Path, readmeDoc: Content, gitignoreDoc: Content, claudeDoc: Content)
    requires WellFormed(e)
    requires WriteDocs(e, p, readmeDoc, gitignoreDoc, claudeDoc).0.Success?
    ensures var out := WriteDocs(e, p, readmeDoc, gitignoreDoc, claudeDoc);
      && out.0 == Success(p)
      && WellFormed(out.1)
      && out.1 == e[p + [ReadmeName] := File(readmeDoc)]
                   [p + [GitignoreName] := File(gitignoreDoc)]
                   [p + [ClaudeName] := File(claudeDoc)]
  {
    var readme, gitignore, claude := p + [ReadmeName], p + [GitignoreName], p + [ClaudeName];
    var e1 := e[readme := File(readmeDoc)];
    WriteKeepsWellFormed(e, readme, File(readmeDoc));
    var e2 := e1[gitignore := File(gitignoreDoc)];
    WriteKeepsWellFormed(e1, gitignore, File(gitignoreDoc));
    WriteKeepsWellFormed(e2, claude, File(claudeDoc));
  }

  /** Writing the three files into a filled project keeps what existed before it. */
  lemma DocsOnFilled(e: Entries, f: Entries, p: Path, readmeDoc: Content, gitignoreDoc: Content, claudeDoc: Content)
    requires WellFormed(f) && p in f && f[p].Dir? && NothingBelow(e, p)
    requires forall q :: q in e ==> q in f && f[q] == e[q]
    requires WriteDocs(f, p, readmeDoc, gitignoreDoc, claudeDoc).0.Success?
    ensures var out := WriteDocs(f, p, readmeDoc, gitignoreDoc, claudeDoc);
      && out.0 == Success(p)
      && WellFormed(out.1)
      && p in out.1 && out.1[p].Dir?
      && (forall q :: q in e ==> q in out.1 && out.1[q] == e[q])
      && DocPaths(p) <= out.1.Keys
      && out.1[p + [ReadmeName]] == File(readmeDoc)
      && out.1[p + [GitignoreName]] == File(gitignoreDoc)
      && out.1[p + [ClaudeName]] == File(claudeDoc)
  {
    WriteDocsFacts(f, p, readmeDoc, gitignoreDoc, claudeDoc);
    var readme, gitignore, claude := p + [ReadmeName], p + [GitignoreName], p + [ClaudeName];
    assert p < readme && p < gitignore && p < claude;
    forall q | q in e ensures q != readme && q != gitignore && q != claude {
      assert !(p < q);
    }
  }

  /** The tree just before the three files are written, on a run that gets that far. */
  function Filled(home: Path, e: Entries, name: string, category: string, template: string): Entries {
    var p := ProjectPath(home, category, name);
    var made := WithDirs(e, p);
    var tp := TemplatePath(home, template);
    if tp in made then CopyChildren(made, tp, p) else made + BasicEntries(p, BasicDirs)
  }

  lemma FilledFacts(home: Path, e: Entries, name: string, category: string, template: string, description: string)
    requires WellFormed(e) && Plan(home, e, name, category, template, description).0.Success?
    ensures var p := ProjectPath(home, category, name);
      && category in Categories && p !in e && NothingBelow(e, p)
      && Plan(home, e, name, category, template, description)
         == WriteDocs(Filled(home, e, name, category, template), p, Readme(name, description, category), GitignoreDoc(template), ClaudeDoc(name, category))
      && WellFormed(Filled(home, e, name, category, template))
      && p in Filled(home, e, name, category, template) && Filled(home, e, name, category, template)[p].Dir?
      && (forall q :: q in e ==> q in Filled(home, e, name, category, template)
                                 && Filled(home, e, name, category, template)[q] == e[q])
  {
    var p := ProjectPath(home, category, name);
    var made := WithDirs(e, p);
    FreshProject(e, p);
    var tp := TemplatePath(home, template);
    if tp in made {
      CopyWellFormed(made, tp, p);
      CopyKeeps(made, tp, p);
    } else {
      BasicFacts(made, p);
    }
  }

  /** After a successful run the project directory exists, everything that
      existed before is untouched, the tree is well formed, and README.md,
      .gitignore and CLAUDE.md hold the generated documents, whatever the
      template held under those names. */
  lemma SuccessFacts(home: Path, e: Entries, name: string, category: string, template: string, description: string)
    requires WellFormed(e)
    requires Plan(home, e, name, category, template, description).0.Success?
    ensures var out := Plan(home, e, name, category, template, description);
      var p := ProjectPath(home, category, name);
      && category in Categories && p !in e && out.0 == Success(p)
      && WellFormed(out.1)
      && p in out.1 && out.1[p].Dir?
      && (forall q :: q in e ==> q in out.1 && out.1[q] == e[q])
      && DocPaths(p) <= out.1.Keys
      && out.1[p + [ReadmeName]] == File(Readme(name, description, category))
      && out.1[p + [GitignoreName]] == File(GitignoreDoc(template))
      && out.1[p + [ClaudeName]] == File(ClaudeDoc(name, category))
  {
    var p := ProjectPath(home, category, name);
    FilledFacts(home, e, name, category, template, description);
    DocsOnFilled(e, Filled(home, e, name, category, template), p, Readme(name, description, category), GitignoreDoc(template), ClaudeDoc(name, category));
  }

  /** Below the project, writing the three files adds exactly them and keeps the rest. */
  lemma WriteDocsBelow(f: Entries, p: Path, readmeDoc: Content, gitignoreDoc: Content, claudeDoc: Content)
    requires WellFormed(f)
    requires WriteDocs(f, p, readmeDoc, gitignoreDoc, claudeDoc).0.Success?
    ensures var out := WriteDocs(f, p, readmeDoc, gitignoreDoc, claudeDoc);
      && (forall q :: p < q ==> (q in out.1 <==> q in f || q in DocPaths(p)))
      && (forall q :: q in f && q !in DocPaths(p) ==> q in out.1 && out.1[q] == f[q])
  {
    WriteDocsFacts(f, p, readmeDoc, gitignoreDoc, claudeDoc);
  }

  /** Writing the three files over the skeleton. */
  lemma SkeletonDocs(f: Entries, p: Path, readmeDoc: Content, gitignoreDoc: Content, claudeDoc: Content)
    requires WellFormed(f) && WriteDocs(f, p, readmeDoc, gitignoreDoc, claudeDoc).0.Success?
    requires forall q :: p < q ==> (q in f <==> q in BasicPaths(p, BasicDirs))
    requires forall d :: d in BasicDirs ==>
      && p + [d] in f && f[p + [d]] == Dir && p + [d, KeepFile] in f && f[p + [d, KeepFile]] == File(Text(""))
    ensures var out := WriteDocs(f, p, readmeDoc, gitignoreDoc, claudeDoc);
      && (forall q :: p < q ==> (q in out.1 <==> q in BasicPaths(p, BasicDirs) || q in DocPaths(p)))
      && (forall d :: d in BasicDirs ==>
            && p + [d] in out.1 && out.1[p + [d]] == Dir
            && p + [d, KeepFile] in out.1 && out.1[p + [d, KeepFile]] == File(Text("")))
  {
    var out := WriteDocs(f, p, readmeDoc, gitignoreDoc, claudeDoc).1;
    WriteDocsBelow(f, p, readmeDoc, gitignoreDoc, claudeDoc);
    forall q | p < q ensures q in out <==> q in BasicPaths(p, BasicDirs) || q in DocPaths(p) {
      assert q in out <==> q in f || q in DocPaths(p);
    }
    forall d | d in BasicDirs
      ensures p + [d] in out && out[p + [d]] == Dir
      ensures p + [d, KeepFile] in out && out[p + [d, KeepFile]] == File(Text(""))
    {
      SkeletonNotDocs(p, d);
    }
  }

  /** No skeleton path is one of the three documents. */
  lemma SkeletonNotDocs(p: Path, d: string)
    requires d in BasicDirs
    ensures p + [d] !in DocPaths(p) && p + [d, KeepFile] !in DocPaths(p)
  {
    assert d != ReadmeName && d != GitignoreName && d != ClaudeName;
    assert (p + [d])[|p|] == d;
    assert (p + [ReadmeName])[|p|] == ReadmeName;
    assert (p + [GitignoreName])[|p|] == GitignoreName;
    assert (p + [ClaudeName])[|p|] == ClaudeName;
    assert |p + [d, KeepFile]| == |p| + 2;
  }

  /** Writing the three files over a copy of the template. */
  lemma MirrorDocs(e: Entries, f: Entries, tp: Path, p: Path,
                   readmeDoc: Content, gitignoreDoc: Content, claudeDoc: Content)
    requires WellFormed(f) && WriteDocs(f, p, readmeDoc, gitignoreDoc, claudeDoc).0.Success?
    requires forall s: Path :: s != [] && tp + s in e ==> p + s in f && f[p + s] == e[tp + s]
    requires forall q :: p < q ==> (q in f <==> tp + q[|p|..] in e)
    ensures var out := WriteDocs(f, p, readmeDoc, gitignoreDoc, claudeDoc);
      && (forall s: Path :: s != [] && tp + s in e && p + s !in DocPaths(p) ==>
            p + s in out.1 && out.1[p + s] == e[tp + s])
      && (forall q :: p < q ==> (q in out.1 <==> tp + q[|p|..] in e || q in DocPaths(p)))
  {
    WriteDocsBelow(f, p, readmeDoc, gitignoreDoc, claudeDoc);
  }

  /** The copy is taken from the template as it was before the run: making
      the project directory touches nothing inside the templates directory. */
  lemma CopyFromTemplate(home: Path, e: Entries, category: string, name: string, template: string)
    requires WellFormed(e)
    requires var p := ProjectPath(home, category, name); p !in e && !HasFilePrefix(e, p)
    ensures var p, tp := ProjectPath(home, category, name), TemplatePath(home, template);
      var f := CopyChildren(WithDirs(e, p), tp, p);
      && (forall s: Path :: s != [] && tp + s in e ==> p + s in f && f[p + s] == e[tp + s])
      && (forall q :: p < q ==> (q in f <==> tp + q[|p|..] in e))
  {
    var p, tp := ProjectPath(home, category, name), TemplatePath(home, template);
    var made := WithDirs(e, p);
    FreshProject(e, p);
    CopyMirrors(made, tp, p);
    forall s: Path ensures (tp + s in made <==> tp + s in e) && (tp + s in e ==> made[tp + s] == e[tp + s]) {
      TemplateApart(home, category, name, template, s);
    }
  }

  /** Without a template directory the project holds exactly `src`, `tests`,
      `docs` and `config`, each with an empty `.gitkeep`, and the three files. */
  lemma NoTemplateSkeleton(home: Path, e: Entries, name: string, category: string, template: string, description: string)
    requires WellFormed(e) && Plan(home, e, name, category, template, description).0.Success?
    requires TemplatePath(home, template) !in e
    ensures var out := Plan(home, e, name, category, template, description);
      var p := ProjectPath(home, category, name);
      && (forall q :: p < q ==> (q in out.1 <==> q in BasicPaths(p, BasicDirs) || q in DocPaths(p)))
      && (forall d :: d in BasicDirs ==>
            && p + [d] in out.1 && out.1[p + [d]] == Dir
            && p + [d, KeepFile] in out.1 && out.1[p + [d, KeepFile]] == File(Text("")))
  {
    var p := ProjectPath(home, category, name);
    var made := WithDirs(e, p);
    FreshProject(e, p);
    var tp := TemplatePath(home, template);
    TemplateApart(home, category, name, template, []);
    assert tp + [] == tp;
    assert tp !in made;
    var f := made + BasicEntries(p, BasicDirs);
    assert Filled(home, e, name, category, template) == f;
    BasicFacts(made, p);
    FilledFacts(home, e, name, category, template, description);
    SkeletonDocs(f, p, Readme(name, description, category), GitignoreDoc(template), ClaudeDoc(name, category));
  }

  /** With a template directory, below the project there is a copy of
      everything below the template, except where README.md, .gitignore or
      CLAUDE.md replace it, and nothing else. */
  lemma TemplateCopied(home: Path, e: Entries, name: string, category: string, template: string, description: string)
    requires WellFormed(e) && Plan(home, e, name, category, template, description).0.Success?
    requires TemplatePath(home, template) in e
    ensures var out := Plan(home, e, name, category, template, description);
      var p, tp := ProjectPath(home, category, name), TemplatePath(home, template);
      && (forall s: Path :: s != [] && tp + s in e && p + s !in DocPaths(p) ==>
            p + s in out.1 && out.1[p + s] == e[tp + s])
      && (forall q :: p < q ==> (q in out.1 <==> tp + q[|p|..] in e || q in DocPaths(p)))
  {
    var p := ProjectPath(home, category, name);
    var made := WithDirs(e, p);
    var tp := TemplatePath(home, template);
    var f := CopyChildren(made, tp, p);
    assert Filled(home, e, name, category, template) == f by {
      FreshProject(e, p);
      assert tp in made;
    }
    assert Plan(home, e, name, category, template, description)
      == WriteDocs(f, p, Readme(name, description, category), GitignoreDoc(template), ClaudeDoc(name, category))
      && WellFormed(f) by {
      FilledFacts(home, e, name, category, template, description);
    }
    CopyFromTemplate(home, e, category, name, template);
    MirrorDocs(e, f, tp, p, Readme(name, description, category), GitignoreDoc(template), ClaudeDoc(name, category));
  }

  /** One skeleton directory more. */
  lemma BasicStep(e: Entries, p: Path, i: nat)
    requires NothingBelow(e, p) && p in e && e[p].Dir? && i < |BasicDirs|
    ensures var m := e + BasicEntries(p, BasicDirs[..i]);
      var dir := p + [BasicDirs[i]];
      && p in m && m[p].Dir?
      && dir !in m && dir + [KeepFile] !in m[dir := Dir]
      && m[dir := Dir][dir + [KeepFile] := File(Text(""))] == e + BasicEntries(p, BasicDirs[..i + 1])
  {
    var done, d := BasicDirs[..i], BasicDirs[i];
    var dir, keep := p + [d], p + [d, KeepFile];
    assert BasicDirs[..i + 1] == done + [d];
    assert d !in done;
    assert !(p < p) && p < dir && p < keep;
    assert keep == dir + [KeepFile];
    BasicEntriesStep(p, done, d);
    var b := BasicEntries(p, done);
    MergeUpdate(e, b, dir, Dir);
    MergeUpdate(e, b[dir := Dir], keep, File(Text("")));
  }

  lemma MergeUpdate<K, V>(a: map<K, V>, b: map<K, V>, k: K, v: V)
    ensures (a + b)[k := v] == a + b[k := v]
  {
  }

  lemma DirPathsSnoc(p: Path, done: seq<string>, d: string)
    ensures (set c | c in done + [d] :: p + [c]) == (set c | c in done :: p + [c]) + {p + [d]}
  {
  }

  lemma KeepPathsSnoc(p: Path, done: seq<string>, d: string)
    ensures (set c | c in done + [d] :: p + [c, KeepFile]) == (set c | c in done :: p + [c, KeepFile]) + {p + [d, KeepFile]}
  {
  }

  lemma BasicEntriesStep(p: Path, done: seq<string>, d: string)
    requires d !in done
    ensures p + [d] !in BasicEntries(p, done) && p + [d, KeepFile] !in BasicEntries(p, done)
    ensures BasicEntries(p, done + [d]) == BasicEntries(p, done)[p + [d] := Dir][p + [d, KeepFile] := File(Text(""))]
  {
    var dir, keep := p + [d], p + [d, KeepFile];
    var b := BasicPaths(p, done);
    assert dir !in b && keep !in b by {
      forall c | c in done ensures p + [c] != dir && p + [c] != keep && p + [c, KeepFile] != dir && p + [c, KeepFile] != keep {
        assert (p + [c])[|p|] == c && (p + [c, KeepFile])[|p|] == c;
        assert dir[|p|] == d && keep[|p|] == d;
      }
    }
    assert BasicPaths(p, done + [d]) == b + {dir, keep} by {
      DirPathsSnoc(p, done, d);
      KeepPathsSnoc(p, done, d);
    }
    SkeletonMapAdd(p, b, dir, keep);
  }

  lemma SkeletonMapAdd(p: Path, b: set<Path>, dir: Path, keep: Path)
    requires |dir| == |p| + 1 && |keep| == |p| + 2
    ensures (map q | q in b + {dir, keep} :: SkeletonNode(p, q))
      == (map q | q in b :: SkeletonNode(p, q))[dir := Dir][keep := File(Text(""))]
  {
  }

  /** The creator's configuration: the home directory it works below and the
      categories it accepts. */
  class ProjectCreator {
    const home: Path
    const basePath: Path
    const templatesPath: Path
    const categories: map<string, string>

    predicate Valid() {
      basePath == BasePath(home) && templatesPath == TemplatesPath(home) && categories == Categories
    }

    constructor (home: Path)
      ensures this.home == home && Valid()
    {
      this.home := home;
      basePath := BasePath(home);
      templatesPath := TemplatesPath(home);
      categories := Categories;
    }

    /** `create_project` up to the git commands. */
    method CreateProject(fs: FileSystem, name: string, category: string, template: string, description: string)
      returns (r: Result<Path, CreateError>)
      requires Valid() && fs.Valid()
      modifies fs
      ensures fs.Valid()
      ensures (r, fs.entries) == Plan(home, old(fs.entries), name, category, template, description)
    {
      if category !in categories {
        return Failure(InvalidCategory(category));
      }
      var p := basePath + [category, name];
      if p in fs.entries {
        return Failure(AlreadyExists(p));
      }
      ghost var e0 := fs.entries;
      var ok := fs.MakeDirs(p);
      if !ok {
        return Failure(MakeDirsFailed(p));
      }
      FreshProject(e0, p);
      var tp := templatesPath + [template];
      if tp in fs.entries {
        if fs.entries[tp].File? {
          return Failure(TemplateNotADirectory(tp));
        }
        fs.CopyChildrenOf(tp, p);
      } else {
        CreateBasicStructure(fs, p);
      }
      assert fs.entries == Filled(home, e0, name, category, template);
      ok := CreateReadme(fs, p, name, description, category);
      if !ok {
        return Failure(WriteFailed(p + [ReadmeName]));
      }
      ok := CreateGitignore(fs, p, template);
      if !ok {
        return Failure(WriteFailed(p + [GitignoreName]));
      }
      ok := CreateClaudeMd(fs, p, name, category);
      if !ok {
        return Failure(WriteFailed(p + [ClaudeName]));
      }
      return Success(p);
    }

    /** `_create_basic_structure`: each skeleton directory with its `.gitkeep`. */
    method CreateBasicStructure(fs: FileSystem, p: Path)
      requires fs.Valid() && p in fs.entries && fs.entries[p].Dir? && NothingBelow(fs.entries, p)
      modifies fs
      ensures fs.Valid()
      ensures fs.entries == old(fs.entries) + BasicEntries(p, BasicDirs)
    {
      ghost var e0 := fs.entries;
      for i := 0 to |BasicDirs|
        invariant fs.Valid()
        invariant fs.entries == e0 + BasicEntries(p, BasicDirs[..i])
      {
        var dir := p + [BasicDirs[i]];
        BasicStep(e0, p, i);
        assert Parent(dir) == p;
        var made := fs.MakeDir(dir);
        assert Parent(dir + [KeepFile]) == dir;
        var touched := fs.Touch(dir + [KeepFile]);
      }
      assert BasicDirs[..|BasicDirs|] == BasicDirs;
    }

    /** `_create_readme`: README.md with the title, the description (or the
        default one when it is empty), the name and the category. */
    method CreateReadme(fs: FileSystem, p: Path, name: string, description: string, category: string)
      returns (ok: bool)
      requires fs.Valid()
      modifies fs
      ensures fs.Valid()
      ensures ok == CanWrite(old(fs.entries), p + [ReadmeName])
      ensures fs.entries == if ok then old(fs.entries)[p + [ReadmeName] := File(Readme(name, description, category))]
                            else old(fs.entries)
    {
      var title := ReadmeTitle(name);
      var text := if description == "" then DefaultDescription else description;
      ok := fs.WriteFile(p + [ReadmeName], ReadmeDoc(title, text, name, category));
    }

    /** `_create_gitignore`: the file holds the document for `template`,
        whose text is `GitignoreContent(template)`. */
    method CreateGitignore(fs: FileSystem, p: Path, template: string) returns (ok: bool)
      requires fs.Valid()
      modifies fs
      ensures fs.Valid()
      ensures ok == CanWrite(old(fs.entries), p + [GitignoreName])
      ensures fs.entries == if ok then old(fs.entries)[p + [GitignoreName] := File(GitignoreDoc(template))]
                            else old(fs.entries)
    {
      ok := fs.WriteFile(p + [GitignoreName], GitignoreDoc(template));
    }

    /** `_create_claude_md` */
    method CreateClaudeMd(fs: FileSystem, p: Path, name: string, category: string) returns (ok: bool)
      requires fs.Valid()
      modifies fs
      ensures fs.Valid()
      ensures ok == CanWrite(old(fs.entries), p + [ClaudeName])
      ensures fs.entries == if ok then old(fs.entries)[p + [ClaudeName] := File(ClaudeDoc(name, category))]
                            else old(fs.entries)
    {
      ok := fs.WriteFile(p + [ClaudeName], ClaudeDoc(name, category));
    }
  }
}
