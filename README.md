# Rails API documentation task in Dafny

This project models `Rails::API::Task`, the rake task that builds the Rails API
documentation with RDoc and the SDoc generator, together with its two
subclasses:

- `RepoTask` documents a checkout of the Rails repository. Component roots are
  the component directories, the output goes to `doc/rdoc`, the renderer gets
  the extra `-g` option, and the version is `master@` followed by the first
  seven characters of the `git rev-parse HEAD` output.
- `AppTask` documents the Rails gems an application has installed. Each
  component root is found by searching the load path `$:`, the output goes to
  `doc/api`, and the version is `Rails::VERSION::STRING`.

The model has three modules.

- `LoadPath` (`load_path.dfy`) states how `AppTask#component_root_dir` greps
  the load path with `gem_name[\w.-]*` followed by `/lib\z`. The search is
  proved equal to a declarative reading: `p + gem + s + "/lib"`, where `s`
  contains only `[A-Za-z0-9_.-]`. It picks the first match in load-path order.
  The no-match case is `None`, where Ruby calls `[0..-5]` on `nil` and raises.
- `ApiTask` (`api_task.dfy`) holds:
  - the ordered table `RDOC_FILES`;
  - the subclass as the `Variant` datatype, which carries the outside inputs
    each subclass reads;
  - the renderer options, the version string and the specification function
    `FileLists` for the file list;
  - the class `Task`. Its constructor performs `initialize`, and its
    `ConfigureRdocFiles` method runs the nested loops of
    `configure_rdoc_files` on the `rdocInclude`/`rdocExclude` fields. These are
    proved against `FileLists`.
- `ApiTaskProperties` (`api_task_properties.dfy`) holds the lemmas over those
  functions:
  - each component's contribution and its place in the order;
  - exactly what is included and excluded;
  - when a task can be built at all;
  - reading the options back;
  - the version string.

When no load-path entry matches, `AppTask#component_root_dir`
(`railties/lib/rails/api/task.rb:135`) calls `[0..-5]` on `nil`, which raises
`NoMethodError` out of `initialize`. The model treats a missing root as a
failure: `FileLists` is `None`, as `FileListsDefinedIff` and
`AppFileListsFailIff` characterise.

## Model

| member | source | states |
|---|---|---|
| ApiTaskProperties.RdocFilesTable | railties/lib/rails/api/task.rb:6-62 | The constant `RdocFiles` is the hash `RDOC_FILES` in insertion order: activesupport, activerecord, activemodel, actionpack, actionmailer, railties. Each entry includes its `README.rdoc` and `CHANGELOG.md` first and at least one more pattern. `RdocFilesExcludeShapes` and `RdocFilesExcludeValues` describe its exclusions. |
| ApiTask.ArrayOf | railties/lib/rails/api/task.rb:93-99 | Ruby's `Array(x)` on a rule value: a missing `:include` or `:exclude` gives no patterns, a single string gives a one-element list, an array is kept as it is. `NilAddsNothing` and `SingleExcludeAddsOne` carry its effect on the file list. |
| ApiTask.ComponentRootDir | railties/lib/rails/api/task.rb:120-136 | For the repository the root is the component name itself (lines 120-122). For an application it is None, where Ruby raises, exactly when no load-path entry matches. Otherwise it is a matching load-path entry with `/lib` removed (lines 134-136). `LoadPath.AppRootDir` states that this entry is the first match. |
| LoadPath.EntryMatches | railties/lib/rails/api/task.rb:135 | The regex test for one load-path entry. A matching entry ends in `/lib` and is at least the gem name plus `/lib` long. `EntryMatchesIff` gives its exact meaning. |
| ApiTask.ApiMain | railties/lib/rails/api/task.rb:108-110 | `api_main` is None, where Ruby raises, exactly when the railties root is missing. Otherwise it is the railties root followed by `/RDOC_MAIN.rdoc`. `AppApiMain` and `RepoRoots` give its value for each subclass. |
| ApiTask.ApiDir | railties/lib/rails/api/task.rb:124-140 | `api_dir` is `doc/rdoc` exactly for the repository (lines 124-126) and `doc/api` exactly for an application (lines 138-140). |
| ApiTask.BaseOptions | railties/lib/rails/api/task.rb:70-73 | The options `initialize` appends are eight strings, and the first pair is `-m` with the main page. `OptionsSpelled` and `OptionsRoundTrip` state the other three pairs. |
| ApiTask.OptionList | railties/lib/rails/api/task.rb:113-118 | A task's options are the eight base options (lines 70-73), then `-g` only for the repository (line 117): nine options for the repository, eight for an application. `OptionsRoundTrip` reads them back. |
| ApiTask.FileLists | railties/lib/rails/api/task.rb:87-101 | The files `configure_rdoc_files` hands to the file list. The result is None, where Ruby raises, exactly when the task is not configurable. Otherwise the main page comes first. `IncludedFiles`, `ExcludedFiles`, `ComponentIncludes` and `FileListsDefinedIff` carry the rest. |
| ApiTaskProperties.RdocFilesExcludeShapes | railties/lib/rails/api/task.rb:6-62 | In the rule table, exactly activemodel and railties have no `:exclude`. Every other entry has a single exclude string. Every entry has an array of includes. |
| ApiTaskProperties.RepoRoots | railties/lib/rails/api/task.rb:120-122 | In the repository, every component's root is its own name, in table order. The task therefore always configures. The main page is `railties/RDOC_MAIN.rdoc`. |
| LoadPath.Grep | railties/lib/rails/api/task.rb:134-136 | The grep keeps exactly the load-path entries that match the pattern: no other entry, and none of the matching ones lost. |
| LoadPath.EntryMatchesIff | railties/lib/rails/api/task.rb:135 | The regex search matches an entry exactly when it can be written `p + gem + s + "/lib"` with `s` made only of `[\w.-]` characters (both directions). |
| LoadPath.GrepFirstIsFirstMatch | railties/lib/rails/api/task.rb:135 | `.first` of the grep is the earliest matching entry in load-path order. |
| LoadPath.AppRootDir | railties/lib/rails/api/task.rb:134-136 | The result is None exactly when no entry matches. Otherwise it is the first matching entry with its trailing `/lib` removed. |
| LoadPath.AppRootDirFailsIff | railties/lib/rails/api/task.rb:134-136 | The lookup fails exactly when no entry has the shape `p + gem + s + "/lib"`. |
| LoadPath.FirstEntryRoot | railties/lib/rails/api/task.rb:134-136 | When the first entry is `p + gem + s + "/lib"`, the root is `p + gem + s`, whatever follows it. |
| LoadPath.InstalledGemRoot | railties/lib/rails/api/task.rb:134-136 | `/gems/activerecord-7.0.0/lib` resolves `activerecord` to `/gems/activerecord-7.0.0`. |
| LoadPath.SiblingGemShadows | railties/lib/rails/api/task.rb:135 | A sibling gem such as `activemodel-serializers-xml` also matches `activemodel`. If it comes first on the load path, its directory is taken as activemodel's root. |
| ApiTaskProperties.AppApiMain | railties/lib/rails/api/task.rb:108-110 | For an application, `api_main` is missing exactly when no entry matches railties. Otherwise it is the root of the first railties match followed by `/RDOC_MAIN.rdoc`. |
| ApiTaskProperties.AppFileListsFailIff | railties/lib/rails/api/task.rb:87-101 | An application task cannot be configured exactly when some component of the table has no matching load-path entry. |
| ApiTask.RailsVersion | railties/lib/rails/api/task.rb:128-130 | For the repository the version is `master@` followed by at most the first seven characters of the hash, and is seven characters longer than that prefix. For an application it is `Rails::VERSION::STRING` (lines 142-144). |
| ApiTaskProperties.RepoVersionExample | railties/lib/rails/api/task.rb:128-130 | The `git rev-parse HEAD` output `abcdef1234567` plus a newline gives `master@abcdef1`. |
| ApiTaskProperties.RepoVersionPrefix | railties/lib/rails/api/task.rb:128-130 | Two commits that agree on their first seven characters publish the same version. |
| ApiTaskProperties.OptionsRoundTrip | railties/lib/rails/api/task.rb:70-73 | Reading the options back gives the main page for `-m`, `UTF-8` for `-e`, `sdoc` for `-f` and `rails` for `-T`. The first eight options are these four pairs. `-g` is present exactly for the repository task (line 117). |
| ApiTaskProperties.ApiMainNotFlag | railties/lib/rails/api/task.rb:108-110 | The main page path can never be read as an option flag, so the round trip holds for every configured task. |
| ApiTask.Task.constructor | railties/lib/rails/api/task.rb:64-80 | After `initialize`: the title is `Ruby on Rails API`, `rdoc_dir` is `api_dir`, and the options are the four pairs, plus `-g` for the repository (line 117). The include and exclude lists are exactly `FileLists` of the variant. |
| ApiTask.Task.ConfigureRdocFiles | railties/lib/rails/api/task.rb:87-101 | `configure_rdoc_files` appends the main page and then every component's patterns to the include list, and every exclude pattern to the exclude list, exactly as `FileLists` gives them. |
| ApiTask.Task.AddComponents | railties/lib/rails/api/task.rb:90-100 | The loop over the table appends, for each component in order, its root-prefixed include and exclude patterns, and nothing else. |
| ApiTask.Task.IncludePatterns | railties/lib/rails/api/task.rb:93-95 | Each include pattern is appended as `cdr/pattern`, in order. |
| ApiTask.Task.ExcludePatterns | railties/lib/rails/api/task.rb:97-99 | Each exclude pattern is appended as `cdr/pattern`, in order. |
| ApiTaskProperties.PrefixedAt | railties/lib/rails/api/task.rb:93-99 | The interpolation `"#{cdr}/#{pattern}"` keeps the number and order of the patterns. Element `j` is `cdr + "/" + pattern j`. |
| ApiTaskProperties.CollectSplit | railties/lib/rails/api/task.rb:90-100 | A component's contribution comes after those of all earlier components and before those of all later components. |
| ApiTaskProperties.CollectMembers | railties/lib/rails/api/task.rb:90-100 | A path is collected exactly when it is `root + "/" + pattern` for some component in the range and one of that component's patterns. |
| ApiTaskProperties.NilAddsNothing | railties/lib/rails/api/task.rb:97-99 | An entry without `:exclude` (`Array(nil)` is empty) adds no exclusion. |
| ApiTaskProperties.SingleExcludeAddsOne | railties/lib/rails/api/task.rb:97-99 | An entry whose `:exclude` is a single string (`Array("p")` is `["p"]`) adds exactly `root/p`. |
| ApiTaskProperties.MainPageFirst | railties/lib/rails/api/task.rb:88 | The main page is the first included file. It is the page `-m` names, and it lies in the root of the table's last component, railties. |
| ApiTaskProperties.ComponentIncludes | railties/lib/rails/api/task.rb:88-95 | The include list is the main page, then the earlier components, then component `k`'s root-prefixed include patterns, then the later components. |
| ApiTaskProperties.IncludedFiles | railties/lib/rails/api/task.rb:87-101 | A path is included exactly when it is the main page or a component pattern under that component's root. |
| ApiTaskProperties.ExcludedFiles | railties/lib/rails/api/task.rb:87-101 | The exclusions are exactly the vendored directories of activesupport, activerecord, actionpack and actionmailer, under their roots, in that order. The contract names each component as well as its table position. |
| ApiTaskProperties.ExcludesOfSix | railties/lib/rails/api/task.rb:90-100 | For any six-entry table with that exclude shape, the exclusions are the four strings under their roots, in order. |
| ApiTaskProperties.RepoExcludedFiles | railties/lib/rails/api/task.rb:120-122 | In the repository the exclusions are the four vendored directories as relative paths. |
| ApiTaskProperties.FileListsDefinedIff | railties/lib/rails/api/task.rb:87-101 | `configure_rdoc_files` completes exactly when every component of the table has a root. |
| ApiTask.Task.SetupHoroVariables | railties/lib/rails/api/task.rb:103-106 | The environment afterwards has both HORO keys, set to `Ruby on Rails` and the task's version. Every other variable is unchanged and no other key is added. |

## Left out

- The `RDoc::Task` superclass is not modelled: `super`, `define`, running RDoc and the rake task definition. The model starts from an empty option list and empty include and exclude lists, which `initialize` appends to.
- The default ignore patterns of `Rake::FileList.new` (`CVS`, `.svn`, `*.bak`, `*~` and `core`) are not modelled. `rdocExclude` holds only the patterns `configure_rdoc_files` passes to `exclude`.
- The `desc` override (lines 82-85) is not modelled. It is a no-op that only suppresses the superclass's rake descriptions.
- The `before_running_rdoc` hook registration (lines 77-79) is not modelled. `SetupHoroVariables` is the hook's body, a separate method.
- The process environment `ENV` is modelled as a map passed in and returned.
- Glob expansion is not modelled. `Rake::FileList` expands `include` and `exclude` patterns on the file system, with exclusions winning. The model keeps the patterns handed to `include` and `exclude`, in order.
- Outside inputs are parameters of `Variant`:
  - `git rev-parse HEAD`, run as a subprocess;
  - the load path `$:`;
  - `Rails::VERSION::STRING`.
- A failing git command is not modelled.
- ApiTask.BaseOptions: its own contract states the length and the `-m` pair only. The other three pairs are stated by `OptionsSpelled` and `OptionsRoundTrip`, since putting them in the function's contract makes every proof that uses the options much more expensive.
- LoadPath.EntryMatches: the gem name is taken as a literal string, not a regular expression. Every name in the table is plain letters, so no metacharacter can occur.
- ApiTask.Task.constructor: requires `Configurable`, that is, the railties root and every component root resolve. Ruby instead raises `NoMethodError` out of `initialize`. That failure is modelled on the functions: `FileLists` is `None`, characterised by `FileListsDefinedIff` and `AppFileListsFailIff`.
- ApiTask.Task.ConfigureRdocFiles: requires `Configurable` for the same reason, since `component_root_dir` raises inside the loop (line 91) when a root is missing; the failure is characterised on `FileLists` instead.
- ApiTask.Task.AddComponents: requires `Resolvable` for the table for the same reason; a missing root, where Ruby raises, is characterised on `FileLists` instead.
- The base `Task` on its own is not modelled. It leaves `component_root_dir`, `api_dir` and `rails_version` undefined, so only the two subclasses are instantiated.
