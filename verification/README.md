# Dependency tree vs. SBOM reconciliation — a Dafny model

The repository checks a Python project's resolved dependency tree against a
software bill of materials (SBOM). It normalizes package names, flattens the
tree and the SBOM's component list into name → version maps, classifies every
dependency as missing from the SBOM, a version mismatch or an exact match, and
writes a text report. This project models that core.

- **Names** models the package-name normalizer. app.py, compare_sbom.py and
  compare_trivy_dep.py each carry an equivalent copy: `normalize_name` in
  compare_trivy_dep.py is written as three statements and performs the same
  steps as `normalize_name_auto` in the other two.
- **PyJson** models parsed JSON values with the Python behaviour the loaders
  rely on: `dict.get`, `in`, truthiness, `or`, iteration and `str()`. Python
  exceptions become `Err` values.
- **OrderedMap** models the insertion-ordered `dict` the loaders fill with
  `result[k] = v`.
- **Flatten** holds the loop skeleton every loader shares. That is a flat pass
  over a component list, and the recursive `walk` over nested
  `"dependencies"` lists. The walk is proved equal to assigning a pre-order
  list of entries.
- **PipdeptreeLoad** models `load_sbom` and `load_deps` of app.py and
  compare_sbom.py. These resolve aliases by key presence and insert every node.
- **TrivyLoad** models the loaders of compare_trivy_dep.py. These resolve
  aliases by truthiness and drop incomplete entries.
- **Reconcile** models the classification loop shared by the three `compare`
  functions, as a method with loop invariants. It is checked against
  filter-style reference lists.
- **Report** models the three report layouts. It also models `str.split("\n")`
  and proves which lines a reader of each file sees.
- **PinConvert** models dep_convert.py: it reshapes pipgrip's nested
  `"pkg==ver"` dict into the record list compare_trivy_dep.py reads.
- **Pipeline** proves what compare_trivy_dep.py's `load_deps` makes of
  dep_convert.py's output.
- **RepoArg** models how git_repo.py parses `<repo_url>[@<branch>]` and the
  decisions it makes before touching the file system.

## Model

| member | source | states |
|---|---|---|
| Names.Normalize | app.py:14-16 | Whatever the input, the output has no upper-case ASCII letter, no `_` or `-`, no `..`, and no `.` at either end. |
| Names.NormalizeFixesNormalized | compare_sbom.py:4-7 | A name already in that shape is returned unchanged. |
| Names.NormalizeIdempotent | compare_trivy_dep.py:4-7 | Normalizing an already normalized name changes nothing. |
| Names.NormalizeFixpointIff | compare_sbom.py:6-7 | A name is a fixed point of the normalizer exactly when it has the normalized shape. |
| Names.NormalizeKeepsNonSeparators | app.py:15-16 | Apart from separators, the output is the lower-cased input: removing every `.`, `_` and `-` from both sides gives the same string. |
| Names.NormalizeEmptyIff | compare_trivy_dep.py:5-7 | A name normalizes to "" exactly when it consists only of `.`, `_` and `-`. |
| Names.NormalizeJoin | app.py:15-16 | A separator between two names that each normalize to something non-empty becomes exactly one `.`: the result is the two normalized names joined by `.`, whatever separators surround the boundary. |
| Names.NormalizeExamples | app.py:15-16 | "A_b", "a-b" and "A..B" all normalize to "a.b", and "" stays "". |
| PyJson.FindKey | app.py:223 | A dict lookup finds the first field with the key, or reports that no field has it. |
| PyJson.Or | compare_trivy_dep.py:31 | Python `a or b` always gives one of its operands, truthy exactly when either operand is, and `a` itself when `a` is truthy. |
| PyJson.Iterate | compare_trivy_dep.py:30 | Iterating succeeds exactly on lists, dicts and strings. It is empty exactly when the value is falsy. A list yields its items; a dict or a string yields strings. |
| OrderedMap.Put | app.py:226 | `result[k] = v` makes `k` map to `v` and leaves every other key alone. A new key is appended; an existing key keeps its position. |
| OrderedMap.PutAllLastWins | compare_sbom.py:27 | After successive assignments, a key holds the value of its last assignment. |
| OrderedMap.PutAllHasKey | compare_trivy_dep.py:34 | After successive assignments, a key is present exactly when it was present before or was assigned. |
| OrderedMap.PutAllValueFrom | compare_trivy_dep.py:34 | Every value found after successive assignments is one that was assigned under that key, or was there before. |
| Flatten.ChildIndex | app.py:227 | A node's children are walked exactly when it has a `"dependencies"` key whose value is truthy. |
| Flatten.WalkIsPutAllPreorder | app.py:221-228 | The recursive walk, threading one result dict, equals assigning the pre-order list of entries in order. The first exception raised is the same in both. |
| Flatten.EmittedOk | compare_sbom.py:13 | A pass over a component list succeeds exactly when no element raises. |
| Flatten.EmittedFirstError | app.py:215 | A failed pass raises the exception of the first element that raises. |
| Flatten.EmittedMembers | compare_trivy_dep.py:15-19 | A successful pass holds exactly the entries its elements produce. |
| Flatten.EmittedKeys | compare_trivy_dep.py:14-20 | The dict built by a pass has exactly the keys some element inserts under. |
| Flatten.EmittedLastWins | compare_trivy_dep.py:19 | An element's entry decides its key's value unless a later element inserts under the same key. |
| Flatten.PreorderEntriesEmitted | compare_trivy_dep.py:29-38 | Every entry the walk produces is what the node rule makes of a node the walk visits: an element of the walked list or of a nested `"dependencies"` list below it. |
| PipdeptreeLoad.NestedGetsAreFirstPresent | app.py:224-225 | The nested `get` defaults take the first alias that is present as a key, in the order `key`, `package_name`, `name`, then "unknown". For the version the order is `installed_version`, then `version`, then None. |
| PipdeptreeLoad.NodeRule | compare_sbom.py:23-27 | A node succeeds exactly when three things hold: it is a dict, its `"package"` sub-object (or the node itself) is a dict, and the first-present name is a string. A non-dict node raises AttributeError. A successful node maps the normalized first-present name to the first-present version. |
| PipdeptreeLoad.LoadSbom | compare_sbom.py:9-13 | A non-dict document raises AttributeError. A document without `"components"` loads as an empty map. |
| PipdeptreeLoad.LoadSbomComponents | app.py:212-215 | If no later component has the same normalized name, a component's version is stored under that name. An absent version is stored as None. |
| PipdeptreeLoad.LoadSbomKeys | compare_sbom.py:13 | The keys are the components' normalized names, each once, in order of first occurrence. |
| PipdeptreeLoad.LoadSbomNeedsNames | app.py:215 | A component without `"name"` makes the whole load fail with KeyError, unless an earlier component failed first. |
| PipdeptreeLoad.EncodedNodeRule | compare_sbom.py:24-27 | A pipdeptree node yields its normalized key and its installed version. |
| PipdeptreeLoad.PreorderOfTree | compare_sbom.py:22-29 | Walking a pipdeptree tree produces one entry per package, in pre-order. |
| PipdeptreeLoad.LoadDepsOfTree | app.py:217-230 | Loading a pipdeptree tree assigns its pre-order entries in order. The keys come out in order of first occurrence. |
| PipdeptreeLoad.LoadDeps | app.py:217-230 | Loading equals assigning, in order, the pre-order entries of the walk started at the top-level value, errors included. |
| PipdeptreeLoad.PresenceBeatsTruthiness | app.py:223-225 | For every node without `"package"`, a present `"key"` gives the name even when it is empty and whatever the later aliases hold. A node with neither version alias stores None. |
| PipdeptreeLoad.LoadDepsKeysNormalized | app.py:217-230 | Every key of the loaded dependency map is a normalized name, which is what reading the report back needs. |
| PipdeptreeLoad.PackageSubObject | compare_sbom.py:24-28 | For every node with a `"package"` field, the entry is the one the sub-object alone gives, whatever other fields the node holds. The children come from the outer node's `"dependencies"`, and are walked only when that field is present and truthy. |
| TrivyLoad.FirstTruthy | compare_trivy_dep.py:31-32 | An `or` chain is truthy exactly when one of its operands is truthy. |
| TrivyLoad.OrChainsAreFirstTruthy | compare_trivy_dep.py:31-32 | The source's two `or` chains pick the first truthy alias. |
| TrivyLoad.ComponentRule | compare_trivy_dep.py:15-19 | A non-dict component raises AttributeError and a component with a falsy name or version is skipped. Every entry the rule does produce has a truthy version and a normalized name. |
| TrivyLoad.NodeRule | compare_trivy_dep.py:30-34 | A node is inserted exactly when its version is truthy. A node with neither name is stored as "unknown". Every stored key is normalized and every stored version is truthy. |
| TrivyLoad.LoadSbom | compare_trivy_dep.py:9-20 | A non-dict document raises AttributeError. A document without `"components"` loads as an empty map. Every stored version is truthy and every key is a normalized name, because of the `name and version` filter. |
| TrivyLoad.LoadSbomKeysAreKept | compare_trivy_dep.py:14-19 | The keys are exactly the normalized names of the components the filter keeps. |
| TrivyLoad.LoadSbomLastKeptWins | compare_trivy_dep.py:18-19 | A kept component's version is stored unless a later kept component has the same normalized name. |
| TrivyLoad.SkippedNodeStillRecurses | compare_trivy_dep.py:33-38 | A node without a version adds no entry, but its children are still walked before its later siblings. |
| TrivyLoad.LoadDeps | compare_trivy_dep.py:22-41 | A non-dict document raises AttributeError. A document without `"dependencies"` loads as an empty map. Otherwise loading equals assigning, in order, the pre-order entries of the walk started at that value. |
| TrivyLoad.LoadDepsStoresTruthyVersions | compare_trivy_dep.py:32-34 | Every version in the loaded map is truthy and every key is normalized. |
| Reconcile.SbomVersion | app.py:187 | `sbom.get(pkg)` is None exactly when the name is absent or stored with None. Any other result is the SBOM's own entry for the name. |
| Reconcile.MissingInIff | app.py:186-189 | A name is listed as missing exactly when it is a dependency and the SBOM has no version for it. |
| Reconcile.PresentInIff | app.py:190-191 | A name is listed as present exactly when it is a dependency and the SBOM has a version for it. |
| Reconcile.MismatchesInIff | compare_trivy_dep.py:55-56 | A triple is a mismatch exactly when the dependency version and the SBOM version are both in it and they differ. |
| Reconcile.ExactInIff | compare_sbom.py:49-50 | An entry is an exact match exactly when the SBOM holds the same, non-None version. |
| Reconcile.ClassifyCounts | app.py:186-195 | Every dependency lands in exactly one of missing, mismatches and exact. The present list is mismatches plus exact matches. |
| Reconcile.Classify | compare_trivy_dep.py:47-58 | The loop builds each of the four lists in dependency order, equal to its reference filter over the dependency entries. The three outcome lists together have one element per dependency, and the present list is as long as mismatches plus exact matches. |
| Reconcile.MismatchIffLookups | compare_trivy_dep.py:51-56 | A triple is a mismatch iff the dependency map gives the first version for the name and the SBOM lookup gives a different, non-`None` second version. |
| Reconcile.ExactIffLookups | compare_sbom.py:43-50 | A pair is an exact match iff both maps give the same non-`None` version for the name. |
| Report.SplitLines | app.py:199 | Text written line by line, each line ending in "\n", splits back into those lines and a final "". |
| Report.SplitJoin | compare_trivy_dep.py:62 | Lines joined with "\n" split back into the same lines. |
| Report.JoinOrIsJoinOrNone | compare_trivy_dep.py:62 | `"\n".join(ls) or "None"` prints "None" exactly when the list is empty. |
| Report.AppReportIsLines | app.py:197-205 | app.py's file is its layout written line by line: headers, blank separator lines, and each list or its placeholder line. |
| Report.AppReportSplits | app.py:197-205 | Split at newlines, app.py's file gives back its layout and a final "". |
| Report.TrivyReportIsJoin | compare_trivy_dep.py:60-67 | compare_trivy_dep.py's file is its layout joined with "\n", with a bare "None" standing for each empty list. |
| Report.TrivyReportSplits | compare_trivy_dep.py:60-67 | Split at newlines, compare_trivy_dep.py's file gives back exactly its layout. There is no trailing empty line. |
| Report.SbomReportSplits | compare_sbom.py:52-59 | compare_sbom.py's file is the title line followed by the same layout. |
| Report.DecodeKeysRoundTrip | app.py:198-201 | Read back, a missing or present section of app.py's file gives exactly the names listed, and none for the placeholder. |
| Report.AppPlaceholderIff | app.py:199 | A section shows the "- None" placeholder exactly when its list is empty. |
| PinConvert.SplitPin | dep_convert.py:40-43 | A key containing "==" splits at its first "==": the two parts rejoin to the key. A key without "==" becomes the package, with an empty version. |
| PinConvert.SplitPinUnique | dep_convert.py:41 | The split point is unique: it is the first "==", even when the version part contains more "==". |
| PinConvert.SplitPinExample | dep_convert.py:40-43 | "a==1==2" splits into "a" and "1==2". "flask" splits into "flask" and "". |
| PinConvert.ConvertField | dep_convert.py:45-50 | Each pin becomes a four-field record: package, version, "Any", and the children. The children are exactly the conversion of the value's items when it is a dict, and empty otherwise. |
| PinConvert.ConvertFields | dep_convert.py:36-51 | A dict becomes one record per item, in item order. |
| PinConvert.ConvertJson | dep_convert.py:53 | Conversion succeeds exactly when the loaded data is a dict, and keeps one record per top-level item. |
| PinConvert.FailedLoadConvertsToNothing | dep_convert.py:4-17 | A missing file or a JSON decode error loads as an empty dict, which converts to no records, so the written document is `{"dependencies": []}`. |
| PinConvert.ConvertAllAny | dep_convert.py:48-49 | Every record, at every depth, has `required_version` "Any". |
| PinConvert.ConvertKeepsCount | dep_convert.py:38-50 | Conversion keeps the number of nodes: one record per pin at every depth. |
| Pipeline.ConvertedNodeRule | compare_trivy_dep.py:31-34 | On a converted record, the trivy walk inserts the pin's package and version. An empty package becomes "unknown". An empty version inserts nothing. |
| Pipeline.ConvertedChildren | dep_convert.py:49 | A converted record's children are the conversion of the pin's sub-dict. |
| Pipeline.LoadConverted | dep_convert.py:53-56 | Loading dep_convert.py's output with compare_trivy_dep.py's `load_deps` assigns the pins' entries in pre-order over the original nested dict. |
| Pipeline.UnpinnedIsDropped | dep_convert.py:42-43 | A pin without "==" never reaches the comparison. |
| RepoArg.SplitRepo | git_repo.py:22-25 | An argument containing '@' splits at its first '@', and the parts rejoin to the argument. Without '@' the whole argument is the URL and the branch is "main". |
| RepoArg.SplitRepoUnique | git_repo.py:23 | The split point is unique: it is the first '@', so the branch may contain further '@'. |
| RepoArg.Basename | git_repo.py:27 | The basename is a suffix of the path without '/', and the whole path when it has no '/'. |
| RepoArg.BasenameAfterSlash | git_repo.py:27 | The basename is what follows the last '/'. |
| RepoArg.SplitExt | git_repo.py:27 | The stem and the extension rejoin to the name. The extension is empty, or a single '.' followed by no other '.'. A stem with an extension has a character other than '.'. |
| RepoArg.RepoNameStripsExtension | git_repo.py:27 | The clone directory is the URL's last segment without its last extension. |
| RepoArg.RepoNameKeepsLeadingDot | git_repo.py:27 | A last segment whose only dot leads it, such as ".git", is kept whole. |
| RepoArg.ParseRepoArg | git_repo.py:18-27 | A blank argument is rejected and every other argument is accepted. The URL and branch round-trip through '@', or default to "main". The directory is derived from the URL, and a checkout is planned exactly for a branch other than main or master, ignoring case. |
| RepoArg.NoCheckoutForMaster | git_repo.py:40 | "Master" counts as a default branch. |
| RepoArg.CheckoutForOtherBranch | git_repo.py:40 | The example branch "dev" is checked out. |
| RepoArg.CheckoutIgnoresCase | git_repo.py:40 | The checkout decision ignores letter case: a branch is checked out exactly when its lower-cased name is. |
| RepoArg.ParseExamples | git_repo.py:18-19 | The examples `""` and `"   "` are both rejected. |

## Left out

- File I/O, `json.load` / `json.dump` and the success messages are left out. Each loader takes the parsed document as a value, and each report is modelled as the text written to the file.
- Orchestration in main.py, and everything that runs tools, is left out. That covers pipdeptree, pipgrip, trivy, virtual environments, subprocesses and retries. None of it is part of the core.
- `git clone`, `os.path.exists`, `os.chdir` and `git checkout` in git_repo.py are left out. The model stops at the `Plan` these steps would carry out.
- Floating-point JSON numbers are left out: `Num` is an integer. Version comparison uses structural equality of values, which differs from Python only for non-string versions (`True == 1`, `1 == 1.0`, dict equality ignoring order).
- PyJson.Repr: strings inside list or dict versions are quoted but not escaped. This only matters for versions that are containers.
- Names.Lower: only ASCII letters are case-folded. Python's `str.lower()` also folds non-ASCII letters.
- RepoArg.ParseRepoArg: whitespace for the blank check covers only the ASCII whitespace characters and `\x1c`-`\x1f`. Python's `str.strip()` also strips Unicode spaces. The `isinstance(..., str)` check is implied by the argument's type.
- RepoArg.Basename: uses POSIX paths only ('/' as the separator), as `os.path` does on Linux.
- Report.AppReportSplits, Report.TrivyReportSplits and Report.SbomReportSplits assume that no name or shown version contains a newline. Otherwise a line count cannot be promised.
- compare_trivy_dep.py's `if pkg_name and pkg_ver` also tests the name. The name is never falsy there, because of the "unknown" default, so TrivyLoad.NodeRule keeps the test but no lemma depends on it.
- PyJson.Value: an `Obj` may list the same key twice, and `FindKey` then reads the first. Python's `json.load` keeps the last duplicate. Documents with duplicate keys are therefore not modelled faithfully.
- Flatten.Walk: Python raises `RecursionError` on a tree nested deeper than its recursion limit. The model has no depth limit, so it promises a result for trees the source cannot walk.
- main.py imports `convert_txt_to_json` from dep_convert.py, but dep_convert.py does not define it. That text-tree converter is not part of this model.
