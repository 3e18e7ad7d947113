# abbs-meta, modelled in Dafny

abbs-meta builds a package metadata catalog for the AOSC OS "abbs" source
trees. A tree is a Git repository that is mirrored into a Fossil repository.
Every package lives in a `section/directory` folder. That folder holds a
`spec` file (version and release) and one `defines` file per package built
from it (name, section, description, dependencies). Both files are small Bash
scripts that only assign variables. For every check-in of a tree, abbs-meta
reads the files that changed and keeps a set of SQLite tables up to date:
packages, versions per branch, spec variables, dependencies, packages found in
two places, and one message per package and check-in.

This project is a Dafny model of that core, one module per concern:

- `BashSyntax`, `Glob`, `BashEval`, `BashExt` (bashvar.py): the grammar of
  variable files and the evaluation of their values. This covers
  `${v:off:len}`, `${v/p/s}`, `${v//p/s}`, `${v#p}`, `${v##p}`, `${v%p}` and
  `${v%%p}`, with patterns treated as Bash globs. Files outside the grammar go
  to the fallback that runs `bash`.
- `Collections`: the order-preserving `uniq` and Python's insertion-ordered
  dictionary.
- `AbbsPackage`, `AbbsCommit`, `AbbsScan`, `AbbsRepo` (abbsmeta.py): the
  `Package`/`PackageGroup` objects, commit message parsing, the file-change
  listing, and `SourceRepo`. `SourceRepo` is a class whose catalog tables are
  fields of type `map`/`set`, updated by `update_package` and
  `scan_abbs_tree`.
- `FossilCodec`, `FossilDelta`, `FossilClearsign`, `FossilCache`,
  `FossilCards`, `FossilManifest` (fossil.py): card text escaping, Fossil's
  base-64 integers, delta application with its checksum, clear-signature
  removal, the LRU cache, and the parsing of structural artifacts (manifests).
- `SpecVars`, `IncreaseRel`, `CielUpdreq` (tools/increaserel.py,
  tools/ciel-updreq.py): the line-level spec readers and rewriters.
- `Anitya`, `AnityaConfig` (anitya.py): detecting links from packages to
  release-monitoring projects, and merging them with the hand-written links
  file.

The model does not cover the databases, the files, the `bash` process or the
clock. They appear as values and function parameters: tables as maps, a
check-in as its file list, branch tags and comment, and file contents as a
`read` function.

## Model

| member | source | states |
|---|---|---|
| BashSyntax.VarName | bashvar.py:21 | a variable name is a letter or `_` followed by the longest run of word characters |
| BashSyntax.CharsNotIn | bashvar.py:23 | a text run is the longest non-empty run free of the stop characters, and is absent exactly when the next character stops it |
| BashSyntax.Digits | bashvar.py:33 | `Word(nums)` reads the longest non-empty run of digits and gives its decimal value, and fails exactly when no digit comes next |
| BashSyntax.Integer | bashvar.py:19 | `integer`, when it matches, consumes at least one character |
| BashSyntax.Offset | bashvar.py:32-35 | the offset of a substring expansion, when it matches, consumes at least one character |
| BashSyntax.SubstText | bashvar.py:38-40 | an optional pattern or replacement is the longest run free of its stop characters, possibly empty, and exactly the text it consumes |
| BashSyntax.ParseOp | bashvar.py:31-45 | the operator part of `${name...}`, when it matches, consumes at least one character |
| BashSyntax.ParseToken | bashvar.py:67-70 | a `texttoken`, when it matches, consumes at least one character |
| BashSyntax.LineTail | bashvar.py:79-82 | a line ending at a newline resumes just after the first newline from where the tail starts; a line ending at the end of input has no newline left |
| BashSyntax.ParseLines | bashvar.py:85 | `ZeroOrMore(line)` stops at an index inside the input |
| BashSyntax.ParseExpansion | bashvar.py:25-48 | an expansion starts at `$` and always names a valid variable |
| BashSyntax.ExpansionForms | bashvar.py:25-48 | `$` followed by a name character always reads as the longest name (it ends at the end of the text or before a character that is not a letter, digit or `_`) with no operator; a `${...}` expansion ends at its closing brace |
| BashSyntax.DoubleInner | bashvar.py:55-65 | inside double quotes only text runs and expansions occur, and reading stops at the end of input or at a character that ends a double-quoted run |
| BashSyntax.ParseValue | bashvar.py:67-71 | a value is consumed up to the first place where no further token can start |
| BashSyntax.ParseAssign | bashvar.py:72-76 | an assignment carries a valid variable name, which is the text read, immediately followed by `=` |
| BashSyntax.ParseLine | bashvar.py:78-83 | a line ends just after a newline or at the end of input, and any assignment on it names a valid variable |
| BashSyntax.Parse | bashvar.py:168 | parsing succeeds exactly when nothing but trailing blanks follows the last line read, and every parsed assignment names a valid variable |
| BashSyntax.LinesNamed | bashvar.py:85 | every assignment among the parsed lines names a valid variable |
| Glob.Match | bashvar.py:98-111 | a glob match: every pattern character but `*` takes one character, so a match is at least that long, and a pattern without `*` matches only text of its own length; `Glob.LiteralMatch`, `Glob.StarsMatchAll` and `Glob.NonStarNeedsInput` state the rest |
| Glob.LiteralMatch | bashvar.py:98-111 | a pattern without `?` or `*` matches exactly itself |
| Glob.StarsMatchAll | bashvar.py:98-111 | a pattern of stars only matches every string |
| Glob.NonStarNeedsInput | bashvar.py:98-111 | a pattern with a non-star character does not match the empty string |
| Glob.TrimShortestPrefix | bashvar.py:144-149 | `${v#p}` removes the shortest matching prefix, and leaves `v` alone when no prefix matches |
| Glob.TrimLongestPrefix | bashvar.py:144-149 | `${v##p}` removes the longest matching prefix, and leaves `v` alone when no prefix matches |
| Glob.TrimShortestSuffix | bashvar.py:150-155 | `${v%p}` removes the shortest matching suffix, and leaves `v` alone when no suffix matches |
| Glob.TrimLongestSuffix | bashvar.py:150-155 | `${v%%p}` removes the longest matching suffix, and leaves `v` alone when no suffix matches |
| Glob.ShortestTrimKeepsMore | bashvar.py:144-155 | a longest trim never leaves more than the shortest trim of the same pattern |
| Glob.LiteralPrefixTrim | bashvar.py:144-149 | with a literal pattern, `#` and `##` agree and remove the pattern exactly when `v` starts with it |
| Glob.LongestAt | bashvar.py:98-111 | the end of the longest match starting at a position, or none when nothing matches there |
| Glob.FirstMatchFrom | bashvar.py:141-143 | the leftmost position from the scan's start where a match may start; right after an empty match, an empty match at that same position is refused, while after a non-empty match an empty one may follow directly |
| Glob.SubFirst | bashvar.py:141 | `${v/p/s}` replaces the leftmost-longest match, and leaves `v` alone when nothing matches |
| Glob.FirstMatchUnique | bashvar.py:141 | the leftmost-longest match is unique |
| Glob.SubAll | bashvar.py:143 | `${v//p/s}`: with no match, `v`; otherwise the leftmost match, taken as long as possible, is replaced first and the scan goes on from its end; with a literal pattern, `str.replace` |
| Glob.SubAllNoMatch | bashvar.py:143 | `${v//p/s}` leaves `v` alone when nothing matches |
| Glob.LiteralMatchesAt | bashvar.py:98-111 | a literal pattern matches exactly where it occurs, over its own length |
| Glob.LiteralFirstMatch | bashvar.py:141-143 | with a literal pattern, the first match is the first occurrence |
| Glob.LiteralSubFirst | bashvar.py:141 | with a literal pattern, `${v/p/s}` replaces the first occurrence |
| Glob.LiteralSubAll | bashvar.py:143 | with a literal pattern, `${v//p/s}` is the replacement of every occurrence (`str.replace`) |
| BashEval.SubstringOf | bashvar.py:126-136 | `${v:off}` and `${v:off:len}` as Python slices: never longer than `v` |
| BashEval.SubstringFrom | bashvar.py:136 | `${v:o}` with `0 <= o <= len(v)` is the suffix from `o` |
| BashEval.SubstringWithin | bashvar.py:131-132 | `${v:o:l}` inside `v` is exactly `l` characters from `o` |
| BashEval.SubstringFromEnd | bashvar.py:136 | `${v: -k}` is the last `k` characters |
| BashEval.SubstringNegativeLength | bashvar.py:133-134 | `${v:o:-l}` stops `l` characters before the end |
| BashEval.SubstringNegativeOffsetQuirk | bashvar.py:131-132 | a negative offset with a positive length slices to `offset+length`, so `${v: -2:2}` of `abcd` is empty |
| BashEval.SubstringExamples | bashvar.py:126-136 | the substring cases on a sample value |
| BashEval.TokenUndefined | bashvar.py:157-158 | a token's warnings name exactly the variables it expands that are not yet defined |
| BashEval.Undefined | bashvar.py:157-164 | a value's warnings name exactly the variables it expands that are not yet defined |
| BashEval.CombineValue | bashvar.py:113-165 | `combine_value` computes the value of a token sequence and the undefined variables it warns about |
| BashEval.ValueOfAppend | bashvar.py:159-164 | the value of concatenated tokens is the concatenation of their values |
| BashEval.Step | bashvar.py:170-175 | one assignment keeps the ordered dictionary well formed |
| BashEval.EvalLines | bashvar.py:167-176 | the literal evaluator always yields a well-formed ordered dictionary |
| BashEval.AssignedNames | bashvar.py:170-175 | the names the lines assign, exactly |
| BashEval.EvalParsed | bashvar.py:169-176 | the loop of `eval_bashvar_literal` computes the evaluated variables and the warnings |
| BashEval.EvalLiteral | bashvar.py:167-176 | a parse failure raises `ParseException`, and otherwise the result is the evaluated lines |
| BashEval.EvalLinesKeys | bashvar.py:169-176 | the variables come out in order of first assignment, each once |
| BashEval.EvalLinesUnassigned | bashvar.py:170-175 | lines that do not assign a name leave its value alone |
| BashEval.EvalLinesLastAssignment | bashvar.py:173-175 | a variable's value is its last assignment, evaluated against the variables before it |
| BashExt.VariableName | bashvar.py:188-190 | a line counts as an assignment only with a valid name before `=`, after leading blanks |
| BashExt.VariableNameOf | bashvar.py:14 | `blanks NAME=...` is recognised as an assignment of `NAME` |
| BashExt.Assigned | bashvar.py:187-190 | at most one name per line, each a valid name |
| BashExt.ExtNames | bashvar.py:193 | the variables to echo carry no duplicates |
| BashExt.EchoLines | bashvar.py:194-196 | one `echo` line per variable, in order |
| BashExt.Script | bashvar.py:185-196 | the script fed to `bash` starts with the file itself and a newline |
| BashExt.BuildScript | bashvar.py:185-196 | the loop building the script yields the variable list and the script |
| BashExt.ScriptJoin | bashvar.py:187-192 | joining the kept-end lines gives back the file, then the newline and the echoes |
| BashExt.OutputValues | bashvar.py:205 | one value per output line |
| BashExt.ZipDict | bashvar.py:208 | `zip` pairs names with values as far as the shorter one goes |
| BashExt.ZipDictValues | bashvar.py:208 | each paired name holds its own value |
| BashExt.BashMessage | bashvar.py:202-207 | there is a message when `bash` wrote to stderr (stripped), and otherwise exactly when the count of values is wrong |
| BashExt.EvalExt | bashvar.py:183-208 | `eval_bashvar_ext`'s result only holds names assigned in the file |
| BashExt.EscapeRoundTrip | bashvar.py:196 | escaping newlines as `\n` and reading them back gives the value, when it has no backslash |
| BashExt.EscapeChars | bashvar.py:196 | an escaped value holds no newline |
| BashExt.ExtRoundTrip | bashvar.py:183-208 | when `bash` prints each value escaped, the fallback returns exactly the file's variables and values, without a message |
| BashExt.ReadBashvar | bashvar.py:228-230 | `read_bashvar` yields a well-formed ordered dictionary |
| BashExt.EvalBashvar | bashvar.py:210-226 | a parseable file is evaluated literally with no bash message, and any other file goes to the bash fallback |
| Collections.Uniq | bashvar.py:178-181 | `uniq` keeps each element once and loses none |
| Collections.UniqPrefix | abbsmeta.py:32-35 | `uniq` of a longer list extends `uniq` of its prefix, so first occurrences keep their order |
| Collections.UniqOfNoDup | abbsmeta.py:32-35 | a list without duplicates is its own `uniq` |
| Collections.UniqIdempotent | abbsmeta.py:32-35 | `uniq` is idempotent |
| AbbsPackage.SplitSecpath | abbsmeta.py:42-45 | a `core-`/`base-`/`extra-` prefix gives the category and the rest is the section; otherwise there is no category and the section is the whole path |
| AbbsPackage.SecpathRoundTrip | abbsmeta.py:508-511 | the secpath rebuilt from a category and section (as `scan_abbs_tree` does) is the original |
| AbbsPackage.SecpathOfRow | abbsmeta.py:508-511 | splitting a rebuilt secpath gives back the category and the section |
| AbbsPackage.RelationshipsDistinct | abbsmeta.py:84-85 | the eight relationship variables are distinct |
| AbbsPackage.SplitPackageName | abbsmeta.py:87 | a dependency token splits into the longest package-name prefix and the version rest, and fails exactly when it does not start with a name character |
| AbbsPackage.TokenDeps | abbsmeta.py:86-88 | one dependency row per token, name and version together giving back the token; any bad token raises `AttributeError` |
| AbbsPackage.TokenDepsRows | abbsmeta.py:84-86 | row i is the package, the longest package-name prefix of token i and the rest of it, and the relationship |
| AbbsPackage.DepsOf | abbsmeta.py:83-88 | every dependency row belongs to the package and to one of the relationships |
| AbbsPackage.DepsOfRows | abbsmeta.py:83-86 | the dependency rows are each relationship variable's token rows, relationship after relationship in order |
| AbbsPackage.DepsOfFails | abbsmeta.py:83-88 | the dependencies fail exactly when some relationship has a bad token |
| AbbsPackage.TokenRows | abbsmeta.py:86-88 | the token loop computes the rows of one relationship |
| AbbsPackage.DepsOfErrPrefix | abbsmeta.py:84-88 | a failure in an earlier relationship fails the whole |
| AbbsPackage.CollectDeps | abbsmeta.py:83-89 | the relationship loop computes the dependencies and pops every relationship variable |
| AbbsPackage.PopHeader | abbsmeta.py:80-82 | `PKGSEC`, `PKGDES` and `PKGEPOCH` are read from the variables |
| AbbsPackage.ApplyDefines | abbsmeta.py:72-89 | a `defines` file leaves a well-formed spec, or raises `AttributeError` |
| AbbsPackage.Define | abbsmeta.py:72-89 | the computation of `load_defines` |
| AbbsPackage.DefinesNamed | abbsmeta.py:72-89 | with `PKGNAME` set, the package takes it and the header fields, its spec loses the reserved and relationship variables, and its dependencies are its own, without duplicates |
| AbbsPackage.DefinesDeps | abbsmeta.py:71-88 | with `PKGNAME` set, the dependencies are `uniq` of the token rows of the relationship variables, read from the merged variables less `PKGNAME`, `PKGSEC`, `PKGDES` and `PKGEPOCH` |
| AbbsPackage.DefinesUnnamed | abbsmeta.py:73-78 | without `PKGNAME` (or with it empty), only the spec is updated, `PKGNAME` popped |
| AbbsPackage.Package.constructor | abbsmeta.py:38-54 | a new package splits its secpath and starts with empty fields |
| AbbsPackage.Package.LoadDefines | abbsmeta.py:72-89 | `load_defines` updates the object's spec and package fields as the file says, keeping version, release and time |
| AbbsPackage.Package.Take | abbsmeta.py:79-89 | the field assignments of `load_defines` |
| AbbsPackage.PackageGroup.constructor | abbsmeta.py:92-104 | a group is named after its directory unless a name is given |
| AbbsPackage.PackageGroup.LoadSpec | abbsmeta.py:66-70 | `load_spec` merges the variables and pops `VER` and `REL` into version and release |
| AbbsPackage.PackageGroup.MakePackage | abbsmeta.py:116-123 | `package()` gives a fresh package carrying the group's location, version, release, time and spec, updated by the `defines` file |
| AbbsCommit.FirstLine | abbsmeta.py:22 | the first line, up to the first newline |
| AbbsCommit.TrailingQuotes | abbsmeta.py:23 | the run of `"` at the end of a line |
| AbbsCommit.LazyQuoted | abbsmeta.py:23 | the lazy `(.+?)"+$` leaves all trailing quotes out of the message |
| AbbsCommit.RevertMatch | abbsmeta.py:23 | `^(?:Revert ")+(.+?)"+$` only matches text that starts `Revert "`, and yields a non-empty single line |
| AbbsCommit.RevertUnwrap | abbsmeta.py:128-130 | any number of `Revert "` wrappers around a message are removed, whatever the number of closing quotes |
| AbbsCommit.RevertOuter | abbsmeta.py:23 | one more `Revert "` wrapper changes nothing |
| AbbsCommit.RevertInnermost | abbsmeta.py:23 | a single wrapper around a message yields the message |
| AbbsCommit.NoDeeperRevert | abbsmeta.py:23 | a message that does not start `Revert ` offers no further wrapper |
| AbbsCommit.QuotedMessage | abbsmeta.py:23 | the trailing quotes of a message are left out |
| AbbsCommit.QuotesAfter | abbsmeta.py:23 | a message followed by `e` quotes ends in exactly `e` quotes |
| AbbsCommit.MsgAfter | abbsmeta.py:22 | the message after the scope is the non-empty rest after `]`, `:` and the space |
| AbbsCommit.ScopeMatch | abbsmeta.py:22 | the scope found is part of the line and the message is non-empty |
| AbbsCommit.CommitMsgMatch | abbsmeta.py:131 | `re_commitmsg.match` finds a scope within the text |
| AbbsCommit.LineMatch | abbsmeta.py:22 | the scope found on a line is part of it |
| AbbsCommit.ParseCommitMsg | abbsmeta.py:125-135 | there is no message exactly for merge commits |
| AbbsCommit.RevertedMessage | abbsmeta.py:128-135 | a reverted message is attributed as the message itself would be |
| AbbsCommit.MsgAfterScope | abbsmeta.py:22 | `[scope]: msg` and `scope: msg` yield `msg` |
| AbbsCommit.ScopedMatch | abbsmeta.py:22 | `[scope]: msg` and `scope: msg` match with that scope and message |
| AbbsCommit.ScopedMessage | abbsmeta.py:131-134 | a scoped message whose scope names the package yields only the message |
| AbbsCommit.UnscopedMessage | abbsmeta.py:125-135 | a text that does not mention the package is kept whole |
| AbbsScan.PathJoin | abbsmeta.py:367 | `os.path.join` of two parts: an absolute second part wins, otherwise one `/` between them |
| AbbsScan.PathSplit | abbsmeta.py:385 | `os.path.split`: the file part holds no `/`, and the directory part is a prefix of the path |
| AbbsScan.SplitJoin | abbsmeta.py:385-389 | splitting a joined directory and file gives them back |
| AbbsScan.Lookup | abbsmeta.py:295 | a path is found exactly when the file list has it |
| AbbsScan.ExistsListed | abbsmeta.py:335-344 | `exists` is true exactly when a listed file is the path or, for a directory, lies under it |
| AbbsScan.ExistsNotLink | abbsmeta.py:335-344 | with `ignorelink`, `exists` is true exactly when the path is listed and is not a symlink |
| AbbsScan.Exists | abbsmeta.py:335-344 | the loop of `exists` |
| AbbsScan.LinkChanges | abbsmeta.py:315-324 | one change row gives one or two changes, each `+` or `-` with the link bit; the last names the file and is `+` exactly when the file still exists |
| AbbsScan.LinksChanges | abbsmeta.py:309-325 | between one and two changes per changed file, each `+` or `-` |
| AbbsScan.FullChanges | abbsmeta.py:304-308 | in full mode every listed file is a `+` change, with its link bit |
| AbbsScan.LinksChangesCover | abbsmeta.py:315-324 | each change row's deletion, rename or addition is in the list |
| AbbsScan.FileChanges | abbsmeta.py:302-325 | `file_change` lists the full or the incremental changes |
| AbbsScan.Configured | abbsmeta.py:352 | the configured branches the commit is tagged with, in configured order |
| AbbsScan.BranchesOfCommit | abbsmeta.py:346-353 | the commit's branches: all its tags when no branches are configured, else the configured ones it carries |
| AbbsScan.TopTwo | abbsmeta.py:359-362 | the first two path components of a path with at least three |
| AbbsScan.Classify | abbsmeta.py:359-371 | a change gives a work item only below a non-ignored top directory, and the item is `+` exactly when the location's spec file exists and is not a link |
| AbbsScan.Locations | abbsmeta.py:364 | the locations already yielded |
| AbbsScan.UpdatesFrom | abbsmeta.py:355-373 | every work item comes from some change |
| AbbsScan.UpdatesDistinct | abbsmeta.py:364-373 | no location is yielded twice |
| AbbsScan.UpdatesStatus | abbsmeta.py:364-371 | no item is in an ignored directory, and an item is `+` exactly when its spec file exists and is not a link |
| AbbsScan.NextItem | abbsmeta.py:359-371 | one change adds its classified work item exactly when its location is not yet yielded |
| AbbsScan.LocationsGrow | abbsmeta.py:373 | locations once yielded stay yielded |
| AbbsScan.UpdatesCover | abbsmeta.py:355-373 | every change that classifies has its location yielded |
| AbbsScan.ListUpdate | abbsmeta.py:355-373 | the loop of `list_update` yields the work items |
| AbbsRepo.RowOf | abbsmeta.py:433-437 | the `packages` row records this tree and the package's location |
| AbbsRepo.DuplicatePair | abbsmeta.py:408-415 | both the new and the existing location are recorded as duplicates of the name |
| AbbsRepo.WithVersions | abbsmeta.py:438-443 | a version row for the package on each branch, and the other rows kept |
| AbbsRepo.DropSpec | abbsmeta.py:480-481 | exactly the package's spec rows are deleted |
| AbbsRepo.DropDeps | abbsmeta.py:482-483 | exactly the package's dependency rows are deleted |
| AbbsRepo.ReplaceSpec | abbsmeta.py:445-448 | the package's spec rows are exactly its spec variables |
| AbbsRepo.LastVersionOf | abbsmeta.py:451-452 | with `REPLACE`, the last row of a key gives its version |
| AbbsRepo.WriteDeps | abbsmeta.py:451-452 | `executemany REPLACE`: each key written holds its last version, the rest are kept |
| AbbsRepo.OwnRows | abbsmeta.py:88 | a package's dependency rows are keyed by its own name |
| AbbsRepo.ReplaceSpecTwice | abbsmeta.py:445-448 | rewriting the spec rows is idempotent |
| AbbsRepo.WriteDepsTwice | abbsmeta.py:449-452 | rewriting the dependency rows is idempotent |
| AbbsRepo.InsertSpec | abbsmeta.py:446-448 | the insertion loop writes the spec rows |
| AbbsRepo.InsertDeps | abbsmeta.py:451-452 | the insertion loop writes the dependency rows |
| AbbsRepo.RewriteMain | abbsmeta.py:444-452 | on the main branch the spec and dependency rows are replaced |
| AbbsRepo.WriteBranches | abbsmeta.py:438-452 | the branch loop writes version rows, and spec and dependency rows when the main branch is among them |
| AbbsRepo.DropVersions | abbsmeta.py:469-471 | the package's versions on the given branches are deleted |
| AbbsRepo.Pruned | abbsmeta.py:520-524 | pruning only removes duplicate rows |
| AbbsRepo.PrunedNoSingles | abbsmeta.py:520-524 | after pruning no package has a single duplicate row, and every package with two or more keeps them |
| AbbsRepo.LoadedGroup | abbsmeta.py:380-382 | the group after `load_spec`: version and release from the spec, which no longer holds them, and the spec file's time |
| AbbsRepo.InfoOf | abbsmeta.py:116-123 | a package made by the group keeps its location, version, release and time, and fails exactly when its `defines` fails |
| AbbsRepo.DefinesInfos | abbsmeta.py:383-392 | every package read is of the group's directory; failures are `KeyError` or `AttributeError` |
| AbbsRepo.PackageInfos | abbsmeta.py:375-392 | every package read lies at the group's location |
| AbbsRepo.DefinesInfosLocated | abbsmeta.py:383-392 | every package read keeps the group's category and section |
| AbbsRepo.LoadGroup | abbsmeta.py:380-382 | a fresh group loaded from the spec file |
| AbbsRepo.PackageOf | abbsmeta.py:390 | `pkggroup.package(defines)` read back as the fields the catalog uses |
| AbbsRepo.ReadDefines | abbsmeta.py:383-392 | the file loop of `read_package_info` |
| AbbsRepo.ReadDefine | abbsmeta.py:384-391 | one step of that loop |
| AbbsRepo.ReadPackageInfo | abbsmeta.py:375-392 | `read_package_info` computes the packages of a location, or the error |
| AbbsRepo.DefinesInfosErr | abbsmeta.py:383-392 | the first error stops the loop |
| AbbsRepo.WriteKeepsIntegrity | abbsmeta.py:227-244 | writing a package keeps every version, spec and dependency row pointing at a listed package |
| AbbsRepo.OverwriteRows | abbsmeta.py:418-452 | a package of this tree overwrites its row, records a move as a duplicate, and writes its versions, spec and dependencies, keeping the foreign keys |
| AbbsRepo.RemoveRows | abbsmeta.py:469-484 | a package loses its versions on the branches, and all its rows once no version is left, keeping the foreign keys |
| AbbsRepo.UpdatedElsewhere | abbsmeta.py:401-417 | a name held by another tree only gets both locations recorded as duplicates |
| AbbsRepo.Updated | abbsmeta.py:394-453 | `update_package` leaves `package_rel` alone, keeps every package row, and leaves one for the package |
| AbbsRepo.UpdatedRow | abbsmeta.py:418-437 | otherwise the name's row is this tree's, other rows are unchanged, and a move records both locations |
| AbbsRepo.UpdatedVersions | abbsmeta.py:438-452 | the version rows on the commit's branches are the package's; spec rows follow the spec on the main branch only |
| AbbsRepo.UpdatedSound | abbsmeta.py:394-453 | `update_package` keeps the foreign keys |
| AbbsRepo.UpdatedAll | abbsmeta.py:496-497 | updating packages leaves `package_rel` alone |
| AbbsRepo.UpdatedAllRows | abbsmeta.py:496-497 | after updating, every package read is listed, other trees' rows are untouched, and new rows are this tree's |
| AbbsRepo.UpdatedAllSound | abbsmeta.py:496-497 | updating many packages keeps the foreign keys |
| AbbsRepo.Message | abbsmeta.py:498-502 | only a non-empty message is stored |
| AbbsRepo.RelsOf | abbsmeta.py:498-506 | `package_rel` gains a row for each package read with a message, and keeps the rows of other revisions |
| AbbsRepo.Written | abbsmeta.py:496-506 | writing the packages only adds `package_rel` rows of this revision |
| AbbsRepo.UpdatedRels | abbsmeta.py:394-453 | `update_package` does not depend on `package_rel` |
| AbbsRepo.WrittenStep | abbsmeta.py:496-506 | one package of the loop: its update, then its message row |
| AbbsRepo.Remaining | abbsmeta.py:469-471 | the versions left when the touched packages lose the commit's branches |
| AbbsRepo.Gone | abbsmeta.py:472-474 | the touched packages without any version left |
| AbbsRepo.Removed | abbsmeta.py:463-484 | the removal leaves `package_rel` alone, and a package row stays exactly when its name was not touched or still has a version |
| AbbsRepo.RemovedRules | abbsmeta.py:463-484 | at a touched location, packages lose those versions; a package without versions loses its row, spec, dependencies and duplicate row there, and all else stays |
| AbbsRepo.RemovedNone | abbsmeta.py:463-484 | no touched package, no change |
| AbbsRepo.RemainingStep | abbsmeta.py:469-471 | removing one more package's versions |
| AbbsRepo.GoneStep | abbsmeta.py:472-474 | one more package is gone exactly when it has no version left |
| AbbsRepo.DropGoneStep | abbsmeta.py:475-484 | deleting one more gone package's rows |
| AbbsRepo.RemovedStep | abbsmeta.py:463-488 | the removal of a set of packages is their removal one at a time, in any order |
| AbbsRepo.ScannedItem | abbsmeta.py:462-506 | a work item fails only when it is `+` and its files cannot be read, and only adds `package_rel` rows of this revision |
| AbbsRepo.ItemsScanned | abbsmeta.py:462-506 | the work items together only add `package_rel` rows of this revision |
| AbbsRepo.MadeUpAt | abbsmeta.py:515-519 | the make-up pass leaves `package_rel` alone |
| AbbsRepo.MadeUp | abbsmeta.py:507-519 | the make-up pass over locations leaves `package_rel` alone |
| AbbsRepo.SourceRepo.constructor | abbsmeta.py:138-154 | a repository starts with empty tables |
| AbbsRepo.SourceRepo.Open | abbsmeta.py:141-151 | a tree name with `/`, or configured branches without the main branch, raise `ValueError` |
| AbbsRepo.SourceRepo.UpdatePackage | abbsmeta.py:394-453 | `update_package` changes the tables as `Updated` says, on the commit's branches |
| AbbsRepo.SourceRepo.Overwrite | abbsmeta.py:418-452 | the part after the other-tree test changes each table as stated |
| AbbsRepo.SourceRepo.RemoveStale | abbsmeta.py:468-488 | a touched package loses its versions, and all its rows once none is left |
| AbbsRepo.SourceRepo.ClearLocation | abbsmeta.py:489-494 | the duplicate rows of this tree at the location are deleted |
| AbbsRepo.SourceRepo.Prune | abbsmeta.py:520-524 | afterwards no package has a single duplicate row |
| AbbsRepo.SourceRepo.WritePackages | abbsmeta.py:496-506 | the packages are written and their messages recorded |
| AbbsRepo.SourceRepo.RemoveTouched | abbsmeta.py:463-488 | the packages of this tree at a location are removed as `Removed` says |
| AbbsRepo.SourceRepo.ScanItem | abbsmeta.py:462-506 | one work item of `scan_abbs_tree` |
| AbbsRepo.SourceRepo.MakeUpAt | abbsmeta.py:515-519 | one orphaned location is handled as `MadeUpAt` states, and `package_rel` is left alone |
| AbbsRepo.SourceRepo.MakeUp | abbsmeta.py:507-519 | the orphaned duplicate locations are read again, each once and in some order, all of them unless one raises; `package_rel` is left alone |
| AbbsRepo.SourceRepo.ScanAbbsTree | abbsmeta.py:455-524 | a processed revision changes nothing; otherwise the items, make-up and pruning run in turn, only this revision's `package_rel` rows are added, and no single duplicate row survives |
| FossilCodec.UnsignedToSigned | fossil.py:12 | the value or the value less 2^32 |
| FossilCodec.UnsignedToSignedRange | fossil.py:12 | a 32-bit unsigned value becomes the signed value with the same bits |
| FossilCodec.SignedRoundTrip | fossil.py:12 | every signed 32-bit value comes back from its unsigned form |
| FossilCodec.Subst | fossil.py:14 | replacing a character removes it unless the replacement brings it back |
| FossilCodec.ReplaceOneChar | fossil.py:14 | `str.replace` of one character is the character-wise substitution |
| FossilCodec.SubstAppend | fossil.py:14 | substitution distributes over concatenation |
| FossilCodec.Escaped | fossil.py:14 | escaped card text holds no space and no newline |
| FossilCodec.EscapeStepsChars | fossil.py:14 | the three replacements of `text_escape` escape each character on its own |
| FossilCodec.TextEscape | fossil.py:14 | `text_escape` escapes each character on its own: `\` as `\\`, a space as `\s`, a newline as `\n` |
| FossilCodec.TextUnescape | fossil.py:15 | `text_unescape` leaves text without a backslash unchanged; `FossilCodec.UnescapeEscape` and `FossilCodec.UnescapeEscapeBackslash` state the round trip and where it fails |
| FossilCodec.EscapeNoBlanks | fossil.py:14 | `text_escape` leaves no space or newline, so a card token stays one token |
| FossilCodec.UnescapeSpaces | fossil.py:15 | the first replacement of `text_unescape` restores spaces |
| FossilCodec.UnescapeNewlines | fossil.py:15 | the second restores newlines |
| FossilCodec.UnescapeEscape | fossil.py:14-15 | `text_unescape(text_escape(s)) == s` for text without a backslash |
| FossilCodec.UnescapeEscapeBackslash | fossil.py:14-15 | with a backslash the round trip fails: `\s` comes back as `\ ` |
| FossilCodec.ZValue | fossil.py:43-52 | a byte's digit value is in 0..63, or -1 for a non-digit |
| FossilCodec.ZValueOfDigit | fossil.py:21 | each encoding digit reads back as its own value |
| FossilCodec.ReadDigits | fossil.py:34-38 | reading digits never moves backwards or past the end |
| FossilCodec.GetInt | fossil.py:31-41 | `base64_getint` fails exactly past the end of the buffer, and otherwise gives a non-negative value and a position in range |
| FossilCodec.ReadDigitsStops | fossil.py:34-38 | the digits read are a maximal run |
| FossilCodec.GetIntReadsRun | fossil.py:31-41 | `base64_getint` consumes exactly the run of digits at the position |
| FossilCodec.Base64GetInt | fossil.py:31-41 | the loop of `base64_getint` |
| FossilCodec.ReadRun | fossil.py:34-38 | a maximal run is read as its value |
| FossilCodec.ReadRunPrefix | fossil.py:34-38 | reading continues from the value of the digits already read |
| FossilCodec.RunValuePrefix | fossil.py:34-38 | the value of a run ignores what follows it |
| FossilCodec.PutDigits | fossil.py:24-27 | `base64_putint` writes only encoding digits |
| FossilCodec.PutInt | fossil.py:20-28 | `base64_putint` writes encoding digits only, and nothing exactly for a negative number |
| FossilCodec.Base64PutInt | fossil.py:20-28 | the loop of `base64_putint`: `0` for zero, else the digits least significant first |
| FossilCodec.PutIntOneDigit | fossil.py:20-41 | below 64 a number reads back from its encoding |
| FossilCodec.PutIntMisreads | fossil.py:20-41 | 64 is written `01`, which reads back as 1 |
| FossilCodec.MsbDigits | fossil.py:20-28 | the digits most significant first are non-empty encoding digits |
| FossilCodec.MsbDigitsValue | fossil.py:31-41 | digits written most significant first read back as the number |
| FossilCodec.PutIntMsbRoundTrip | fossil.py:31-41 | any number written most significant first reads back, with its length, whatever non-digit follows |
| FossilCodec.PutDigitsReversed | fossil.py:24-27 | `base64_putint` writes the digits in reverse order |
| FossilCodec.ReversedAppend | fossil.py:24-27 | reversing a concatenation reverses the order of its parts |
| FossilDelta.Padded | fossil.py:67-68 | the buffer padded with 1 to 4 zero bytes to a multiple of four |
| FossilDelta.DeltaChecksum | fossil.py:62-69 | the checksum is a 32-bit unsigned value |
| FossilDelta.WordSumAppend | fossil.py:62-69 | the word sum of aligned parts adds up |
| FossilDelta.PaddedAppend | fossil.py:67-68 | padding an aligned prefix leaves it in place |
| FossilDelta.DeltaChecksumAppend | fossil.py:62-69 | the checksum of an aligned prefix and a rest is their sum modulo 2^32 |
| FossilDelta.DeltaStep | fossil.py:79-80 | reading a command always moves past the number it starts with |
| FossilDelta.Command | fossil.py:81-94 | a command that does not stop the loop moves past its command byte |
| FossilDelta.StepAppends | fossil.py:81-94 | a copy or insert only appends to the output, and `;` returns the output unchanged |
| FossilDelta.OpsAppend | fossil.py:78-96 | the command loop only appends to the output it starts with |
| FossilDelta.DeltaApply | fossil.py:72-104 | a delta applied successfully has the size its header states |
| FossilDelta.ApplyDelta | fossil.py:72-104 | the loop of `delta_apply` |
| FossilDelta.NumAt | fossil.py:31-41 | a number written into a delta reads back where it stands |
| FossilDelta.OpsInsert | fossil.py:86-89 | an insert command appends its literal bytes |
| FossilDelta.OpsCopy | fossil.py:81-85 | a copy command appends the slice of the source |
| FossilDelta.OpsEnd | fossil.py:90-92 | the `;` command ends the loop with its checksum |
| FossilDelta.ApplyOk | fossil.py:97-104 | the right size and, when checked, the right checksum give the output |
| FossilDelta.InsertOps | fossil.py:78-92 | an insert then end gives the literal |
| FossilDelta.InsertApplies | fossil.py:72-104 | a one-insert delta gives its literal |
| FossilDelta.CopyApplies | fossil.py:72-104 | a one-copy delta gives the slice of the source, and fails when the slice runs past the source |
| FossilDelta.InsertDeltaHeader | fossil.py:76 | a generated delta's header reads back |
| FossilDelta.InsertDeltaCommand | fossil.py:79-89 | a generated insert command reads back |
| FossilDelta.InsertDeltaClose | fossil.py:90-92 | a generated end command reads back |
| FossilDelta.InsertDeltaApplies | fossil.py:72-104 | any content is recovered from the insert delta that carries it, checksum checked or not |
| FossilDelta.CopyDeltaHeader | fossil.py:76 | a generated copy delta's header reads back |
| FossilDelta.CopyDeltaCommand | fossil.py:79-81 | a generated copy command reads back |
| FossilDelta.CopyDeltaOffset | fossil.py:83-84 | a generated copy offset reads back |
| FossilDelta.CopyDeltaClose | fossil.py:90-92 | a generated end command reads back |
| FossilDelta.CopyDeltaApplies | fossil.py:72-104 | a copy delta gives the slice of the source it names, and fails when the slice runs past the source |
| FossilClearsign.RStripBytes | fossil.py:115 | stripping never lengthens |
| FossilClearsign.RStripBytesSpec | fossil.py:115 | `rstrip` removes exactly the trailing whitespace |
| FossilClearsign.RemoveClearsign | fossil.py:107-124 | a blob without the clear-sign header comes back unchanged; `FossilClearsign.RemoveClearsignKeeps` and `FossilClearsign.RemoveClearsignRoundTrip` state what a signed one gives |
| FossilClearsign.RemoveClearsignLoop | fossil.py:107-124 | the loop of `remove_clearsign` |
| FossilClearsign.ClearsignedPreamble | fossil.py:114-116 | everything up to the first blank line is skipped |
| FossilClearsign.ClearsignedBody | fossil.py:117-123 | after it, lines are kept undashed up to the signature line |
| FossilClearsign.RemoveClearsignKeeps | fossil.py:107-124 | a signed blob gives the undashed lines between the first blank line and the signature |
| FossilClearsign.HeaderLines | fossil.py:108-109 | the message header is not a signature line, the signature header is |
| FossilClearsign.EscapedLine | fossil.py:120-121 | a dash-escaped line is kept as the original line |
| FossilClearsign.ClearSignedLines | fossil.py:114 | the lines of a clear-signed text are its parts' lines |
| FossilClearsign.SignedLinesAt | fossil.py:114 | where header, armor, blank line, message and signature sit |
| FossilClearsign.PreambleLines | fossil.py:115-116 | no armor line is blank |
| FossilClearsign.BodyLines | fossil.py:117-123 | every message line is kept and none is the signature |
| FossilClearsign.PreambleSkipped | fossil.py:114-116 | the preamble is skipped |
| FossilClearsign.MessageKept | fossil.py:121-123 | the kept lines concatenate to the message |
| FossilClearsign.ClearsignedMessage | fossil.py:114-124 | a signed layout gives back the message |
| FossilClearsign.ClearSignedHeader | fossil.py:108-110 | a clear-signed text starts with the header |
| FossilClearsign.SignedLinesMessage | fossil.py:114-124 | the signed lines give back the message |
| FossilClearsign.RemoveClearsignRoundTrip | fossil.py:107-124 | removing the signature from a clear-signed message gives the message back |
| FossilCache.Touch | fossil.py:133-134 | a read key moves to the most recent end, and nothing else changes |
| FossilCache.TouchRecent | fossil.py:133-134 | reading the most recent key changes nothing |
| FossilCache.Store | fossil.py:145-152 | storing keeps the cache within capacity, puts the key last with its value, evicts only the oldest key and only for a new key in a full cache, does nothing at capacity 0, and fails only on an empty cache with negative capacity |
| FossilCache.Moved | fossil.py:147-152 | an existing key takes its new value and moves last |
| FossilCache.Evicted | fossil.py:150-152 | the oldest key goes and the new key comes last |
| FossilCache.LRUCache.constructor | fossil.py:128-130 | a new cache is empty |
| FossilCache.LRUCache.GetItem | fossil.py:132-135 | `cache[key]` returns the value and marks it most recent, or raises `KeyError` and changes nothing |
| FossilCache.LRUCache.Get | fossil.py:137-143 | `get` returns the value and marks it most recent, or the default |
| FossilCache.LRUCache.SetItem | fossil.py:145-152 | `cache[key] = value` stores as `Store` states |
| FossilCards.Filed | fossil.py:226-232 | a multi card is appended to its list, any other card replaces its value, and other cards stay |
| FossilCards.FileAll | fossil.py:206-233 | filing keeps the card dictionary well formed |
| FossilCards.FiledValues | fossil.py:226-230 | filing one card extends only its own list |
| FossilCards.FileAllMulti | fossil.py:226-230 | a multi card collects all its values, in order |
| FossilCards.FileAllSingle | fossil.py:231-232 | a single card holds its last value |
| FossilManifest.CardLettersOnto | fossil.py:171-191 | every card letter's name maps back to the letter |
| FossilManifest.CardLettersBack | fossil.py:191 | every card name's letter maps back to the name |
| FossilManifest.CardLetter | fossil.py:241-242 | a card name gives the letter whose name it is |
| FossilManifest.LineEnd | fossil.py:205 | `readline`: the line runs to just after the first newline, or to the end |
| FossilManifest.ReadEnd | fossil.py:223 | `read(size+1)` stops at the end of the buffer |
| FossilManifest.Words | fossil.py:207 | splitting a line on spaces gives at least one word |
| FossilManifest.Unescaped | fossil.py:209 | each token is unescaped |
| FossilManifest.CardOf | fossil.py:208-225 | an unknown card raises `ValueError`; only a `W` card reads past its line |
| FossilManifest.ReadCard | fossil.py:207-225 | a card's letter is its first word, and only `W` reads further |
| FossilManifest.WikiWords | fossil.py:207 | a `W size` line splits into the letter and the size |
| FossilManifest.WikiTokens | fossil.py:221-223 | a `W` card reads `size+1` bytes of text |
| FossilManifest.WikiCard | fossil.py:221-223 | a `W size` line takes the next `size+1` bytes as the wiki text |
| FossilManifest.EmptyLineCard | fossil.py:207-209 | an empty line counts as an empty tuple card named `""` |
| FossilManifest.Lookup | fossil.py:238-244 | as written: when the upper-case key is present, the key is then looked up as given |
| FossilManifest.LookupMissesLowerCase | fossil.py:238-240 | as written, `artifact['f']` raises `KeyError` though `F` cards exist |
| FossilManifest.LookupUpper | fossil.py:238-244 | the card under the upper-case key, else the card of the named type, else `KeyError` |
| FossilManifest.LookupUpperCase | fossil.py:238-240 | the corrected lookup gives the same card for a key in either case, and agrees with the written one on upper-case keys |
| FossilManifest.StructuralArtifact.constructor | fossil.py:194-196 | a new artifact has no cards |
| FossilManifest.StructuralArtifact.Open | fossil.py:194-197 | constructing parses: the cards of the unsigned blob, or the parse error |
| FossilManifest.StructuralArtifact.Parse | fossil.py:203-233 | `parse` files every card read from the unsigned blob, and stops at the first error |
| FossilManifest.StructuralArtifact.Keys | fossil.py:235-236 | `keys()` are exactly the cards present |
| FossilManifest.StructuralArtifact.GetItem | fossil.py:238-244 | corrected (see ## Findings): `artifact[key]` finds a card by letter in either case or by name, and raises `KeyError` otherwise |
| SpecVars.Assignment | tools/increaserel.py:11 | a line assigns a valid name a non-empty single-line value |
| SpecVars.AssignmentOf | tools/increaserel.py:11 | `NAME=value\n` is read as that assignment |
| SpecVars.EmptyValueUnassigned | tools/increaserel.py:11 | `NAME=` with nothing after it is not an assignment |
| SpecVars.LastAssignments | tools/increaserel.py:14-19 | every entry points at a line of the file |
| SpecVars.LastAssignmentsKeys | tools/increaserel.py:16-19 | exactly the assigned names have entries |
| SpecVars.LastAssignmentsEntry | tools/increaserel.py:16-19 | a name's entry is its last assignment, line and value |
| SpecVars.LastIndexUnique | tools/increaserel.py:16-19 | a name has one last assignment |
| SpecVars.LastAssignmentsReplace | tools/increaserel.py:21 | replacing a name's last assignment line changes only its entry |
| SpecVars.CollectVariables | tools/ciel-updreq.py:61-68 | the loop collects each name's last line and value |
| IncreaseRel.Bumped | tools/increaserel.py:13-25 | the increased lines are as many as before or one more; `IncreaseRel.BumpedFails`, `IncreaseRel.BumpedShape`, `IncreaseRel.BumpedReadsBack` and `IncreaseRel.BumpedAddsRel` state the rest |
| IncreaseRel.IncreaseRel | tools/increaserel.py:13-26 | `increaserel` joins the rewritten lines, or fails as `int` does |
| IncreaseRel.BumpedFails | tools/increaserel.py:20-21 | it fails exactly when `REL` is not a number |
| IncreaseRel.BumpedShape | tools/increaserel.py:20-25 | only the `REL` line changes, or one line is added after `VER` or at the end, the others staying in order |
| IncreaseRel.BumpedReadsBack | tools/increaserel.py:20-21 | the new file assigns `REL` one more than before, at the same line, and nothing else changes |
| IncreaseRel.BumpedAddsRel | tools/increaserel.py:22-25 | without `REL`, the new lines assign `REL=1` on an added line after `VER`, or last |
| IncreaseRel.DigitsOnly | tools/increaserel.py:21 | the new `REL` value is a single line |
| Text.SplitLinesJoin | tools/increaserel.py:15 | the kept-end lines concatenate back to the text |
| Text.ParseIntRoundTrip | tools/increaserel.py:21 | `int('%d' % n) == n` |
| CielUpdreq.LineList.constructor | tools/ciel-updreq.py:63 | the list holds the given lines |
| CielUpdreq.SpecParse | tools/ciel-updreq.py:61-68 | `specparse` gives the lines, which join back to the file, and each name's last assignment |
| CielUpdreq.Rewritten | tools/ciel-updreq.py:70-77 | without `VER`, `ValueError` and no change; on success, the lines joined, one fewer when `REL` was there; never more lines than before |
| CielUpdreq.SpecUpdate | tools/ciel-updreq.py:70-77 | `specupdate` rewrites the line list in place as `Rewritten` says |
| CielUpdreq.RewrittenShape | tools/ciel-updreq.py:70-77 | the `VER` line takes the new version, the `REL` line is removed, and the other lines stay in order |
| CielUpdreq.RewrittenDeletes | tools/ciel-updreq.py:75-76 | deleting `REL` shifts later lines up by one |
| CielUpdreq.LastAssignmentsDelete | tools/ciel-updreq.py:76 | deleting another line keeps a name's value |
| CielUpdreq.RewrittenReadsBack | tools/ciel-updreq.py:70-77 | the rewritten lines assign `VER` the new version |
| Anitya.ProjectKey | anitya.py:59 | a project key holds none of `. _-` |
| Anitya.PackageKey | anitya.py:65 | a package key holds none of `- _` |
| Anitya.ProjectKeyOwner | anitya.py:16 | an `owner/` prefix is dropped from a project name |
| Anitya.DottedPackageUnmatched | anitya.py:59-66 | a package name with a dot never matches a project |
| Anitya.FirstByHas | anitya.py:58-61 | the index has exactly the keys of the projects |
| Anitya.FirstByFirst | anitya.py:58-61 | each key maps to the first project with it |
| Anitya.Matched | anitya.py:63-67 | the matched packages are no more than the packages, and each has its key indexed; `Anitya.MatchedHas` states the converse |
| Anitya.MatchedHas | anitya.py:63-67 | exactly the packages whose key is indexed are matched |
| Anitya.DetectLinks | anitya.py:55-68 | `detect_links` links each matching package, once and in order, to the first project with its key |
| Anitya.ProjectIndex | anitya.py:56-61 | the index loop keeps the first project per key |
| Anitya.LinkPackages | anitya.py:62-68 | the package loop links each matching package |
| AnityaConfig.ParseLink | anitya.py:78-82 | every option of the file reads as a configured link |
| AnityaConfig.ParseLinkShape | anitya.py:78-82 | an option reads as the id before the first space and the optional name after it |
| AnityaConfig.FormatLinkParses | anitya.py:87 | a detected link written to the file reads back as the project's id and name |
| AnityaConfig.OptionKey | anitya.py:76-87 | configparser's default option-name transform: the same length, no capital letter left, and only capitals changed |
| AnityaConfig.ConfigLinks | anitya.py:76-82 | the links read form a well-formed ordered dictionary |
| AnityaConfig.ReadOptionsKeys | anitya.py:77 | reading the options of a section keeps every option name once, in file order |
| AnityaConfig.ReadOptionsVals | anitya.py:77-82 | every option read holds what reading its value gives |
| AnityaConfig.ConfigLinksShape | anitya.py:76-82 | one link per option, in file order, each the option's value split at its first space |
| AnityaConfig.MergeOne | anitya.py:84-87 | a detected package is appended to the links, and written to the file, exactly when neither the file has its option nor the links have it |
| AnityaConfig.MergedVals | anitya.py:83-87 | the merge's contents, step by step |
| AnityaConfig.MapsKeepConfig | anitya.py:83-87 | no option of the file changes |
| AnityaConfig.MapsOnlyDetected | anitya.py:83-87 | only detected packages are added |
| AnityaConfig.NotYetAdded | anitya.py:84-85 | a detected package is not already in the links before its own step |
| AnityaConfig.MapsAddDetected | anitya.py:84-87 | an added package links to its project, and the file holds the project |
| AnityaConfig.MapsKeepLinks | anitya.py:84-86 | configured links are kept |
| AnityaConfig.MergedKeepsConfig | anitya.py:83-87 | merging never changes a hand-written option, and adds links only for detected packages |
| AnityaConfig.MergedAddsDetected | anitya.py:84-87 | each added package links to its detected project, also in the file |
| AnityaConfig.MergedKeepsOrder | anitya.py:83-87 | configured links keep their order, ahead of the added ones |
| AnityaConfig.MergedKeepsLinks | anitya.py:83-87 | every configured link survives the merge |
| AnityaConfig.LoadConfig | anitya.py:70-91 | corrected (see ## Findings): `load_config` reads the links, merges the detected ones into links and file, and stores one row per link |
| AnityaConfig.MergedAsWritten | anitya.py:84-87 | as written: every configured link is kept, and every hand-written option stays, though its value may change (see ## Findings) |
| AnityaConfig.AsWrittenOverridesConfig | anitya.py:84-87 | as written, detecting `Foo` overwrites the hand-written option `foo` |
| AnityaConfig.AsWrittenAgrees | anitya.py:84-87 | on lower-case package names the written merge is the corrected one, and links and file agree |
| AnityaConfig.LinkTable | anitya.py:90-91 | the table has a row for each linked package, plus the rows it had |
| AnityaConfig.LinkTableRows | anitya.py:90-91 | each package's row holds its project id, and other rows are kept |
| AnityaConfig.WriteLinks | anitya.py:90-91 | corrected (see ## Findings): the loop storing the links, one row per package |
| AnityaConfig.ReadLinks | anitya.py:76-82 | the loop reading every option of `anitya_links` as a link, in order |
| AnityaConfig.MergeDetected | anitya.py:83-87 | corrected (see ## Findings): the loop merging the detected links keeps both dictionaries well formed and equals the merge of every detected link |
| AnityaConfig.LinkTableAsWritten | anitya.py:90-91 | as written: the old rows stay, and every new key is the project id of some link (see ## Findings) |
| AnityaConfig.AsWrittenLinksCollapse | anitya.py:90-91 | as written, two packages linked to one project leave a single row keyed by the project id |

## Left out

- SQLite is not modelled. Each table of the catalog and of the marks database
  is a `map` or `set` field keyed by its primary key. SQL statements become
  map updates, and transactions, `PRAGMA`, `VACUUM` and commits are left out.
  The same goes for `init_db`, `reset_progress`, `close` and `update`.
- `SourceRepo.repo_update` is not modelled. It is the loop over Fossil's event
  table, and the SQL query that chooses the revisions is the substance of it.
- The Fossil repository is not modelled: `fossil.Repo`, `Repo.artifact` with
  its delta chains and cache use, `decompress` (zlib), `find_artifact`,
  `to_uuid`, `to_rid` and `execute`. A check-in comes in as its file list,
  change rows (`mlink`), branch tags and comment, and `to_rid` is a parameter.
- `SourceRepo.file_list`, `getfile` and `file_mtime` are reads of the
  repository. Their results are the `read` and `mtime` parameters of a
  `Checkin`, and the cache in `file_list` is left out.
- `reposync.py` and `sync` are not part of this model, and neither is
  `tools/addchksum.py`.
- `BashExt.EvalExt` does not run `bash`. The shell is a parameter
  `bash: string -> (stdout, stderr)`, and the UTF-8 encoding and decoding of
  its input and output are left out. The temporary directory and the empty
  environment are left out too.
- Logging and warnings are left out. Undefined-variable warnings are returned
  as a list of names, and the bash error message as an `Option`.
- `BashSyntax.Parse` is a hand-written recogniser of the pyparsing grammar,
  and no proof ties it to pyparsing. Its contract only states where parsing
  stops and that assignments name valid variables.
- `BashSyntax.ParseOp` only states that it moves forward, not which operator it reads.
- `BashSyntax.ParseToken` only states that it moves forward, not which token it reads.
- `BashSyntax.Integer` only states that it moves forward, not the value it reads.
- `BashSyntax.Offset` only states that it moves forward, not the value it reads.
- `BashSyntax.ParseLines` only states that it stops inside the input; `BashSyntax.Parse` states the rest.
- `BashSyntax.ParseExpansion` only states that it starts at `$` and names a valid variable; `BashSyntax.ExpansionForms` adds the `$name` form and the closing brace, and no contract states which operator a `${...}` form reads.
- `BashSyntax.DoubleInner` only states which kinds of token occur and where reading stops, not which tokens it reads.
- `BashSyntax.ParseValue` only states where reading stops, not which tokens it reads.
- `BashSyntax.ParseAssign` only states the name and the `=` after it, not the tokens of the value.
- `BashSyntax.ParseLine` only states how the line ends and that an assignment names a valid variable, not which assignment it reads.
- `BashSyntax.LineTail` only states where a line that ends does end, not when a line fails to end.
- `AbbsPackage.TokenDeps` does not itself state how a token splits; `AbbsPackage.TokenDepsRows` does.
- `AbbsPackage.DepsOf` does not itself state which rows it returns; `AbbsPackage.DepsOfRows` does.
- `AbbsPackage.ApplyDefines` itself only states that the spec stays well formed and when `AttributeError` is raised; `AbbsPackage.DefinesNamed`, `AbbsPackage.DefinesDeps` and `AbbsPackage.DefinesUnnamed` state the package it produces.
- `Anitya.ProjectKey`, `Anitya.PackageKey` and `AnityaConfig.OptionKey` lower-case ASCII letters only (`Text.Lower`), while `str.lower()` lower-cases every Unicode letter; names with non-ASCII capitals get other keys than in the source.
- `FossilManifest.StructuralArtifact.GetItem` models the corrected lookup. As written, `__getitem__` raises `KeyError` for a lower-case card letter whose upper-case card exists (`FossilManifest.LookupMissesLowerCase`).
- `AnityaConfig.LoadConfig` models the corrected merge and rows. As written, detecting `Foo` rewrites the hand-written option `foo` (`AnityaConfig.AsWrittenOverridesConfig`), and packages linked to one project leave one row keyed by the project id (`AnityaConfig.AsWrittenLinksCollapse`).
- `AnityaConfig.MergeDetected` models the corrected merge. As written, a detected name is looked up as given, so a hand-written option under its lower-cased name is overwritten (`AnityaConfig.AsWrittenOverridesConfig`).
- `AnityaConfig.WriteLinks` models the corrected rows. As written, the project id goes in the `package` column, so packages linked to one project collapse into one row (`AnityaConfig.AsWrittenLinksCollapse`).
- `BashSyntax.Parse` leaves out `parseString`'s expansion of tabs to spaces,
  the packrat cache, and error positions.
- `Glob.SubAll` and `Glob.FirstMatchFrom` follow `re.sub` from Python 3.7 on, where an empty match may directly follow a non-empty one: `re.sub('x*', '-', 'abxd')` is `-a-b--d-`. Earlier versions skip such a match and give `-a-b-d-`.
- `Glob.Match`, `Glob.TrimShortestPrefix`, `Glob.SubFirst` and the other
  glob members treat `?` and `*` as matching any character. The regex they
  compile to has `.` not matching a newline and `$` also matching before a
  final newline, and those two cases are not modelled.
- `AbbsPackage.SplitPackageName` leaves out the same two regex cases, which
  cannot arise there: its tokens come from `str.split()` and hold no newline.
- `IncreaseRel.BumpedAddsRel` is stated of the line list, not of the joined file. When the spec's last line has no newline and `REL=1` goes after it, the joined file glues the two, as the source does: `VER=1.0` becomes `VER=1.0REL=1\n`, which assigns no `REL`.
- `CielUpdreq.RewrittenReadsBack` is stated of the line list, not of the joined file. A version holding a line break splits the `VER` line when the file is read back.
- `FossilCodec.TextUnescape` inverts `FossilCodec.TextEscape` only on text without a backslash (`FossilCodec.UnescapeEscape`). With one, the source's round trip fails (`\s` comes back as `\ `, `FossilCodec.UnescapeEscapeBackslash`); the model records that behaviour only and defines no corrected unescape.
- `AbbsPackage.Package.LoadDefines` changes nothing on `AttributeError`. The
  source has already set `name`, `pkg_section`, `description` and `epoch` by
  then, but the exception ends the scan anyway.
- `AbbsScan.BranchesOfCommit`, with no branches configured, returns the tags
  in the order given. The source returns them in `frozenset` iteration order.
- `AbbsRepo.SourceRepo.MakeUp` and `AbbsRepo.SourceRepo.ScanAbbsTree` hold for
  some order of the make-up locations, not a fixed one, because SQL fixes no
  order there.
- `FossilManifest.Chars` reads a byte as the character with that code
  (Latin-1). `parse` decodes UTF-8, so `FossilManifest.StructuralArtifact.Parse`
  and `FossilManifest.ReadCard` differ on non-ASCII text. For example,
  `C caf\xc3\xa0` decodes to `café` in the source, while the model reads
  `cafÃ` plus U+00A0, and its `rstrip` removes the U+00A0.
- `parse_dt` (`time.strptime`, `calendar.timegm`) is a parameter `parseDt`.
  `julian_to_unix`, `unix_to_julian` and `utf8_decode` are floating point or
  decoding, and are left out.
- `Text.ParseInt` follows `int()` for ASCII decimal text with blanks and a
  sign. It rejects the underscores and non-ASCII digits that `int()` accepts.
- `Package.__eq__`, `__repr__`, `Artifact`, `File`, `from_artifact` and
  `__getattr__` are left out. `__getattr__` is the same lookup as
  `FossilManifest.StructuralArtifact.GetItem`.
- The rest of `LRUCache`'s `UserDict` interface (`in`, `len`) is left out.
- In `tools/ciel-updreq.py`, `ask`, `find_package`, `find_upstream`,
  `try_build` and `main` are left out. They are console, file system, network
  and subprocess code.
- In `anitya.py`, `anitya_api`, `check_update`, `init_db` and `main` are left
  out (network and SQLite). The links file is given as its `anitya_links`
  section, and writing it back is left out. `detect_links` gets the projects
  after `GROUP BY name` and the packages in name order as sequences.
- Some features are not in the code, so the model has none of them: `+=`
  assignments, splitting of relational operators out of dependency versions,
  architecture-specific files, and tree priority. The model follows the code
  here.

## Findings

| source | as written | input that shows it | evidently intended | confidence | as-written member | corrected member |
|---|---|---|---|---|---|---|
| fossil.py:20-28 | `base64_putint` emits the least significant digit first, while `base64_getint` reads the most significant digit first | `base64_putint(64)` is `"01"`, which `base64_getint` reads as 1 | most significant digit first, as Fossil writes its deltas and as `base64_getint` reads them | high, not executed | FossilCodec.PutIntMisreads | FossilCodec.PutIntMsbRoundTrip |
| fossil.py:238-244 | `__getitem__` tests `key.upper() in self.cards` but returns `self.cards[key]` | `artifact['f']` (or `artifact.f`) on a manifest with `F` cards raises `KeyError` | return `self.cards[key.upper()]` | medium, not executed | FossilManifest.LookupMissesLowerCase | FossilManifest.LookupUpperCase |
| anitya.py:84-87 | a detected package name is looked up as given in `links`, whose keys are the lower-cased option names, while `configparser` stores it under the lower-cased name | with `foo = 7` in the links file, detecting package `Foo` rewrites the option to `foo = 2 foo` | a hand-written link is never overwritten | medium, not executed | AnityaConfig.AsWrittenOverridesConfig | AnityaConfig.MergedKeepsConfig |
| anitya.py:90-91 | `REPLACE INTO anitya_link VALUES (?,?)` with `(v[0], k)` puts the project id in the `package` column and the package name in `projectid` | packages `a` and `b` both linked to project 7 leave one row, `(7, 'b')` | one row per package: `(k, v[0])` | medium, not executed | AnityaConfig.AsWrittenLinksCollapse | AnityaConfig.LinkTableRows |
