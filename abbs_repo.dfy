/** The catalog reconciler of `abbsmeta.py` (`SourceRepo`): the tables
    `packages`, `package_duplicate`, `package_versions`, `package_spec`,
    `package_dependencies` and the marks table `package_rel`, kept as maps
    and sets, and the two operations that change them, `update_package` and
    `scan_abbs_tree`. */
module AbbsRepo {
  import opened Wrappers
  import Text
  import opened Collections
  import opened AbbsPackage
  import opened AbbsScan
  import AbbsCommit

  /** A row of `packages`, keyed by the package name. */
  datatype PackageRow = PackageRow(tree: string, category: Option<string>, section: string,
                                   pkgSection: Option<string>, directory: string,
                                   description: Option<string>)

  /** A row of `package_duplicate`; the table keeps each row once. */
  datatype DuplicateRow = DuplicateRow(package: string, tree: string, category: string,
                                       section: string, directory: string)

  /** A row of `package_versions`, keyed by package and branch. */
  datatype VersionRow = VersionRow(version: Option<string>, release: Option<string>,
                                   epoch: Option<string>, commitTime: Option<int>)

  /** A row of `package_rel`, keyed by revision and package. */
  datatype RelRow = RelRow(version: Option<string>, release: Option<string>,
                           epoch: Option<string>, message: string)

  /** What `update_package` reads of a `Package`. */
  datatype PackageInfo = PackageInfo(
    name: string, category: Option<string>, section: string, directory: string,
    pkgSection: Option<string>, description: Option<string>,
    version: Option<string>, release: Option<string>, epoch: Option<string>,
    commitTime: Option<int>, spec: ODict<string, string>, dependencies: seq<Dependency>)
  {
    /** The rows `load_defines` gives a package all belong to it. */
    ghost predicate Valid() {
      spec.Valid() && forall d :: d in dependencies ==> d.package == name
    }
  }

  /** A (category, section, directory) location of a package group. */
  datatype Location = Location(category: Option<string>, section: string, directory: string)

  function LocationOf(p: PackageInfo): Location { Location(p.category, p.section, p.directory) }
  function RowLocation(r: PackageRow): Location { Location(r.category, r.section, r.directory) }

  function RowOf(tree: string, p: PackageInfo): (r: PackageRow)
    ensures r.tree == tree && RowLocation(r) == LocationOf(p)
  {
    PackageRow(tree, p.category, p.section, p.pkgSection, p.directory, p.description)
  }

  function VersionOf(p: PackageInfo): VersionRow {
    VersionRow(p.version, p.release, p.epoch, p.commitTime)
  }

  /** The duplicate row recording that `name` is at `loc` in `tree`. */
  function DuplicateAt(name: string, tree: string, loc: Location): DuplicateRow {
    DuplicateRow(name, tree, CategoryText(loc.category), loc.section, loc.directory)
  }

  /** The two rows `update_package` records when a name turns up at a second
      place: the new one and the one on record. */
  function DuplicatePair(tree: string, p: PackageInfo, existing: PackageRow): (r: set<DuplicateRow>)
    ensures forall d :: d in r ==> d.package == p.name
    ensures DuplicateAt(p.name, tree, LocationOf(p)) in r
    ensures DuplicateAt(p.name, existing.tree, RowLocation(existing)) in r
    ensures |r| <= 2
  {
    {DuplicateAt(p.name, tree, LocationOf(p)), DuplicateAt(p.name, existing.tree, RowLocation(existing))}
  }

  /** `REPLACE INTO package_versions` for `name` on each of `branches`. */
  function WithVersions(versions: map<(string, string), VersionRow>, name: string,
                        branches: seq<string>, row: VersionRow): (r: map<(string, string), VersionRow>)
    ensures forall k :: k in r <==> k in versions || (k.0 == name && k.1 in branches)
    ensures forall k :: k in r ==> r[k] == if k.0 == name && k.1 in branches then row else versions[k]
  {
    if branches == [] then versions
    else
      var init := branches[..|branches| - 1];
      assert forall b :: b in branches <==> b in init || b == branches[|branches| - 1];
      WithVersions(versions, name, init, row)[(name, branches[|branches| - 1]) := row]
  }

  /** `DELETE FROM package_spec WHERE package = name`. */
  function DropSpec(rows: map<(string, string), string>, name: string): (r: map<(string, string), string>)
    ensures forall k :: k in r <==> k in rows && k.0 != name
    ensures forall k :: k in r ==> r[k] == rows[k]
  {
    map k | k in rows && k.0 != name :: rows[k]
  }

  /** `DELETE FROM package_dependencies WHERE package = name`. */
  function DropDeps(rows: map<(string, string, string), string>, name: string): (r: map<(string, string, string), string>)
    ensures forall k :: k in r <==> k in rows && k.0 != name
    ensures forall k :: k in r ==> r[k] == rows[k]
  {
    map k | k in rows && k.0 != name :: rows[k]
  }

  /** The spec rows of `name` after `REPLACE INTO package_spec` of each item
      of `spec`, the older rows of the name having been deleted. */
  function ReplaceSpec(rows: map<(string, string), string>, name: string,
                       spec: ODict<string, string>): (r: map<(string, string), string>)
    ensures forall k :: k in r <==> (k in rows && k.0 != name) || (k.0 == name && k.1 in spec.vals)
    ensures forall k :: k in r ==> r[k] == if k.0 == name then spec.vals[k.1] else rows[k]
  {
    var kept := DropSpec(rows, name);
    map k | k in kept.Keys + (set key | key in spec.vals :: (name, key)) ::
      if k.0 == name then spec.vals[k.1] else kept[k]
  }

  /** The key of a dependency row. */
  function DepKey(d: Dependency): (string, string, string) { (d.package, d.dependency, d.relationship) }

  /** The version of the last row of `deps` with key `k`, if there is one. */
  function LastVersion(deps: seq<Dependency>, k: (string, string, string)): Option<string> {
    if deps == [] then None
    else if DepKey(deps[|deps| - 1]) == k then Some(deps[|deps| - 1].version)
    else LastVersion(deps[..|deps| - 1], k)
  }

  /** A key has a last row exactly when some row has it, and that row's
      version is the one found. */
  lemma {:induction false} LastVersionOf(deps: seq<Dependency>, k: (string, string, string))
    ensures LastVersion(deps, k).Some? <==> exists i :: 0 <= i < |deps| && DepKey(deps[i]) == k
    ensures forall i :: 0 <= i < |deps| && DepKey(deps[i]) == k && (forall j :: i < j < |deps| ==> DepKey(deps[j]) != k) ==>
      LastVersion(deps, k) == Some(deps[i].version)
  {
    if deps != [] {
      var init := deps[..|deps| - 1];
      LastVersionOf(init, k);
      assert forall i :: 0 <= i < |init| ==> init[i] == deps[i];
    }
  }

  /** `executemany('REPLACE INTO package_dependencies', deps)`: each row in
      turn, a later row replacing an earlier one with the same key. */
  function WriteDeps(rows: map<(string, string, string), string>, deps: seq<Dependency>): (r: map<(string, string, string), string>)
    ensures forall k :: k in r <==> k in rows || LastVersion(deps, k).Some?
    ensures forall k :: k in r ==> r[k] == if LastVersion(deps, k).Some? then LastVersion(deps, k).value else rows[k]
  {
    if deps == [] then rows
    else
      var d := deps[|deps| - 1];
      WriteDeps(rows, deps[..|deps| - 1])[DepKey(d) := d.version]
  }

  /** Rows that name only `name` are all the rows a dependency list of
      `name` can write. */
  lemma OwnRows(deps: seq<Dependency>, name: string, k: (string, string, string))
    requires forall d :: d in deps ==> d.package == name
    requires LastVersion(deps, k).Some?
    ensures k.0 == name
  {
    LastVersionOf(deps, k);
    var i :| 0 <= i < |deps| && DepKey(deps[i]) == k;
    assert deps[i] in deps;
  }

  /** Writing the main branch's spec rows a second time changes nothing. */
  lemma ReplaceSpecTwice(rows: map<(string, string), string>, name: string, spec: ODict<string, string>)
    ensures ReplaceSpec(ReplaceSpec(rows, name, spec), name, spec) == ReplaceSpec(rows, name, spec)
  {
  }

  /** Deleting a package's dependency rows and writing them again a second
      time changes nothing, when the rows are the package's own. */
  lemma WriteDepsTwice(rows: map<(string, string, string), string>, name: string, deps: seq<Dependency>)
    requires forall d :: d in deps ==> d.package == name
    ensures var once := WriteDeps(DropDeps(rows, name), deps);
      WriteDeps(DropDeps(once, name), deps) == once
  {
    var once := WriteDeps(DropDeps(rows, name), deps);
    forall k | LastVersion(deps, k).Some? ensures k.0 == name {
      OwnRows(deps, name, k);
    }
    assert DropDeps(once, name) == DropDeps(rows, name);
  }

  /** The spec rows of `name` written one item at a time, into rows that
      hold none of the name's. */
  method InsertSpec(rows: map<(string, string), string>, name: string, spec: ODict<string, string>)
    returns (r: map<(string, string), string>)
    requires spec.Valid() && forall k :: k in rows ==> k.0 != name
    ensures r == ReplaceSpec(rows, name, spec)
  {
    r := rows;
    for i := 0 to |spec.keys|
      invariant forall k :: k in r <==> k in rows || (k.0 == name && k.1 in spec.keys[..i])
      invariant forall k :: k in r ==> r[k] == if k.0 == name then spec.vals[k.1] else rows[k]
    {
      assert spec.keys[i] in spec.vals;
      assert forall x :: x in spec.keys[..i + 1] <==> x in spec.keys[..i] || x == spec.keys[i];
      r := r[(name, spec.keys[i]) := spec.vals[spec.keys[i]]];
    }
    assert spec.keys[..|spec.keys|] == spec.keys;
  }

  /** The dependency rows written one at a time. */
  method InsertDeps(rows: map<(string, string, string), string>, deps: seq<Dependency>)
    returns (r: map<(string, string, string), string>)
    ensures r == WriteDeps(rows, deps)
  {
    r := rows;
    for i := 0 to |deps|
      invariant r == WriteDeps(rows, deps[..i])
    {
      assert deps[..i + 1][..i] == deps[..i];
      r := r[DepKey(deps[i]) := deps[i].version];
    }
    assert deps[..|deps|] == deps;
  }

  /** What the main branch writes: the package's spec and dependency rows
      deleted and written again. */
  method RewriteMain(p: PackageInfo, specs: map<(string, string), string>,
                     deps: map<(string, string, string), string>)
    returns (ss: map<(string, string), string>, ds: map<(string, string, string), string>)
    requires p.Valid()
    ensures ss == ReplaceSpec(specs, p.name, p.spec)
    ensures ds == WriteDeps(DropDeps(deps, p.name), p.dependencies)
  {
    assert ReplaceSpec(DropSpec(specs, p.name), p.name, p.spec) == ReplaceSpec(specs, p.name, p.spec);
    ss := InsertSpec(DropSpec(specs, p.name), p.name, p.spec);
    ds := InsertDeps(DropDeps(deps, p.name), p.dependencies);
  }

  /** The loop of `update_package` over the commit's branches: a version row
      per branch, and the spec and dependency rows rewritten on the main
      branch. */
  method WriteBranches(mainbranch: string, p: PackageInfo, branches: seq<string>,
                       versions: map<(string, string), VersionRow>,
                       specs: map<(string, string), string>,
                       deps: map<(string, string, string), string>)
    returns (vs: map<(string, string), VersionRow>, ss: map<(string, string), string>,
             ds: map<(string, string, string), string>)
    requires p.Valid()
    ensures vs == WithVersions(versions, p.name, branches, VersionOf(p))
    ensures ss == if mainbranch in branches then ReplaceSpec(specs, p.name, p.spec) else specs
    ensures ds == if mainbranch in branches then WriteDeps(DropDeps(deps, p.name), p.dependencies) else deps
  {
    vs, ss, ds := versions, specs, deps;
    ghost var mainSeen := false;
    for i := 0 to |branches|
      invariant mainSeen == (mainbranch in branches[..i])
      invariant vs == WithVersions(versions, p.name, branches[..i], VersionOf(p))
      invariant ss == if mainSeen then ReplaceSpec(specs, p.name, p.spec) else specs
      invariant ds == if mainSeen then WriteDeps(DropDeps(deps, p.name), p.dependencies) else deps
    {
      PrefixStep(branches, i);
      vs := vs[(p.name, branches[i]) := VersionOf(p)];
      if branches[i] == mainbranch {
        if mainSeen {
          ReplaceSpecTwice(specs, p.name, p.spec);
          WriteDepsTwice(deps, p.name, p.dependencies);
        }
        ss, ds := RewriteMain(p, ss, ds);
        mainSeen := true;
      }
    }
    assert branches[..|branches|] == branches;
  }

  /** One more element of a prefix, and what is in it. */
  lemma PrefixStep<T>(s: seq<T>, i: nat)
    requires i < |s|
    ensures s[..i + 1][..i] == s[..i] && s[..i + 1] == s[..i] + [s[i]]
    ensures forall x :: x in s[..i + 1] <==> x in s[..i] || x == s[i]
  {
    assert s[..i + 1] == s[..i] + [s[i]];
  }

  /** Removes the version rows of `name` on each of `branches`. */
  function DropVersions(versions: map<(string, string), VersionRow>, name: string,
                        branches: seq<string>): (r: map<(string, string), VersionRow>)
    ensures forall k :: k in r <==> k in versions && !(k.0 == name && k.1 in branches)
    ensures forall k :: k in r ==> r[k] == versions[k]
  {
    map k | k in versions && !(k.0 == name && k.1 in branches) :: versions[k]
  }

  /** Whether some version row of `name` is left. */
  predicate HasVersion(versions: map<(string, string), VersionRow>, name: string) {
    exists k :: k in versions && k.0 == name
  }

  /** A duplicate row is single when no other row has its package. */
  predicate Single(dups: set<DuplicateRow>, d: DuplicateRow) {
    forall e :: e in dups && e.package == d.package ==> e == d
  }

  /** The last statement of `scan_abbs_tree`: the rows of every package
      with exactly one duplicate row are deleted. */
  function Pruned(dups: set<DuplicateRow>): (r: set<DuplicateRow>)
    ensures r <= dups
  {
    set d | d in dups && !Single(dups, d)
  }

  /** After pruning, no package has exactly one duplicate row, and every row
      whose package had another row is kept. */
  lemma PrunedNoSingles(dups: set<DuplicateRow>)
    ensures forall d :: d in Pruned(dups) ==> exists e :: e in Pruned(dups) && e.package == d.package && e != d
    ensures forall d, e :: d in dups && e in dups && d != e && d.package == e.package ==> d in Pruned(dups)
  {
    var r := Pruned(dups);
    forall d | d in r ensures exists e :: e in r && e.package == d.package && e != d {
      var e :| e in dups && e.package == d.package && e != d;
      assert !Single(dups, e);
    }
  }

  /** A duplicate row at `loc` of `tree`, whatever its package. */
  predicate AtLocation(d: DuplicateRow, tree: string, loc: Location) {
    d.tree == tree && d.category == CategoryText(loc.category) && d.section == loc.section
    && d.directory == loc.directory
  }

  /** The location a stored duplicate row stands for, rebuilt as the make-up
      query does. */
  function DuplicateSecpath(d: DuplicateRow): string { JoinSecpath(d.category, d.section) }

  /** The package group read by `read_package_info`, after its `spec` file:
      named after its directory. */
  datatype GroupState = GroupState(name: string, secpath: string, directory: string,
                                   version: Option<string>, release: Option<string>,
                                   commitTime: Option<int>, spec: ODict<string, string>)

  /** The group after `load_spec` of a spec file with `vars` and the spec
      file's time. */
  function LoadedGroup(secpath: string, directory: string, vars: ODict<string, string>, mtime: int): (g: GroupState)
    requires vars.Valid()
    ensures g.spec.Valid() && g.name == directory && g.secpath == secpath && g.directory == directory
    ensures "VER" !in g.spec.vals && "REL" !in g.spec.vals
    ensures g.version == vars.Get("VER") && g.release == vars.Get("REL") && g.commitTime == Some(mtime)
  {
    var merged := EmptyDict().Update(vars);
    var p := merged.Pop("VER");
    GroupState(directory, secpath, directory, p.1, p.0.Get("REL"), Some(mtime), p.0.Pop("REL").0)
  }

  /** The package `PackageGroup.package` makes of a `defines` file. */
  function InfoOf(g: GroupState, vars: ODict<string, string>): (r: Result<PackageInfo>)
    requires g.spec.Valid() && vars.Valid()
    ensures r.Ok? ==> r.value.Valid()
    ensures r.Ok? ==> (r.value.category, r.value.section) == SplitSecpath(g.secpath) && r.value.directory == g.directory
    ensures r.Ok? ==> r.value.version == g.version && r.value.release == g.release && r.value.commitTime == g.commitTime
    ensures r.Err? <==> ApplyDefines(g.spec, vars, Relationships()).Err?
  {
    var (category, section) := SplitSecpath(g.secpath);
    match ApplyDefines(g.spec, vars, Relationships())
    case Err(e) => Err(e)
    case Ok(Unnamed(rest)) =>
      Ok(PackageInfo(g.name, category, section, g.directory, None, None, g.version, g.release, None,
                     g.commitTime, rest, []))
    case Ok(Named(n, sec, des, epo, rest, rows)) =>
      DefinesNamed(g.spec, vars, Relationships());
      Ok(PackageInfo(n, category, section, g.directory, sec, des, g.version, g.release, epo,
                     g.commitTime, rest, rows))
  }

  /** The `defines` file `read_package_info` reads for a listed path under
      the group's directory, if the path is one. */
  function DefinesPath(path: string, repopath: string): Option<string> {
    if !Text.StartsWith(path, repopath + "/") then None
    else
      var (dirpath, filename) := PathSplit(path);
      if filename != "defines" then None else Some(PathJoin(dirpath, "defines"))
  }

  /** The packages of the `defines` files among `entries`, in order; the
      first file missing from the list raises `KeyError`, the first bad
      dependency token `AttributeError`. */
  function DefinesInfos(g: GroupState, files: seq<FileEntry>, entries: seq<FileEntry>, repopath: string,
                        read: string -> ODict<string, string>): (r: Result<seq<PackageInfo>>)
    requires g.spec.Valid() && forall path :: read(path).Valid()
    ensures r.Ok? ==> forall p :: p in r.value ==> p.Valid() && p.directory == g.directory
    ensures r.Ok? ==> |r.value| <= |entries|
    ensures r.Err? ==> r.error == "KeyError" || r.error == "AttributeError"
  {
    if entries == [] then Ok([])
    else
      var prev := DefinesInfos(g, files, entries[..|entries| - 1], repopath, read);
      var path := DefinesPath(entries[|entries| - 1].name, repopath);
      if prev.Err? || path.None? then prev
      else if Lookup(files, path.value).None? then Err("KeyError")
      else
        var info := InfoOf(g, read(path.value));
        if info.Err? then Err(info.error) else Ok(prev.value + [info.value])
  }

  /** `read_package_info(mid, group)`: the group's spec file, then a package
      per `defines` file below its directory. */
  function PackageInfos(files: seq<FileEntry>, secpath: string, directory: string,
                        read: string -> ODict<string, string>, mtime: string -> int): (r: Result<seq<PackageInfo>>)
    requires forall path :: read(path).Valid()
    ensures r.Ok? ==> forall p :: p in r.value ==> p.Valid() && p.directory == directory
    ensures r.Ok? ==> forall p :: p in r.value ==> (p.category, p.section) == SplitSecpath(secpath)
  {
    var repopath := PathJoin(secpath, directory);
    var specPath := PathJoin(repopath, "spec");
    if Lookup(files, specPath).None? then Err("KeyError")
    else
      var g := LoadedGroup(secpath, directory, read(specPath), mtime(specPath));
      DefinesInfosLocated(g, files, files, repopath, read);
      DefinesInfos(g, files, files, repopath, read)
  }

  /** Every package read keeps the group's category and section. */
  lemma {:induction false} DefinesInfosLocated(g: GroupState, files: seq<FileEntry>, entries: seq<FileEntry>,
                                               repopath: string, read: string -> ODict<string, string>)
    requires g.spec.Valid() && forall path :: read(path).Valid()
    ensures var r := DefinesInfos(g, files, entries, repopath, read);
      r.Ok? ==> forall p :: p in r.value ==> (p.category, p.section) == SplitSecpath(g.secpath)
  {
    if entries != [] {
      DefinesInfosLocated(g, files, entries[..|entries| - 1], repopath, read);
    }
  }

  /** The fields of a package object `update_package` reads. */
  function Snapshot(p: Package): PackageInfo
    reads p
  {
    PackageInfo(p.name, p.category, p.section, p.directory, p.pkgSection, p.description,
                p.version, p.release, p.epoch, p.commitTime, p.spec, p.dependencies)
  }

  /** The fields of a group object the packages it makes start from. */
  function StateOf(group: PackageGroup): GroupState
    reads group
  {
    GroupState(group.name, group.secpath, group.directory, group.version, group.release,
               group.commitTime, group.spec)
  }

  /** The group of a location, its spec file loaded. */
  method LoadGroup(tree: string, secpath: string, directory: string, vars: ODict<string, string>, mtime: int)
    returns (group: PackageGroup)
    requires vars.Valid()
    ensures fresh(group) && group.Valid()
    ensures StateOf(group) == LoadedGroup(secpath, directory, vars, mtime)
  {
    group := new PackageGroup(tree, secpath, directory, None);
    group.LoadSpec(vars);
    group.commitTime := Some(mtime);
  }

  /** `group.package(defines)`, read back as the fields `update_package`
      uses. */
  method PackageOf(group: PackageGroup, vars: ODict<string, string>) returns (r: Result<PackageInfo>)
    requires group.Valid() && vars.Valid()
    ensures r == InfoOf(StateOf(group), vars)
  {
    var made := group.MakePackage(vars);
    r := if made.Err? then Err(made.error) else Ok(Snapshot(made.value));
  }

  /** The loop of `read_package_info` over the file list. */
  method ReadDefines(group: PackageGroup, files: seq<FileEntry>, repopath: string,
                     read: string -> ODict<string, string>)
    returns (r: Result<seq<PackageInfo>>)
    requires group.Valid() && forall path :: read(path).Valid()
    ensures r == DefinesInfos(StateOf(group), files, files, repopath, read)
  {
    ghost var g := StateOf(group);
    r := Ok([]);
    var i := 0;
    while i < |files| && r.Ok?
      invariant i <= |files|
      invariant StateOf(group) == g
      invariant r == DefinesInfos(g, files, files[..i], repopath, read)
    {
      r := ReadDefine(group, files, i, repopath, read, r);
      i := i + 1;
    }
    assert i == |files| ==> files[..i] == files;
    DefinesInfosErr(g, files, files, repopath, read, i);
  }

  /** One file of the loop of `read_package_info`. */
  method ReadDefine(group: PackageGroup, files: seq<FileEntry>, i: nat, repopath: string,
                    read: string -> ODict<string, string>, prev: Result<seq<PackageInfo>>)
    returns (r: Result<seq<PackageInfo>>)
    requires group.Valid() && forall path :: read(path).Valid()
    requires i < |files| && prev.Ok? && prev == DefinesInfos(StateOf(group), files, files[..i], repopath, read)
    ensures r == DefinesInfos(StateOf(group), files, files[..i + 1], repopath, read)
  {
    assert files[..i + 1][..i] == files[..i];
    r := prev;
    var path := DefinesPath(files[i].name, repopath);
    if path.Some? {
      if Lookup(files, path.value).None? {
        r := Err("KeyError");
      } else {
        var info := PackageOf(group, read(path.value));
        r := if info.Err? then Err(info.error) else Ok(prev.value + [info.value]);
      }
    }
  }

  /** `read_package_info`: a group object loads the spec file, then each
      `defines` file below the directory makes a package of it. */
  method ReadPackageInfo(tree: string, files: seq<FileEntry>, secpath: string, directory: string,
                         read: string -> ODict<string, string>, mtime: string -> int)
    returns (r: Result<seq<PackageInfo>>)
    requires forall path :: read(path).Valid()
    ensures r == PackageInfos(files, secpath, directory, read, mtime)
  {
    var repopath := PathJoin(secpath, directory);
    var specPath := PathJoin(repopath, "spec");
    if Lookup(files, specPath).None? {
      r := Err("KeyError");
    } else {
      var group := LoadGroup(tree, secpath, directory, read(specPath), mtime(specPath));
      r := ReadDefines(group, files, repopath, read);
    }
  }

  /** An error in the first `i` entries is the error of all of them. */
  lemma {:induction false} DefinesInfosErr(g: GroupState, files: seq<FileEntry>, entries: seq<FileEntry>,
                                           repopath: string, read: string -> ODict<string, string>, i: nat)
    requires g.spec.Valid() && forall path :: read(path).Valid()
    requires i <= |entries|
    ensures DefinesInfos(g, files, entries[..i], repopath, read).Err? ==>
      DefinesInfos(g, files, entries, repopath, read) == DefinesInfos(g, files, entries[..i], repopath, read)
    decreases |entries|
  {
    if i < |entries| {
      assert entries[..|entries| - 1][..i] == entries[..i];
      DefinesInfosErr(g, files, entries[..|entries| - 1], repopath, read, i);
    } else {
      assert entries[..i] == entries;
    }
  }

  /** Every version, spec and dependency row belongs to a listed package
      (the foreign keys of the tables). */
  ghost predicate Integrity(packages: map<string, PackageRow>, versions: map<(string, string), VersionRow>,
                            specs: map<(string, string), string>, deps: map<(string, string, string), string>)
  {
    && (forall k :: k in versions ==> k.0 in packages)
    && (forall k :: k in specs ==> k.0 in packages)
    && (forall k :: k in deps ==> k.0 in packages)
  }

  /** Overwriting a package's row and writing its own version, spec and
      dependency rows keeps every row's package listed. */
  lemma WriteKeepsIntegrity(packages: map<string, PackageRow>, versions: map<(string, string), VersionRow>,
                            specs: map<(string, string), string>, deps: map<(string, string, string), string>,
                            p: PackageInfo, row: PackageRow, mainbranch: string, branches: seq<string>)
    requires Integrity(packages, versions, specs, deps) && p.Valid()
    ensures Integrity(packages[p.name := row],
                      WithVersions(versions, p.name, branches, VersionOf(p)),
                      if mainbranch in branches then ReplaceSpec(specs, p.name, p.spec) else specs,
                      if mainbranch in branches then WriteDeps(DropDeps(deps, p.name), p.dependencies) else deps)
  {
    forall k | LastVersion(p.dependencies, k).Some? ensures k.0 == p.name {
      OwnRows(p.dependencies, p.name, k);
    }
  }

  /** The tables after `update_package` overwrites a package of tree
      `tree`. */
  method OverwriteRows(tree: string, mainbranch: string, p: PackageInfo, bs: seq<string>,
                       packages: map<string, PackageRow>, duplicates: set<DuplicateRow>,
                       versions: map<(string, string), VersionRow>, specs: map<(string, string), string>,
                       deps: map<(string, string, string), string>)
    returns (packages': map<string, PackageRow>, duplicates': set<DuplicateRow>,
             versions': map<(string, string), VersionRow>, specs': map<(string, string), string>,
             deps': map<(string, string, string), string>)
    requires Integrity(packages, versions, specs, deps) && p.Valid()
    ensures Integrity(packages', versions', specs', deps')
    ensures packages' == packages[p.name := RowOf(tree, p)]
    ensures duplicates' == if p.name in packages && RowLocation(packages[p.name]) != LocationOf(p)
      then duplicates + DuplicatePair(tree, p, packages[p.name]) else duplicates
    ensures versions' == WithVersions(versions, p.name, bs, VersionOf(p))
    ensures specs' == if mainbranch in bs then ReplaceSpec(specs, p.name, p.spec) else specs
    ensures deps' == if mainbranch in bs then WriteDeps(DropDeps(deps, p.name), p.dependencies) else deps
  {
    duplicates' := if p.name in packages && RowLocation(packages[p.name]) != LocationOf(p)
      then duplicates + DuplicatePair(tree, p, packages[p.name]) else duplicates;
    versions', specs', deps' := WriteBranches(mainbranch, p, bs, versions, specs, deps);
    WriteKeepsIntegrity(packages, versions, specs, deps, p, RowOf(tree, p), mainbranch, bs);
    packages' := packages[p.name := RowOf(tree, p)];
  }

  /** The tables after the rows of package `n` of tree `tree`, found at
      `loc`, are removed for the branches `bs`. */
  method RemoveRows(tree: string, n: string, bs: seq<string>, loc: Location,
                    packages: map<string, PackageRow>, duplicates: set<DuplicateRow>,
                    versions: map<(string, string), VersionRow>, specs: map<(string, string), string>,
                    deps: map<(string, string, string), string>)
    returns (packages': map<string, PackageRow>, duplicates': set<DuplicateRow>,
             versions': map<(string, string), VersionRow>, specs': map<(string, string), string>,
             deps': map<(string, string, string), string>)
    requires Integrity(packages, versions, specs, deps)
    ensures Integrity(packages', versions', specs', deps')
    ensures versions' == DropVersions(versions, n, bs)
    ensures HasVersion(versions', n) ==>
      packages' == packages && specs' == specs && deps' == deps && duplicates' == duplicates
    ensures !HasVersion(versions', n) ==>
      && packages' == packages - {n} && specs' == DropSpec(specs, n)
      && deps' == DropDeps(deps, n) && duplicates' == duplicates - {DuplicateAt(n, tree, loc)}
  {
    versions' := versions;
    for i := 0 to |bs|
      invariant versions' == DropVersions(versions, n, bs[..i])
    {
      assert forall b :: b in bs[..i + 1] <==> b in bs[..i] || b == bs[i];
      versions' := versions' - {(n, bs[i])};
    }
    assert bs[..|bs|] == bs;
    if exists k :: k in versions' && k.0 == n {
      packages', duplicates', specs', deps' := packages, duplicates, specs, deps;
    } else {
      packages', specs', deps' := packages - {n}, DropSpec(specs, n), DropDeps(deps, n);
      duplicates' := duplicates - {DuplicateAt(n, tree, loc)};
    }
  }

  /** Whether `scan_abbs_tree` has already recorded a message for the
      revision. */
  predicate Processed(rels: map<(int, string), RelRow>, mid: int) {
    exists k :: k in rels && k.0 == mid
  }

  /** `package_rel` keeps its rows, and the rows added are the revision's. */
  ghost predicate RelsGrow(before: map<(int, string), RelRow>, after: map<(int, string), RelRow>, mid: int) {
    && (forall k :: k in before ==> k in after)
    && (forall k :: k in after && k !in before ==> k.0 == mid)
  }

  /** The tables of the catalog and the marks table. */
  datatype Catalog = Catalog(packages: map<string, PackageRow>, duplicates: set<DuplicateRow>,
                             versions: map<(string, string), VersionRow>, specs: map<(string, string), string>,
                             deps: map<(string, string, string), string>, rels: map<(int, string), RelRow>)

  ghost predicate Sound(c: Catalog) {
    Integrity(c.packages, c.versions, c.specs, c.deps)
  }

  /** What the scan reads of one revision: its number, its file list, its
      branch tags, its check-in comment, the variables of the file at a path
      and the file's time. */
  datatype Checkin = Checkin(mid: int, files: seq<FileEntry>, tagged: seq<string>, comment: Option<string>,
                             read: string -> ODict<string, string>, mtime: string -> int)

  ghost predicate Readable(ck: Checkin) {
    forall path :: ck.read(path).Valid()
  }

  /** The tables after `update_package` of `p` by tree `tree` on the branches
      `bs`. */
  function Updated(c: Catalog, tree: string, mainbranch: string, bs: seq<string>, p: PackageInfo): (r: Catalog)
    ensures p.name in r.packages
    ensures r.rels == c.rels
    ensures forall n :: n in c.packages ==> n in r.packages
  {
    if p.name in c.packages && c.packages[p.name].tree != tree then
      c.(duplicates := c.duplicates + DuplicatePair(tree, p, c.packages[p.name]))
    else
      c.(packages := c.packages[p.name := RowOf(tree, p)],
         duplicates := if p.name in c.packages && RowLocation(c.packages[p.name]) != LocationOf(p)
                       then c.duplicates + DuplicatePair(tree, p, c.packages[p.name]) else c.duplicates,
         versions := WithVersions(c.versions, p.name, bs, VersionOf(p)),
         specs := if mainbranch in bs then ReplaceSpec(c.specs, p.name, p.spec) else c.specs,
         deps := if mainbranch in bs then WriteDeps(DropDeps(c.deps, p.name), p.dependencies) else c.deps)
  }

  /** `update_package` of a name another tree holds keeps every row and
      only records both locations as duplicates. */
  lemma UpdatedElsewhere(c: Catalog, tree: string, mainbranch: string, bs: seq<string>, p: PackageInfo)
    requires p.name in c.packages && c.packages[p.name].tree != tree
    ensures var r := Updated(c, tree, mainbranch, bs, p);
      && r.packages == c.packages && r.versions == c.versions && r.specs == c.specs && r.deps == c.deps
      && r.rels == c.rels
      && DuplicateAt(p.name, tree, LocationOf(p)) in r.duplicates
      && DuplicateAt(p.name, c.packages[p.name].tree, RowLocation(c.packages[p.name])) in r.duplicates
      && forall d :: d in r.duplicates && d !in c.duplicates ==> d.package == p.name
  {
  }

  /** Otherwise `update_package` makes the package's row this tree's row for
      it, leaving the other names' rows, and records both locations when it
      moved. */
  lemma UpdatedRow(c: Catalog, tree: string, mainbranch: string, bs: seq<string>, p: PackageInfo)
    requires !(p.name in c.packages && c.packages[p.name].tree != tree)
    ensures var r := Updated(c, tree, mainbranch, bs, p);
      && p.name in r.packages && r.packages[p.name] == RowOf(tree, p)
      && (forall n :: n != p.name ==> (n in r.packages <==> n in c.packages))
      && (forall n :: n != p.name && n in c.packages ==> r.packages[n] == c.packages[n])
      && (p.name in c.packages && RowLocation(c.packages[p.name]) != LocationOf(p) ==>
            && DuplicateAt(p.name, tree, LocationOf(p)) in r.duplicates
            && DuplicateAt(p.name, tree, RowLocation(c.packages[p.name])) in r.duplicates)
      && r.rels == c.rels
  {
  }

  /** ... and gives each branch of the commit the package's version, other
      version rows staying; its spec rows become its variables when the main
      branch is among the branches, and the spec and dependency rows stay
      otherwise. */
  lemma UpdatedVersions(c: Catalog, tree: string, mainbranch: string, bs: seq<string>, p: PackageInfo)
    requires !(p.name in c.packages && c.packages[p.name].tree != tree)
    ensures var r := Updated(c, tree, mainbranch, bs, p);
      && (forall b :: b in bs ==> (p.name, b) in r.versions && r.versions[(p.name, b)] == VersionOf(p))
      && (forall k :: k in c.versions && !(k.0 == p.name && k.1 in bs) ==> k in r.versions && r.versions[k] == c.versions[k])
      && (forall k :: k in r.versions ==> k in c.versions || k.0 == p.name)
      && (mainbranch in bs ==> forall key :: (p.name, key) in r.specs <==> key in p.spec.vals)
      && (mainbranch !in bs ==> r.specs == c.specs && r.deps == c.deps)
  {
  }

  /** `update_package` keeps every row's package listed. */
  lemma UpdatedSound(c: Catalog, tree: string, mainbranch: string, bs: seq<string>, p: PackageInfo)
    requires Sound(c) && p.Valid()
    ensures Sound(Updated(c, tree, mainbranch, bs, p))
  {
    WriteKeepsIntegrity(c.packages, c.versions, c.specs, c.deps, p, RowOf(tree, p), mainbranch, bs);
  }

  /** `update_package` of each package in turn. */
  function UpdatedAll(c: Catalog, tree: string, mainbranch: string, bs: seq<string>, infos: seq<PackageInfo>)
    : (r: Catalog)
    ensures r.rels == c.rels
    decreases |infos|
  {
    if infos == [] then c
    else Updated(UpdatedAll(c, tree, mainbranch, bs, infos[..|infos| - 1]), tree, mainbranch, bs, infos[|infos| - 1])
  }

  /** After the packages are written each of them is listed, no name is
      dropped, the rows of other trees' packages stay, and a new name
      belongs to this tree. */
  lemma {:induction false} UpdatedAllRows(c: Catalog, tree: string, mainbranch: string, bs: seq<string>,
                                          infos: seq<PackageInfo>)
    ensures var r := UpdatedAll(c, tree, mainbranch, bs, infos);
      && (forall n :: n in c.packages ==> n in r.packages)
      && (forall p :: p in infos ==> p.name in r.packages)
      && (forall n :: n in c.packages && c.packages[n].tree != tree ==> r.packages[n] == c.packages[n])
      && (forall n :: n in r.packages && n !in c.packages ==> r.packages[n].tree == tree)
    decreases |infos|
  {
    if infos != [] {
      var init, last := infos[..|infos| - 1], infos[|infos| - 1];
      UpdatedAllRows(c, tree, mainbranch, bs, init);
      var mid := UpdatedAll(c, tree, mainbranch, bs, init);
      assert UpdatedAll(c, tree, mainbranch, bs, infos) == Updated(mid, tree, mainbranch, bs, last);
      UpdatedRows(mid, tree, mainbranch, bs, last);
      assert forall p :: p in infos ==> p in init || p == last;
    }
  }

  /** `update_package` lists the package, drops no name, leaves the rows of
      other trees' packages alone, and any row it changes belongs to this
      tree. */
  lemma UpdatedRows(c: Catalog, tree: string, mainbranch: string, bs: seq<string>, p: PackageInfo)
    ensures var r := Updated(c, tree, mainbranch, bs, p);
      && (forall n :: n in c.packages ==> n in r.packages)
      && p.name in r.packages
      && (forall n :: n in c.packages && c.packages[n].tree != tree ==> r.packages[n] == c.packages[n])
      && (forall n :: n in r.packages ==> (n in c.packages && r.packages[n] == c.packages[n]) || r.packages[n].tree == tree)
  {
    var r := Updated(c, tree, mainbranch, bs, p);
    if p.name in c.packages && c.packages[p.name].tree != tree {
      assert r.packages == c.packages;
    } else {
      assert r.packages == c.packages[p.name := RowOf(tree, p)];
    }
  }

  /** Updating packages one by one keeps every row's package listed. */
  lemma {:induction false} UpdatedAllSound(c: Catalog, tree: string, mainbranch: string, bs: seq<string>,
                                           infos: seq<PackageInfo>)
    requires Sound(c) && forall p :: p in infos ==> p.Valid()
    ensures Sound(UpdatedAll(c, tree, mainbranch, bs, infos))
    decreases |infos|
  {
    if infos != [] {
      var init := infos[..|infos| - 1];
      assert forall p :: p in init ==> p in infos;
      UpdatedAllSound(c, tree, mainbranch, bs, init);
      UpdatedSound(UpdatedAll(c, tree, mainbranch, bs, init), tree, mainbranch, bs, infos[|infos| - 1]);
    }
  }

  /** The message `scan_abbs_tree` records for a package: the check-in
      comment as `parse_commit_msg` reads it for the package, when there is a
      comment and the message is not empty. */
  function Message(name: string, comment: Option<string>): (r: Option<string>)
    ensures r.Some? ==> r.value != ""
  {
    if comment.None? then None
    else
      var msg := AbbsCommit.ParseCommitMsg(name, comment.value);
      if msg.Some? && msg.value != "" then msg else None
  }

  /** `package_rel` after a row for each package with a message. */
  function RelsOf(rels: map<(int, string), RelRow>, mid: int, infos: seq<PackageInfo>, comment: Option<string>)
    : (r: map<(int, string), RelRow>)
    ensures forall k :: k in r <==>
      k in rels || (k.0 == mid && exists p :: p in infos && p.name == k.1 && Message(p.name, comment).Some?)
    ensures forall k :: k in rels && k.0 != mid ==> r[k] == rels[k]
    ensures comment.None? ==> r == rels
    decreases |infos|
  {
    if infos == [] then rels
    else
      var init := infos[..|infos| - 1];
      var p := infos[|infos| - 1];
      var prev := RelsOf(rels, mid, init, comment);
      assert forall q :: q in infos <==> q in init || q == p;
      var msg := Message(p.name, comment);
      if msg.Some? then prev[(mid, p.name) := RelRow(p.version, p.release, p.epoch, msg.value)] else prev
  }

  /** The tables after the packages read are written, with their messages. */
  function Written(c: Catalog, tree: string, mainbranch: string, bs: seq<string>, infos: seq<PackageInfo>,
                   mid: int, comment: Option<string>): (r: Catalog)
    ensures RelsGrow(c.rels, r.rels, mid)
    ensures comment.None? ==> r.rels == c.rels
  {
    UpdatedAll(c, tree, mainbranch, bs, infos).(rels := RelsOf(c.rels, mid, infos, comment))
  }

  /** `update_package` does not read or write `package_rel`. */
  lemma UpdatedRels(c: Catalog, tree: string, mainbranch: string, bs: seq<string>, p: PackageInfo,
                    rels: map<(int, string), RelRow>)
    ensures Updated(c.(rels := rels), tree, mainbranch, bs, p) == Updated(c, tree, mainbranch, bs, p).(rels := rels)
  {
  }

  /** Writing one more package is `update_package` of it, and its message
      row when it has one. */
  lemma WrittenStep(c: Catalog, tree: string, mainbranch: string, bs: seq<string>, infos: seq<PackageInfo>,
                    mid: int, comment: Option<string>, j: nat)
    requires j < |infos|
    ensures var w := Written(c, tree, mainbranch, bs, infos[..j], mid, comment);
            var p := infos[j];
            var msg := Message(p.name, comment);
            Written(c, tree, mainbranch, bs, infos[..j + 1], mid, comment)
            == Updated(w, tree, mainbranch, bs, p).(rels := if msg.Some? then w.rels[(mid, p.name) := RelRow(p.version, p.release, p.epoch, msg.value)] else w.rels)
  {
    var init := infos[..j + 1][..j];
    assert init == infos[..j];
    var u := UpdatedAll(c, tree, mainbranch, bs, init);
    assert UpdatedAll(c, tree, mainbranch, bs, infos[..j + 1]) == Updated(u, tree, mainbranch, bs, infos[j]);
    var p := infos[j];
    var msg := Message(p.name, comment);
    var rs := RelsOf(c.rels, mid, init, comment);
    assert RelsOf(c.rels, mid, infos[..j + 1], comment)
        == if msg.Some? then rs[(mid, p.name) := RelRow(p.version, p.release, p.epoch, msg.value)] else rs;
    UpdatedRels(u, tree, mainbranch, bs, p, rs);
  }

  /** The tables after `RemoveRows`. */
  function Stale(c: Catalog, tree: string, n: string, bs: seq<string>, loc: Location): Catalog {
    var vs := DropVersions(c.versions, n, bs);
    if HasVersion(vs, n) then c.(versions := vs)
    else
      c.(versions := vs, packages := c.packages - {n}, specs := DropSpec(c.specs, n),
         deps := DropDeps(c.deps, n), duplicates := c.duplicates - {DuplicateAt(n, tree, loc)})
  }

  /** The packages of tree `tree` at `loc`. */
  function Touched(c: Catalog, tree: string, loc: Location): set<string> {
    set n | n in c.packages && c.packages[n].tree == tree && RowLocation(c.packages[n]) == loc
  }

  /** The version rows left once those of `names` on the branches `bs` go. */
  function Remaining(versions: map<(string, string), VersionRow>, names: set<string>, bs: seq<string>)
    : (r: map<(string, string), VersionRow>)
    ensures forall k :: k in r <==> k in versions && !(k.0 in names && k.1 in bs)
    ensures forall k :: k in r ==> r[k] == versions[k]
  {
    map k | k in versions && !(k.0 in names && k.1 in bs) :: versions[k]
  }

  /** The names left with no version row. */
  function Gone(versions: map<(string, string), VersionRow>, names: set<string>): (r: set<string>)
    ensures forall n :: n in r <==> n in names && !HasVersion(versions, n)
  {
    set n | n in names && !HasVersion(versions, n)
  }

  /** The tables after the stale rows of each of `names` at `loc` are
      removed: every version row of the names on the branches `bs` goes, and
      a name with no version row left goes with its spec and dependency rows
      and its duplicate row at the location. */
  function Removed(c: Catalog, tree: string, names: set<string>, bs: seq<string>, loc: Location): (r: Catalog)
    ensures r.rels == c.rels
    ensures forall n :: n in r.packages <==> n in c.packages && (n !in names || HasVersion(r.versions, n))
  {
    var vs := Remaining(c.versions, names, bs);
    var gone := Gone(vs, names);
    c.(versions := vs, packages := c.packages - gone,
       specs := map k | k in c.specs && k.0 !in gone :: c.specs[k],
       deps := map k | k in c.deps && k.0 !in gone :: c.deps[k],
       duplicates := set d | d in c.duplicates && !(d.package in gone && d == DuplicateAt(d.package, tree, loc)))
  }

  /** The rules of the removal, for all the names at once: the version rows
      of the names on the branches go; a name goes exactly when none of its
      version rows is left, and then its spec and dependency rows and its
      duplicate row at the location go with it; every other row stays. */
  lemma RemovedRules(c: Catalog, tree: string, names: set<string>, bs: seq<string>, loc: Location)
    ensures var r := Removed(c, tree, names, bs, loc);
      && (forall k :: k in r.versions <==> k in c.versions && !(k.0 in names && k.1 in bs))
      && (forall n :: n in names && n in c.packages ==> (n in r.packages <==> HasVersion(r.versions, n)))
      && (forall n :: n !in names ==> (n in r.packages <==> n in c.packages))
      && (forall n :: n in names && !HasVersion(r.versions, n) ==>
            && (forall k :: k in r.specs ==> k.0 != n) && (forall k :: k in r.deps ==> k.0 != n)
            && DuplicateAt(n, tree, loc) !in r.duplicates)
      && (forall k :: k in c.specs && HasVersion(r.versions, k.0) ==> k in r.specs)
      && (forall k :: k in c.deps && HasVersion(r.versions, k.0) ==> k in r.deps)
      && r.rels == c.rels
  {
  }

  /** Removing no name changes nothing. */
  lemma RemovedNone(c: Catalog, tree: string, bs: seq<string>, loc: Location)
    ensures Removed(c, tree, {}, bs, loc) == c
  {
    var r := Removed(c, tree, {}, bs, loc);
    assert Gone(Remaining(c.versions, {}, bs), {}) == {};
    assert r.versions == c.versions;
    assert r.specs == c.specs;
    assert r.deps == c.deps;
    assert r.duplicates == c.duplicates;
  }

  /** One more name drops its own version rows only. */
  lemma RemainingStep(versions: map<(string, string), VersionRow>, done: set<string>, n: string, bs: seq<string>)
    ensures Remaining(versions, done + {n}, bs) == DropVersions(Remaining(versions, done, bs), n, bs)
  {
  }

  /** One more name is gone exactly when it has no version row left; the
      other names keep their version rows. */
  lemma GoneStep(versions: map<(string, string), VersionRow>, done: set<string>, n: string, bs: seq<string>)
    requires n !in done
    ensures var a := Remaining(versions, done, bs);
            Gone(DropVersions(a, n, bs), done + {n})
            == if HasVersion(DropVersions(a, n, bs), n) then Gone(a, done) else Gone(a, done) + {n}
  {
    var a := Remaining(versions, done, bs);
    var b := DropVersions(a, n, bs);
    forall m | m != n ensures HasVersion(b, m) == HasVersion(a, m) {
      if HasVersion(a, m) {
        var k :| k in a && k.0 == m;
        assert k in b;
      }
    }
  }

  /** Dropping the rows of the names in `gone + {n}` is dropping those of
      `gone`, then those of `n`. */
  lemma DropGoneStep(c: Catalog, tree: string, gone: set<string>, n: string, loc: Location)
    ensures (map k | k in c.specs && k.0 !in gone + {n} :: c.specs[k])
            == DropSpec(map k | k in c.specs && k.0 !in gone :: c.specs[k], n)
    ensures (map k | k in c.deps && k.0 !in gone + {n} :: c.deps[k])
            == DropDeps(map k | k in c.deps && k.0 !in gone :: c.deps[k], n)
    ensures (set d | d in c.duplicates && !(d.package in gone + {n} && d == DuplicateAt(d.package, tree, loc)))
            == (set d | d in c.duplicates && !(d.package in gone && d == DuplicateAt(d.package, tree, loc)))
               - {DuplicateAt(n, tree, loc)}
  {
  }

  /** The names are independent: removing one more name is `RemoveRows` of
      it after the others. */
  lemma RemovedStep(c: Catalog, tree: string, done: set<string>, n: string, bs: seq<string>, loc: Location)
    requires n !in done
    ensures Removed(c, tree, done + {n}, bs, loc) == Stale(Removed(c, tree, done, bs, loc), tree, n, bs, loc)
  {
    var va := Remaining(c.versions, done, bs);
    var vb := Remaining(c.versions, done + {n}, bs);
    RemainingStep(c.versions, done, n, bs);
    GoneStep(c.versions, done, n, bs);
    var ga := Gone(va, done);
    if !HasVersion(vb, n) {
      DropGoneStep(c, tree, ga, n, loc);
    }
  }

  /** The tables after a location's duplicate rows of this tree are
      deleted. */
  function Cleared(c: Catalog, tree: string, loc: Location): Catalog {
    c.(duplicates := set d | d in c.duplicates && !AtLocation(d, tree, loc))
  }

  /** The location of a work item's package group. */
  function ItemLocation(w: WorkItem): Location {
    var (category, section) := SplitSecpath(w.secpath);
    Location(category, section, w.directory)
  }

  /** One work item of `scan_abbs_tree` for tree `tree`: the stale rows of
      the tree's packages at the location go, then the location's duplicate
      rows, and for an addition the packages read there are written. */
  function ScannedItem(c: Catalog, tree: string, mainbranch: string, branches: seq<string>, ck: Checkin,
                       w: WorkItem): (r: (Catalog, Result<()>))
    requires Readable(ck)
    ensures r.1.Err? <==> w.status == '+' && PackageInfos(ck.files, w.secpath, w.directory, ck.read, ck.mtime).Err?
    ensures RelsGrow(c.rels, r.0.rels, ck.mid)
    ensures w.status != '+' ==> r.0.rels == c.rels
  {
    var bs := BranchesOfCommit(branches, ck.tagged);
    var loc := ItemLocation(w);
    var cleared := Cleared(Removed(c, tree, Touched(c, tree, loc), bs, loc), tree, loc);
    if w.status != '+' then (cleared, Ok(()))
    else
      var infos := PackageInfos(ck.files, w.secpath, w.directory, ck.read, ck.mtime);
      if infos.Err? then (cleared, Err(infos.error))
      else (Written(cleared, tree, mainbranch, bs, infos.value, ck.mid, ck.comment), Ok(()))
  }

  /** The work items in order, up to the first that raises. */
  function ItemsScanned(c: Catalog, tree: string, mainbranch: string, branches: seq<string>, ck: Checkin,
                        items: seq<WorkItem>): (r: (Catalog, Result<()>))
    requires Readable(ck)
    ensures RelsGrow(c.rels, r.0.rels, ck.mid)
    decreases |items|
  {
    if items == [] then (c, Ok(()))
    else
      var s := ScannedItem(c, tree, mainbranch, branches, ck, items[0]);
      if s.1.Err? then s else ItemsScanned(s.0, tree, mainbranch, branches, ck, items[1..])
  }

  /** The locations the make-up pass reads: those of this tree's duplicate
      rows whose package is gone. */
  function Orphans(c: Catalog, tree: string): set<(string, string)> {
    set d | d in c.duplicates && d.package !in c.packages && d.tree == tree :: (DuplicateSecpath(d), d.directory)
  }

  /** The make-up pass at one location: read again when its spec file (or
      anything below that path) is listed. */
  function MadeUpAt(c: Catalog, tree: string, mainbranch: string, branches: seq<string>, ck: Checkin,
                    l: (string, string)): (r: (Catalog, Result<()>))
    requires Readable(ck)
    ensures r.0.rels == c.rels
  {
    if !ExistsIn(ck.files, SpecPath(l.0, l.1), true, false) then (c, Ok(()))
    else
      var infos := PackageInfos(ck.files, l.0, l.1, ck.read, ck.mtime);
      if infos.Err? then (c, Err(infos.error))
      else (Written(c, tree, mainbranch, BranchesOfCommit(branches, ck.tagged), infos.value, ck.mid, None), Ok(()))
  }

  /** The make-up pass over the locations in `order`, up to the first that
      raises. */
  function MadeUp(c: Catalog, tree: string, mainbranch: string, branches: seq<string>, ck: Checkin,
                  order: seq<(string, string)>): (r: (Catalog, Result<()>))
    requires Readable(ck)
    ensures r.0.rels == c.rels
    decreases |order|
  {
    if order == [] then (c, Ok(()))
    else
      var s := MadeUp(c, tree, mainbranch, branches, ck, order[..|order| - 1]);
      if s.1.Err? then s else MadeUpAt(s.0, tree, mainbranch, branches, ck, order[|order| - 1])
  }

  /** `order` lists distinct elements of `s`, all of them when `complete`. */
  predicate Enumerates<T(==,!new)>(order: seq<T>, s: set<T>, complete: bool) {
    NoDup(order) && (forall x :: x in order ==> x in s) && (complete ==> forall x :: x in s ==> x in order)
  }

  /** The make-up pass took the tables from `c0` to `c` with outcome `r`,
      the locations being read in the order `order`: every orphaned location
      once when nothing raised, and those before the one that raised
      otherwise. */
  ghost predicate MadeUpBy(c0: Catalog, c: Catalog, r: Result<()>, tree: string, mainbranch: string,
                           branches: seq<string>, ck: Checkin, order: seq<(string, string)>)
    requires Readable(ck)
  {
    Enumerates(order, Orphans(c0, tree), r.Ok?) && MadeUp(c0, tree, mainbranch, branches, ck, order) == (c, r)
  }

  /** The catalog of one abbs tree: its name, main branch and configured
      branches (empty when none are configured), and the tables it keeps. */
  class SourceRepo {
    const name: string
    const mainbranch: string
    const branches: seq<string>
    var packages: map<string, PackageRow>
    var duplicates: set<DuplicateRow>
    var versions: map<(string, string), VersionRow>
    var specs: map<(string, string), string>
    var deps: map<(string, string, string), string>
    var rels: map<(int, string), RelRow>

    ghost predicate Valid()
      reads this
    {
      Integrity(packages, versions, specs, deps)
    }

    /** The tables as one value. */
    function State(): Catalog
      reads this
    {
      Catalog(packages, duplicates, versions, specs, deps, rels)
    }

    constructor (name: string, mainbranch: string, branches: seq<string>)
      ensures Valid()
      ensures this.name == name && this.mainbranch == mainbranch && this.branches == branches
      ensures packages == map[] && duplicates == {} && versions == map[] && specs == map[]
      ensures deps == map[] && rels == map[]
    {
      this.name, this.mainbranch, this.branches := name, mainbranch, branches;
      packages, duplicates, versions, specs, deps, rels := map[], {}, map[], map[], map[], map[];
    }

    /** `SourceRepo(name, ..., mainbranch, branches)`: a tree name with a `/`,
        or configured branches without the main branch, raise `ValueError`. */
    static method Open(name: string, mainbranch: string, branches: seq<string>) returns (r: Result<SourceRepo>)
      ensures r.Err? <==> '/' in name || (branches != [] && mainbranch !in branches)
      ensures r.Err? ==> r.error == "ValueError"
      ensures r.Ok? ==> fresh(r.value) && r.value.Valid()
      ensures r.Ok? ==> r.value.name == name && r.value.mainbranch == mainbranch && r.value.branches == branches
      ensures r.Ok? ==> r.value.packages == map[] && r.value.duplicates == {} && r.value.rels == map[]
    {
      if '/' in name || (branches != [] && mainbranch !in branches) {
        r := Err("ValueError");
      } else {
        var repo := new SourceRepo(name, mainbranch, branches);
        r := Ok(repo);
      }
    }

    /** `update_package(mid, pkg)`, `tagged` being the branches the revision
        is on. A name another tree holds only gets both locations recorded
        as duplicates; otherwise the row is overwritten (both locations
        recorded when it moved), a version row is written per branch of the
        commit, and the spec and dependency rows are rewritten when the main
        branch is one of them. */
    method UpdatePackage(p: PackageInfo, tagged: seq<string>)
      requires Valid() && p.Valid()
      modifies this
      ensures Valid() && rels == old(rels)
      ensures State() == Updated(old(State()), name, mainbranch, BranchesOfCommit(branches, tagged), p)
    {
      if p.name in packages && packages[p.name].tree != name {
        duplicates := duplicates + DuplicatePair(name, p, packages[p.name]);
      } else {
        Overwrite(p, BranchesOfCommit(branches, tagged));
      }
    }

    /** The part of `update_package` after the other-tree test. */
    method Overwrite(p: PackageInfo, bs: seq<string>)
      requires Valid() && p.Valid()
      modifies this
      ensures Valid() && rels == old(rels)
      ensures packages == old(packages)[p.name := RowOf(name, p)]
      ensures duplicates == (if p.name in old(packages) && RowLocation(old(packages)[p.name]) != LocationOf(p)
                             then old(duplicates) + DuplicatePair(name, p, old(packages)[p.name])
                             else old(duplicates))
      ensures versions == WithVersions(old(versions), p.name, bs, VersionOf(p))
      ensures specs == (if mainbranch in bs then ReplaceSpec(old(specs), p.name, p.spec) else old(specs))
      ensures deps == (if mainbranch in bs then WriteDeps(DropDeps(old(deps), p.name), p.dependencies) else old(deps))
    {
      packages, duplicates, versions, specs, deps :=
        OverwriteRows(name, mainbranch, p, bs, packages, duplicates, versions, specs, deps);
    }

    /** The rows of one package found at a touched location: its version
        rows on the commit's branches go, and when none of its version rows
        is left the package goes too, with its spec and dependency rows and
        its own duplicate row at the location. */
    method RemoveStale(n: string, bs: seq<string>, loc: Location)
      requires Valid()
      modifies this
      ensures Valid() && rels == old(rels)
      ensures State() == Stale(old(State()), name, n, bs, loc)
      ensures versions == DropVersions(old(versions), n, bs)
      ensures HasVersion(versions, n) ==>
        packages == old(packages) && specs == old(specs) && deps == old(deps) && duplicates == old(duplicates)
      ensures !HasVersion(versions, n) ==>
        && packages == old(packages) - {n} && specs == DropSpec(old(specs), n)
        && deps == DropDeps(old(deps), n) && duplicates == old(duplicates) - {DuplicateAt(n, name, loc)}
    {
      packages, duplicates, versions, specs, deps :=
        RemoveRows(name, n, bs, loc, packages, duplicates, versions, specs, deps);
    }

    /** The duplicate rows of every package at a touched location of this
        tree are deleted. */
    method ClearLocation(loc: Location)
      requires Valid()
      modifies this
      ensures Valid()
      ensures State() == Cleared(old(State()), name, loc)
    {
      duplicates := set d | d in duplicates && !AtLocation(d, name, loc);
    }

    /** The final statement of `scan_abbs_tree`. */
    method Prune()
      requires Valid()
      modifies this
      ensures Valid()
      ensures State() == old(State()).(duplicates := Pruned(old(duplicates)))
      ensures forall d :: d in duplicates ==> !Single(duplicates, d)
    {
      PrunedNoSingles(duplicates);
      duplicates := Pruned(duplicates);
    }

    /** `update_package` for each package read, and a `package_rel` row for
        each whose message is not empty. */
    method WritePackages(mid: int, infos: seq<PackageInfo>, tagged: seq<string>, comment: Option<string>)
      requires Valid() && forall p :: p in infos ==> p.Valid()
      modifies this
      ensures Valid()
      ensures State() == Written(old(State()), name, mainbranch, BranchesOfCommit(branches, tagged), infos, mid, comment)
    {
      ghost var c0 := State();
      ghost var bs := BranchesOfCommit(branches, tagged);
      for j := 0 to |infos|
        invariant Valid()
        invariant State() == Written(c0, name, mainbranch, bs, infos[..j], mid, comment)
      {
        var p := infos[j];
        assert p in infos;
        WrittenStep(c0, name, mainbranch, bs, infos, mid, comment, j);
        ghost var w := State();
        UpdatePackage(p, tagged);
        assert State() == Updated(w, name, mainbranch, bs, p);
        var msg := Message(p.name, comment);
        if msg.Some? {
          rels := rels[(mid, p.name) := RelRow(p.version, p.release, p.epoch, msg.value)];
        }
      }
      assert infos[..|infos|] == infos;
    }

    /** The rows of every package of this tree at `loc`, removed one
        package at a time. */
    method RemoveTouched(bs: seq<string>, loc: Location)
      requires Valid()
      modifies this
      ensures Valid()
      ensures State() == Removed(old(State()), name, Touched(old(State()), name, loc), bs, loc)
    {
      ghost var c0 := State();
      var names := set n | n in packages && packages[n].tree == name && RowLocation(packages[n]) == loc;
      ghost var all := names;
      assert all == Touched(c0, name, loc);
      RemovedNone(c0, name, bs, loc);
      assert all - names == {};
      while names != {}
        invariant Valid() && names <= all
        invariant State() == Removed(c0, name, all - names, bs, loc)
        decreases names
      {
        var n :| n in names;
        RemovedStep(c0, name, all - names, n, bs, loc);
        assert (all - names) + {n} == all - (names - {n});
        RemoveStale(n, bs, loc);
        names := names - {n};
      }
      assert all - names == all;
    }

    /** One work item of `scan_abbs_tree`: the packages of this tree at the
        location lose their rows for the commit's branches, the location's
        duplicate rows go, and for an addition the location is read again. */
    method ScanItem(ck: Checkin, w: WorkItem) returns (r: Result<()>)
      requires Valid() && Readable(ck)
      modifies this
      ensures Valid()
      ensures (State(), r) == ScannedItem(old(State()), name, mainbranch, branches, ck, w)
    {
      var bs := BranchesOfCommit(branches, ck.tagged);
      var loc := ItemLocation(w);
      RemoveTouched(bs, loc);
      ClearLocation(loc);
      r := Ok(());
      if w.status == '+' {
        var infos := ReadPackageInfo(name, ck.files, w.secpath, w.directory, ck.read, ck.mtime);
        if infos.Err? {
          r := Err(infos.error);
        } else {
          WritePackages(ck.mid, infos.value, ck.tagged, ck.comment);
        }
      }
    }

    /** The make-up pass at one location. */
    method MakeUpAt(ck: Checkin, l: (string, string)) returns (r: Result<()>)
      requires Valid() && Readable(ck)
      modifies this
      ensures Valid() && rels == old(rels)
      ensures (State(), r) == MadeUpAt(old(State()), name, mainbranch, branches, ck, l)
    {
      r := Ok(());
      var present := Exists(ck.files, SpecPath(l.0, l.1), true, false);
      if present {
        var infos := ReadPackageInfo(name, ck.files, l.0, l.1, ck.read, ck.mtime);
        if infos.Err? {
          r := Err(infos.error);
        } else {
          WritePackages(ck.mid, infos.value, ck.tagged, None);
        }
      }
    }

    /** The make-up pass of `scan_abbs_tree`: each location of this tree's
        duplicate rows whose package is gone is read again when a spec file
        (or anything below that path) is listed there. The locations come
        from a query with no order, so the pass is stated for some order of
        them. */
    method MakeUp(ck: Checkin) returns (r: Result<()>)
      requires Valid() && Readable(ck)
      modifies this
      ensures Valid() && rels == old(rels)
      ensures exists order :: MadeUpBy(old(State()), State(), r, name, mainbranch, branches, ck, order)
    {
      ghost var c0 := State();
      ghost var all := Orphans(c0, name);
      var locs := set d | d in duplicates && d.package !in packages && d.tree == name :: (DuplicateSecpath(d), d.directory);
      assert locs == all;
      ghost var order: seq<(string, string)> := [];
      r := Ok(());
      while locs != {} && r.Ok?
        invariant Valid() && rels == old(rels)
        invariant locs <= all && (forall l :: l in order ==> l !in locs)
        invariant forall l :: l in all && l !in locs ==> l in order
        invariant Enumerates(order, all, false)
        invariant (State(), r) == MadeUp(c0, name, mainbranch, branches, ck, order)
        decreases locs
      {
        var l :| l in locs;
        NoDupSnoc(order, l);
        assert (order + [l])[..|order|] == order;
        order := order + [l];
        locs := locs - {l};
        r := MakeUpAt(ck, l);
      }
      assert MadeUpBy(c0, State(), r, name, mainbranch, branches, ck, order);
    }

    /** `scan_abbs_tree(mid)`: nothing for a revision that already has a
        `package_rel` row; otherwise each work item of the revision's
        changes (`links` are its `mlink` rows), then the make-up pass, then
        the pruning of single duplicate rows. */
    method ScanAbbsTree(ck: Checkin, links: seq<MLink>) returns (r: Result<()>)
      requires Valid() && Readable(ck)
      modifies this
      ensures Valid() && RelsGrow(old(rels), rels, ck.mid)
      ensures Processed(old(rels), ck.mid) ==> r.Ok? && unchanged(this)
      ensures !Processed(old(rels), ck.mid) ==>
        var s := ItemsScanned(old(State()), name, mainbranch, branches, ck,
                              Updates(LinksChanges(links), ck.files));
        && (s.1.Err? ==> r == s.1 && State() == s.0)
        && (s.1.Ok? ==> exists c: Catalog, order ::
              MadeUpBy(s.0, c, r, name, mainbranch, branches, ck, order)
              && State() == if r.Ok? then c.(duplicates := Pruned(c.duplicates)) else c)
      ensures r.Ok? && !Processed(old(rels), ck.mid) ==> forall d :: d in duplicates ==> !Single(duplicates, d)
    {
      if exists k :: k in rels && k.0 == ck.mid {
        r := Ok(());
      } else {
        ghost var c0 := State();
        // The artifact numbers of the changes are not used by the scan.
        var changes := FileChanges(ck.files, links, false, _ => 0);
        var items := ListUpdate(changes, ck.files);
        r := Ok(());
        var i := 0;
        while i < |items| && r.Ok?
          invariant i <= |items| && Valid() && RelsGrow(c0.rels, rels, ck.mid)
          invariant r.Ok? ==> ItemsScanned(State(), name, mainbranch, branches, ck, items[i..])
                              == ItemsScanned(c0, name, mainbranch, branches, ck, items)
          invariant r.Err? ==> (State(), r) == ItemsScanned(c0, name, mainbranch, branches, ck, items)
        {
          assert items[i..][1..] == items[i + 1..];
          r := ScanItem(ck, items[i]);
          i := i + 1;
        }
        if r.Ok? {
          ghost var c1 := State();
          r := MakeUp(ck);
          ghost var order :| MadeUpBy(c1, State(), r, name, mainbranch, branches, ck, order);
          ghost var c2 := State();
          if r.Ok? {
            Prune();
          }
          assert MadeUpBy(c1, c2, r, name, mainbranch, branches, ck, order);
        }
      }
    }
  }
}
