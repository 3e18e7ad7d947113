/** The tree scanner of `abbsmeta.py`: a revision's file list and file
    changes, and the `(section path, directory)` work items they give. The
    file list (the `F` cards of the revision's manifest) and the `mlink`
    rows of the revision are inputs. */
module AbbsScan {
  import opened Wrappers
  import Text
  import opened Collections

  /** One entry of `file_list(mid)`: a path, its artifact hash and its
      permission text (`l` for a symbolic link, `x` for an executable). */
  datatype FileEntry = FileEntry(name: string, uuid: string, perm: string)

  /** A `FileChange` record: `+` or `-`, the path, the artifact and whether
      it is a symbolic link. */
  datatype FileChange = FileChange(status: char, name: string, rid: int, isLink: bool)

  /** One `mlink` row of the revision: the new and the previous artifact
      (`fid` 0 for a deletion), the path, the previous path of a rename, and
      the permission code (2 for a link). */
  datatype MLink = MLink(fid: int, pid: int, fn: string, pfn: Option<string>, mperm: int)

  predicate IsStatus(c: FileChange) { c.status == '+' || c.status == '-' }

  /** `posixpath.join(a, b)`: an absolute `b` replaces `a`; otherwise a `/`
      is put between them unless `a` is empty or already ends with one. */
  function PathJoin(a: string, b: string): (r: string)
    ensures Text.StartsWith(b, "/") ==> r == b
    ensures !Text.StartsWith(b, "/") && a != [] && a[|a| - 1] != '/' ==> r == a + "/" + b
    ensures !Text.StartsWith(b, "/") && (a == [] || a[|a| - 1] == '/') ==> r == a + b
  {
    if Text.StartsWith(b, "/") then b
    else if a == [] || a[|a| - 1] == '/' then a + b
    else a + "/" + b
  }

  /** The number of characters before and including the last `/`. */
  function AfterLastSlash(p: string): (i: nat)
    ensures i <= |p|
    ensures i > 0 ==> p[i - 1] == '/'
    ensures '/' !in p[i..]
  {
    if p == [] then 0
    else if p[|p| - 1] == '/' then |p|
    else
      var i := AfterLastSlash(p[..|p| - 1]);
      assert p[i..] == p[..|p| - 1][i..] + [p[|p| - 1]];
      i
  }

  /** The last `/` of `x + "/" + f` is the one put there when `f` has none. */
  lemma {:induction false} AfterLastSlashOf(x: string, f: string)
    requires '/' !in f
    ensures AfterLastSlash(x + "/" + f) == |x| + 1
  {
    var p := x + "/" + f;
    if f != [] {
      assert f[|f| - 1] in f;
      assert p[..|p| - 1] == x + "/" + f[..|f| - 1];
      assert forall c :: c in f[..|f| - 1] ==> c in f;
      AfterLastSlashOf(x, f[..|f| - 1]);
    }
  }

  function RStripSlashes(s: string): (r: string)
    ensures r == [] || r[|r| - 1] != '/'
    ensures Text.StartsWith(s, r)
  {
    if s == [] || s[|s| - 1] != '/' then s
    else
      var r := RStripSlashes(s[..|s| - 1]);
      assert s[..|r|] == s[..|s| - 1][..|r|];
      r
  }

  /** `posixpath.split(p)`: the part after the last `/`, and the part
      before it with its trailing slashes removed unless it is all slashes. */
  function PathSplit(p: string): (r: (string, string))
    ensures '/' !in r.1
    ensures Text.StartsWith(p, r.0) && |r.1| <= |p| && p[|p| - |r.1|..] == r.1
  {
    var i := AfterLastSlash(p);
    var head := p[..i];
    assert p[|p| - |p[i..]|..] == p[i..];
    if head != [] && exists c :: c in head && c != '/' then
      var h := RStripSlashes(head);
      assert p[..|h|] == head[..|h|];
      (h, p[i..])
    else (head, p[i..])
  }

  /** A directory and a file name found by splitting their join come back. */
  lemma SplitJoin(dir: string, file: string)
    requires dir != [] && dir[|dir| - 1] != '/' && file != [] && '/' !in file
    ensures PathSplit(PathJoin(dir, file)) == (dir, file)
  {
    var p := dir + "/" + file;
    assert PathJoin(dir, file) == p by {
      assert !Text.StartsWith(file, "/") by { assert file[0] != '/' by { assert file[0] in file; } }
    }
    var i := AfterLastSlash(p);
    AfterLastSlashOf(dir, file);
    assert p[..i] == dir + "/";
    assert dir[|dir| - 1] in p[..i] by { assert p[..i][|dir| - 1] == dir[|dir| - 1]; }
    assert RStripSlashes(dir + "/") == dir by {
      assert (dir + "/")[..|dir|] == dir;
    }
  }

  /** `file_list(mid)[path]`: the entry of the path, if the list has one. */
  function Lookup(files: seq<FileEntry>, path: string): (r: Option<FileEntry>)
    ensures r.Some? <==> exists i :: 0 <= i < |files| && files[i].name == path
    ensures r.Some? ==> r.value in files && r.value.name == path
  {
    if files == [] then None
    else if files[0].name == path then Some(files[0])
    else
      var r := Lookup(files[1..], path);
      assert forall i :: 1 <= i < |files| ==> files[i] == files[1..][i - 1];
      r
  }

  /** The first entry that decides `exists`: the path itself, or with
      `isdir` any path below it. */
  predicate Hits(e: FileEntry, path: string, isdir: bool) {
    e.name == path || (isdir && Text.StartsWith(e.name, path + "/"))
  }

  /** `exists(mid, path, isdir, ignorelink)` over the file list. */
  function ExistsIn(files: seq<FileEntry>, path: string, isdir: bool, ignorelink: bool): bool {
    if files == [] then false
    else if files[0].name == path then !(ignorelink && 'l' in files[0].perm)
    else if isdir && Text.StartsWith(files[0].name, path + "/") then true
    else ExistsIn(files[1..], path, isdir, ignorelink)
  }

  /** Without `ignorelink` a path exists when it, or with `isdir` something
      below it, is listed. */
  lemma {:induction false} ExistsListed(files: seq<FileEntry>, path: string, isdir: bool)
    ensures ExistsIn(files, path, isdir, false) <==> exists i :: 0 <= i < |files| && Hits(files[i], path, isdir)
  {
    if files != [] {
      ExistsListed(files[1..], path, isdir);
      assert forall i :: 1 <= i < |files| ==> files[i] == files[1..][i - 1];
      if !Hits(files[0], path, isdir) {
        assert (exists i :: 0 <= i < |files| && Hits(files[i], path, isdir))
          ==> exists i :: 0 <= i < |files[1..]| && Hits(files[1..][i], path, isdir);
      }
    }
  }

  /** With `ignorelink`, and paths listed once, a file exists when it is
      listed and is not a link. */
  lemma {:induction false} ExistsNotLink(files: seq<FileEntry>, path: string)
    requires forall i, j :: 0 <= i < j < |files| ==> files[i].name != files[j].name
    ensures ExistsIn(files, path, false, true) <==>
      exists i :: 0 <= i < |files| && files[i].name == path && 'l' !in files[i].perm
  {
    if files != [] {
      var tail := files[1..];
      assert forall i :: 1 <= i < |files| ==> files[i] == tail[i - 1];
      ExistsNotLink(tail, path);
      if files[0].name == path {
        assert forall i :: 0 < i < |files| ==> files[i].name != path;
      } else {
        assert (exists i :: 0 <= i < |files| && files[i].name == path && 'l' !in files[i].perm)
          ==> exists i :: 0 <= i < |tail| && tail[i].name == path && 'l' !in tail[i].perm;
      }
    }
  }

  /** `exists`: the loop over the file list that stops at the first entry
      that decides. */
  method Exists(files: seq<FileEntry>, path: string, isdir: bool, ignorelink: bool) returns (r: bool)
    ensures r == ExistsIn(files, path, isdir, ignorelink)
  {
    var i := 0;
    while i < |files|
      invariant i <= |files|
      invariant ExistsIn(files[i..], path, isdir, ignorelink) == ExistsIn(files, path, isdir, ignorelink)
    {
      assert files[i..][1..] == files[i + 1..];
      if files[i].name == path {
        return !(ignorelink && 'l' in files[i].perm);
      } else if isdir && Text.StartsWith(files[i].name, path + "/") {
        return true;
      }
      i := i + 1;
    }
    return false;
  }

  /** The changes one `mlink` row stands for: a deletion, a rename (the old
      path removed, the new one added), or an addition or change. */
  function LinkChanges(m: MLink): (r: seq<FileChange>)
    ensures |r| == 1 || |r| == 2
    ensures forall c :: c in r ==> IsStatus(c) && c.isLink == (m.mperm == 2)
    ensures r[|r| - 1].status == '+' <==> m.fid != 0
    ensures r[|r| - 1].name == m.fn
  {
    if m.fid == 0 then [FileChange('-', m.fn, m.pid, m.mperm == 2)]
    else if m.pfn.Some? && m.pfn.value != "" then
      [FileChange('-', m.pfn.value, m.pid, m.mperm == 2), FileChange('+', m.fn, m.fid, m.mperm == 2)]
    else [FileChange('+', m.fn, m.fid, m.mperm == 2)]
  }

  /** The changes of an incremental scan, row by row. */
  function LinksChanges(links: seq<MLink>): (r: seq<FileChange>)
    ensures forall c :: c in r ==> IsStatus(c)
    ensures |links| <= |r| <= 2 * |links|
  {
    if links == [] then [] else LinksChanges(links[..|links| - 1]) + LinkChanges(links[|links| - 1])
  }

  /** The change of a full scan for one file: added, a link iff its
      permission says so. `toRid` is the repository's hash-to-id lookup. */
  function FullChange(e: FileEntry, toRid: string -> int): FileChange {
    FileChange('+', e.name, toRid(e.uuid), 'l' in e.perm)
  }

  /** A full scan reports every listed file as added. */
  function FullChanges(files: seq<FileEntry>, toRid: string -> int): (r: seq<FileChange>)
    ensures |r| == |files|
    ensures forall i :: 0 <= i < |files| ==>
      r[i].status == '+' && r[i].name == files[i].name && r[i].isLink == ('l' in files[i].perm)
  {
    if files == [] then [] else FullChanges(files[..|files| - 1], toRid) + [FullChange(files[|files| - 1], toRid)]
  }

  /** Every path a row touches shows up among the changes: the path of a
      deletion as removed, the new path of an addition, change or rename
      as added, and the old path of a rename as removed. */
  lemma {:induction false} LinksChangesCover(links: seq<MLink>, k: nat)
    requires k < |links|
    ensures var m := links[k]; var r := LinksChanges(links);
      && (m.fid == 0 ==> FileChange('-', m.fn, m.pid, m.mperm == 2) in r)
      && (m.fid != 0 ==> FileChange('+', m.fn, m.fid, m.mperm == 2) in r)
      && (m.fid != 0 && m.pfn.Some? && m.pfn.value != "" ==> FileChange('-', m.pfn.value, m.pid, m.mperm == 2) in r)
    decreases |links|
  {
    var init := links[..|links| - 1];
    if k < |links| - 1 {
      LinksChangesCover(init, k);
      assert init[k] == links[k];
    }
  }

  /** `file_change(mid, full)`. */
  method FileChanges(files: seq<FileEntry>, links: seq<MLink>, full: bool, toRid: string -> int)
    returns (r: seq<FileChange>)
    ensures full ==> r == FullChanges(files, toRid)
    ensures !full ==> r == LinksChanges(links)
  {
    r := [];
    if full {
      for i := 0 to |files|
        invariant r == FullChanges(files[..i], toRid)
      {
        assert files[..i + 1][..i] == files[..i];
        r := r + [FullChange(files[i], toRid)];
      }
      assert files[..|files|] == files;
      return;
    }
    for i := 0 to |links|
      invariant r == LinksChanges(links[..i])
    {
      assert links[..i + 1][..i] == links[..i];
      var m := links[i];
      if m.fid == 0 {
        r := r + [FileChange('-', m.fn, m.pid, m.mperm == 2)];
      } else if m.pfn.Some? && m.pfn.value != "" {
        r := r + [FileChange('-', m.pfn.value, m.pid, m.mperm == 2)];
        r := r + [FileChange('+', m.fn, m.fid, m.mperm == 2)];
      } else {
        r := r + [FileChange('+', m.fn, m.fid, m.mperm == 2)];
      }
    }
    assert links[..|links|] == links;
  }

  /** The configured branches, in their order, that the revision is tagged
      with. */
  function Configured(configured: seq<string>, tagged: seq<string>): (r: seq<string>)
    ensures forall b :: b in r <==> b in configured && b in tagged
    ensures |r| <= |configured|
    ensures NoDup(configured) ==> NoDup(r)
  {
    if configured == [] then []
    else
      var init := configured[..|configured| - 1];
      var b := configured[|configured| - 1];
      var r := Configured(init, tagged);
      assert forall x :: x in configured <==> x in init || x == b;
      assert NoDup(configured) ==> NoDup(init) && b !in init;
      if b in tagged then r + [b] else r
  }

  /** `branches_of_commit(mid)`: the revision's branch tags, filtered and
      ordered by the configured branches when there are any. */
  function BranchesOfCommit(configured: seq<string>, tagged: seq<string>): (r: seq<string>)
    ensures NoDup(configured) ==> NoDup(r)
    ensures configured == [] ==> forall b :: b in r <==> b in tagged
    ensures configured != [] ==> forall b :: b in r <==> b in configured && b in tagged
  {
    if configured == [] then Uniq(tagged) else Configured(configured, tagged)
  }

  /** The top-level directories that are not package categories. */
  const RepoIgnore: set<string> := {".git", ".githubwiki", ".abbs-repo", "repo-spec", "groups", "newpak", "assets"}

  /** `name.split('/', 2)` with three parts: its first two segments. */
  function TopTwo(name: string): (r: Option<(string, string)>)
    ensures r.Some? ==> '/' !in r.value.0 && '/' !in r.value.1
    ensures r.Some? ==> Text.StartsWith(name, r.value.0 + "/" + r.value.1 + "/")
  {
    var p := Text.SplitOnce(name, '/');
    if |p| < 2 then None
    else
      var q := Text.SplitOnce(p[1], '/');
      if |q| < 2 then None
      else
        TopTwoPrefix(name, p[0], p[1], q[0], q[1]);
        Some((p[0], q[0]))
  }

  lemma TopTwoPrefix(name: string, a: string, rest: string, b: string, tail: string)
    requires name == a + ['/'] + rest && rest == b + ['/'] + tail
    ensures Text.StartsWith(name, a + "/" + b + "/")
  {
    assert name == (a + "/" + b + "/") + tail;
  }

  /** A work item of `list_update`: a package group's location and its
      status. */
  datatype WorkItem = WorkItem(secpath: string, directory: string, status: char)

  function SpecPath(secpath: string, directory: string): string {
    PathJoin(PathJoin(secpath, directory), "spec")
  }

  /** What one change gives, before the already-seen test: nothing for a
      path too shallow or under an ignored directory, or for an addition
      without a spec (a link does not count); a removal whose spec is still
      there counts as an addition. */
  function Classify(c: FileChange, files: seq<FileEntry>): (r: Option<WorkItem>)
    ensures r.Some? ==> TopTwo(c.name).Some? && r.value.secpath !in RepoIgnore
    ensures r.Some? ==> (r.value.secpath, r.value.directory) == TopTwo(c.name).value
    ensures r.Some? && IsStatus(c) ==>
      (r.value.status == '+' <==> ExistsIn(files, SpecPath(r.value.secpath, r.value.directory), false, true))
  {
    match TopTwo(c.name)
    case None => None
    case Some((path, pkgpath)) =>
      if path in RepoIgnore then None
      else
        var spec := ExistsIn(files, SpecPath(path, pkgpath), false, true);
        if c.status == '+' && !spec then None
        else if c.status == '-' && spec then Some(WorkItem(path, pkgpath, '+'))
        else Some(WorkItem(path, pkgpath, c.status))
  }

  function Location(w: WorkItem): (string, string) { (w.secpath, w.directory) }

  /** The locations of the items, the set `pkgs` of the loop. */
  function Locations(items: seq<WorkItem>): (r: set<(string, string)>)
    ensures forall l :: l in r <==> exists i :: 0 <= i < |items| && Location(items[i]) == l
  {
    if items == [] then {}
    else
      var init := items[..|items| - 1];
      assert forall i :: 0 <= i < |init| ==> init[i] == items[i];
      Locations(init) + {Location(items[|items| - 1])}
  }

  /** `list_update(mid)`: the items of the changes in order, each location
      once, at its first change that gives one. */
  function Updates(changes: seq<FileChange>, files: seq<FileEntry>): (r: seq<WorkItem>)
  {
    if changes == [] then []
    else
      var prev := Updates(changes[..|changes| - 1], files);
      var w := Classify(changes[|changes| - 1], files);
      if w.Some? && Location(w.value) !in Locations(prev) then prev + [w.value] else prev
  }

  /** The step of `Updates` at the last change. */
  lemma UpdatesStep(changes: seq<FileChange>, files: seq<FileEntry>)
    requires changes != []
    ensures var prev := Updates(changes[..|changes| - 1], files);
      var w := Classify(changes[|changes| - 1], files);
      Updates(changes, files) == if w.Some? && Location(w.value) !in Locations(prev) then prev + [w.value] else prev
  {
  }

  /** Each item is what some change gives. */
  lemma {:induction false} UpdatesFrom(changes: seq<FileChange>, files: seq<FileEntry>)
    ensures forall w :: w in Updates(changes, files) ==> exists c :: c in changes && Classify(c, files) == Some(w)
  {
    if changes != [] {
      var init := changes[..|changes| - 1];
      var last := changes[|changes| - 1];
      UpdatesFrom(init, files);
      UpdatesStep(changes, files);
      var prev := Updates(init, files);
      forall x | x in Updates(changes, files)
        ensures exists c :: c in changes && Classify(c, files) == Some(x)
      {
        if x in prev {
          var c :| c in init && Classify(c, files) == Some(x);
          assert c in changes;
        } else {
          assert Classify(last, files) == Some(x);
          assert last in changes;
        }
      }
    }
  }

  /** No location is listed twice. */
  lemma {:induction false} UpdatesDistinct(changes: seq<FileChange>, files: seq<FileEntry>)
    ensures var r := Updates(changes, files);
      forall i, j :: 0 <= i < j < |r| ==> Location(r[i]) != Location(r[j])
  {
    if changes != [] {
      var init := changes[..|changes| - 1];
      UpdatesDistinct(init, files);
      UpdatesStep(changes, files);
      var prev := Updates(init, files);
      var w := Classify(changes[|changes| - 1], files);
      if w.Some? && Location(w.value) !in Locations(prev) {
        var r := prev + [w.value];
        assert forall i :: 0 <= i < |prev| ==> r[i] == prev[i] && Location(r[i]) != Location(w.value);
      }
    }
  }

  /** Items are never under an ignored directory, and an item is an
      addition exactly when its spec file is there and is not a link. */
  lemma UpdatesStatus(changes: seq<FileChange>, files: seq<FileEntry>)
    requires forall c :: c in changes ==> IsStatus(c)
    ensures forall w :: w in Updates(changes, files) ==>
      && w.secpath !in RepoIgnore
      && (w.status == '+' <==> ExistsIn(files, SpecPath(w.secpath, w.directory), false, true))
  {
    UpdatesFrom(changes, files);
  }

  /** The locations listed for a prefix of the changes stay listed. */
  lemma {:induction false} LocationsGrow(changes: seq<FileChange>, files: seq<FileEntry>)
    requires changes != []
    ensures Locations(Updates(changes[..|changes| - 1], files)) <= Locations(Updates(changes, files))
  {
    UpdatesStep(changes, files);
    var prev := Updates(changes[..|changes| - 1], files);
    var r := Updates(changes, files);
    forall l | l in Locations(prev) ensures l in Locations(r) {
      var i :| 0 <= i < |prev| && Location(prev[i]) == l;
      assert r[i] == prev[i];
    }
  }

  /** Every location some change gives is listed. */
  lemma {:induction false} UpdatesCover(changes: seq<FileChange>, files: seq<FileEntry>, k: nat)
    requires k < |changes| && Classify(changes[k], files).Some?
    ensures Location(Classify(changes[k], files).value) in Locations(Updates(changes, files))
    decreases |changes|
  {
    var init := changes[..|changes| - 1];
    LocationsGrow(changes, files);
    if k < |changes| - 1 {
      assert init[k] == changes[k];
      UpdatesCover(init, files, k);
    } else {
      UpdatesStep(changes, files);
      var w := Classify(changes[k], files).value;
      var prev := Updates(init, files);
      if Location(w) !in Locations(prev) {
        assert Updates(changes, files) == prev + [w];
        assert Updates(changes, files)[|prev|] == w;
      }
    }
  }

  /** The locations of a list extended by one item. */
  lemma LocationsSnoc(items: seq<WorkItem>, w: WorkItem)
    ensures Locations(items + [w]) == Locations(items) + {Location(w)}
  {
    assert (items + [w])[..|items|] == items;
  }

  /** The body of the loop of `list_update` for one change: the item it
      adds, if any, given the locations `pkgs` already seen. */
  method NextItem(change: FileChange, files: seq<FileEntry>, pkgs: set<(string, string)>) returns (r: Option<WorkItem>)
    ensures var w := Classify(change, files);
      r == if w.Some? && Location(w.value) !in pkgs then w else None
  {
    r := None;
    var top := TopTwo(change.name);
    if top.Some? {
      var path, pkgpath := top.value.0, top.value.1;
      if path !in RepoIgnore && (path, pkgpath) !in pkgs {
        var spec := Exists(files, SpecPath(path, pkgpath), false, true);
        var status := change.status;
        if status == '-' && spec {
          status := '+';
        }
        if !(change.status == '+' && !spec) {
          r := Some(WorkItem(path, pkgpath, status));
        }
      }
    }
  }

  /** The loop of `list_update`, with the set of locations seen so far. */
  method ListUpdate(changes: seq<FileChange>, files: seq<FileEntry>) returns (items: seq<WorkItem>)
    ensures items == Updates(changes, files)
  {
    var pkgs: set<(string, string)> := {};
    items := [];
    for i := 0 to |changes|
      invariant items == Updates(changes[..i], files)
      invariant pkgs == Locations(items)
    {
      assert changes[..i + 1][..i] == changes[..i];
      UpdatesStep(changes[..i + 1], files);
      var w := NextItem(changes[i], files, pkgs);
      if w.Some? {
        LocationsSnoc(items, w.value);
        items := items + [w.value];
        pkgs := pkgs + {Location(w.value)};
      }
    }
    assert changes[..|changes|] == changes;
  }
}
