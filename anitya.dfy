/** `anitya.py`: linking packages to the projects of the release-monitoring
    service by normalised name. */
module Anitya {
  import opened Wrappers
  import opened Text
  import opened Collections

  /** A row of `anitya_projects` as `detect_links` reads it: id and name. */
  datatype Project = Project(id: int, name: string)

  /** What `re_projectrep` deletes after the owner prefix. */
  const ProjectPunctuation: set<char> := {'.', ' ', '_', '-'}

  /** What the package key deletes: the same without `.`. */
  const PackagePunctuation: set<char> := {'-', ' ', '_'}

  /** `re_projectrep.sub('', name.lower())`: `^[^/]+/` drops everything up
      to the first `/` when the name does not start with `/`, and `[. _-]`
      drops every `.`, space, `_` and `-`. */
  function ProjectKey(name: string): (r: string)
    ensures forall c :: c in r ==> c !in ProjectPunctuation
  {
    var l := Lower(name);
    var i := FindFirst(l, Equals('/'));
    var rest := if 0 < i < |l| then l[i + 1..] else l;
    DeleteChars(rest, ProjectPunctuation)
  }

  /** The package key: the lowercased name without `-`, space and `_`. */
  function PackageKey(name: string): (r: string)
    ensures forall c :: c in r ==> c !in PackagePunctuation
  {
    DeleteChars(Lower(name), PackagePunctuation)
  }

  /** An owner prefix is dropped: `owner/name` has the key of `name` when
      `name` holds no `/`. */
  lemma ProjectKeyOwner(owner: string, name: string)
    requires owner != [] && '/' !in owner && '/' !in name
    ensures ProjectKey(owner + "/" + name) == DeleteChars(Lower(name), ProjectPunctuation)
  {
    var s := owner + "/" + name;
    var l := Lower(s);
    assert l == Lower(owner) + "/" + Lower(name);
    forall j | 0 <= j < |owner| ensures !Equals('/')(l[j]) {
      assert s[j] == owner[j] && owner[j] in owner;
    }
    FindFirstAt(l, Equals('/'), |owner|);
    assert l[|owner| + 1..] == Lower(name);
  }

  /** The key of a package name with a `.` keeps the `.`, which no project
      key holds: such a package is never linked. */
  lemma DottedPackageUnmatched(package: string, project: string)
    requires '.' in package
    ensures PackageKey(package) != ProjectKey(project)
  {
    var i :| 0 <= i < |package| && package[i] == '.';
    assert Lower(package)[i] == '.';
    assert '.' in PackageKey(package);
  }

  /** The key of a project row. */
  function KeyOf(p: Project): string {
    ProjectKey(p.name)
  }

  /** `project_index`: each key of the rows mapped to the first row having
      it. */
  function FirstBy(projects: seq<Project>, key: Project -> string): (r: map<string, Project>)
    decreases |projects|
  {
    if projects == [] then map[]
    else
      var prev := FirstBy(projects[..|projects| - 1], key);
      var row := projects[|projects| - 1];
      if key(row) in prev then prev else prev[key(row) := row]
  }

  /** Row `i` of `projects` has the key `k`. */
  predicate KeyedAt(projects: seq<Project>, key: Project -> string, i: int, k: string) {
    0 <= i < |projects| && key(projects[i]) == k
  }

  /** The index holds exactly the keys of the rows. */
  lemma {:induction false} FirstByHas(projects: seq<Project>, key: Project -> string, k: string)
    ensures k in FirstBy(projects, key) <==> exists i :: KeyedAt(projects, key, i, k)
    decreases |projects|
  {
    if projects != [] {
      var n := |projects| - 1;
      var init := projects[..n];
      FirstByHas(init, key, k);
      assert FirstBy(projects, key).Keys == FirstBy(init, key).Keys + {key(projects[n])};
      assert KeyedAt(projects, key, n, key(projects[n]));
      if exists i :: KeyedAt(projects, key, i, k) {
        var i :| KeyedAt(projects, key, i, k);
        if i < n {
          assert KeyedAt(init, key, i, k);
        }
      }
      if exists i :: KeyedAt(init, key, i, k) {
        var i :| KeyedAt(init, key, i, k);
        assert KeyedAt(projects, key, i, k);
      }
    }
  }

  /** Each key is mapped to the first row with that key. */
  lemma {:induction false} FirstByFirst(projects: seq<Project>, key: Project -> string, k: string)
    requires k in FirstBy(projects, key)
    ensures exists i :: (KeyedAt(projects, key, i, k) && projects[i] == FirstBy(projects, key)[k]
      && forall j :: 0 <= j < i ==> !KeyedAt(projects, key, j, k))
    decreases |projects|
  {
    var n := |projects| - 1;
    var init := projects[..n];
    if k in FirstBy(init, key) {
      FirstByFirst(init, key, k);
      assert FirstBy(projects, key)[k] == FirstBy(init, key)[k];
      var i :| KeyedAt(init, key, i, k) && init[i] == FirstBy(init, key)[k]
        && forall j :: 0 <= j < i ==> !KeyedAt(init, key, j, k);
      assert KeyedAt(projects, key, i, k);
      forall j | 0 <= j < i ensures !KeyedAt(projects, key, j, k) {
        assert !KeyedAt(init, key, j, k);
      }
    } else {
      FirstByHas(init, key, k);
      assert key(projects[n]) == k && FirstBy(projects, key)[k] == projects[n];
      assert KeyedAt(projects, key, n, k);
      forall j | 0 <= j < n ensures !KeyedAt(projects, key, j, k) {
        assert !KeyedAt(init, key, j, k);
      }
    }
  }

  /** The packages whose key is indexed, in order. */
  function Matched(packages: seq<string>, index: map<string, Project>, key: string -> string): (r: seq<string>)
    ensures |r| <= |packages|
    ensures forall n :: n in r ==> n in packages && key(n) in index
    decreases |packages|
  {
    if packages == [] then []
    else
      var n := packages[|packages| - 1];
      Matched(packages[..|packages| - 1], index, key) + (if key(n) in index then [n] else [])
  }

  /** A package is matched exactly when its key is indexed. */
  lemma {:induction false} MatchedHas(packages: seq<string>, index: map<string, Project>, key: string -> string, n: string)
    ensures n in Matched(packages, index, key) <==> n in packages && key(n) in index
    decreases |packages|
  {
    if packages != [] {
      var init := packages[..|packages| - 1];
      MatchedHas(init, index, key, n);
      assert packages == init + [packages[|packages| - 1]];
    }
  }

  /** `detect_links` over the project rows and the package names it reads:
      each package whose key is a project key, in order, linked to the first
      project row with that key. */
  method DetectLinks(projects: seq<Project>, packages: seq<string>) returns (links: ODict<string, Project>)
    ensures links.Valid()
    ensures links.keys == Uniq(Matched(packages, FirstBy(projects, KeyOf), PackageKey))
    ensures forall n :: n in links.vals ==>
      PackageKey(n) in FirstBy(projects, KeyOf) && links.vals[n] == FirstBy(projects, KeyOf)[PackageKey(n)]
  {
    var index := ProjectIndex(projects);
    links := LinkPackages(packages, index, PackageKey);
  }

  /** The loop of `detect_links` filling `project_index`. */
  method ProjectIndex(projects: seq<Project>) returns (index: map<string, Project>)
    ensures index == FirstBy(projects, KeyOf)
  {
    index := map[];
    for i := 0 to |projects|
      invariant index == FirstBy(projects[..i], KeyOf)
    {
      assert projects[..i + 1][..i] == projects[..i];
      var k := KeyOf(projects[i]);
      if k !in index {
        index := index[k := projects[i]];
      }
    }
    assert projects[..|projects|] == projects;
  }

  /** The loop of `detect_links` filling `links`: a package whose key is
      indexed is linked to the indexed row (`key` is the package key). */
  method LinkPackages(packages: seq<string>, index: map<string, Project>, key: string -> string) returns (links: ODict<string, Project>)
    ensures links.Valid()
    ensures links.keys == Uniq(Matched(packages, index, key))
    ensures forall n :: n in links.vals ==> key(n) in index && links.vals[n] == index[key(n)]
  {
    links := EmptyDict();
    for i := 0 to |packages|
      invariant links.Valid()
      invariant links.keys == Uniq(Matched(packages[..i], index, key))
      invariant forall n :: n in links.vals ==> key(n) in index && links.vals[n] == index[key(n)]
    {
      var name := packages[i];
      MatchedStep(packages, i, index, key);
      if key(name) in index {
        SetUniq(links, Matched(packages[..i], index, key), name, index[key(name)]);
        links := links.Set(name, index[key(name)]);
      }
    }
    assert packages[..|packages|] == packages;
  }

  /** One more package: it joins the matched ones when its key is indexed. */
  lemma MatchedStep(packages: seq<string>, i: nat, index: map<string, Project>, key: string -> string)
    requires i < |packages|
    ensures key(packages[i]) in index ==>
      Matched(packages[..i + 1], index, key) == Matched(packages[..i], index, key) + [packages[i]]
    ensures key(packages[i]) !in index ==>
      Matched(packages[..i + 1], index, key) == Matched(packages[..i], index, key)
  {
    assert packages[..i + 1][..i] == packages[..i];
    var m := Matched(packages[..i], index, key);
    assert m + [] == m;
  }

  /** Setting a key of a dictionary whose keys are the unique elements of
      `s` leaves the keys the unique elements of `s + [k]`. */
  lemma SetUniq<V>(d: ODict<string, V>, s: seq<string>, k: string, v: V)
    requires d.Valid() && d.keys == Uniq(s)
    ensures d.Set(k, v).keys == Uniq(s + [k])
  {
    assert (s + [k])[..|s|] == s;
    assert k in d.vals <==> k in s;
  }
}
