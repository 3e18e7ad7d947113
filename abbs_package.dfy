/** The package model of `abbsmeta.py`: a directory of the tree (a package
    group, read from its `spec` file) and the packages its `defines` files
    declare. Each file enters as the variables `read_bashvar` gives for it
    (`BashExt.ReadBashvar`). */
module AbbsPackage {
  import opened Wrappers
  import Text
  import opened Collections
  
  /** The category prefixes `abbs_categories`. */
  predicate HasCategoryPrefix(secpath: string) {
    Text.StartsWith(secpath, "core-") || Text.StartsWith(secpath, "base-")
    || Text.StartsWith(secpath, "extra-")
  }

  predicate IsCategory(c: string) { c == "core" || c == "base" || c == "extra" }

  /** A section path becomes a category and a section: split at the first
      `-` when it starts with a category prefix, else no category. */
  function SplitSecpath(secpath: string): (r: (Option<string>, string))
    ensures r.0.Some? <==> HasCategoryPrefix(secpath)
    ensures r.0.Some? ==> IsCategory(r.0.value) && secpath == r.0.value + "-" + r.1
    ensures r.0.None? ==> r.1 == secpath
  {
    if HasCategoryPrefix(secpath) then
      var k := if Text.StartsWith(secpath, "extra-") then 5 else 4;
      assert secpath[k] == '-' && forall i :: 0 <= i < k ==> secpath[i] != '-';
      Text.FindFirstAt(secpath, Text.Equals('-'), k);
      var parts := Text.SplitOnce(secpath, '-');
      assert parts[0] == secpath[..k];
      (Some(parts[0]), parts[1])
    else (None, secpath)
  }

  /** The section path a duplicate row stands for, as the catalog query
      rebuilds it: the section alone when the stored category is empty. */
  function JoinSecpath(category: string, section: string): string {
    if category == "" then section else category + "-" + section
  }

  /** `category or ''`: how a missing category is stored in a row. */
  function CategoryText(c: Option<string>): string {
    c.GetOr("")
  }

  /** Storing a split section path and rebuilding it gives the path back. */
  lemma SecpathRoundTrip(secpath: string)
    ensures var (c, s) := SplitSecpath(secpath); JoinSecpath(CategoryText(c), s) == secpath
  {
  }

  /** A stored location rebuilds the category and section it came from. */
  lemma SecpathOfRow(c: Option<string>, s: string)
    requires c.Some? ==> IsCategory(c.value)
    requires c.None? ==> !HasCategoryPrefix(s)
    ensures SplitSecpath(JoinSecpath(CategoryText(c), s)) == (c, s)
  {
    if c.Some? {
      var p := c.value + "-" + s;
      assert Text.StartsWith(p, c.value + "-") by {
        assert p[..|c.value| + 1] == c.value + "-";
      }
      var r := SplitSecpath(p);
      assert r.0.value + "-" + r.1 == p;
      assert r.1 == p[|c.value| + 1..];
    }
  }

  /** One row of `package_dependencies`: the declaring package, the package
      depended on, the version constraint after its name, the variable. */
  datatype Dependency = Dependency(package: string, dependency: string, version: string, relationship: string)

  /** The dependency variables, in the order they are read. */
  function Relationships(): seq<string> {
    ["PKGDEP", "PKGRECOM", "PKGBREAK", "PKGCONFL", "PKGREP", "BUILDDEP", "PKGDEP_DPKG", "PKGDEP_RPM"]
  }

  /** No variable is read twice. */
  lemma RelationshipsDistinct()
    ensures NoDup(Relationships())
  {
  }

  predicate NameStart(c: char) { 'a' <= c <= 'z' || '0' <= c <= '9' }
  predicate NameChar(c: char) { NameStart(c) || c == '+' || c == '.' || c == '-' }
  predicate NotNameChar(c: char) { !NameChar(c) }

  /** `re_packagename.match(token)`: the longest package name at the start
      and the rest of the token, or no match when the token does not start
      with a lower-case letter or digit. The rest never holds a line feed
      here, since tokens come from a whitespace split. */
  function SplitPackageName(token: string): (r: Option<(string, string)>)
    ensures r.Some? <==> token != [] && NameStart(token[0])
    ensures r.Some? ==> r.value.0 + r.value.1 == token && r.value.0 != []
    ensures r.Some? ==> (forall c :: c in r.value.0 ==> NameChar(c)) && (r.value.1 == [] || !NameChar(r.value.1[0]))
  {
    if token == [] || !NameStart(token[0]) then None
    else
      var n := 1 + Text.FindFirst(token[1..], NotNameChar);
      assert forall i :: 1 <= i < n ==> token[i] == token[1..][i - 1];
      assert forall c :: c in token[..n] ==> NameChar(c);
      assert n < |token| ==> token[n..][0] == token[1..][n - 1];
      assert token[..n] + token[n..] == token;
      Some((token[..n], token[n..]))
  }

  /** The rows for the tokens of one variable, or the exception raised by
      the first token that is not a package name. */
  function TokenDeps(name: string, tokens: seq<string>, rel: string): (r: Result<seq<Dependency>>)
    ensures r.Err? <==> exists t :: t in tokens && SplitPackageName(t).None?
    ensures r.Err? ==> r.error == "AttributeError"
    ensures r.Ok? ==> |r.value| == |tokens|
    ensures r.Ok? ==> forall i :: 0 <= i < |tokens| ==>
      r.value[i].dependency + r.value[i].version == tokens[i]
    ensures r.Ok? ==> forall d :: d in r.value ==> d.package == name && d.relationship == rel
  {
    if tokens == [] then Ok([])
    else
      var init := tokens[..|tokens| - 1];
      var t := tokens[|tokens| - 1];
      assert forall x :: x in tokens <==> x in init || x == t;
      match TokenDeps(name, init, rel)
      case Err(e) => Err(e)
      case Ok(ds) =>
        match SplitPackageName(t)
        case None => Err("AttributeError")
        case Some((dep, ver)) => Ok(ds + [Dependency(name, dep, ver, rel)])
  }

  /** The rows of the variables `rels`, each read from the bag, or the
      exception of the first variable holding a token that is not a package
      name. */
  function DepsOf(name: string, spec: ODict<string, string>, rels: seq<string>): (r: Result<seq<Dependency>>)
    ensures r.Err? ==> r.error == "AttributeError"
    ensures r.Ok? ==> forall d :: d in r.value ==> d.package == name && d.relationship in rels
  {
    if rels == [] then Ok([])
    else
      var init := rels[..|rels| - 1];
      var rel := rels[|rels| - 1];
      assert forall x :: x in rels <==> x in init || x == rel;
      match DepsOf(name, spec, init)
      case Err(e) => Err(e)
      case Ok(deps) =>
        match TokenDeps(name, Text.Split(spec.Get(rel).GetOr("")), rel)
        case Err(e) => Err(e)
        case Ok(ds) => Ok(deps + ds)
  }

  /** Row `i` is `(name, *re_packagename.match(t).groups(), rel)` of token
      `i`: the longest package-name prefix of the token and the rest. */
  lemma {:induction false} TokenDepsRows(name: string, tokens: seq<string>, rel: string)
    ensures var r := TokenDeps(name, tokens, rel);
      r.Ok? ==> forall i :: 0 <= i < |tokens| ==>
        SplitPackageName(tokens[i]).Some?
        && r.value[i] == Dependency(name, SplitPackageName(tokens[i]).value.0, SplitPackageName(tokens[i]).value.1, rel)
  {
    if tokens != [] && TokenDeps(name, tokens, rel).Ok? {
      var init := tokens[..|tokens| - 1];
      TokenDepsRows(name, init, rel);
      var ds := TokenDeps(name, init, rel).value;
      var t := tokens[|tokens| - 1];
      assert TokenDeps(name, tokens, rel).value == ds + [Dependency(name, SplitPackageName(t).value.0, SplitPackageName(t).value.1, rel)];
      forall i | 0 <= i < |init| ensures tokens[i] == init[i] {}
    }
  }

  /** The rows of variable `rel` of the bag `vals` (empty when unset), or
      none when one of its tokens is not a package name. */
  function VarRows(name: string, vals: map<string, string>, rel: string): seq<Dependency> {
    match TokenDeps(name, Text.Split(if rel in vals then vals[rel] else ""), rel)
    case Ok(ds) => ds
    case Err(_) => []
  }

  /** `VarRows` as a function of the variable name. */
  function VarRowsOf(name: string, vals: map<string, string>): string -> seq<Dependency> {
    rel => VarRows(name, vals, rel)
  }

  /** The rows of each variable of `rels`, in order. */
  function RelRows(name: string, vals: map<string, string>, rels: seq<string>): seq<seq<Dependency>> {
    MapSeq(VarRowsOf(name, vals), rels)
  }

  /** `f` applied to each element, in order. */
  function MapSeq<T, U>(f: T -> U, s: seq<T>): (r: seq<U>)
    ensures |r| == |s| && forall k :: 0 <= k < |s| ==> r[k] == f(s[k])
  {
    seq(|s|, k requires 0 <= k < |s| => f(s[k]))
  }

  lemma MapSeqSnoc<T, U>(f: T -> U, s: seq<T>)
    requires s != []
    ensures MapSeq(f, s) == MapSeq(f, s[..|s| - 1]) + [f(s[|s| - 1])]
  {
    var init := s[..|s| - 1];
    forall k | 0 <= k < |init| ensures MapSeq(f, s)[k] == MapSeq(f, init)[k] {
      assert init[k] == s[k];
    }
  }

  /** The rows collected are those of each variable's tokens, variable after
      variable in the order of `rels`. */
  lemma {:induction false} DepsOfRows(name: string, spec: ODict<string, string>, rels: seq<string>)
    ensures DepsOf(name, spec, rels).Ok? ==> DepsOf(name, spec, rels).value == Text.Concat(RelRows(name, spec.vals, rels))
  {
    if rels == [] {
      assert RelRows(name, spec.vals, rels) == [];
    } else if DepsOf(name, spec, rels).Ok? {
      var init := rels[..|rels| - 1];
      var rel := rels[|rels| - 1];
      DepsOfRows(name, spec, init);
      MapSeqSnoc(VarRowsOf(name, spec.vals), rels);
      Text.ConcatAppend(RelRows(name, spec.vals, init), [VarRows(name, spec.vals, rel)]);
    }
  }

  /** The variables fail together exactly when one of them holds a token
      that is not a package name. */
  lemma {:induction false} DepsOfFails(name: string, spec: ODict<string, string>, rels: seq<string>)
    ensures DepsOf(name, spec, rels).Err? <==>
      exists rel :: rel in rels && TokenDeps(name, Text.Split(spec.Get(rel).GetOr("")), rel).Err?
  {
    if rels != [] {
      var init := rels[..|rels| - 1];
      DepsOfFails(name, spec, init);
      assert forall x :: x in rels <==> x in init || x == rels[|rels| - 1];
    }
  }

  /** The inner loop of `load_defines`: the rows of one variable's tokens,
      stopping at the first token that is not a package name. */
  method TokenRows(name: string, tokens: seq<string>, rel: string) returns (r: Result<seq<Dependency>>)
    ensures r == TokenDeps(name, tokens, rel)
  {
    var rows: seq<Dependency> := [];
    for j := 0 to |tokens|
      invariant TokenDeps(name, tokens[..j], rel) == Ok(rows)
    {
      assert tokens[..j + 1][..j] == tokens[..j];
      var m := SplitPackageName(tokens[j]);
      if m.None? {
        assert tokens[j] in tokens;
        return Err("AttributeError");
      }
      rows := rows + [Dependency(name, m.value.0, m.value.1, rel)];
    }
    assert tokens[..|tokens|] == tokens;
    r := Ok(rows);
  }

  /** A failure on some of the variables is a failure of all of them. */
  lemma {:induction false} DepsOfErrPrefix(name: string, spec: ODict<string, string>, rels: seq<string>, i: nat)
    requires i <= |rels| && DepsOf(name, spec, rels[..i]).Err?
    ensures DepsOf(name, spec, rels).Err?
    decreases |rels| - i
  {
    if i < |rels| {
      assert rels[..i + 1][..i] == rels[..i];
      DepsOfErrPrefix(name, spec, rels, i + 1);
    } else {
      assert rels[..i] == rels;
    }
  }

  /** Popping one more variable: it still holds its value. */
  lemma PopNext(spec: ODict<string, string>, done: seq<string>, rel: string)
    requires spec.Valid() && rel !in done
    ensures var p := RemoveKeys(spec, done).Pop(rel);
      p.0 == RemoveKeys(spec, done + [rel]) && p.1 == spec.Get(rel)
  {
    assert (done + [rel])[..|done|] == done;
  }

  /** One more variable: its rows extend those collected so far. */
  lemma DepsOfSnoc(name: string, spec: ODict<string, string>, done: seq<string>, rel: string)
    ensures DepsOf(name, spec, done + [rel]) ==
      match DepsOf(name, spec, done)
      case Err(e) => Err(e)
      case Ok(deps) =>
        match TokenDeps(name, Text.Split(spec.Get(rel).GetOr("")), rel)
        case Err(e) => Err(e)
        case Ok(ds) => Ok(deps + ds)
  {
    assert (done + [rel])[..|done|] == done;
  }

  /** The same, for a prefix given element by element. */
  lemma DepsOfErrAt(name: string, spec: ODict<string, string>, rels: seq<string>, pre: seq<string>)
    requires |pre| <= |rels| && forall j :: 0 <= j < |pre| ==> pre[j] == rels[j]
    requires DepsOf(name, spec, pre).Err?
    ensures DepsOf(name, spec, rels).Err?
  {
    assert pre == rels[..|pre|];
    DepsOfErrPrefix(name, spec, rels, |pre|);
  }

  /** The outer loop of `load_defines`: pops each dependency variable out
      of the bag and collects its rows. */
  method CollectDeps(name: string, spec: ODict<string, string>, rels: seq<string>) returns (r: Result<seq<Dependency>>, bag: ODict<string, string>)
    requires spec.Valid() && NoDup(rels)
    ensures r == DepsOf(name, spec, rels)
    ensures r.Ok? ==> bag == RemoveKeys(spec, rels)
  {
    bag := spec;
    var deps: seq<Dependency> := [];
    ghost var done: seq<string> := [];
    for i := 0 to |rels|
      invariant |done| == i && forall j :: 0 <= j < i ==> done[j] == rels[j]
      invariant bag == RemoveKeys(spec, done)
      invariant DepsOf(name, spec, done) == Ok(deps)
    {
      var rel := rels[i];
      assert rel !in done by {
        assert forall j :: 0 <= j < i ==> done[j] != rel;
      }
      PopNext(spec, done, rel);
      DepsOfSnoc(name, spec, done, rel);
      var popped := bag.Pop(rel);
      bag := popped.0;
      var rows := TokenRows(name, Text.Split(popped.1.GetOr("")), rel);
      if rows.Err? {
        DepsOfErrAt(name, spec, rels, done + [rel]);
        return Err(rows.error), bag;
      }
      deps := deps + rows.value;
      done := done + [rel];
    }
    assert done == rels;
    r := Ok(deps);
  }

  /** What a `defines` file does to a package: no name leaves everything but
      the merged bag; a name pulls out the reserved variables. */
  datatype Defined =
    | Unnamed(spec: ODict<string, string>)
    | Named(name: string, pkgSection: Option<string>, description: Option<string>,
            epoch: Option<string>, spec: ODict<string, string>, dependencies: seq<Dependency>)

  const Reserved: set<string> := {"PKGNAME", "PKGSEC", "PKGDES", "PKGEPOCH"}

  /** The section, description and epoch of a named package, and what is
      left of the bag once they are popped. */
  datatype Header = Header(pkgSection: Option<string>, description: Option<string>,
                           epoch: Option<string>, rest: ODict<string, string>)

  function PopHeader(bag: ODict<string, string>): (h: Header)
    requires bag.Valid()
    ensures h.rest.Valid()
    ensures h.pkgSection == bag.Get("PKGSEC") && h.description == bag.Get("PKGDES") && h.epoch == bag.Get("PKGEPOCH")
  {
    var p2 := bag.Pop("PKGSEC");
    var p3 := p2.0.Pop("PKGDES");
    var p4 := p3.0.Pop("PKGEPOCH");
    Header(p2.1, p3.1, p4.1, p4.0)
  }

  /** `load_defines` on the variables `vars` read from the file, with `rels`
      the dependency variables (`Relationships()` for `load_defines`). */
  function ApplyDefines(spec: ODict<string, string>, vars: ODict<string, string>, rels: seq<string>): (r: Result<Defined>)
    requires spec.Valid() && vars.Valid()
    ensures r.Ok? ==> r.value.spec.Valid()
    ensures r.Err? ==> r.error == "AttributeError"
  {
    var p1 := spec.Update(vars).Pop("PKGNAME");
    var pkgname := p1.1;
    if pkgname.None? || pkgname.value == "" then Ok(Unnamed(p1.0))
    else
      var h := PopHeader(p1.0);
      match DepsOf(pkgname.value, h.rest, rels)
      case Err(e) => Err(e)
      case Ok(deps) => Ok(Named(pkgname.value, h.pkgSection, h.description, h.epoch, RemoveKeys(h.rest, rels), Uniq(deps)))
  }

  /** The work of `load_defines` on the bag: pops the name and, when there
      is one, the reserved variables and then each of `rels`. */
  method Define(spec: ODict<string, string>, vars: ODict<string, string>, rels: seq<string>) returns (d: Result<Defined>)
    requires spec.Valid() && vars.Valid() && NoDup(rels)
    ensures d == ApplyDefines(spec, vars, rels)
  {
    var popped := spec.Update(vars).Pop("PKGNAME");
    var pkgname := popped.1;
    if pkgname.None? || pkgname.value == "" {
      d := Ok(Unnamed(popped.0));
    } else {
      var h := PopHeader(popped.0);
      var collected, rest := CollectDeps(pkgname.value, h.rest, rels);
      d := if collected.Err? then Err(collected.error)
           else Ok(Named(pkgname.value, h.pkgSection, h.description, h.epoch, rest, Uniq(collected.value)));
    }
  }

  /** A named package keeps none of the reserved or dependency variables in
      its bag, keeps every other variable with its merged value, and lists
      each of its dependency rows once. */
  lemma DefinesNamed(spec: ODict<string, string>, vars: ODict<string, string>, rels: seq<string>)
    requires spec.Valid() && vars.Valid()
    requires ApplyDefines(spec, vars, rels).Ok? && ApplyDefines(spec, vars, rels).value.Named?
    ensures var d := ApplyDefines(spec, vars, rels).value;
      var merged := spec.Update(vars).vals;
      && (forall k :: k in d.spec.vals <==> k in merged && k !in Reserved && k !in rels)
      && (forall k :: k in d.spec.vals ==> d.spec.vals[k] == merged[k])
      && d.name == merged["PKGNAME"] && d.name != ""
      && d.pkgSection == spec.Update(vars).Get("PKGSEC")
      && d.description == spec.Update(vars).Get("PKGDES")
      && d.epoch == spec.Update(vars).Get("PKGEPOCH")
      && NoDup(d.dependencies)
      && forall x :: x in d.dependencies ==> x.package == d.name && x.relationship in rels
  {
    var merged := spec.Update(vars);
    var p1 := merged.Pop("PKGNAME");
    var p2 := p1.0.Pop("PKGSEC");
    var p3 := p2.0.Pop("PKGDES");
    var p4 := p3.0.Pop("PKGEPOCH");
    assert PopHeader(p1.0).rest == p4.0;
    var rest := RemoveKeys(p4.0, rels);
    assert ApplyDefines(spec, vars, rels).value.spec == rest;
  }

  /** A named package's dependencies are the rows of the tokens of each
      variable of `rels`, in that order, read from the merged variables
      other than the reserved ones, each row kept once. */
  lemma DefinesDeps(spec: ODict<string, string>, vars: ODict<string, string>, rels: seq<string>)
    requires spec.Valid() && vars.Valid()
    requires ApplyDefines(spec, vars, rels).Ok? && ApplyDefines(spec, vars, rels).value.Named?
    ensures var d := ApplyDefines(spec, vars, rels).value;
      d.dependencies == Uniq(Text.Concat(RelRows(d.name, spec.Update(vars).vals - Reserved, rels)))
  {
    var merged := spec.Update(vars);
    var p1 := merged.Pop("PKGNAME");
    var h := PopHeader(p1.0);
    HeaderRest(merged);
    DepsOfRows(p1.1.value, h.rest, rels);
  }

  /** Popping the name and the header leaves the other variables. */
  lemma HeaderRest(merged: ODict<string, string>)
    requires merged.Valid()
    ensures PopHeader(merged.Pop("PKGNAME").0).rest.vals == merged.vals - Reserved
  {
    var p1 := merged.Pop("PKGNAME");
    var p2 := p1.0.Pop("PKGSEC");
    var p3 := p2.0.Pop("PKGDES");
    var p4 := p3.0.Pop("PKGEPOCH");
    assert PopHeader(p1.0).rest == p4.0;
    MapMinus(merged.vals, {"PKGNAME"}, {"PKGSEC"});
    MapMinus(merged.vals, {"PKGNAME", "PKGSEC"}, {"PKGDES"});
    MapMinus(merged.vals, {"PKGNAME", "PKGSEC", "PKGDES"}, {"PKGEPOCH"});
    assert {"PKGNAME", "PKGSEC"} == {"PKGNAME"} + {"PKGSEC"};
    assert {"PKGNAME", "PKGSEC", "PKGDES"} == {"PKGNAME", "PKGSEC"} + {"PKGDES"};
    assert Reserved == {"PKGNAME", "PKGSEC", "PKGDES"} + {"PKGEPOCH"};
  }

  lemma MapMinus<K, V>(m: map<K, V>, a: set<K>, b: set<K>)
    ensures (m - a) - b == m - (a + b)
  {
  }

  /** Without a name the file only adds its variables (the name aside). */
  lemma DefinesUnnamed(spec: ODict<string, string>, vars: ODict<string, string>, rels: seq<string>)
    requires spec.Valid() && vars.Valid()
    requires spec.Update(vars).Get("PKGNAME") in {None, Some("")}
    ensures ApplyDefines(spec, vars, rels).Ok? && ApplyDefines(spec, vars, rels).value.Unnamed?
    ensures var s := ApplyDefines(spec, vars, rels).value.spec;
      && s.vals.Keys == (spec.vals.Keys + vars.vals.Keys) - {"PKGNAME"}
      && (forall k :: k in vars.vals && k != "PKGNAME" ==> s.vals[k] == vars.vals[k])
      && (forall k :: k in spec.vals && k !in vars.vals && k != "PKGNAME" ==> s.vals[k] == spec.vals[k])
  {
  }

  /** A package declared by a `defines` file. */
  class Package {
    var name: string
    const tree: string
    const secpath: string
    const category: Option<string>
    const section: string
    const directory: string
    var pkgSection: Option<string>
    var version: Option<string>
    var release: Option<string>
    var epoch: Option<string>
    var description: Option<string>
    var commitTime: Option<int>
    var spec: ODict<string, string>
    var dependencies: seq<Dependency>

    ghost predicate Valid()
      reads this
    {
      spec.Valid() && (category, section) == SplitSecpath(secpath)
    }

    constructor (tree: string, secpath: string, directory: string, name: string)
      ensures Valid()
      ensures this.tree == tree && this.secpath == secpath && this.directory == directory && this.name == name
      ensures pkgSection.None? && version.None? && release.None? && epoch.None?
      ensures description.None? && commitTime.None?
      ensures spec == EmptyDict() && dependencies == []
    {
      this.name := name;
      this.tree := tree;
      this.secpath := secpath;
      var (c, s) := SplitSecpath(secpath);
      this.category, this.section := c, s;
      this.directory := directory;
      this.pkgSection, this.version, this.release, this.epoch := None, None, None, None;
      this.description, this.commitTime := None, None;
      this.spec := EmptyDict();
      this.dependencies := [];
    }

    /** `load_defines`: merges the file's variables and, when they name the
        package, takes over the reserved ones; a dependency token that is
        not a package name raises. */
    method LoadDefines(vars: ODict<string, string>) returns (r: Result<()>)
      requires Valid() && vars.Valid()
      modifies this
      ensures r.Err? <==> ApplyDefines(old(spec), vars, Relationships()).Err?
      ensures r.Err? ==> r.error == ApplyDefines(old(spec), vars, Relationships()).error
      ensures r.Ok? ==> Valid() && spec == ApplyDefines(old(spec), vars, Relationships()).value.spec
      ensures r.Ok? && ApplyDefines(old(spec), vars, Relationships()).value.Unnamed? ==>
        name == old(name) && pkgSection == old(pkgSection) && description == old(description)
        && epoch == old(epoch) && dependencies == old(dependencies)
      ensures r.Ok? && ApplyDefines(old(spec), vars, Relationships()).value.Named? ==>
        var d := ApplyDefines(old(spec), vars, Relationships()).value;
        name == d.name && pkgSection == d.pkgSection && description == d.description
        && epoch == d.epoch && dependencies == d.dependencies
      ensures version == old(version) && release == old(release) && commitTime == old(commitTime)
    {
      RelationshipsDistinct();
      var d := Define(spec, vars, Relationships());
      r := Take(d);
    }

    /** The fields `load_defines` sets from what it popped out of the bag. */
    method Take(d: Result<Defined>) returns (r: Result<()>)
      requires Valid() && (d.Ok? ==> d.value.spec.Valid())
      modifies this
      ensures r.Err? <==> d.Err?
      ensures r.Err? ==> r.error == d.error
      ensures d.Ok? ==> Valid() && spec == d.value.spec
      ensures d.Ok? && d.value.Unnamed? ==>
        name == old(name) && pkgSection == old(pkgSection) && description == old(description)
        && epoch == old(epoch) && dependencies == old(dependencies)
      ensures d.Ok? && d.value.Named? ==>
        name == d.value.name && pkgSection == d.value.pkgSection && description == d.value.description
        && epoch == d.value.epoch && dependencies == d.value.dependencies
      ensures version == old(version) && release == old(release) && commitTime == old(commitTime)
    {
      match d
      case Err(e) =>
        r := Err(e);
      case Ok(Unnamed(rest)) =>
        spec := rest;
        r := Ok(());
      case Ok(Named(n, sec, des, epo, rest, deps)) =>
        name, pkgSection, description, epoch, spec, dependencies := n, sec, des, epo, rest, deps;
        r := Ok(());
    }
  }

  lemma MapRemoveTwo<K, V>(m: map<K, V>, a: K, b: K)
    ensures (m - {a}) - {b} == m - {a, b}
  {
  }

  /** A directory of the tree with its `spec` file: the group the packages
      of its `defines` files start from. */
  class PackageGroup {
    const name: string
    const tree: string
    const secpath: string
    const category: Option<string>
    const section: string
    const directory: string
    var version: Option<string>
    var release: Option<string>
    var commitTime: Option<int>
    var spec: ODict<string, string>

    ghost predicate Valid()
      reads this
    {
      spec.Valid() && (category, section) == SplitSecpath(secpath)
    }

    /** The group is named after its directory unless given a name. */
    constructor (tree: string, secpath: string, directory: string, name: Option<string>)
      ensures Valid()
      ensures this.tree == tree && this.secpath == secpath && this.directory == directory
      ensures this.name == if name.Some? && name.value != "" then name.value else directory
      ensures version.None? && release.None? && commitTime.None? && spec == EmptyDict()
    {
      this.name := if name.Some? && name.value != "" then name.value else directory;
      this.tree := tree;
      this.secpath := secpath;
      var (c, s) := SplitSecpath(secpath);
      this.category, this.section := c, s;
      this.version, this.release, this.commitTime := None, None, None;
      this.directory := directory;
      this.spec := EmptyDict();
    }

    /** `load_spec`: merges the file's variables and takes `VER` and `REL`
        out of the bag. */
    method LoadSpec(vars: ODict<string, string>)
      requires Valid() && vars.Valid()
      modifies this
      ensures Valid()
      ensures spec == old(spec).Update(vars).Pop("VER").0.Pop("REL").0
      ensures var merged := old(spec).Update(vars);
        && spec.vals == merged.vals - {"VER", "REL"}
        && version == merged.Get("VER") && release == merged.Get("REL")
      ensures commitTime == old(commitTime)
    {
      spec := spec.Update(vars);
      ghost var merged := spec.vals;
      var popped := spec.Pop("VER");
      spec, version := popped.0, popped.1;
      popped := spec.Pop("REL");
      spec, release := popped.0, popped.1;
      MapRemoveTwo(merged, "VER", "REL");
    }

    /** `package(defines)`: a new package with the group's location, name,
        version and a copy of its bag, then the `defines` file applied. The
        group itself is left as it was. */
    method MakePackage(vars: ODict<string, string>) returns (r: Result<Package>)
      requires Valid() && vars.Valid()
      ensures r.Ok? ==> fresh(r.value) && r.value.Valid()
      ensures r.Ok? ==> r.value.tree == tree && r.value.secpath == secpath && r.value.directory == directory
      ensures r.Ok? ==> r.value.version == version && r.value.release == release && r.value.commitTime == commitTime
      ensures var d := ApplyDefines(spec, vars, Relationships());
        && (d.Err? <==> r.Err?)
        && (r.Err? ==> r.error == d.error)
        && (d.Ok? ==> r.value.spec == d.value.spec)
        && (d.Ok? && d.value.Unnamed? ==>
              r.value.name == name && r.value.dependencies == [] && r.value.pkgSection.None?
              && r.value.description.None? && r.value.epoch.None?)
        && (d.Ok? && d.value.Named? ==>
              r.value.name == d.value.name && r.value.dependencies == d.value.dependencies
              && r.value.pkgSection == d.value.pkgSection && r.value.description == d.value.description
              && r.value.epoch == d.value.epoch)
    {
      var p := new Package(tree, secpath, directory, name);
      p.commitTime := commitTime;
      p.spec := spec;
      p.version := version;
      p.release := release;
      var ok := p.LoadDefines(vars);
      r := if ok.Err? then Err(ok.error) else Ok(p);
    }
  }
}
