/** `anitya.py`'s `load_config`: the hand-written links file read into
    links, and the detected links merged into both. */
module AnityaConfig {
  import opened Wrappers
  import opened Text
  import opened Collections
  import opened Anitya

  /** A value of `links`: a configured `(id, name)` pair, the name being
      optional, or a detected project row. */
  datatype Link = Configured(id: string, name: Option<string>) | Detected(project: Project)

  /** `v.split(' ', 1)` read as `(id, name)`, or `(id, None)` without a
      space. */
  function ParseLink(v: string): (r: Link)
    ensures r.Configured?
  {
    var parts := SplitOnce(v, ' ');
    if |parts| == 1 then Configured(parts[0], None) else Configured(parts[0], Some(parts[1]))
  }

  /** Without a space the whole option is the id; with one, the id is the
      text before the first space and the name all of the text after it. */
  lemma ParseLinkShape(v: string)
    ensures var r := ParseLink(v);
      && (' ' !in v ==> r == Configured(v, None))
      && (' ' in v ==> r.name.Some? && v == r.id + " " + r.name.value && ' ' !in r.id)
  {
    SplitOnceParts(v, ' ');
  }

  /** `'%d %s' % (v[0], v[1])`, the option written for a detected link. */
  function FormatLink(p: Project): string {
    IntToString(p.id) + " " + p.name
  }

  /** A detected link written to the file reads back as the project's id
      and name. */
  lemma FormatLinkParses(p: Project)
    ensures ParseLink(FormatLink(p)) == Configured(IntToString(p.id), Some(p.name))
  {
    var s := FormatLink(p);
    var t := IntToString(p.id);
    assert ' ' !in t by {
      if p.id < 0 {
        assert t == "-" + NatToString(-p.id);
      }
    }
    assert s[|t|] == ' ';
    var r := ParseLink(s);
    ParseLinkShape(s);
    SplitUnique(r.id, r.name.value, t, p.name, ' ');
  }

  /** A string splits at the first occurrence of a character in one way
      only. */
  lemma SplitUnique(a: string, b: string, x: string, y: string, c: char)
    requires a + [c] + b == x + [c] + y && c !in a && c !in x
    ensures a == x && b == y
  {
    var s := a + [c] + b;
    forall j | 0 <= j < |a| ensures !Equals(c)(s[j]) {
      assert s[j] == a[j] && a[j] in a;
    }
    FindFirstAt(s, Equals(c), |a|);
    forall j | 0 <= j < |x| ensures !Equals(c)(s[j]) {
      assert s[j] == x[j] && x[j] in x;
    }
    FindFirstAt(s, Equals(c), |x|);
    assert a == s[..|a|] == x;
    assert b == s[|a| + 1..] == y;
  }

  /** configparser's `optionxform`, which turns an option name into the
      name it is stored under: by default the name lowercased, so a stored
      name holds no capital letter and differs from the given one only
      where that one had a capital. */
  function OptionKey(k: string): (r: string)
    ensures |r| == |k|
    ensures forall i :: 0 <= i < |k| ==> !('A' <= r[i] <= 'Z')
    ensures forall i :: 0 <= i < |k| ==> r[i] == k[i] || ('A' <= k[i] <= 'Z' && r[i] as int == k[i] as int + 32)
  {
    Lower(k)
  }

  /** The first `n` options of the section, each value read by `read`, in
      an ordered dictionary. */
  function ReadOptions<L>(section: ODict<string, string>, n: nat, read: string -> L): ODict<string, L>
    requires section.Valid() && n <= |section.keys|
    decreases n
  {
    if n == 0 then EmptyDict()
    else
      var k := section.keys[n - 1];
      assert k in section.keys;
      ReadOptions(section, n - 1, read).Set(k, read(section.vals[k]))
  }

  /** The options read form a well-formed dictionary holding the first `n`
      option names in file order. */
  lemma {:induction false} ReadOptionsKeys<L>(section: ODict<string, string>, n: nat, read: string -> L)
    requires section.Valid() && n <= |section.keys|
    ensures var r := ReadOptions(section, n, read);
      r.Valid() && r.keys == section.keys[..n]
  {
    if n > 0 {
      ReadOptionsKeys(section, n - 1, read);
      var prev, k := ReadOptions(section, n - 1, read), section.keys[n - 1];
      forall j | 0 <= j < n - 1 ensures section.keys[j] != k {
      }
      assert k !in prev.keys;
      assert section.keys[..n] == section.keys[..n - 1] + [k];
    }
  }

  /** Each option read holds what `read` makes of its value. */
  lemma {:induction false} ReadOptionsVals<L>(section: ODict<string, string>, n: nat, read: string -> L)
    requires section.Valid() && n <= |section.keys|
    ensures var r := ReadOptions(section, n, read);
      forall k :: k in r.vals ==> k in section.vals && r.vals[k] == read(section.vals[k])
  {
    if n > 0 {
      ReadOptionsVals(section, n - 1, read);
      var k := section.keys[n - 1];
      assert k in section.keys;
      assert ReadOptions(section, n, read).vals == ReadOptions(section, n - 1, read).vals[k := read(section.vals[k])];
    }
  }

  /** The `links` the options of the section make, the first `n` of them. */
  function ConfigLinks(section: ODict<string, string>, n: nat): (r: ODict<string, Link>)
    requires section.Valid() && n <= |section.keys|
    ensures r.Valid()
  {
    ReadOptionsKeys(section, n, ParseLink);
    ReadOptions(section, n, ParseLink)
  }

  /** The links read hold the first `n` options, in file order, each read
      as a link. */
  lemma ConfigLinksShape(section: ODict<string, string>, n: nat)
    requires section.Valid() && n <= |section.keys|
    ensures var r := ConfigLinks(section, n);
      && r.keys == section.keys[..n]
      && forall k :: k in r.vals ==> k in section.vals && r.vals[k] == ParseLink(section.vals[k])
  {
    ReadOptionsKeys(section, n, ParseLink);
    ReadOptionsVals(section, n, ParseLink);
  }

  /** The detected links as `extra_links.items()` yields them, package name
      and project, each name once. */
  predicate DistinctNames(extra: seq<(string, Project)>) {
    forall i, j :: 0 <= i < j < |extra| ==> extra[i].0 != extra[j].0
  }

  /** The items of a dictionary name each of its keys once. */
  lemma ItemsDistinct(d: ODict<string, Project>)
    requires d.Valid()
    ensures DistinctNames(d.Items())
  {
    forall i, j | 0 <= i < j < |d.Items()| ensures d.Items()[i].0 != d.Items()[j].0 {
      assert d.Items()[i].0 == d.keys[i] && d.Items()[j].0 == d.keys[j];
    }
  }

  /** One step of the merge on the contents of the links and of the
      section: the detected link `p` of package `k` is added, and written to
      the section under its stored name, only when the section has no
      option of that name. */
  function MapsOne(m: (map<string, Link>, map<string, string>), k: string, p: Project, xform: string -> string)
    : (map<string, Link>, map<string, string>)
  {
    if xform(k) in m.1 then m else (m.0[k := Detected(p)], m.1[xform(k) := FormatLink(p)])
  }

  /** The same step on the dictionaries, a new link going last. */
  function MergeOne(acc: (ODict<string, Link>, ODict<string, string>), k: string, p: Project, xform: string -> string)
    : (r: (ODict<string, Link>, ODict<string, string>))
    ensures acc.0.Valid() && acc.1.Valid() ==> r.0.Valid() && r.1.Valid()
    ensures (r.0.vals, r.1.vals) == MapsOne((acc.0.vals, acc.1.vals), k, p, xform)
    ensures xform(k) in acc.1.vals || k in acc.0.vals ==> r.0.keys == acc.0.keys
    ensures xform(k) !in acc.1.vals && k !in acc.0.vals ==> r.0.keys == acc.0.keys + [k]
  {
    if xform(k) in acc.1.vals then acc
    else (acc.0.Set(k, Detected(p)), acc.1.Set(xform(k), FormatLink(p)))
  }

  /** The merge of the first `n` detected links, with option names stored
      as `xform` turns them. */
  function Merged(links: ODict<string, Link>, section: ODict<string, string>, extra: seq<(string, Project)>,
                  xform: string -> string, n: nat): (r: (ODict<string, Link>, ODict<string, string>))
    requires n <= |extra|
    decreases n
  {
    if n == 0 then (links, section)
    else MergeOne(Merged(links, section, extra, xform, n - 1), extra[n - 1].0, extra[n - 1].1, xform)
  }

  /** What the merge does to the contents of the two dictionaries. */
  function MergedMaps(lv: map<string, Link>, sv: map<string, string>, extra: seq<(string, Project)>,
                      xform: string -> string, n: nat): (map<string, Link>, map<string, string>)
    requires n <= |extra|
    decreases n
  {
    if n == 0 then (lv, sv)
    else MapsOne(MergedMaps(lv, sv, extra, xform, n - 1), extra[n - 1].0, extra[n - 1].1, xform)
  }

  /** The contents of the merged dictionaries are those the map fold
      gives. */
  lemma {:induction false} MergedVals(links: ODict<string, Link>, section: ODict<string, string>,
                                      extra: seq<(string, Project)>, xform: string -> string, n: nat)
    requires n <= |extra|
    ensures Merged(links, section, extra, xform, n).0.vals == MergedMaps(links.vals, section.vals, extra, xform, n).0
    ensures Merged(links, section, extra, xform, n).1.vals == MergedMaps(links.vals, section.vals, extra, xform, n).1
    decreases n
  {
    if n > 0 {
      MergedVals(links, section, extra, xform, n - 1);
    }
  }

  /** The fold never changes an option already in the section. */
  lemma {:induction false} MapsKeepConfig(lv: map<string, Link>, sv: map<string, string>, extra: seq<(string, Project)>,
                                          xform: string -> string, n: nat)
    requires n <= |extra|
    ensures var r := MergedMaps(lv, sv, extra, xform, n);
      forall key :: key in sv ==> key in r.1 && r.1[key] == sv[key]
    decreases n
  {
    if n > 0 {
      MapsKeepConfig(lv, sv, extra, xform, n - 1);
    }
  }

  /** Every link the fold adds is one of the detected packages. */
  lemma {:induction false} MapsOnlyDetected(lv: map<string, Link>, sv: map<string, string>, extra: seq<(string, Project)>,
                                            xform: string -> string, n: nat)
    requires n <= |extra|
    ensures var r := MergedMaps(lv, sv, extra, xform, n);
      forall k :: k in r.0 && k !in lv ==> exists i :: 0 <= i < n && extra[i].0 == k
    decreases n
  {
    if n > 0 {
      MapsOnlyDetected(lv, sv, extra, xform, n - 1);
      var prev := MergedMaps(lv, sv, extra, xform, n - 1);
      var r := MergedMaps(lv, sv, extra, xform, n);
      forall k | k in r.0 && k !in lv ensures exists i :: 0 <= i < n && extra[i].0 == k {
        if k == extra[n - 1].0 {
          assert 0 <= n - 1 < n && extra[n - 1].0 == k;
        } else {
          assert k in prev.0;
          var i :| 0 <= i < n - 1 && extra[i].0 == k;
          assert 0 <= i < n && extra[i].0 == k;
        }
      }
    }
  }

  /** Before the fold reaches detected package `n`, that package has no
      link unless it had one already. */
  lemma NotYetAdded(lv: map<string, Link>, sv: map<string, string>, extra: seq<(string, Project)>,
                    xform: string -> string, n: nat)
    requires n < |extra| && DistinctNames(extra)
    ensures extra[n].0 !in MergedMaps(lv, sv, extra, xform, n).0 || extra[n].0 in lv
  {
    MapsOnlyDetected(lv, sv, extra, xform, n);
    assert forall i :: 0 <= i < n ==> extra[i].0 != extra[n].0;
  }

  /** A link the fold adds for detected package `j` is its detected
      project, and the option under its stored name holds that link. */
  lemma {:induction false} MapsAddDetected(lv: map<string, Link>, sv: map<string, string>, extra: seq<(string, Project)>,
                                           xform: string -> string, n: nat)
    requires n <= |extra| && DistinctNames(extra)
    ensures var r := MergedMaps(lv, sv, extra, xform, n);
      forall j :: 0 <= j < n && extra[j].0 in r.0 && extra[j].0 !in lv ==>
        && r.0[extra[j].0] == Detected(extra[j].1)
        && xform(extra[j].0) in r.1 && r.1[xform(extra[j].0)] == FormatLink(extra[j].1)
    decreases n
  {
    if n > 0 {
      MapsAddDetected(lv, sv, extra, xform, n - 1);
      NotYetAdded(lv, sv, extra, xform, n - 1);
      var prev := MergedMaps(lv, sv, extra, xform, n - 1);
      var r := MergedMaps(lv, sv, extra, xform, n);
      var k := extra[n - 1].0;
      assert r == MapsOne(prev, k, extra[n - 1].1, xform);
      forall j | 0 <= j < n && extra[j].0 in r.0 && extra[j].0 !in lv
        ensures r.0[extra[j].0] == Detected(extra[j].1)
        ensures xform(extra[j].0) in r.1 && r.1[xform(extra[j].0)] == FormatLink(extra[j].1)
      {
        if j < n - 1 {
          assert extra[j].0 != k;
          assert extra[j].0 in prev.0;
        }
      }
    }
  }

  /** A link whose option is in the section is never replaced. */
  lemma {:induction false} MapsKeepLinks(lv: map<string, Link>, sv: map<string, string>, extra: seq<(string, Project)>,
                                         xform: string -> string, n: nat)
    requires n <= |extra|
    requires forall k :: k in lv ==> xform(k) in sv
    ensures var r := MergedMaps(lv, sv, extra, xform, n);
      forall k :: k in lv ==> k in r.0 && r.0[k] == lv[k]
    decreases n
  {
    if n > 0 {
      MapsKeepLinks(lv, sv, extra, xform, n - 1);
      MapsKeepConfig(lv, sv, extra, xform, n - 1);
      var prev := MergedMaps(lv, sv, extra, xform, n - 1);
      var k := extra[n - 1].0;
      assert MergedMaps(lv, sv, extra, xform, n) == MapsOne(prev, k, extra[n - 1].1, xform);
      assert k in lv ==> xform(k) in prev.1;
    }
  }

  /** The merge never changes an option already in the section, and every
      link it adds is one of the detected packages. */
  lemma MergedKeepsConfig(links: ODict<string, Link>, section: ODict<string, string>,
                          extra: seq<(string, Project)>, xform: string -> string, n: nat)
    requires n <= |extra|
    ensures var r := Merged(links, section, extra, xform, n);
      && (forall key :: key in section.vals ==> key in r.1.vals && r.1.vals[key] == section.vals[key])
      && (forall k :: k in r.0.vals && k !in links.vals ==> exists i :: 0 <= i < n && extra[i].0 == k)
  {
    MergedVals(links, section, extra, xform, n);
    MapsKeepConfig(links.vals, section.vals, extra, xform, n);
    MapsOnlyDetected(links.vals, section.vals, extra, xform, n);
  }

  /** A link the merge adds is the detected one, written to the section
      under its stored name. */
  lemma MergedAddsDetected(links: ODict<string, Link>, section: ODict<string, string>,
                           extra: seq<(string, Project)>, xform: string -> string, n: nat)
    requires n <= |extra| && DistinctNames(extra)
    ensures var r := Merged(links, section, extra, xform, n);
      forall j :: 0 <= j < n && extra[j].0 in r.0.vals && extra[j].0 !in links.vals ==>
        && r.0.vals[extra[j].0] == Detected(extra[j].1)
        && xform(extra[j].0) in r.1.vals && r.1.vals[xform(extra[j].0)] == FormatLink(extra[j].1)
  {
    MergedVals(links, section, extra, xform, n);
    MapsAddDetected(links.vals, section.vals, extra, xform, n);
  }

  /** The links already there keep their place at the front. */
  lemma {:induction false} MergedKeepsOrder(links: ODict<string, Link>, section: ODict<string, string>,
                                            extra: seq<(string, Project)>, xform: string -> string, n: nat)
    requires n <= |extra|
    ensures var r := Merged(links, section, extra, xform, n);
      |links.keys| <= |r.0.keys| && r.0.keys[..|links.keys|] == links.keys
    decreases n
  {
    if n > 0 {
      MergedKeepsOrder(links, section, extra, xform, n - 1);
      var prev := Merged(links, section, extra, xform, n - 1);
      var r := Merged(links, section, extra, xform, n);
      assert r.0.keys[..|links.keys|] == prev.0.keys[..|links.keys|];
    }
  }

  /** Options stored as `xform` stores them. */
  predicate Stored(section: ODict<string, string>, xform: string -> string) {
    forall key :: key in section.vals ==> xform(key) == key
  }

  /** On a section read by configparser, a package linked in the section
      keeps its configured link. */
  lemma MergedKeepsLinks(section: ODict<string, string>, extra: seq<(string, Project)>,
                         xform: string -> string, n: nat)
    requires section.Valid() && Stored(section, xform) && n <= |extra|
    ensures var links := ConfigLinks(section, |section.keys|);
      var r := Merged(links, section, extra, xform, n);
      forall k :: k in links.vals ==> k in r.0.vals && r.0.vals[k] == links.vals[k]
  {
    var links := ConfigLinks(section, |section.keys|);
    ConfigLinksShape(section, |section.keys|);
    MergedVals(links, section, extra, xform, n);
    MapsKeepLinks(links.vals, section.vals, extra, xform, n);
  }

  /** `load_config` from the `anitya_links` section onwards, with the merge
      and the stored rows corrected (see `AsWrittenOverridesConfig` and
      `AsWrittenLinksCollapse` for the code as written): the links of the
      section's options, in order, then, when links were detected, the merge
      of the detected ones in the order of the dictionary, which also changes
      the section; last, a row of `anitya_link` for each link. */
  method LoadConfig(section: ODict<string, string>, extra: Option<ODict<string, Project>>, table: map<string, string>)
    returns (links: ODict<string, Link>, config: ODict<string, string>, written: map<string, string>)
    requires section.Valid() && (extra.Some? ==> extra.value.Valid())
    ensures links.Valid() && config.Valid()
    ensures var c := ConfigLinks(section, |section.keys|);
      (links, config) == if extra.Some? then Merged(c, section, extra.value.Items(), OptionKey, |extra.value.keys|) else (c, section)
    ensures written == LinkTable(links, table, |links.keys|)
  {
    links := ReadLinks(section);
    config := section;
    if extra.Some? {
      links, config := MergeDetected(links, section, extra.value.Items());
    }
    written := WriteLinks(links, table);
  }

  /** The loop of `load_config` that reads each option of the section as a
      link. */
  method ReadLinks(section: ODict<string, string>) returns (links: ODict<string, Link>)
    requires section.Valid()
    ensures links == ConfigLinks(section, |section.keys|)
  {
    links := EmptyDict();
    for i := 0 to |section.keys|
      invariant links == ReadOptions(section, i, ParseLink)
    {
      var k := section.keys[i];
      assert k in section.keys;
      links := links.Set(k, ParseLink(section.vals[k]));
    }
  }

  /** The loop of `load_config` that merges the detected links into the
      links and the section, corrected to test the stored option name, so
      that a hand-written link is never overwritten. */
  method MergeDetected(links0: ODict<string, Link>, section: ODict<string, string>, detected: seq<(string, Project)>)
    returns (links: ODict<string, Link>, config: ODict<string, string>)
    requires links0.Valid() && section.Valid()
    ensures links.Valid() && config.Valid()
    ensures (links, config) == Merged(links0, section, detected, OptionKey, |detected|)
  {
    links, config := links0, section;
    for i := 0 to |detected|
      invariant links.Valid() && config.Valid()
      invariant (links, config) == Merged(links0, section, detected, OptionKey, i)
    {
      var (k, p) := detected[i];
      if OptionKey(k) !in config.vals {
        links := links.Set(k, Detected(p));
        config := config.Set(OptionKey(k), FormatLink(p));
      }
    }
  }

  /** The loop of `load_config` that stores each link in `anitya_link`,
      corrected to put the package in the `package` column. */
  method WriteLinks(links: ODict<string, Link>, table: map<string, string>) returns (written: map<string, string>)
    requires links.Valid()
    ensures written == LinkTable(links, table, |links.keys|)
  {
    written := table;
    for i := 0 to |links.keys|
      invariant written == LinkTable(links, table, i)
    {
      var k := links.keys[i];
      written := written[k := LinkId(links.vals[k])];
    }
  }

  /** The merge as `load_config` writes it: it tests the package name
      against the keys of `links`, which are the section's stored option
      names, but writes the option under the stored name. */
  function MergedAsWritten(links: ODict<string, Link>, section: ODict<string, string>, extra: seq<(string, Project)>,
                           xform: string -> string, n: nat): (r: (ODict<string, Link>, ODict<string, string>))
    requires n <= |extra|
    ensures forall k :: k in links.vals ==> k in r.0.vals && r.0.vals[k] == links.vals[k]
    ensures forall k :: k in section.vals ==> k in r.1.vals
    decreases n
  {
    if n == 0 then (links, section)
    else
      var prev := MergedAsWritten(links, section, extra, xform, n - 1);
      var k := extra[n - 1].0;
      if k in prev.0.vals then prev
      else (prev.0.Set(k, Detected(extra[n - 1].1)), prev.1.Set(xform(k), FormatLink(extra[n - 1].1)))
  }

  /** As written, a package whose name has an upper-case letter overwrites
      the hand-written option of its lowercased name: with `foo = 7` in the
      file and `Foo` detected, the file then says `foo = 2 foo`. */
  lemma AsWrittenOverridesConfig()
    ensures var section := ODict(["foo"], map["foo" := "7"]);
      var r := MergedAsWritten(ConfigLinks(section, 1), section, [("Foo", Project(2, "foo"))], OptionKey, 1);
      "foo" in r.1.vals && r.1.vals["foo"] != section.vals["foo"]
  {
    var section := ODict(["foo"], map["foo" := "7"]);
    assert section.Valid();
    var links := ConfigLinks(section, 1);
    ConfigLinksShape(section, 1);
    assert links.keys == ["foo"];
    assert "Foo" !in links.vals;
    assert OptionKey("Foo") == "foo";
    var r := MergedAsWritten(links, section, [("Foo", Project(2, "foo"))], OptionKey, 1);
    assert r.1.vals["foo"] == FormatLink(Project(2, "foo"));
    assert |FormatLink(Project(2, "foo"))| > 1;
  }

  /** On package names `xform` keeps as they are, the written merge is the
      intended one. */
  lemma {:induction false} AsWrittenAgrees(section: ODict<string, string>, extra: seq<(string, Project)>,
                                           xform: string -> string, n: nat)
    requires section.Valid() && Stored(section, xform) && n <= |extra|
    requires forall i :: 0 <= i < |extra| ==> xform(extra[i].0) == extra[i].0
    ensures var links := ConfigLinks(section, |section.keys|);
      && MergedAsWritten(links, section, extra, xform, n) == Merged(links, section, extra, xform, n)
      && (forall k :: k in Merged(links, section, extra, xform, n).0.vals <==> k in Merged(links, section, extra, xform, n).1.vals)
    decreases n
  {
    var links := ConfigLinks(section, |section.keys|);
    ConfigLinksShape(section, |section.keys|);
    if n > 0 {
      AsWrittenAgrees(section, extra, xform, n - 1);
      var k := extra[n - 1].0;
      assert xform(k) == k;
      var prev := Merged(links, section, extra, xform, n - 1);
      assert k in prev.0.vals <==> k in prev.1.vals;
    } else {
      assert section.keys[..|section.keys|] == section.keys;
    }
  }

  /** The project id a link names: the configured text, or the id of the
      detected project row. */
  function LinkId(l: Link): string {
    match l
    case Configured(id, _) => id
    case Detected(p) => IntToString(p.id)
  }

  /** The `anitya_link` table, as a map from its key column `package` to
      its `projectid` column, after a `REPLACE` of each of the first `n`
      links, one row per package holding its project id. */
  function LinkTable(links: ODict<string, Link>, table: map<string, string>, n: nat): (r: map<string, string>)
    requires links.Valid() && n <= |links.keys|
    ensures forall k :: k in r <==> k in table || k in links.keys[..n]
  {
    if n == 0 then table
    else
      var k := links.keys[n - 1];
      assert links.keys[..n] == links.keys[..n - 1] + [k];
      LinkTable(links, table, n - 1)[k := LinkId(links.vals[k])]
  }

  /** Every link leaves the row of its own package, holding its project
      id, and the rows of other packages are kept. */
  lemma {:induction false} LinkTableRows(links: ODict<string, Link>, table: map<string, string>, n: nat, k: string)
    requires links.Valid() && n <= |links.keys|
    ensures k in links.keys[..n] ==> LinkTable(links, table, n)[k] == LinkId(links.vals[k])
    ensures k in table && k !in links.keys[..n] ==> LinkTable(links, table, n)[k] == table[k]
  {
    if n > 0 {
      var last := links.keys[n - 1];
      assert links.keys[..n] == links.keys[..n - 1] + [last];
      if k != last {
        LinkTableRows(links, table, n - 1, k);
      }
    }
  }

  /** The table as `load_config` writes it: the values go in as
      `(v[0], k)`, the project id into the key column `package` and the
      package name into `projectid`. */
  function LinkTableAsWritten(links: ODict<string, Link>, table: map<string, string>, n: nat): (r: map<string, string>)
    requires links.Valid() && n <= |links.keys|
    ensures forall k :: k in table ==> k in r
    ensures forall k :: k in r && k !in table ==> exists i :: 0 <= i < n && k == LinkId(links.vals[links.keys[i]])
  {
    if n == 0 then table
    else
      var k := links.keys[n - 1];
      LinkTableAsWritten(links, table, n - 1)[LinkId(links.vals[k]) := k]
  }

  /** As written, two packages linked to one project leave a single row,
      keyed by the project id, naming the later package only. */
  lemma AsWrittenLinksCollapse()
    ensures var links := ODict(["a", "b"], map["a" := Configured("7", None), "b" := Configured("7", None)]);
      LinkTableAsWritten(links, map[], 2) == map["7" := "b"]
      && LinkTable(links, map[], 2) == map["a" := "7", "b" := "7"]
  {
    var links := ODict(["a", "b"], map["a" := Configured("7", None), "b" := Configured("7", None)]);
    assert links.Valid();
    assert links.keys[..2] == ["a", "b"];
    LinkTableRows(links, map[], 2, "a");
    LinkTableRows(links, map[], 2, "b");
  }
}
