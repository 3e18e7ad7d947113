/** The variable assignments the spec-file tools look for: the pattern
    `^\s*([a-zA-Z_][a-zA-Z0-9_]*)=(.+)$` matched against each line, and the
    table of the last assignment of each name. */
module SpecVars {
  import opened Wrappers
  import opened Text

  predicate IsNameStart(c: char) {
    'a' <= c <= 'z' || 'A' <= c <= 'Z' || c == '_'
  }

  predicate IsNameChar(c: char) {
    IsNameStart(c) || '0' <= c <= '9'
  }

  /** A name the pattern's group 1 can match. */
  predicate IsName(s: string) {
    s != [] && IsNameStart(s[0]) && forall c :: c in s ==> IsNameChar(c)
  }

  /** The length of the leading run of `\s`. */
  function SpaceRun(s: string): (n: nat)
    ensures n <= |s| && (n < |s| ==> !IsSpace(s[n]))
    ensures forall i :: 0 <= i < n ==> IsSpace(s[i])
  {
    if s == [] || !IsSpace(s[0]) then 0 else 1 + SpaceRun(s[1..])
  }

  /** The length of the leading run of name characters. */
  function NameRun(s: string): (n: nat)
    ensures n <= |s| && (n < |s| ==> !IsNameChar(s[n]))
    ensures forall i :: 0 <= i < n ==> IsNameChar(s[i])
  {
    if s == [] || !IsNameChar(s[0]) then 0 else 1 + NameRun(s[1..])
  }

  /** The match of the pattern against one line: the name and the value.
      Whitespace and name characters never overlap, so the match is the
      whitespace run, the name run, `=`, and the rest of the line; `.` stops
      at a line feed and `$` also matches before a final one, so the value
      is the rest without a final line feed, and it must be non-empty and
      hold no other line feed. */
  function Assignment(line: string): (r: Option<(string, string)>)
    ensures r.Some? ==> IsName(r.value.0) && r.value.1 != [] && '\n' !in r.value.1
  {
    var t := line[SpaceRun(line)..];
    var n := NameRun(t);
    if n == 0 || !IsNameStart(t[0]) || n == |t| || t[n] != '=' then None
    else
      var rest := t[n + 1..];
      var value := if rest != [] && rest[|rest| - 1] == '\n' then rest[..|rest| - 1] else rest;
      if value == [] || '\n' in value then None
      else
        assert forall c :: c in t[..n] ==> IsNameChar(c);
        Some((t[..n], value))
  }

  /** `name=value` with a line feed is read back as that assignment. */
  lemma AssignmentOf(name: string, value: string)
    requires IsName(name) && value != [] && '\n' !in value
    ensures Assignment(name + "=" + value + "\n") == Some((name, value))
  {
    var line := name + "=" + value + "\n";
    assert !IsSpace(line[0]);
    assert SpaceRun(line) == 0;
    assert line[0..] == line;
    forall i | 0 <= i < |name| ensures IsNameChar(line[i]) {
      assert line[i] == name[i] && name[i] in name;
    }
    assert NameRun(line) == |name| by {
      NameRunAt(line, |name|);
    }
    var t := line[SpaceRun(line)..];
    assert t == line && t[|name|] == '=';
    var rest := t[|name| + 1..];
    assert rest == value + "\n";
    assert rest != [] && rest[|rest| - 1] == '\n';
    assert rest[..|rest| - 1] == value;
    assert t[..|name|] == name;
  }

  /** The name run ends at the first character that is not a name
      character. */
  lemma {:induction false} NameRunAt(s: string, n: nat)
    requires n < |s| && !IsNameChar(s[n])
    requires forall i :: 0 <= i < n ==> IsNameChar(s[i])
    ensures NameRun(s) == n
    decreases n
  {
    if n > 0 {
      NameRunAt(s[1..], n - 1);
    }
  }

  /** A line whose value is empty, with or without a line feed, is not an
      assignment. */
  lemma EmptyValueUnassigned(name: string)
    requires IsName(name)
    ensures Assignment(name + "=") == None
    ensures Assignment(name + "=\n") == None
  {
    forall ending | ending == "" || ending == "\n" ensures Assignment(name + "=" + ending) == None {
      var line := name + "=" + ending;
      assert !IsSpace(line[0]);
      assert SpaceRun(line) == 0;
      assert line[0..] == line;
      forall i | 0 <= i < |name| ensures IsNameChar(line[i]) {
        assert line[i] == name[i] && name[i] in name;
      }
      NameRunAt(line, |name|);
      assert line[|name| + 1..] == ending;
    }
    assert name + "=" + "" == name + "=";
  }

  /** Line `line` assigns the name `k`. */
  predicate Assigns(line: string, k: string) {
    Assignment(line).Some? && Assignment(line).value.0 == k
  }

  /** The `var` table both tools build: each assigned name mapped to the
      index of the last line assigning it and that line's value. */
  function LastAssignments(lines: seq<string>): (r: map<string, (nat, string)>)
    ensures forall k :: k in r ==> r[k].0 < |lines|
    decreases |lines|
  {
    if lines == [] then map[]
    else
      var prev := LastAssignments(lines[..|lines| - 1]);
      var a := Assignment(lines[|lines| - 1]);
      if a.Some? then prev[a.value.0 := (|lines| - 1, a.value.1)] else prev
  }

  /** The table holds exactly the names some line assigns. */
  lemma {:induction false} LastAssignmentsKeys(lines: seq<string>, k: string)
    ensures k in LastAssignments(lines) <==> exists i :: 0 <= i < |lines| && Assigns(lines[i], k)
    decreases |lines|
  {
    if lines != [] {
      var n := |lines| - 1;
      var init := lines[..n];
      LastAssignmentsStep(lines);
      if Assigns(lines[n], k) {
        assert k in LastAssignments(lines);
      } else {
        LastAssignmentsKeys(init, k);
        assert k in LastAssignments(lines) <==> k in LastAssignments(init);
        if k in LastAssignments(init) {
          var i :| 0 <= i < n && Assigns(init[i], k);
          assert init[i] == lines[i];
        }
        if exists i :: 0 <= i < |lines| && Assigns(lines[i], k) {
          var i :| 0 <= i < |lines| && Assigns(lines[i], k);
          assert i != n;
          assert init[i] == lines[i];
        }
      }
    }
  }

  /** The last line's step of the table. */
  lemma LastAssignmentsStep(lines: seq<string>)
    requires lines != []
    ensures var n := |lines| - 1;
      var prev := LastAssignments(lines[..n]);
      && (Assignment(lines[n]).Some? ==>
            LastAssignments(lines) == prev[Assignment(lines[n]).value.0 := (n, Assignment(lines[n]).value.1)])
      && (Assignment(lines[n]).None? ==> LastAssignments(lines) == prev)
  {
  }

  /** Each entry is the value of a line assigning its name, and no later
      line assigns that name. */
  lemma {:induction false} LastAssignmentsEntry(lines: seq<string>, k: string)
    requires k in LastAssignments(lines)
    ensures var e := LastAssignments(lines)[k];
      && Assignment(lines[e.0]) == Some((k, e.1))
      && forall j :: e.0 < j < |lines| ==> !Assigns(lines[j], k)
    decreases |lines|
  {
    var n := |lines| - 1;
    var init := lines[..n];
    LastAssignmentsStep(lines);
    if Assigns(lines[n], k) {
      assert LastAssignments(lines)[k] == (n, Assignment(lines[n]).value.1);
    } else {
      var e := LastAssignments(init)[k];
      assert LastAssignments(lines)[k] == e;
      LastAssignmentsEntry(init, k);
      assert init[e.0] == lines[e.0];
      forall j | e.0 < j < |lines| ensures !Assigns(lines[j], k) {
        if j < n {
          assert !Assigns(init[j], k);
          assert init[j] == lines[j];
        } else {
          assert j == n;
        }
      }
    }
  }

  /** The last line assigning `k` is determined by the lines. */
  lemma LastIndexUnique(lines: seq<string>, k: string, a: nat, b: nat)
    requires a < |lines| && b < |lines| && Assigns(lines[a], k) && Assigns(lines[b], k)
    requires forall j :: a < j < |lines| ==> !Assigns(lines[j], k)
    requires forall j :: b < j < |lines| ==> !Assigns(lines[j], k)
    ensures a == b
  {
  }

  /** Replacing the last line assigning `k` by another assignment of `k`
      changes that entry of the table and no other. */
  lemma LastAssignmentsReplace(lines: seq<string>, i: nat, line: string, k: string, value: string)
    requires i < |lines| && Assigns(lines[i], k) && forall j :: i < j < |lines| ==> !Assigns(lines[j], k)
    requires Assignment(line) == Some((k, value))
    ensures LastAssignments(lines[i := line]) == LastAssignments(lines)[k := (i, value)]
  {
    var after := lines[i := line];
    var l := LastAssignments(after);
    var r := LastAssignments(lines)[k := (i, value)];
    forall m ensures m in l <==> m in r {
      LastAssignmentsKeys(after, m);
      LastAssignmentsKeys(lines, m);
      if m != k {
        if m in l {
          var j :| 0 <= j < |after| && Assigns(after[j], m);
          assert j != i && Assigns(lines[j], m);
        }
        if m in r {
          var j :| 0 <= j < |lines| && Assigns(lines[j], m);
          assert j != i && Assigns(after[j], m);
        }
      } else {
        assert Assigns(after[i], k);
      }
    }
    forall m | m in l ensures l[m] == r[m] {
      LastAssignmentsEntry(after, m);
      if m == k {
        LastIndexUnique(after, k, l[k].0, i);
      } else {
        var o := LastAssignments(lines);
        LastAssignmentsEntry(lines, m);
        assert l[m].0 != i && o[m].0 != i;
        assert Assigns(lines[l[m].0], m) && Assigns(after[o[m].0], m);
        LastIndexUnique(lines, m, l[m].0, o[m].0);
      }
    }
  }

  /** The loop of `increaserel` and of `specparse` filling `var`. */
  method CollectVariables(lines: seq<string>) returns (vars: map<string, (nat, string)>)
    ensures vars == LastAssignments(lines)
  {
    vars := map[];
    for k := 0 to |lines|
      invariant vars == LastAssignments(lines[..k])
    {
      assert lines[..k + 1][..k] == lines[..k];
      var m := Assignment(lines[k]);
      if m.Some? {
        vars := vars[m.value.0 := (k, m.value.1)];
      }
    }
    assert lines[..|lines|] == lines;
  }
}
