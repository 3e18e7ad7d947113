/** `tools/ciel-updreq.py`: the spec-file part of the update helper, which
    reads a spec's variables and rewrites its version. */
module CielUpdreq {
  import opened Wrappers
  import opened Text
  import opened SpecVars

  /** The Python list of a spec's lines, which `specupdate` changes in
      place. */
  class LineList {
    var lines: seq<string>

    constructor (lines: seq<string>)
      ensures this.lines == lines
    {
      this.lines := lines;
    }
  }

  /** The line `VER=<version>`. */
  function VerLine(version: string): string {
    "VER" + "=" + version + "\n"
  }

  /** The lines after `specupdate(var, lines, version)` and its outcome:
      without `VER` in the table `ValueError` and nothing changes; otherwise
      the `VER` line becomes `VER=<version>`, then the `REL` line, if the
      table has one, is deleted, and the result is the lines joined. An index
      past the end raises `IndexError` (after the `VER` line is written, for
      the `REL` index). */
  function Rewritten(lines: seq<string>, vars: map<string, (nat, string)>, version: string)
    : (r: (seq<string>, Result<string>))
    ensures r.1.Ok? ==> r.1.value == Concat(r.0)
    ensures r.1.Ok? ==> |r.0| == |lines| - (if "REL" in vars then 1 else 0)
    ensures "VER" !in vars ==> r == (lines, Err("ValueError"))
    ensures |r.0| <= |lines|
  {
    if "VER" !in vars then (lines, Err("ValueError"))
    else if vars["VER"].0 >= |lines| then (lines, Err("IndexError"))
    else
      var l := lines[vars["VER"].0 := VerLine(version)];
      if "REL" !in vars then (l, Ok(Concat(l)))
      else if vars["REL"].0 >= |l| then (l, Err("IndexError"))
      else
        var d := l[..vars["REL"].0] + l[vars["REL"].0 + 1..];
        (d, Ok(Concat(d)))
  }

  /** `specparse(spec)`: the table of last assignments and the lines, which
      join back to the spec. */
  method SpecParse(spec: string) returns (vars: map<string, (nat, string)>, list: LineList)
    ensures fresh(list)
    ensures list.lines == SplitLines(spec, true) && vars == LastAssignments(list.lines)
    ensures Concat(list.lines) == spec
  {
    var lines := SplitLines(spec, true);
    vars := CollectVariables(lines);
    list := new LineList(lines);
    SplitLinesJoin(spec, IsLineBreak, '\r', '\n');
  }

  /** `specupdate(var, lines, version)`, changing the caller's list. */
  method SpecUpdate(vars: map<string, (nat, string)>, list: LineList, version: string) returns (r: Result<string>)
    modifies list
    ensures (list.lines, r) == Rewritten(old(list.lines), vars, version)
  {
    if "VER" !in vars {
      return Err("ValueError");
    }
    if vars["VER"].0 >= |list.lines| {
      return Err("IndexError");
    }
    list.lines := list.lines[vars["VER"].0 := VerLine(version)];
    if "REL" in vars {
      if vars["REL"].0 >= |list.lines| {
        return Err("IndexError");
      }
      list.lines := list.lines[..vars["REL"].0] + list.lines[vars["REL"].0 + 1..];
    }
    r := Ok(Concat(list.lines));
  }

  /** Where line `m` lands once the `REL` line is deleted. */
  function Landed(vars: map<string, (nat, string)>, m: nat): nat {
    if "REL" in vars && m > vars["REL"].0 then m - 1 else m
  }

  /** On the table of its own lines `specupdate` succeeds when `VER` is
      assigned; the result has one line fewer with a `REL` line, the `VER`
      line is the new one, and every other line stays in order. */
  lemma RewrittenShape(lines: seq<string>, version: string)
    requires "VER" in LastAssignments(lines)
    ensures var vars := LastAssignments(lines);
      var r := Rewritten(lines, vars, version);
      && r.1.Ok? && r.1.value == Concat(r.0)
      && |r.0| == (if "REL" in vars then |lines| - 1 else |lines|)
      && r.0[Landed(vars, vars["VER"].0)] == VerLine(version)
      && forall m :: 0 <= m < |lines| && m != vars["VER"].0 && ("REL" in vars ==> m != vars["REL"].0) ==>
           r.0[Landed(vars, m)] == lines[m]
  {
    var vars := LastAssignments(lines);
    if "REL" in vars {
      LastAssignmentsEntry(lines, "VER");
      LastAssignmentsEntry(lines, "REL");
      RewrittenDeletes(lines, vars, version);
    } else {
      var l := lines[vars["VER"].0 := VerLine(version)];
      assert Rewritten(lines, vars, version) == (l, Ok(Concat(l)));
    }
  }

  /** With distinct `VER` and `REL` lines, the `REL` line goes and the
      lines after it move one place down. */
  lemma RewrittenDeletes(lines: seq<string>, vars: map<string, (nat, string)>, version: string)
    requires "VER" in vars && "REL" in vars
    requires vars["VER"].0 < |lines| && vars["REL"].0 < |lines| && vars["VER"].0 != vars["REL"].0
    ensures var r := Rewritten(lines, vars, version);
      && r.1.Ok? && r.1.value == Concat(r.0) && |r.0| == |lines| - 1
      && r.0[Landed(vars, vars["VER"].0)] == VerLine(version)
      && forall m :: 0 <= m < |lines| && m != vars["VER"].0 && m != vars["REL"].0 ==>
           r.0[Landed(vars, m)] == lines[m]
  {
    var j := vars["REL"].0;
    var l := lines[vars["VER"].0 := VerLine(version)];
    var d := l[..j] + l[j + 1..];
    assert Rewritten(lines, vars, version) == (d, Ok(Concat(d)));
    Deleted(l, j);
    forall m | 0 <= m < |lines| && m != j ensures d[Landed(vars, m)] == l[m] {
      if m > j {
        assert d[m - 1] == l[m];
      }
    }
  }

  /** `del list[j]`: the elements after `j` move one place down. */
  lemma Deleted<T>(s: seq<T>, j: nat)
    requires j < |s|
    ensures var d := s[..j] + s[j + 1..];
      && |d| == |s| - 1
      && (forall m :: 0 <= m < j ==> d[m] == s[m])
      && (forall m :: j < m < |s| ==> d[m - 1] == s[m])
  {
  }

  lemma VerIsName()
    ensures IsName("VER")
  {
    assert forall c :: c in "VER" ==> c == 'V' || c == 'E' || c == 'R';
  }

  /** Deleting a line that does not assign `k` keeps `k`'s value. */
  lemma LastAssignmentsDelete(lines: seq<string>, j: nat, k: string)
    requires j < |lines| && k in LastAssignments(lines) && !Assigns(lines[j], k)
    ensures var d := lines[..j] + lines[j + 1..];
      k in LastAssignments(d) && LastAssignments(d)[k].1 == LastAssignments(lines)[k].1
  {
    var d := lines[..j] + lines[j + 1..];
    Deleted(lines, j);
    LastAssignmentsEntry(lines, k);
    var i := LastAssignments(lines)[k].0;
    var i' := if i < j then i else i - 1;
    assert d[i'] == lines[i];
    LastAssignmentsKeys(d, k);
    LastAssignmentsEntry(d, k);
    forall p | i' < p < |d| ensures !Assigns(d[p], k) {
      if p < j {
        assert d[p] == lines[p];
      } else {
        assert d[p] == lines[p + 1];
      }
    }
    LastIndexUnique(d, k, LastAssignments(d)[k].0, i');
  }

  /** Reading the rewritten lines back finds `VER` assigned the new version
      (a non-empty version on one line). */
  lemma RewrittenReadsBack(lines: seq<string>, version: string)
    requires "VER" in LastAssignments(lines)
    requires version != [] && '\n' !in version
    ensures var r := Rewritten(lines, LastAssignments(lines), version).0;
      "VER" in LastAssignments(r) && LastAssignments(r)["VER"].1 == version
  {
    var vars := LastAssignments(lines);
    var vi := vars["VER"].0;
    var l := lines[vi := VerLine(version)];
    VerIsName();
    AssignmentOf("VER", version);
    LastAssignmentsEntry(lines, "VER");
    LastAssignmentsReplace(lines, vi, VerLine(version), "VER", version);
    if "REL" in vars {
      var j := vars["REL"].0;
      LastAssignmentsEntry(lines, "REL");
      assert l[j] == lines[j];
      LastAssignmentsDelete(l, j, "VER");
      assert Rewritten(lines, vars, version).0 == l[..j] + l[j + 1..];
    }
  }
}
