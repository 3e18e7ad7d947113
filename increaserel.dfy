/** `tools/increaserel.py`: increases the package release `REL` of a spec
    file. */
module IncreaseRel {
  import opened Wrappers
  import opened Text
  import opened SpecVars

  /** The line `REL=<n>`. */
  function RelLine(n: int): string {
    "REL" + "=" + IntToString(n) + "\n"
  }

  /** The lines after the release is increased: the last `REL` line becomes
      `REL=<value + 1>` (a value `int` cannot read raises `ValueError`);
      without a `REL` line, `REL=1` goes right after the last `VER` line, or
      last when there is no `VER` line either. */
  function Bumped(lines: seq<string>): (r: Result<seq<string>>)
    ensures r.Ok? ==> |lines| <= |r.value| <= |lines| + 1
  {
    var vars := LastAssignments(lines);
    if "REL" in vars then
      match ParseInt(vars["REL"].1)
      case None => Err("ValueError")
      case Some(v) => Ok(lines[vars["REL"].0 := RelLine(v + 1)])
    else
      var i := RelSlot(vars, |lines|);
      Ok(lines[..i] + [RelLine(1)] + lines[i..])
  }

  /** `increaserel(spec)`. */
  method IncreaseRel(spec: string) returns (r: Result<string>)
    ensures var b := Bumped(SplitLines(spec, true));
      r == if b.Ok? then Ok(Concat(b.value)) else Err(b.error)
  {
    var lines := SplitLines(spec, true);
    var vars := CollectVariables(lines);
    if "REL" in vars {
      var v := ParseInt(vars["REL"].1);
      if v.None? {
        return Err("ValueError");
      }
      lines := lines[vars["REL"].0 := RelLine(v.value + 1)];
    } else if "VER" in vars {
      var i := vars["VER"].0 + 1;
      lines := lines[..i] + [RelLine(1)] + lines[i..];
    } else {
      assert lines + [RelLine(1)] == lines[..|lines|] + [RelLine(1)] + lines[|lines|..];
      lines := lines + [RelLine(1)];
    }
    r := Ok(Concat(lines));
  }

  /** Only a `REL` value `int` cannot read makes the increase fail. */
  lemma BumpedFails(lines: seq<string>)
    ensures var vars := LastAssignments(lines);
      Bumped(lines).Err? <==> "REL" in vars && ParseInt(vars["REL"].1).None?
  {
  }

  /** The line count stays with a `REL` line and grows by one without, and
      every line but the changed or inserted one stays in place. */
  lemma BumpedShape(lines: seq<string>)
    requires Bumped(lines).Ok?
    ensures var vars := LastAssignments(lines);
      var r := Bumped(lines).value;
      && |r| == (if "REL" in vars then |lines| else |lines| + 1)
      && ("REL" in vars ==> forall j :: 0 <= j < |lines| && j != vars["REL"].0 ==> r[j] == lines[j])
      && ("REL" !in vars ==> forall j :: 0 <= j < |lines| ==> r[Shifted(vars, j)] == lines[j])
  {
    var vars := LastAssignments(lines);
    if "REL" !in vars {
      var i := RelSlot(vars, |lines|);
      Inserted(lines, i, RelLine(1));
      assert Bumped(lines).value == lines[..i] + [RelLine(1)] + lines[i..];
    }
  }

  /** Where line `j` lands when `REL=1` is added. */
  function Shifted(vars: map<string, (nat, string)>, j: nat): nat {
    if "VER" in vars && j > vars["VER"].0 then j + 1 else j
  }

  /** The index of the added `REL=1` line among `n` lines. */
  function RelSlot(vars: map<string, (nat, string)>, n: nat): nat {
    if "VER" in vars then vars["VER"].0 + 1 else n
  }

  lemma OneText()
    ensures IntToString(1) == "1"
  {
    assert '0' + 1 as char == '1';
    assert NatToString(1) == ['1'];
  }

  lemma RelIsName()
    ensures IsName("REL")
  {
    assert forall c :: c in "REL" ==> c == 'R' || c == 'E' || c == 'L';
  }

  /** With a `REL` line, reading the increased lines back gives the same
      table but for `REL`, whose value reads as one more than before. */
  lemma BumpedReadsBack(lines: seq<string>)
    requires Bumped(lines).Ok? && "REL" in LastAssignments(lines)
    ensures var vars := LastAssignments(lines);
      var after := LastAssignments(Bumped(lines).value);
      && "REL" in after && after == vars["REL" := (vars["REL"].0, after["REL"].1)]
      && ParseInt(after["REL"].1) == Some(ParseInt(vars["REL"].1).value + 1)
  {
    var vars := LastAssignments(lines);
    var i := vars["REL"].0;
    var v := ParseInt(vars["REL"].1).value;
    assert Bumped(lines) == Ok(lines[i := RelLine(v + 1)]);
    LastAssignmentsEntry(lines, "REL");
    RelReplaced(lines, i, v + 1);
    ParseIntRoundTrip(v + 1);
  }

  /** Putting `REL=<n>` in place of the last `REL` line changes only the
      `REL` entry of the table. */
  lemma RelReplaced(lines: seq<string>, i: nat, n: int)
    requires i < |lines| && Assigns(lines[i], "REL")
    requires forall j :: i < j < |lines| ==> !Assigns(lines[j], "REL")
    ensures LastAssignments(lines[i := RelLine(n)]) == LastAssignments(lines)["REL" := (i, IntToString(n))]
  {
    DigitsOnly(n);
    RelIsName();
    assert RelLine(n) == "REL" + "=" + IntToString(n) + "\n";
    AssignmentOf("REL", IntToString(n));
    LastAssignmentsReplace(lines, i, RelLine(n), "REL", IntToString(n));
  }

  /** Without a `REL` line, reading the lines back finds `REL` assigned 1 on
      the added line. */
  lemma BumpedAddsRel(lines: seq<string>)
    requires "REL" !in LastAssignments(lines)
    ensures Bumped(lines).Ok?
    ensures var vars := LastAssignments(lines);
      var after := LastAssignments(Bumped(lines).value);
      && "REL" in after && after["REL"] == (RelSlot(vars, |lines|), "1") && ParseInt("1") == Some(1)
  {
    var vars := LastAssignments(lines);
    var r := Bumped(lines).value;
    var i := RelSlot(vars, |lines|);
    OneText();
    RelIsName();
    AssignmentOf("REL", "1");
    assert r == lines[..i] + [RelLine(1)] + lines[i..];
    Inserted(lines, i, RelLine(1));
    LastAssignmentsKeys(lines, "REL");
    forall j | i < j < |r| ensures !Assigns(r[j], "REL") {
      assert r[j] == lines[j - 1];
    }
    LastAssignmentsKeys(r, "REL");
    LastAssignmentsEntry(r, "REL");
    LastIndexUnique(r, "REL", LastAssignments(r)["REL"].0, i);
    ParseIntRoundTrip(1);
  }

  /** `list.insert(i, x)`: `x` at `i`, the elements from `i` on one place
      later. */
  lemma Inserted<T>(s: seq<T>, i: nat, x: T)
    requires i <= |s|
    ensures var r := s[..i] + [x] + s[i..];
      && |r| == |s| + 1 && r[i] == x
      && (forall j :: 0 <= j < i ==> r[j] == s[j])
      && (forall j :: i < j < |r| ==> r[j] == s[j - 1])
  {
  }

  /** `'%d' % n` holds no line feed. */
  lemma DigitsOnly(n: int)
    ensures '\n' !in IntToString(n)
  {
    if n < 0 {
      assert IntToString(n) == "-" + NatToString(-n);
    }
  }
}
