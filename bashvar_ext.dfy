/** The fallback of `bashvar.py` for sources outside the supported grammar:
    the source is piped to a restricted `bash` followed by one `echo` per
    assigned name, and the printed lines become the values. Bash itself is
    a parameter here: a function from the script to its standard output and
    standard error. */
module BashExt {
  import opened Wrappers
  import Text
  import opened Collections
  import BashSyntax
  import BashEval

  /** Line `ln` assigns `name` at column `k`: blanks, the name, then `=`. */
  predicate AssignsAt(ln: string, k: nat, name: string) {
    k + |name| < |ln|
    && (forall i :: 0 <= i < k ==> Text.IsSpace(ln[i]))
    && ln[k..k + |name|] == name
    && ln[k + |name|] == '='
  }

  /** `re_variable.match(ln)`: the name of `^\s*([a-zA-Z_][a-zA-Z0-9_]*)=`. */
  function VariableName(ln: string): (r: Option<string>)
    ensures r.Some? ==> BashSyntax.IsName(r.value)
    ensures r.Some? ==> exists k: nat :: AssignsAt(ln, k, r.value)
  {
    var k := BashSyntax.Span(ln, 0, Text.IsSpace);
    var j := BashSyntax.Span(ln, k, BashSyntax.IsWordChar);
    if k < j < |ln| && (BashSyntax.IsAlpha(ln[k]) || ln[k] == '_') && ln[j] == '=' then
      assert AssignsAt(ln, k, ln[k..j]);
      Some(ln[k..j])
    else None
  }

  /** Every line of the form blanks, name, `=` is recognised with that name. */
  lemma VariableNameOf(ws: string, name: string, rest: string)
    requires forall c :: c in ws ==> Text.IsSpace(c)
    requires BashSyntax.IsName(name)
    ensures VariableName(ws + name + "=" + rest) == Some(name)
  {
    var ln := ws + name + "=" + rest;
    var k, j := |ws|, |ws| + |name|;
    assert ln[..k] == ws && ln[k..j] == name && ln[j] == '=';
    assert BashSyntax.Span(ln, 0, Text.IsSpace) == k by {
      assert forall i :: 0 <= i < k ==> ln[i] in ws;
      assert ln[k] == name[0];
    }
    assert BashSyntax.Span(ln, k, BashSyntax.IsWordChar) == j by {
      assert forall i :: k <= i < j ==> ln[i] == name[i - k];
    }
  }

  /** The names the assignment pattern finds, line by line, in order. */
  function Assigned(lines: seq<string>): (r: seq<string>)
    ensures |r| <= |lines|
    ensures forall n :: n in r ==> BashSyntax.IsName(n)
  {
    if lines == [] then []
    else
      var init := Assigned(lines[..|lines| - 1]);
      match VariableName(lines[|lines| - 1])
      case Some(n) => init + [n]
      case None => init
  }

  /** The names the script asks bash for: `uniq` of the assigned ones. */
  function ExtNames(source: string): (r: seq<string>)
    ensures NoDup(r)
  {
    Uniq(Assigned(Text.SplitLines(source, true)))
  }

  /** `echo "${v//$'\n'/\\n}"`: prints the value with each line feed written
      as a backslash and an `n`, then one line feed. */
  function Echo(v: string): string {
    "echo \"${" + v + "//$'\\n'/\\\\n}\"\n"
  }

  function EchoLines(names: seq<string>): (r: seq<string>)
    ensures |r| == |names| && forall i :: 0 <= i < |names| ==> r[i] == Echo(names[i])
  {
    seq(|names|, i requires 0 <= i < |names| => Echo(names[i]))
  }

  /** The script: the source unchanged, a line feed, then the echo lines. */
  function Script(source: string): (r: string)
    ensures Text.StartsWith(r, source + "\n")
  {
    source + "\n" + Text.Concat(EchoLines(ExtNames(source)))
  }

  /** Builds the script line by line, collecting the assigned names. */
  method BuildScript(source: string) returns (names: seq<string>, script: string)
    ensures names == ExtNames(source)
    ensures script == Script(source)
  {
    var lines := Text.SplitLines(source, true);
    var found: seq<string> := [];
    var stdin: seq<string> := [];
    for i := 0 to |lines|
      invariant found == Assigned(lines[..i])
      invariant stdin == lines[..i]
    {
      var m := VariableName(lines[i]);
      assert Assigned(lines[..i + 1]) == found + (if m.Some? then [m.value] else []) by {
        assert lines[..i + 1][..i] == lines[..i];
      }
      if m.Some? {
        found := found + [m.value];
      }
      stdin := stdin + [lines[i]];
    }
    assert lines[..|lines|] == lines;
    stdin := stdin + ["\n"];
    names := Uniq(found);
    var echoes: seq<string> := [];
    for j := 0 to |names|
      invariant |echoes| == j && forall k :: 0 <= k < j ==> echoes[k] == Echo(names[k])
    {
      echoes := echoes + [Echo(names[j])];
    }
    assert echoes == EchoLines(names);
    ScriptJoin(source, echoes);
    script := Text.Concat(stdin + echoes);
  }

  /** The script's lines join to the source, a line feed and the echoes. */
  lemma ScriptJoin(source: string, echoes: seq<string>)
    ensures Text.Concat(Text.SplitLines(source, true) + ["\n"] + echoes) == source + "\n" + Text.Concat(echoes)
  {
    var lines := Text.SplitLines(source, true);
    Text.ConcatAppend(lines + ["\n"], echoes);
    Text.ConcatAppend(lines, ["\n"]);
    Text.SplitLinesJoin(source, Text.IsLineBreak, '\r', '\n');
  }

  /** `[l.replace('\\n', '\n') for l in outs.splitlines()]`. */
  function OutputValues(outs: string): (r: seq<string>)
    ensures |r| == |Text.SplitLines(outs, false)|
  {
    var ls := Text.SplitLines(outs, false);
    seq(|ls|, i requires 0 <= i < |ls| => Text.Replace(ls[i], "\\n", "\n"))
  }

  function Min(a: nat, b: nat): nat { if a < b then a else b }

  /** `OrderedDict(zip(names, values))`: pairs up to the shorter list, keys
      in the order of `names` (which holds no duplicates). */
  function ZipDict(names: seq<string>, values: seq<string>): (r: ODict<string, string>)
    requires NoDup(names)
    ensures r.Valid()
    ensures r.keys == names[..Min(|names|, |values|)]
    decreases |names|
  {
    var n := Min(|names|, |values|);
    if n == 0 then EmptyDict()
    else
      var ks := names[..n - 1];
      var d := ZipDict(ks, values[..n - 1]);
      assert names[n - 1] !in d.keys && ks + [names[n - 1]] == names[..n];
      d.Set(names[n - 1], values[n - 1])
  }

  /** Each of the paired names maps to the value at its position. */
  lemma {:induction false} ZipDictValues(names: seq<string>, values: seq<string>)
    requires NoDup(names)
    ensures forall i :: 0 <= i < Min(|names|, |values|) ==> ZipDict(names, values).vals[names[i]] == values[i]
    decreases |names|
  {
    var n := Min(|names|, |values|);
    if n > 0 {
      var ks, vs := names[..n - 1], values[..n - 1];
      var k := names[n - 1];
      ZipDictValues(ks, vs);
      var d := ZipDict(ks, vs);
      var r := ZipDict(names, values);
      assert r.vals == d.vals[k := values[n - 1]];
      forall i | 0 <= i < n - 1 ensures r.vals[names[i]] == values[i] {
        assert names[i] == ks[i] && names[i] != k && values[i] == vs[i];
      }
    }
  }

  /** The message `eval_bashvar` reports: bash's standard error without
      trailing whitespace; failing that, a complaint when the number of
      printed lines is not the number of names; failing that, none. */
  function BashMessage(names: seq<string>, values: seq<string>, errs: string): (r: Option<string>)
    ensures errs != [] ==> r == Some(Text.RStrip(errs))
    ensures errs == [] ==> (r.Some? <==> |names| != |values|)
  {
    if errs != [] then Some(Text.RStrip(errs))
    else if |names| != |values| then Some("bash output not expected")
    else None
  }

  /** `eval_bashvar_ext`, with `bash` standing for the subprocess. */
  function ExtResult(source: string, bash: string -> (string, string)): (ODict<string, string>, Option<string>) {
    var names := ExtNames(source);
    var (outs, errs) := bash(Script(source));
    var values := OutputValues(outs);
    (ZipDict(names, values), BashMessage(names, values, errs))
  }

  method EvalExt(source: string, bash: string -> (string, string)) returns (vars: ODict<string, string>, msg: Option<string>)
    ensures (vars, msg) == ExtResult(source, bash)
    ensures vars.Valid() && forall n :: n in vars.keys ==> n in ExtNames(source)
  {
    var names, script := BuildScript(source);
    var (outs, errs) := bash(script);
    var values := OutputValues(outs);
    vars := ZipDict(names, values);
    msg := BashMessage(names, values, errs);
  }

  /** What bash prints for a value: line feeds escaped, then a line feed. */
  function Escape(v: string): string {
    Text.Replace(v, "\n", "\\n")
  }

  /** Escaping a value without backslashes can be undone. */
  lemma {:induction false} EscapeRoundTrip(v: string)
    requires '\\' !in v
    ensures Text.Replace(Escape(v), "\\n", "\n") == v
    decreases |v|
  {
    if v != [] {
      var e := Escape(v[1..]);
      assert '\\' !in v[1..] by {
        assert forall c :: c in v[1..] ==> c in v;
      }
      EscapeRoundTrip(v[1..]);
      if v[0] == '\n' {
        assert v[..1] == "\n";
        assert Escape(v) == "\\n" + e;
        assert ("\\n" + e)[..2] == "\\n" && ("\\n" + e)[2..] == e;
      } else {
        assert v[..1] != "\n";
        assert Escape(v) == [v[0]] + e;
        assert v[0] != '\\' by { assert v[0] in v; }
        if e == [] {
          assert v[1..] == [];
        } else {
          assert ([v[0]] + e)[0] == v[0];
          assert ([v[0]] + e)[..2] != "\\n";
          assert ([v[0]] + e)[1..] == e;
        }
        assert v == [v[0]] + v[1..];
      }
    }
  }

  /** Escaping removes every line feed and adds only `\` and `n`. */
  lemma {:induction false} EscapeChars(v: string)
    ensures forall c :: c in Escape(v) ==> (c in v && c != '\n') || c == '\\' || c == 'n'
    decreases |v|
  {
    if v != [] {
      EscapeChars(v[1..]);
      assert forall c :: c in v[1..] ==> c in v;
      if v[0] == '\n' {
        assert v[..1] == "\n";
        assert Escape(v) == "\\n" + Escape(v[1..]);
      } else {
        assert v[..1] != "\n";
        assert Escape(v) == [v[0]] + Escape(v[1..]);
      }
    }
  }

  predicate LineFree(v: string) {
    '\\' !in v && forall c :: c in v && Text.IsLineBreak(c) ==> c == '\n'
  }

  /** When bash prints each value escaped on a line of its own and nothing
      on standard error, the fallback maps each name to its value and
      reports no message. */
  lemma ExtRoundTrip(names: seq<string>, values: seq<string>)
    requires NoDup(names) && |values| == |names|
    requires forall i :: 0 <= i < |values| ==> LineFree(values[i])
    ensures var outs := Text.JoinLines(seq(|values|, i requires 0 <= i < |values| => Escape(values[i])), '\n');
      var d := ZipDict(names, OutputValues(outs));
      && d.keys == names
      && (forall i :: 0 <= i < |names| ==> d.vals[names[i]] == values[i])
      && BashMessage(names, OutputValues(outs), "") == None
  {
    var escaped := seq(|values|, i requires 0 <= i < |values| => Escape(values[i]));
    forall k, j | 0 <= k < |escaped| && 0 <= j < |escaped[k]|
      ensures !Text.IsLineBreak(escaped[k][j])
    {
      EscapeChars(values[k]);
      assert escaped[k][j] in Escape(values[k]);
    }
    Text.SplitJoinLines(escaped, Text.IsLineBreak, '\r', '\n');
    var outs := Text.JoinLines(escaped, '\n');
    assert Text.SplitLines(outs, false) == escaped;
    forall i | 0 <= i < |values| ensures OutputValues(outs)[i] == values[i] {
      EscapeRoundTrip(values[i]);
    }
    assert OutputValues(outs) == values;
    assert names[..|names|] == names;
    ZipDictValues(names, values);
  }

  /** The variables `read_bashvar` returns for a source. */
  function ReadBashvar(source: string, bash: string -> (string, string)): (r: ODict<string, string>)
    ensures r.Valid()
  {
    var parsed := BashSyntax.Parse(source);
    if parsed.Ok? then BashEval.EvalLines(parsed.value) else ExtResult(source, bash).0
  }

  /** `eval_bashvar(source, msg=True)`: the grammar-based evaluation when the
      source parses, with no message; the bash fallback otherwise. The
      undefined-variable warnings are returned rather than logged. */
  method EvalBashvar(source: string, bash: string -> (string, string))
    returns (vars: ODict<string, string>, msg: Option<string>, undefined: seq<string>)
    ensures BashSyntax.Parse(source).Ok? ==>
      && vars == BashEval.EvalLines(BashSyntax.Parse(source).value)
      && msg == None
      && undefined == BashEval.LinesUndefined(BashSyntax.Parse(source).value)
    ensures BashSyntax.Parse(source).Err? ==> (vars, msg) == ExtResult(source, bash) && undefined == []
    ensures vars == ReadBashvar(source, bash)
  {
    var r;
    r, undefined := BashEval.EvalLiteral(source);
    if r.Ok? {
      vars, msg := r.value, None;
    } else {
      vars, msg := EvalExt(source, bash);
    }
  }
}
