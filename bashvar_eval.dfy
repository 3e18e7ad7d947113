/** Evaluation of parsed assignment files (`combine_value` and
    `eval_bashvar_literal` in `bashvar.py`): each assignment is evaluated
    against the variables assigned by the lines before it. */
module BashEval {
  import opened Wrappers
  import Text
  import Glob
  import opened BashSyntax
  import opened Collections

  /** `${v:offset}` and `${v:offset:length}` as the code computes them,
      with Python slices: `v[offset:]`, `v[offset:offset+length]` for a
      non-negative length and `v[offset:length]` for a negative one. */
  function SubstringOf(v: string, offset: int, length: Option<int>): (r: string)
    ensures |r| <= |v|
  {
    match length
    case None => Text.Slice(v, offset, |v|)
    case Some(l) => if l >= 0 then Text.Slice(v, offset, offset + l) else Text.Slice(v, offset, l)
  }

  /** The value of a defined variable `v` after the operator. */
  function ApplyOp(op: Op, v: string): string {
    match op
    case Plain => v
    case Substring(offset, length) => SubstringOf(v, offset, length)
    case Subst(all, pattern, rep) =>
      if all then Glob.SubAll(pattern, v, rep) else Glob.SubFirst(pattern, v, rep)
    case Trim(kind, pattern) =>
      match kind
      case ShortestPrefix => Glob.TrimShortestPrefix(pattern, v)
      case LongestPrefix => Glob.TrimLongestPrefix(pattern, v)
      case ShortestSuffix => Glob.TrimShortestSuffix(pattern, v)
      case LongestSuffix => Glob.TrimLongestSuffix(pattern, v)
  }

  /** An expansion of an undefined variable contributes nothing. */
  function ExpandValue(e: Expansion, vars: map<string, string>): string {
    if e.name in vars then ApplyOp(e.op, vars[e.name]) else ""
  }

  /** The text a token stands for. */
  function TokenValue(t: Token, vars: map<string, string>): string
    decreases t
  {
    match t
    case Text(s) => s
    case Single(s) => s
    case Double(inner) => ValueOf(inner, vars)
    case Expand(e) => ExpandValue(e, vars)
  }

  /** The text of a sequence of tokens: their values joined. */
  function ValueOf(ts: seq<Token>, vars: map<string, string>): string
    decreases ts
  {
    if ts == [] then "" else ValueOf(ts[..|ts| - 1], vars) + TokenValue(ts[|ts| - 1], vars)
  }

  /** The names expanded by a token, in order, double quotes included. */
  function TokenExpands(t: Token): seq<string>
    decreases t
  {
    match t
    case Double(inner) => Expands(inner)
    case Expand(e) => [e.name]
    case _ => []
  }

  function Expands(ts: seq<Token>): seq<string>
    decreases ts
  {
    if ts == [] then [] else Expands(ts[..|ts| - 1]) + TokenExpands(ts[|ts| - 1])
  }

  /** The undefined names a token expands, in order, with repeats. */
  function TokenUndefined(t: Token, vars: map<string, string>): (r: seq<string>)
    ensures forall n :: n in r <==> n in TokenExpands(t) && n !in vars
    decreases t
  {
    match t
    case Double(inner) => Undefined(inner, vars)
    case Expand(e) => if e.name in vars then [] else [e.name]
    case _ => []
  }

  /** The names `combine_value` warns about: exactly the expanded names that
      are not defined. */
  function Undefined(ts: seq<Token>, vars: map<string, string>): (r: seq<string>)
    ensures forall n :: n in r <==> n in Expands(ts) && n !in vars
    decreases ts
  {
    if ts == [] then [] else Undefined(ts[..|ts| - 1], vars) + TokenUndefined(ts[|ts| - 1], vars)
  }

  /** `combine_value(tokens, variables)`: the value of the tokens and the
      undefined names it warns about. */
  method CombineValue(tokens: seq<Token>, vars: map<string, string>) returns (val: string, undefined: seq<string>)
    ensures val == ValueOf(tokens, vars)
    ensures undefined == Undefined(tokens, vars)
    decreases tokens
  {
    val := "";
    undefined := [];
    for i := 0 to |tokens|
      invariant val == ValueOf(tokens[..i], vars)
      invariant undefined == Undefined(tokens[..i], vars)
    {
      assert tokens[..i + 1][..i] == tokens[..i];
      match tokens[i]
      case Double(inner) =>
        var v, u := CombineValue(inner, vars);
        val := val + v;
        undefined := undefined + u;
      case Single(s) =>
        val := val + s;
      case Expand(e) =>
        if e.name in vars {
          val := val + ApplyOp(e.op, vars[e.name]);
        } else {
          undefined := undefined + [e.name];
        }
      case Text(s) =>
        val := val + s;
    }
    assert tokens[..|tokens|] == tokens;
  }

  /** The value of joined token sequences is the joined values. */
  lemma {:induction false} ValueOfAppend(a: seq<Token>, b: seq<Token>, vars: map<string, string>)
    ensures ValueOf(a + b, vars) == ValueOf(a, vars) + ValueOf(b, vars)
    decreases |b|
  {
    if b == [] {
      assert a + b == a;
    } else {
      var b' := b[..|b| - 1];
      assert (a + b)[..|a + b| - 1] == a + b';
      ValueOfAppend(a, b', vars);
    }
  }

  /** One line of `eval_bashvar_literal`: an assignment sets its variable to
      the value of its tokens; an empty line changes nothing. */
  function Step(vars: ODict<string, string>, l: Line): (r: ODict<string, string>)
    requires vars.Valid()
    ensures r.Valid()
  {
    match l
    case Blank => vars
    case Assign(name, value) => vars.Set(name, ValueOf(value, vars.vals))
  }

  /** The variables after all the lines. */
  function EvalLines(lines: seq<Line>): (r: ODict<string, string>)
    ensures r.Valid()
  {
    if lines == [] then EmptyDict() else Step(EvalLines(lines[..|lines| - 1]), lines[|lines| - 1])
  }

  /** The undefined names warned about while evaluating the lines. */
  function LinesUndefined(lines: seq<Line>): seq<string> {
    if lines == [] then []
    else
      var init := lines[..|lines| - 1];
      var l := lines[|lines| - 1];
      LinesUndefined(init) + (if l.Assign? then Undefined(l.value, EvalLines(init).vals) else [])
  }

  /** The names assigned, in order, repetitions included. */
  function AssignedNames(lines: seq<Line>): (r: seq<string>)
    ensures forall n :: n in r <==> exists k :: 0 <= k < |lines| && lines[k].Assign? && lines[k].name == n
  {
    if lines == [] then []
    else
      var init := lines[..|lines| - 1];
      var l := lines[|lines| - 1];
      assert forall k :: 0 <= k < |init| ==> init[k] == lines[k];
      AssignedNames(init) + (if l.Assign? then [l.name] else [])
  }

  /** The loop of `eval_bashvar_literal` over parsed lines. */
  method EvalParsed(lines: seq<Line>) returns (vars: ODict<string, string>, undefined: seq<string>)
    ensures vars == EvalLines(lines)
    ensures undefined == LinesUndefined(lines)
  {
    vars := EmptyDict();
    undefined := [];
    for i := 0 to |lines|
      invariant vars == EvalLines(lines[..i])
      invariant undefined == LinesUndefined(lines[..i])
    {
      assert lines[..i + 1][..i] == lines[..i];
      match lines[i]
      case Blank =>
      case Assign(name, value) =>
        var val, u := CombineValue(value, vars.vals);
        vars := vars.Set(name, val);
        undefined := undefined + u;
    }
    assert lines[..|lines|] == lines;
  }

  /** `eval_bashvar_literal(source)`: a `ParseException` when the source is
      outside the grammar, otherwise the variables in first-assignment order
      and the undefined names warned about. */
  method EvalLiteral(source: string) returns (r: Result<ODict<string, string>>, undefined: seq<string>)
    ensures Parse(source).Err? ==> r == Err("ParseException") && undefined == []
    ensures Parse(source).Ok? ==> r == Ok(EvalLines(Parse(source).value))
    ensures Parse(source).Ok? ==> undefined == LinesUndefined(Parse(source).value)
  {
    var parsed := Parse(source);
    if parsed.Err? {
      return Err("ParseException"), [];
    }
    var vars;
    vars, undefined := EvalParsed(parsed.value);
    r := Ok(vars);
  }

  /** The variables come out in the order of their first assignment: the
      keys are `uniq` of the assigned names. */
  lemma {:induction false} EvalLinesKeys(lines: seq<Line>)
    ensures EvalLines(lines).keys == Uniq(AssignedNames(lines))
  {
    if lines != [] {
      var init := lines[..|lines| - 1];
      var l := lines[|lines| - 1];
      EvalLinesKeys(init);
      var names := AssignedNames(init);
      if l.Assign? {
        assert AssignedNames(lines) == names + [l.name];
        assert (names + [l.name])[..|names + [l.name]| - 1] == names;
        assert l.name in EvalLines(init).vals <==> l.name in names;
      } else {
        assert AssignedNames(lines) == names + [];
        assert names + [] == names;
      }
    }
  }

  /** Lines that do not assign `n` leave it as it was. */
  lemma {:induction false} EvalLinesUnassigned(lines: seq<Line>, more: seq<Line>, n: string)
    requires forall k :: 0 <= k < |more| ==> !(more[k].Assign? && more[k].name == n)
    ensures EvalLines(lines + more).Get(n) == EvalLines(lines).Get(n)
    decreases |more|
  {
    if more == [] {
      assert lines + more == lines;
    } else {
      var m := more[..|more| - 1];
      assert (lines + more)[..|lines + more| - 1] == lines + m;
      EvalLinesUnassigned(lines, m, n);
    }
  }

  /** The last assignment to a variable wins, and its value is computed
      from the variables as they were just before it. */
  lemma EvalLinesLastAssignment(before: seq<Line>, value: seq<Token>, after: seq<Line>, n: string)
    requires forall k :: 0 <= k < |after| ==> !(after[k].Assign? && after[k].name == n)
    ensures EvalLines(before + [Assign(n, value)] + after).Get(n) == Some(ValueOf(value, EvalLines(before).vals))
  {
    var pre := before + [Assign(n, value)];
    assert pre[..|pre| - 1] == before;
    EvalLinesUnassigned(pre, after, n);
  }

  /** `${v:o}` with an offset inside the value is the rest of the value. */
  lemma SubstringFrom(v: string, o: int)
    requires 0 <= o <= |v|
    ensures SubstringOf(v, o, None) == v[o..]
  {
  }

  /** `${v:o:l}` within bounds is the `l` characters at `o`. */
  lemma SubstringWithin(v: string, o: int, l: int)
    requires 0 <= o && 0 <= l && o + l <= |v|
    ensures SubstringOf(v, o, Some(l)) == v[o..o + l]
    ensures |SubstringOf(v, o, Some(l))| == l
  {
  }

  /** `${v: -k}` is the last `k` characters. */
  lemma SubstringFromEnd(v: string, k: int)
    requires 0 < k <= |v|
    ensures SubstringOf(v, -k, None) == v[|v| - k..]
  {
  }

  /** A negative length counts the end back from the end of the value. */
  lemma SubstringNegativeLength(v: string, o: int, l: int)
    requires 0 <= o && 0 < l && o + l <= |v|
    ensures SubstringOf(v, o, Some(-l)) == v[o..|v| - l]
  {
  }

  /** As written, a negative offset with a length that reaches zero or
      beyond slices up to a non-negative index near the start: `${v: -2:2}`
      of `abcd` is `v[-2:0]`, the empty string, not `cd`. */
  lemma SubstringNegativeOffsetQuirk()
    ensures SubstringOf("abcd", -2, Some(2)) == ""
    ensures SubstringOf("abcd", -3, Some(2)) == "bc"
  {
  }

  /** The substring cases of the repository's own parser test. */
  lemma SubstringExamples()
    ensures var v := "01234567890abcdefgh";
      && SubstringOf(v, 7, None) == "7890abcdefgh"
      && SubstringOf(v, 7, Some(0)) == ""
      && SubstringOf(v, 7, Some(2)) == "78"
      && SubstringOf(v, 7, Some(-2)) == "7890abcdef"
      && SubstringOf(v, -7, None) == "bcdefgh"
      && SubstringOf(v, -7, Some(0)) == ""
      && SubstringOf(v, -7, Some(2)) == "bc"
      && SubstringOf(v, -7, Some(-2)) == "bcdef"
  {
    var v := "01234567890abcdefgh";
    assert |v| == 19;
    assert Text.SliceIndex(7, 19) == 7;
    assert Text.SliceIndex(-7, 19) == 12;
    assert Text.SliceIndex(-2, 19) == 17;
    assert v[7..] == "7890abcdefgh";
    assert v[7..9] == "78";
    assert v[7..17] == "7890abcdef";
    assert v[12..] == "bcdefgh";
    assert v[12..14] == "bc";
    assert v[12..17] == "bcdef";
  }
}
