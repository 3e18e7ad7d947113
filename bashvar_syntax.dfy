/** The subset of bash assignment files that `bashvar.py` evaluates without
    running bash (its pyparsing grammar, lines 16-85), as syntax trees and a
    recogniser. The grammar is a parsing-expression grammar: every
    alternative is tried in order, every repetition is greedy, and nothing
    backtracks into a repetition once it has stopped. The recogniser below
    follows it construct by construct. */
module BashSyntax {
  import opened Wrappers
  import Text

  /** `${v#p}`, `${v##p}`, `${v%p}`, `${v%%p}` in that order. */
  datatype TrimKind = ShortestPrefix | LongestPrefix | ShortestSuffix | LongestSuffix

  /** What follows the name inside `${...}`. An absent pattern or
      replacement is the empty string, as the evaluator's defaults make it. */
  datatype Op =
    | Plain                                         // $v, ${v}
    | Substring(offset: int, length: Option<int>)   // ${v:o}, ${v:o:l}
    | Subst(all: bool, pattern: string, rep: string) // ${v/p/r}, ${v//p/r}
    | Trim(kind: TrimKind, pattern: string)

  datatype Expansion = Expansion(name: string, op: Op)

  /** A token of a value. Inside double quotes only `Text` (escapes and
      plain runs) and `Expand` occur. */
  datatype Token =
    | Text(s: string)
    | Single(s: string)
    | Double(inner: seq<Token>)
    | Expand(e: Expansion)

  /** A line: empty (blank or comment only) or one `name=value`. */
  datatype Line = Blank | Assign(name: string, value: seq<Token>)

  predicate IsAlpha(c: char) { 'a' <= c <= 'z' || 'A' <= c <= 'Z' }
  predicate IsWordChar(c: char) { IsAlpha(c) || Text.IsDigit(c) || c == '_' }
  predicate IsBlank(c: char) { c == ' ' || c == '\t' }
  predicate NotNewline(c: char) { c != '\n' }

  /** Characters that end an unquoted run of a value. */
  predicate ValueStop(c: char) { c in "~{}()$'\"`\\*?[] \t\n" }
  /** Characters that end a run inside double quotes. */
  predicate DoubleStop(c: char) { c in "$`\\*\"" }
  /** Characters a substitution pattern or replacement cannot hold. */
  predicate SubstStop(c: char) { c in "/#%[}'\"`\\" }

  /** A valid variable name: `[A-Za-z_][A-Za-z0-9_]*`. */
  predicate IsName(n: string) {
    n != [] && (IsAlpha(n[0]) || n[0] == '_') && forall k :: 0 <= k < |n| ==> IsWordChar(n[k])
  }

  /** The end of the longest run from `i` of characters satisfying `ok`. */
  function Span(s: string, i: nat, ok: char -> bool): (j: nat)
    requires i <= |s|
    ensures i <= j <= |s|
    ensures forall k :: i <= k < j ==> ok(s[k])
    ensures j == |s| || !ok(s[j])
    decreases |s| - i
  {
    if i == |s| || !ok(s[i]) then i else Span(s, i + 1, ok)
  }

  /** `CharsNotIn`: one or more characters none of which stops the run. */
  function CharsNotIn(s: string, i: nat, stop: char -> bool): (r: Option<(string, nat)>)
    requires i <= |s|
    ensures r.Some? ==> i < r.value.1 <= |s| && r.value.0 == s[i..r.value.1]
    ensures r.Some? ==> forall c :: c in r.value.0 ==> !stop(c)
    ensures r.Some? ==> r.value.1 == |s| || stop(s[r.value.1])
    ensures r.None? <==> i == |s| || stop(s[i])
  {
    var j := Span(s, i, c => !stop(c));
    if j == i then None else Some((s[i..j], j))
  }

  /** `varname`: the longest name starting at `i`. */
  function VarName(s: string, i: nat): (r: Option<(string, nat)>)
    requires i <= |s|
    ensures r.Some? ==> i < r.value.1 <= |s| && r.value.0 == s[i..r.value.1] && IsName(r.value.0)
    ensures r.Some? ==> r.value.1 == |s| || !IsWordChar(s[r.value.1])
    ensures r.None? <==> i == |s| || !(IsAlpha(s[i]) || s[i] == '_')
  {
    if i < |s| && (IsAlpha(s[i]) || s[i] == '_') then
      var j := Span(s, i + 1, IsWordChar);
      Some((s[i..j], j))
    else None
  }

  /** `Word(nums)`: one or more ASCII digits and their value. */
  function Digits(s: string, i: nat): (r: Option<(nat, nat)>)
    requires i <= |s|
    ensures r.Some? ==> i < r.value.1 <= |s|
    ensures r.Some? ==> forall c :: c in s[i..r.value.1] ==> Text.IsDigit(c)
    ensures r.Some? ==> r.value.0 == Text.DigitsValue(s[i..r.value.1])
    ensures r.Some? ==> r.value.1 == |s| || !Text.IsDigit(s[r.value.1])
    ensures r.None? <==> i == |s| || !Text.IsDigit(s[i])
  {
    var j := Span(s, i, Text.IsDigit);
    if j == i then None else Some((Text.DigitsValue(s[i..j]), j))
  }

  /** `integer`: digits, or `-` and digits. */
  function Integer(s: string, i: nat): (r: Option<(int, nat)>)
    requires i <= |s|
    ensures r.Some? ==> i < r.value.1 <= |s|
  {
    if i < |s| && s[i] == '-' then
      match Digits(s, i + 1)
      case None => None
      case Some((v, j)) => Some((-(v as int), j))
    else
      match Digits(s, i)
      case None => None
      case Some((v, j)) => Some((v, j))
  }

  /** The offset of `${v:offset}`: digits, or spaces or tabs, `-` and
      digits. */
  function Offset(s: string, i: nat): (r: Option<(int, nat)>)
    requires i <= |s|
    ensures r.Some? ==> i < r.value.1 <= |s|
  {
    match Digits(s, i)
    case Some((v, j)) => Some((v, j))
    case None =>
      var w := Span(s, i, IsBlank);
      if w > i && w < |s| && s[w] == '-' then
        match Digits(s, w + 1)
        case None => None
        case Some((v, j)) => Some((-(v as int), j))
      else None
  }

  /** An optional run of characters a pattern may hold; `''` when none. */
  function SubstText(s: string, i: nat): (r: (string, nat))
    requires i <= |s|
    ensures i <= r.1 <= |s| && r.0 == s[i..r.1]
    ensures forall c :: c in r.0 ==> !SubstStop(c)
    ensures r.1 == |s| || SubstStop(s[r.1])
  {
    match CharsNotIn(s, i, SubstStop)
    case None => ("", i)
    case Some((t, j)) => (t, j)
  }

  /** The operator after the name in `${name...}`, if any starts at `i`. */
  function ParseOp(s: string, i: nat): (r: Option<(Op, nat)>)
    requires i <= |s|
    ensures r.Some? ==> i < r.value.1 <= |s|
  {
    if i == |s| then None
    else if s[i] == ':' then
      match Offset(s, i + 1)
      case None => None
      case Some((off, j)) =>
        if j < |s| && s[j] == ':' then
          match Integer(s, j + 1)
          case None => Some((Substring(off, None), j))
          case Some((len, k)) => Some((Substring(off, Some(len)), k))
        else Some((Substring(off, None), j))
    else if s[i] == '/' then
      var all := i + 1 < |s| && s[i + 1] == '/';
      var j := if all then i + 2 else i + 1;
      match CharsNotIn(s, j, SubstStop)
      case None => Some((Subst(all, "", ""), j))
      case Some((pat, k)) =>
        if k < |s| && s[k] == '/' then
          var (rep, m) := SubstText(s, k + 1);
          Some((Subst(all, pat, rep), m))
        else Some((Subst(all, pat, ""), k))
    else if s[i] == '#' || s[i] == '%' then
      var double := i + 1 < |s| && s[i + 1] == s[i];
      var kind :=
        if s[i] == '#' then (if double then LongestPrefix else ShortestPrefix)
        else (if double then LongestSuffix else ShortestSuffix);
      var j := if double then i + 2 else i + 1;
      var (pat, k) := SubstText(s, j);
      Some((Trim(kind, pat), k))
    else None
  }

  /** `expansion_param`: `$name` or `${name[op]}`. */
  function ParseExpansion(s: string, i: nat): (r: Option<(Expansion, nat)>)
    requires i <= |s|
    ensures r.Some? ==> i < r.value.1 <= |s|
    ensures r.Some? ==> s[i] == '$' && IsName(r.value.0.name)
  {
    if i == |s| || s[i] != '$' then None
    else if i + 1 < |s| && s[i + 1] == '{' then
      match VarName(s, i + 2)
      case None => None
      case Some((name, j)) =>
        if j < |s| && s[j] == '}' then Some((Expansion(name, Plain), j + 1))
        else
          match ParseOp(s, j)
          case None => None
          case Some((op, k)) =>
            if k < |s| && s[k] == '}' then Some((Expansion(name, op), k + 1)) else None
    else
      match VarName(s, i + 1)
      case None => None
      case Some((name, j)) => Some((Expansion(name, Plain), j))
  }

  /** `$name` always reads as the longest name after the dollar, with no
      operator; a `${...}` form is read only up to its closing brace. */
  lemma ExpansionForms(s: string, i: nat)
    requires i <= |s|
    ensures var r := ParseExpansion(s, i);
      i + 1 < |s| && s[i] == '$' && (IsAlpha(s[i + 1]) || s[i + 1] == '_') ==>
        r.Some? && r.value.0 == Expansion(s[i + 1..r.value.1], Plain) &&
        (r.value.1 == |s| || !IsWordChar(s[r.value.1]))
    ensures var r := ParseExpansion(s, i);
      r.Some? && i + 1 < |s| && s[i + 1] == '{' ==> s[r.value.1 - 1] == '}'
  {
  }

  /** The contents of a double-quoted string up to where they stop: escapes
      (`\$`, `` \` ``, `\"`, `\\` give the character, a backslash-newline
      gives nothing), expansions and plain runs. */
  function DoubleInner(s: string, i: nat): (r: (seq<Token>, nat))
    requires i <= |s|
    ensures i <= r.1 <= |s|
    ensures forall t :: t in r.0 ==> t.Text? || t.Expand?
    ensures r.1 == |s| || DoubleStop(s[r.1])
    decreases |s| - i
  {
    if i < |s| && s[i] == '\\' then
      if i + 1 < |s| && s[i + 1] in "$`\"\\" then
        var (ts, j) := DoubleInner(s, i + 2);
        ([Text([s[i + 1]])] + ts, j)
      else if i + 1 < |s| && s[i + 1] == '\n' then
        DoubleInner(s, i + 2)
      else ([], i)
    else
      match ParseExpansion(s, i)
      case Some((e, j)) =>
        var (ts, k) := DoubleInner(s, j);
        ([Expand(e)] + ts, k)
      case None =>
        match CharsNotIn(s, i, DoubleStop)
        case Some((t, j)) =>
          var (ts, k) := DoubleInner(s, j);
          ([Text(t)] + ts, k)
        case None => ([], i)
  }

  /** `texttoken`: single-quoted, double-quoted, expansion or plain run. */
  function ParseToken(s: string, i: nat): (r: Option<(Token, nat)>)
    requires i <= |s|
    ensures r.Some? ==> i < r.value.1 <= |s|
  {
    if i < |s| && s[i] == '\'' then
      var j := Span(s, i + 1, c => c != '\'');
      if j < |s| then Some((Single(s[i + 1..j]), j + 1)) else None
    else if i < |s| && s[i] == '"' then
      var (ts, j) := DoubleInner(s, i + 1);
      if j < |s| && s[j] == '"' then Some((Double(ts), j + 1)) else None
    else
      match ParseExpansion(s, i)
      case Some((e, j)) => Some((Expand(e), j))
      case None =>
        match CharsNotIn(s, i, ValueStop)
        case Some((t, j)) => Some((Text(t), j))
        case None => None
  }

  /** `varvalue`: tokens for as long as one can be read. */
  function ParseValue(s: string, i: nat): (r: (seq<Token>, nat))
    requires i <= |s|
    ensures i <= r.1 <= |s|
    ensures r.1 == |s| || ParseToken(s, r.1).None?
    decreases |s| - i
  {
    match ParseToken(s, i)
    case None => ([], i)
    case Some((t, j)) =>
      var (ts, k) := ParseValue(s, j);
      ([t] + ts, k)
  }

  /** `varassign`: a name, `=` and a value. */
  function ParseAssign(s: string, i: nat): (r: Option<(Line, nat)>)
    requires i <= |s|
    ensures r.Some? ==> i < r.value.1 <= |s| && r.value.0.Assign? && IsName(r.value.0.name)
    ensures r.Some? ==> i + |r.value.0.name| < r.value.1 && s[i + |r.value.0.name|] == '='
    ensures r.Some? ==> r.value.0.name == s[i..i + |r.value.0.name|]
  {
    match VarName(s, i)
    case None => None
    case Some((name, j)) =>
      if j < |s| && s[j] == '=' then
        var (value, k) := ParseValue(s, j + 1);
        Some((Assign(name, value), k))
      else None
  }

  /** How a line ended: at a newline, with the index after it, or at the end
      of the input. */
  datatype LineEnd = Newline(next: nat) | EndOfInput

  /** `line`: optional blanks, an optional assignment, optional blanks, an
      optional comment, then a newline or the end of the input. */
  function ParseLine(s: string, i: nat): (r: Option<(Line, LineEnd)>)
    requires i <= |s|
    ensures r.Some? && r.value.1.Newline? ==> i < r.value.1.next <= |s| && s[r.value.1.next - 1] == '\n'
    ensures r.Some? && r.value.0.Assign? ==> IsName(r.value.0.name)
  {
    var a := Span(s, i, IsBlank);
    LineFrom(s, i, ParseAssign(s, a), a)
  }

  /** The line read from `i` once the assignment starting at `a`, if any,
      has been read: it still needs its end. */
  function LineFrom(s: string, i: nat, assign: Option<(Line, nat)>, a: nat): (r: Option<(Line, LineEnd)>)
    requires i <= a <= |s|
    requires assign.Some? ==> a < assign.value.1 <= |s| && assign.value.0.Assign? && IsName(assign.value.0.name)
    ensures r.Some? && r.value.1.Newline? ==> i < r.value.1.next <= |s| && s[r.value.1.next - 1] == '\n'
    ensures r.Some? && r.value.0.Assign? ==> IsName(r.value.0.name)
  {
    var b := if assign.Some? then assign.value.1 else a;
    match LineTail(s, b)
    case None => None
    case Some(e) => Some((if assign.Some? then assign.value.0 else Blank, e))
  }

  /** The end of a line from `i`: optional blanks, an optional comment, then
      a newline or the end of the input. */
  function LineTail(s: string, i: nat): (r: Option<LineEnd>)
    requires i <= |s|
    ensures r.Some? && r.value.Newline? ==> i < r.value.next <= |s| && s[r.value.next - 1] == '\n'
    ensures r.Some? && r.value.Newline? ==> forall k :: i <= k < r.value.next - 1 ==> s[k] != '\n'
    ensures r.Some? && r.value.EndOfInput? ==> forall k :: i <= k < |s| ==> s[k] != '\n'
  {
    var c := Span(s, i, IsBlank);
    var d := if c < |s| && s[c] == '#' then Span(s, c + 1, NotNewline) else c;
    if d == |s| then Some(EndOfInput)
    else if s[d] == '\n' then Some(Newline(d + 1))
    else None
  }

  /** `ZeroOrMore(line)` from `i`: the lines read and where reading
      stopped. */
  function ParseLines(s: string, i: nat): (r: (seq<Line>, nat))
    requires i <= |s|
    ensures i <= r.1 <= |s|
    decreases |s| - i
  {
    match ParseLine(s, i)
    case None => ([], i)
    case Some((l, EndOfInput)) => ([l], |s|)
    case Some((l, Newline(j))) =>
      var (ls, k) := ParseLines(s, j);
      ([l] + ls, k)
  }

  /** The whitespace `parseAll` skips before requiring the end of input. */
  predicate IsTrailingSpace(c: char) { c in " \t\n\r" }

  /** `bashvarfile.parseString(source, parseAll=True)`. */
  function Parse(source: string): (r: Result<seq<Line>>)
    ensures r.Ok? <==> forall k :: ParseLines(source, 0).1 <= k < |source| ==> IsTrailingSpace(source[k])
    ensures r.Ok? ==> r.value == ParseLines(source, 0).0
    ensures r.Ok? ==> forall l :: l in r.value && l.Assign? ==> IsName(l.name)
  {
    var (lines, k) := ParseLines(source, 0);
    LinesNamed(source, 0);
    if forall j | k <= j < |source| :: IsTrailingSpace(source[j]) then Ok(lines)
    else Err("ParseException")
  }

  /** Every assignment the recogniser reads names a valid variable. */
  lemma {:induction false} LinesNamed(s: string, i: nat)
    requires i <= |s|
    ensures forall l :: l in ParseLines(s, i).0 && l.Assign? ==> IsName(l.name)
    decreases |s| - i
  {
    match ParseLine(s, i)
    case None =>
    case Some((l, EndOfInput)) =>
    case Some((l, Newline(j))) => LinesNamed(s, j);
  }
}
