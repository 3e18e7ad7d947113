/** `parse_commit_msg` of `abbsmeta.py`: the part of a commit message that
    concerns one package. The two regular expressions it uses are written
    out as string functions that follow the matcher's backtracking order;
    both only ever look at the first line of the text. */
module AbbsCommit {
  import opened Wrappers
  import Text

  const RevertPrefix := "Revert \""

  predicate IsNewline(c: char) { c == '\n' }

  /** The text up to its first line feed: where `.` stops and `$` matches. */
  function FirstLine(s: string): (r: string)
    ensures Text.StartsWith(s, r) && '\n' !in r
    ensures |r| < |s| ==> s[|r|] == '\n'
  {
    var i := Text.FindFirst(s, IsNewline);
    assert forall c :: c in s[..i] ==> !IsNewline(c);
    s[..i]
  }

  /** The length of the run of `"` that ends the line. */
  function TrailingQuotes(line: string): (n: nat)
    ensures n <= |line|
    ensures forall i :: |line| - n <= i < |line| ==> line[i] == '"'
    ensures n < |line| ==> line[|line| - n - 1] != '"'
  {
    if line == [] || line[|line| - 1] != '"' then 0
    else 1 + TrailingQuotes(line[..|line| - 1])
  }

  /** `(.+?)"+$` on one line: the shortest non-empty group that only
      quotes follow, up to the end of the line. */
  function LazyQuoted(line: string): (r: Option<string>)
    ensures r.Some? <==> |line| >= 2 && line[|line| - 1] == '"'
    ensures r.Some? ==> r.value != [] && |r.value| < |line| && r.value == line[..|r.value|]
    ensures r.Some? ==> forall i :: |r.value| <= i < |line| ==> line[i] == '"'
    ensures r.Some? && |r.value| > 1 ==> line[|r.value| - 1] != '"'
  {
    var q := TrailingQuotes(line);
    var m := if |line| - q < 1 then 1 else |line| - q;
    if q == 0 || m >= |line| then None else Some(line[..m])
  }

  /** `re_commitrevert.match(text)`: one or more `Revert "` wrappers, the
      group, then quotes to the end of the first line. The repetition is
      greedy, so deeper wrappers are tried first. */
  function RevertMatch(text: string): (r: Option<string>)
    ensures r.Some? ==> Text.StartsWith(text, RevertPrefix)
    ensures r.Some? ==> r.value != [] && '\n' !in r.value
    decreases |text|
  {
    if !Text.StartsWith(text, RevertPrefix) then None
    else
      var rest := text[|RevertPrefix|..];
      match RevertMatch(rest)
      case Some(g) => Some(g)
      case None =>
        var line := FirstLine(rest);
        var g := LazyQuoted(line);
        assert g.Some? ==> forall c :: c in g.value ==> c in line;
        g
  }

  /** `k` nested `Revert "` prefixes. */
  function Reverts(k: nat): (r: string)
    ensures |r| == |RevertPrefix| * k
  {
    if k == 0 then [] else RevertPrefix + Reverts(k - 1)
  }

  function Quotes(n: nat): (r: string)
    ensures |r| == n && forall c :: c in r ==> c == '"'
  {
    seq(n, _ => '"')
  }

  /** A message wrapped in any number of reverts is unwrapped, whatever the
      number of closing quotes. */
  lemma {:induction false} RevertUnwrap(msg: string, k: nat, e: nat)
    requires k >= 1 && e >= 1
    requires msg != [] && '\n' !in msg && msg[|msg| - 1] != '"'
    requires !Text.StartsWith(msg, "Revert ")
    ensures RevertMatch(Reverts(k) + msg + Quotes(e)) == Some(msg)
    decreases k
  {
    var rest := Reverts(k - 1) + msg + Quotes(e);
    assert Reverts(k) + msg + Quotes(e) == RevertPrefix + rest;
    if k == 1 {
      assert Reverts(0) == [];
      assert rest == msg + Quotes(e);
      assert RevertPrefix + rest == RevertPrefix + (msg + Quotes(e));
      RevertInnermost(msg, e);
    } else {
      RevertUnwrap(msg, k - 1, e);
      RevertOuter(rest);
    }
  }

  /** An outer wrapper around a matching text gives the same group. */
  lemma RevertOuter(rest: string)
    requires RevertMatch(rest).Some?
    ensures RevertMatch(RevertPrefix + rest) == RevertMatch(rest)
  {
    assert (RevertPrefix + rest)[|RevertPrefix|..] == rest;
  }

  /** The innermost wrapper: the message, then closing quotes. */
  lemma RevertInnermost(msg: string, e: nat)
    requires e >= 1
    requires msg != [] && '\n' !in msg && msg[|msg| - 1] != '"'
    requires !Text.StartsWith(msg, "Revert ")
    ensures RevertMatch(RevertPrefix + (msg + Quotes(e))) == Some(msg)
  {
    var rest := msg + Quotes(e);
    assert (RevertPrefix + rest)[|RevertPrefix|..] == rest;
    NoDeeperRevert(msg, e);
    assert '\n' !in rest;
    FirstLineWhole(rest);
    QuotedMessage(msg, e);
  }

  lemma NoDeeperRevert(msg: string, e: nat)
    requires e >= 1
    requires !Text.StartsWith(msg, "Revert ")
    ensures !Text.StartsWith(msg + Quotes(e), RevertPrefix)
  {
    var rest := msg + Quotes(e);
    if |msg| >= 7 {
      assert rest[..7] == msg[..7];
    } else {
      assert rest[|msg|] == '"';
    }
  }

  lemma QuotedMessage(msg: string, e: nat)
    requires e >= 1
    requires msg != [] && msg[|msg| - 1] != '"'
    ensures LazyQuoted(msg + Quotes(e)) == Some(msg)
  {
    QuotesAfter(msg, e);
    assert (msg + Quotes(e))[..|msg|] == msg;
  }

  /** Trailing quotes count exactly the appended ones. */
  lemma {:induction false} QuotesAfter(msg: string, e: nat)
    requires msg != [] && msg[|msg| - 1] != '"'
    ensures TrailingQuotes(msg + Quotes(e)) == e
    decreases e
  {
    if e > 0 {
      var s := msg + Quotes(e);
      assert s[|s| - 1] == '"';
      assert s[..|s| - 1] == msg + Quotes(e - 1);
      QuotesAfter(msg, e - 1);
    } else {
      assert msg + Quotes(0) == msg;
    }
  }

  predicate ScopeStart(c: char) { 'a' <= c <= 'z' || '0' <= c <= '9' }
  predicate ScopeChar(c: char) { ScopeStart(c) || c in "+. ,{}*/-" }
  predicate NotScopeChar(c: char) { !ScopeChar(c) }

  /** `\]?\:? (.+)$` from index `e` of a line: the second group, if any. */
  function MsgAfter(line: string, e: nat): (r: Option<string>)
    requires e <= |line|
    ensures r.Some? ==> r.value != [] && e + |r.value| < |line| && r.value == line[|line| - |r.value|..]
  {
    var p := if e < |line| && line[e] == ']' then e + 1 else e;
    var q := if p < |line| && line[p] == ':' then p + 1 else p;
    if q + 1 < |line| && line[q] == ' ' then Some(line[q + 1..]) else None
  }

  /** The first group ends at `e` or, backtracking, earlier. */
  function ScopeMatch(line: string, s0: nat, e: nat): (r: Option<(string, string)>)
    requires s0 < e <= |line|
    ensures r.Some? ==> Text.Contains(line, r.value.0) && r.value.1 != []
    decreases e
  {
    match MsgAfter(line, e)
    case Some(m) =>
      assert Text.OccursAt(line, line[s0..e], s0);
      Some((line[s0..e], m))
    case None => if e - 1 > s0 then ScopeMatch(line, s0, e - 1) else None
  }

  /** `re_commitmsg.match(text)`: the scope and the message of a first line
      shaped like `[scope]: message`, the brackets and colon optional. */
  function CommitMsgMatch(text: string): (r: Option<(string, string)>)
    ensures r.Some? ==> Text.Contains(text, r.value.0)
  {
    var line := FirstLine(text);
    var m := LineMatch(line);
    assert m.Some? ==> Text.Contains(text, m.value.0) by {
      if m.Some? { ContainsTrans(text, line, m.value.0); }
    }
    m
  }

  /** The match on one line: an optional `[`, then the longest scope. */
  function LineMatch(line: string): (r: Option<(string, string)>)
    ensures r.Some? ==> Text.Contains(line, r.value.0)
  {
    var s0 := if |line| > 0 && line[0] == '[' then 1 else 0;
    if s0 < |line| && ScopeStart(line[s0]) then
      ScopeMatch(line, s0, s0 + 1 + Text.FindFirst(line[s0 + 1..], NotScopeChar))
    else None
  }

  /** A substring of a substring is a substring. */
  lemma ContainsTrans(a: string, b: string, c: string)
    requires Text.StartsWith(a, b) && Text.Contains(b, c)
    ensures Text.Contains(a, c)
  {
    var i :| 0 <= i <= |b| && Text.OccursAt(b, c, i);
    assert a[i..i + |c|] == b[i..i + |c|];
    assert Text.OccursAt(a, c, i);
  }

  /** The text without its revert wrappers. */
  function Unrevert(text: string): string {
    match RevertMatch(text)
    case Some(g) => g
    case None => text
  }

  /** The message of the first line when its scope mentions the package,
      else the whole text. */
  function Attribute(name: string, t: string): string {
    match CommitMsgMatch(t)
    case Some((scope, msg)) => if Text.Contains(scope, name) then msg else t
    case None => t
  }

  /** `parse_commit_msg(name, text)`: `None` for a merge; otherwise the text
      without its revert wrappers, or just the message when the scope of
      its first line mentions the package. */
  function ParseCommitMsg(name: string, text: string): (r: Option<string>)
    ensures r.None? <==> Text.StartsWith(text, "Merge branch ")
  {
    if Text.StartsWith(text, "Merge branch ") then None
    else Some(Attribute(name, Unrevert(text)))
  }

  /** A reverted commit is attributed by the message it reverts. */
  lemma RevertedMessage(name: string, msg: string, k: nat)
    requires k >= 1
    requires msg != [] && '\n' !in msg && msg[|msg| - 1] != '"'
    requires !Text.StartsWith(msg, "Revert ") && !Text.StartsWith(msg, "Merge branch ")
    ensures ParseCommitMsg(name, Reverts(k) + msg + Quotes(k)) == ParseCommitMsg(name, msg)
  {
    var text := Reverts(k) + msg + Quotes(k);
    assert Unrevert(text) == msg by {
      RevertUnwrap(msg, k, k);
    }
    assert !Text.StartsWith(text, "Merge branch ") by {
      assert text[0] == 'R' by {
        assert Reverts(k) == RevertPrefix + Reverts(k - 1);
        assert text[0] == Reverts(k)[0];
      }
      Text.NotStartsWith(text, "Merge branch ");
    }
    assert Unrevert(msg) == msg by {
      assert !Text.StartsWith(msg, RevertPrefix);
    }
  }

  /** The colon, space and message after a scope give the message. */
  lemma MsgAfterScope(line: string, e: nat, bracket: bool, msg: string)
    requires e <= |line| && msg != []
    requires line[e..] == (if bracket then "]" else "") + ": " + msg
    ensures MsgAfter(line, e) == Some(msg)
  {
    var after := line[e..];
    var q := if bracket then e + 2 else e + 1;
    assert line[e] == after[0];
    assert bracket ==> line[e + 1] == after[1];
    assert line[q] == after[q - e] == ' ';
    assert line[q + 1..] == after[q - e + 1..];
  }

  /** A text without line feeds is its own first line. */
  lemma FirstLineWhole(s: string)
    requires '\n' !in s
    ensures FirstLine(s) == s
  {
    Text.FindFirstAt(s, IsNewline, |s|);
  }

  /** A scope followed by a character outside the scope class is the
      longest run. */
  lemma ScopeRunEnd(line: string, s0: nat, scope: string)
    requires scope != [] && forall c :: c in scope ==> ScopeChar(c)
    requires s0 + |scope| < |line| && line[s0..s0 + |scope|] == scope
    requires NotScopeChar(line[s0 + |scope|])
    ensures s0 + 1 + Text.FindFirst(line[s0 + 1..], NotScopeChar) == s0 + |scope|
  {
    var tail := line[s0 + 1..];
    forall i | 0 <= i < |scope| - 1 ensures !NotScopeChar(tail[i]) {
      assert tail[i] == line[s0..s0 + |scope|][i + 1];
      assert scope[i + 1] in scope;
    }
    Text.FindFirstAt(tail, NotScopeChar, |scope| - 1);
  }

  /** A line laid out as an optional `[`, a scope, the optional `]`, a
      colon, a space and a message is matched with that scope and message. */
  lemma LineMatchScoped(line: string, scope: string, msg: string, bracket: bool)
    requires scope != [] && ScopeStart(scope[0]) && forall c :: c in scope ==> ScopeChar(c)
    requires msg != []
    requires var s0 := if bracket then 1 else 0;
      && s0 + |scope| <= |line|
      && (bracket ==> line[0] == '[')
      && line[s0..s0 + |scope|] == scope
      && line[s0 + |scope|..] == (if bracket then "]" else "") + ": " + msg
    ensures LineMatch(line) == Some((scope, msg))
  {
    var s0 := if bracket then 1 else 0;
    var e := s0 + |scope|;
    assert line[s0] == line[s0..e][0] == scope[0];
    assert line[e] == line[e..][0];
    ScopeRunEnd(line, s0, scope);
    MsgAfterScope(line, e, bracket, msg);
  }

  /** The first line `[scope]: msg` (brackets optional) is matched with that
      scope and that message. */
  lemma ScopedMatch(scope: string, msg: string, bracket: bool)
    requires scope != [] && ScopeStart(scope[0]) && forall c :: c in scope ==> ScopeChar(c)
    requires msg != [] && '\n' !in msg
    ensures CommitMsgMatch((if bracket then "[" else "") + scope + (if bracket then "]" else "") + ": " + msg)
      == Some((scope, msg))
  {
    var open, close := if bracket then "[" else "", if bracket then "]" else "";
    var head := open + scope;
    var after := close + ": " + msg;
    var text := head + close + ": " + msg;
    assert text == head + after;
    assert text[|open|..|head|] == scope && text[|head|..] == after;
    assert '\n' !in text by {
      assert '\n' !in scope by {
        assert '\n' !in "+. ,{}*/-" by { assert forall i :: 0 <= i < 9 ==> "+. ,{}*/-"[i] != '\n'; }
        assert !ScopeChar('\n');
      }
      assert '\n' !in head && '\n' !in after;
    }
    FirstLineWhole(text);
    LineMatchScoped(text, scope, msg, bracket);
  }

  /** `scope: message` where the scope mentions the package gives the
      message; the scope may be bracketed. */
  lemma ScopedMessage(name: string, scope: string, msg: string, bracket: bool)
    requires scope != [] && ScopeStart(scope[0]) && forall c :: c in scope ==> ScopeChar(c)
    requires Text.Contains(scope, name)
    requires msg != [] && '\n' !in msg
    ensures ParseCommitMsg(name, (if bracket then "[" else "") + scope + (if bracket then "]" else "") + ": " + msg)
      == Some(msg)
  {
    var text := (if bracket then "[" else "") + scope + (if bracket then "]" else "") + ": " + msg;
    ScopedMatch(scope, msg, bracket);
    assert text[0] == '[' || ScopeStart(text[0]);
    Text.NotStartsWith(text, "Merge branch ");
    Text.NotStartsWith(text, RevertPrefix);
  }

  /** A message that does not mention the package, and is neither a merge
      nor a revert, is kept whole. */
  lemma UnscopedMessage(name: string, text: string)
    requires !Text.Contains(text, name)
    requires !Text.StartsWith(text, "Merge branch ") && !Text.StartsWith(text, RevertPrefix)
    ensures ParseCommitMsg(name, text) == Some(text)
  {
    var m := CommitMsgMatch(text);
    if m.Some? && Text.Contains(m.value.0, name) {
      var s := m.value.0;
      var i :| 0 <= i <= |text| && Text.OccursAt(text, s, i);
      var j :| 0 <= j <= |s| && Text.OccursAt(s, name, j);
      forall k | 0 <= k < |name| ensures text[i + j + k] == name[k] {
        assert s[j + k] == name[k];
      }
      assert text[i + j..i + j + |name|] == name;
      assert Text.OccursAt(text, name, i + j);
    }
  }
}
