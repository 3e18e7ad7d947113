/** Python string operations the modelled code relies on, stated over
    `seq<char>` (or generic sequences where bytes and text share them). */
module Text {
  import opened Wrappers

  /** `str.isspace()`: the characters Python's `strip`, `split()` and the
      regular-expression class `\s` treat as whitespace. */
  predicate IsSpace(c: char) {
    c == ' ' || c == '\t' || c == '\n' || c == '\r' || c == '\U{0B}' || c == '\U{0C}'
    || ('\U{1C}' <= c <= '\U{1F}') || c == '\U{85}' || c == '\U{A0}' || c == '\U{1680}'
    || ('\U{2000}' <= c <= '\U{200A}') || c == '\U{2028}' || c == '\U{2029}'
    || c == '\U{202F}' || c == '\U{205F}' || c == '\U{3000}'
  }

  /** The line boundaries of `str.splitlines()`. */
  predicate IsLineBreak(c: char) {
    c == '\n' || c == '\r' || c == '\U{0B}' || c == '\U{0C}' || c == '\U{1C}'
    || c == '\U{1D}' || c == '\U{1E}' || c == '\U{85}' || c == '\U{2028}' || c == '\U{2029}'
  }

  predicate IsDigit(c: char) { '0' <= c <= '9' }

  predicate StartsWith<T(==)>(s: seq<T>, prefix: seq<T>) {
    |prefix| <= |s| && s[..|prefix|] == prefix
  }

  /** `sub` occurs in `s` starting at index `i`. */
  predicate OccursAt<T(==)>(s: seq<T>, sub: seq<T>, i: int) {
    0 <= i <= |s| - |sub| && s[i..i + |sub|] == sub
  }

  /** Python's `sub in s`. */
  predicate Contains<T(==)>(s: seq<T>, sub: seq<T>) {
    exists i | 0 <= i <= |s| :: OccursAt(s, sub, i)
  }

  /** `''.join(parts)`. */
  function Concat<T>(parts: seq<seq<T>>): (r: seq<T>)
    ensures |parts| == 1 ==> r == parts[0]
  {
    if parts == [] then [] else parts[0] + Concat(parts[1..])
  }

  /** The pieces `f` makes of `ls[lo..hi]`, joined. */
  function ConcatMap<T, U>(f: T -> seq<U>, ls: seq<T>, lo: nat, hi: nat): seq<U>
    requires lo <= hi <= |ls|
    decreases hi - lo
  {
    if lo == hi then [] else f(ls[lo]) + ConcatMap(f, ls, lo + 1, hi)
  }

  /** Elements that each make one of `parts` make all of them, joined. */
  lemma {:induction false} ConcatMapParts<T, U>(f: T -> seq<U>, ls: seq<T>, lo: nat, parts: seq<seq<U>>)
    requires lo + |parts| <= |ls|
    requires forall j :: lo <= j < lo + |parts| ==> f(ls[j]) == parts[j - lo]
    ensures ConcatMap(f, ls, lo, lo + |parts|) == Concat(parts)
    decreases |parts|
  {
    if parts != [] {
      var hi, more := lo + |parts|, parts[1..];
      assert f(ls[lo]) == parts[0];
      forall j | lo + 1 <= j < lo + 1 + |more| ensures f(ls[j]) == more[j - (lo + 1)] {
        assert f(ls[j]) == parts[j - lo];
      }
      ConcatMapParts(f, ls, lo + 1, more);
      assert ConcatMap(f, ls, lo, hi) == f(ls[lo]) + ConcatMap(f, ls, lo + 1, hi);
      assert Concat(parts) == parts[0] + Concat(more);
    }
  }

  lemma {:induction false} ConcatAppend<T>(a: seq<seq<T>>, b: seq<seq<T>>)
    ensures Concat(a + b) == Concat(a) + Concat(b)
  {
    if a == [] {
      assert a + b == b;
    } else {
      assert (a + b)[1..] == a[1..] + b;
      ConcatAppend(a[1..], b);
    }
  }

  /** A Python slice bound normalised against a length: negative bounds
      count from the end and everything is clamped to `[0, len]`. */
  function SliceIndex(n: int, len: nat): (r: nat)
    ensures r <= len
    ensures 0 <= n <= len ==> r == n
    ensures -(len as int) <= n < 0 ==> r == len + n
  {
    if n < 0 then (if len + n < 0 then 0 else len + n) else if n > len then len else n
  }

  /** Python's `s[start:stop]`. */
  function Slice<T>(s: seq<T>, start: int, stop: int): (r: seq<T>)
    ensures |r| <= |s|
  {
    var a := SliceIndex(start, |s|);
    var b := SliceIndex(stop, |s|);
    if a <= b then s[a..b] else []
  }

  /** Python's `s.replace(pat, rep)`: every non-overlapping occurrence of
      `pat`, scanning from the left. */
  function Replace<T(==)>(s: seq<T>, pat: seq<T>, rep: seq<T>): seq<T>
    requires pat != []
    decreases |s|
  {
    if |s| < |pat| then s
    else if s[..|pat|] == pat then rep + Replace(s[|pat|..], pat, rep)
    else [s[0]] + Replace(s[1..], pat, rep)
  }

  /** Replacing something that does not occur changes nothing. */
  lemma {:induction false} ReplaceAbsent<T>(s: seq<T>, pat: seq<T>, rep: seq<T>)
    requires pat != [] && !Contains(s, pat)
    ensures Replace(s, pat, rep) == s
    decreases |s|
  {
    if |s| >= |pat| {
      assert !OccursAt(s, pat, 0);
      assert !Contains(s[1..], pat) by {
        forall i | OccursAt(s[1..], pat, i) ensures false {
          assert s[1..][i..i + |pat|] == s[i + 1..i + 1 + |pat|];
          assert OccursAt(s, pat, i + 1);
        }
      }
      ReplaceAbsent(s[1..], pat, rep);
      assert [s[0]] + s[1..] == s;
    }
  }

  /** Removing every character of `cs`. */
  function DeleteChars(s: string, cs: set<char>): (r: string)
    ensures forall c :: c in r ==> c in s && c !in cs
    ensures forall c :: c in s && c !in cs ==> c in r
  {
    if s == [] then [] else
    (if s[0] in cs then [] else [s[0]]) + DeleteChars(s[1..], cs)
  }

  function LowerChar(c: char): char {
    if 'A' <= c <= 'Z' then (c as int + 32) as char else c
  }

  /** `str.lower()` on ASCII letters. */
  function Lower(s: string): (r: string)
    ensures |r| == |s| && forall i :: 0 <= i < |s| ==> r[i] == LowerChar(s[i])
  {
    seq(|s|, i requires 0 <= i < |s| => LowerChar(s[i]))
  }

  function UpperChar(c: char): char {
    if 'a' <= c <= 'z' then (c as int - 32) as char else c
  }

  /** `str.upper()` on ASCII letters. */
  function Upper(s: string): (r: string)
    ensures |r| == |s| && forall i :: 0 <= i < |s| ==> r[i] == UpperChar(s[i])
  {
    seq(|s|, i requires 0 <= i < |s| => UpperChar(s[i]))
  }

  /** A one-element sequence whose element is not in `s` does not occur in it. */
  lemma NotContained<T>(s: seq<T>, sub: seq<T>)
    requires |sub| == 1 && sub[0] !in s
    ensures !Contains(s, sub)
  {
    forall i | 0 <= i <= |s| ensures !OccursAt(s, sub, i) {
      if i < |s| {
        assert s[i..i + 1][0] == s[i] && s[i] in s;
      }
    }
  }

  /** `s.rstrip()` with no argument. */
  function RStrip(s: string): (r: string)
    ensures StartsWith(s, r)
    ensures r == [] || !IsSpace(r[|r| - 1])
    ensures forall i :: |r| <= i < |s| ==> IsSpace(s[i])
  {
    if s == [] || !IsSpace(s[|s| - 1]) then s else RStrip(s[..|s| - 1])
  }

  /** `s.strip()` with no argument. */
  function Strip(s: string): (r: string)
  {
    var t := RStrip(s);
    LStrip(t)
  }

  function LStrip(s: string): (r: string)
    ensures r == [] || !IsSpace(r[0])
    ensures |r| <= |s| && s[|s| - |r|..] == r
  {
    if s == [] || !IsSpace(s[0]) then s else LStrip(s[1..])
  }

  /** `s.split()` with no argument: maximal runs of non-whitespace. */
  function Split(s: string): (r: seq<string>)
    ensures forall w :: w in r ==> Word(w)
    decreases |s|
  {
    var t := LStrip(s);
    if t == [] then []
    else
      var n := WordLength(t);
      var w, rest := t[..n], Split(t[n..]);
      NoSpaceRun(t, n);
      assert forall x :: x in [w] + rest ==> x == w || x in rest;
      [w] + rest
  }

  /** A word of `s.split()`: non-empty and free of whitespace. */
  predicate Word(w: string) {
    w != [] && forall c :: c in w ==> !IsSpace(c)
  }

  /** A run of non-whitespace is a word. */
  lemma NoSpaceRun(t: string, n: nat)
    requires 0 < n <= |t| && forall i :: 0 <= i < n ==> !IsSpace(t[i])
    ensures Word(t[..n])
  {
    forall c | c in t[..n] ensures !IsSpace(c) {
      var i :| 0 <= i < n && t[..n][i] == c;
      assert t[i] == c;
    }
  }

  /** The length of the leading run of non-whitespace of `s`. */
  function WordLength(s: string): (n: nat)
    requires s != [] && !IsSpace(s[0])
    ensures 0 < n <= |s| && (n < |s| ==> IsSpace(s[n]))
    ensures forall i :: 0 <= i < n ==> !IsSpace(s[i])
  {
    if |s| == 1 || IsSpace(s[1]) then 1 else 1 + WordLength(s[1..])
  }

  /** The index of the first element of `s` satisfying `p`, or `|s|`. */
  function FindFirst<T>(s: seq<T>, p: T -> bool): (i: nat)
    ensures i <= |s|
    ensures i < |s| ==> p(s[i])
    ensures forall j :: 0 <= j < i ==> !p(s[j])
  {
    if s == [] then 0 else if p(s[0]) then 0 else 1 + FindFirst(s[1..], p)
  }

  /** The first index satisfying `p` is `k` when `s[k]` does and nothing
      before it does. */
  lemma FindFirstAt<T>(s: seq<T>, p: T -> bool, k: nat)
    requires k <= |s| && (k < |s| ==> p(s[k]))
    requires forall j :: 0 <= j < k ==> !p(s[j])
    ensures FindFirst(s, p) == k
  {
  }

  /** A sequence whose first element differs does not start with `p`. */
  lemma NotStartsWith<T>(s: seq<T>, p: seq<T>)
    requires p != [] && (s == [] || s[0] != p[0])
    ensures !StartsWith(s, p)
  {
  }

  /** The test for one separator character. */
  function Equals(sep: char): char -> bool {
    c => c == sep
  }

  /** `s.split(sep, 1)` for a one-character separator. */
  function SplitOnce(s: string, sep: char): (r: seq<string>)
    ensures 1 <= |r| <= 2
  {
    var i := FindFirst(s, Equals(sep));
    if i == |s| then [s] else [s[..i], s[i + 1..]]
  }

  /** Without the separator the text stays whole; with it, the text is the
      piece before its first occurrence, the separator, and the rest. */
  lemma SplitOnceParts(s: string, sep: char)
    ensures var r := SplitOnce(s, sep);
      && (|r| == 1 <==> sep !in s)
      && (|r| == 1 ==> r[0] == s)
      && (|r| == 2 ==> s == r[0] + [sep] + r[1] && sep !in r[0])
  {
    var i := FindFirst(s, Equals(sep));
    if i == |s| {
      assert forall c :: c in s ==> c != sep;
    } else {
      assert s == s[..i] + [sep] + s[i + 1..];
      assert forall c :: c in s[..i] ==> c != sep;
    }
  }

  /** `s.split(sep)` for a one-character separator: every piece, empty ones
      included. */
  function SplitAll(s: string, sep: char): (r: seq<string>)
    ensures |r| >= 1
    ensures forall w :: w in r ==> sep !in w
    decreases |s|
  {
    var i := FindFirst(s, Equals(sep));
    if i == |s| then
      assert forall c :: c in s ==> c != sep;
      [s]
    else
      assert forall c :: c in s[..i] ==> c != sep;
      [s[..i]] + SplitAll(s[i + 1..], sep)
  }

  /** Text without the separator is one piece. */
  lemma SplitAllNone(s: string, sep: char)
    requires sep !in s
    ensures SplitAll(s, sep) == [s]
  {
    FindFirstAt(s, Equals(sep), |s|);
  }

  /** Text splits at the first separator in it. */
  lemma SplitAllAt(s: string, sep: char, i: nat)
    requires i < |s| && s[i] == sep && sep !in s[..i]
    ensures SplitAll(s, sep) == [s[..i]] + SplitAll(s[i + 1..], sep)
  {
    assert forall j :: 0 <= j < i ==> s[j] == s[..i][j];
    FindFirstAt(s, Equals(sep), i);
  }

  /** `splitlines(keepends)` for a line-boundary predicate; `cr` and `lf`
      make the pair `cr lf` one boundary. */
  function SplitLinesWith<T(==)>(s: seq<T>, isBreak: T -> bool, cr: T, lf: T, keepends: bool): (r: seq<seq<T>>)
    ensures s == [] <==> r == []
    decreases |s|
  {
    if s == [] then []
    else
      var i := FindFirst(s, isBreak);
      if i == |s| then [s]
      else
        var b := if s[i] == cr && i + 1 < |s| && s[i + 1] == lf then 2 else 1;
        [if keepends then s[..i + b] else s[..i]] + SplitLinesWith(s[i + b..], isBreak, cr, lf, keepends)
  }

  /** `str.splitlines(keepends)`. */
  function SplitLines(s: string, keepends: bool): seq<string> {
    SplitLinesWith(s, IsLineBreak, '\r', '\n', keepends)
  }

  /** With the line ends kept, the lines join back to the input exactly. */
  lemma {:induction false} SplitLinesJoin<T>(s: seq<T>, isBreak: T -> bool, cr: T, lf: T)
    ensures Concat(SplitLinesWith(s, isBreak, cr, lf, true)) == s
    decreases |s|
  {
    if s != [] {
      var i := FindFirst(s, isBreak);
      if i < |s| {
        var b := if s[i] == cr && i + 1 < |s| && s[i + 1] == lf then 2 else 1;
        var k := i + b;
        var head, tail := s[..k], s[k..];
        assert s == head + tail;
        var rest := SplitLinesWith(tail, isBreak, cr, lf, true);
        var lines := SplitLinesWith(s, isBreak, cr, lf, true);
        assert lines == [head] + rest;
        assert lines[1..] == rest;
        SplitLinesJoin(tail, isBreak, cr, lf);
        assert Concat(lines) == head + Concat(rest);
      }
    }
  }

  /** With the line ends kept, every line but the last ends with a boundary
      and no line holds a boundary anywhere else (a `\r\n` pair excepted). */
  lemma {:induction false} SplitLinesShape<T>(s: seq<T>, isBreak: T -> bool, cr: T, lf: T, k: nat)
    requires k < |SplitLinesWith(s, isBreak, cr, lf, true)|
    ensures SplitLinesWith(s, isBreak, cr, lf, true)[k] != []
    ensures var ln := SplitLinesWith(s, isBreak, cr, lf, true)[k];
      forall j :: 0 <= j < |ln| - 1 && isBreak(ln[j]) ==> j == |ln| - 2 && ln[j] == cr && ln[j + 1] == lf
    decreases |s|
  {
    var lines := SplitLinesWith(s, isBreak, cr, lf, true);
    var i := FindFirst(s, isBreak);
    if i == |s| {
      assert lines == [s];
    } else {
      var b := if s[i] == cr && i + 1 < |s| && s[i + 1] == lf then 2 else 1;
      var rest := SplitLinesWith(s[i + b..], isBreak, cr, lf, true);
      assert lines == [s[..i + b]] + rest;
      if k == 0 {
        FirstLineShape(s, isBreak, cr, lf, i, b);
      } else {
        assert lines[k] == rest[k - 1];
        SplitLinesShape(s[i + b..], isBreak, cr, lf, k - 1);
      }
    }
  }

  /** The first line, cut after the first boundary at `i`, holds no other
      boundary but the `cr` of a `cr lf` pair. */
  lemma FirstLineShape<T>(s: seq<T>, isBreak: T -> bool, cr: T, lf: T, i: nat, b: nat)
    requires i < |s| && i == FindFirst(s, isBreak)
    requires b == if s[i] == cr && i + 1 < |s| && s[i + 1] == lf then 2 else 1
    ensures var ln := s[..i + b];
      forall j :: 0 <= j < |ln| - 1 && isBreak(ln[j]) ==> j == |ln| - 2 && ln[j] == cr && ln[j + 1] == lf
  {
    var ln := s[..i + b];
    forall j | 0 <= j < |ln| - 1 && isBreak(ln[j])
      ensures j == |ln| - 2 && ln[j] == cr && ln[j + 1] == lf
    {
      assert ln[j] == s[j];
    }
  }

  /** A line that ends with `lf` and holds no other boundary. */
  predicate EndsLine<T(==)>(l: seq<T>, isBreak: T -> bool, lf: T) {
    |l| >= 1 && l[|l| - 1] == lf && forall j :: 0 <= j < |l| - 1 ==> !isBreak(l[j])
  }

  /** With the line ends kept, complete lines in front of `rest` split off
      as they are. */
  lemma SplitLinesKeepPrefix<T>(ls: seq<seq<T>>, rest: seq<T>, isBreak: T -> bool, cr: T, lf: T)
    requires isBreak(lf) && lf != cr
    requires forall k :: 0 <= k < |ls| ==> EndsLine(ls[k], isBreak, lf)
    ensures SplitLinesWith(Concat(ls) + rest, isBreak, cr, lf, true) == ls + SplitLinesWith(rest, isBreak, cr, lf, true)
  {
    AllEndLinesOf(ls, isBreak, lf);
    KeepPrefix(ls, rest, isBreak, cr, lf);
  }

  /** Every one of `ls` is a complete line. */
  predicate AllEndLines<T(==)>(ls: seq<seq<T>>, isBreak: T -> bool, lf: T) {
    ls == [] || (EndsLine(ls[0], isBreak, lf) && AllEndLines(ls[1..], isBreak, lf))
  }

  lemma {:induction false} AllEndLinesOf<T>(ls: seq<seq<T>>, isBreak: T -> bool, lf: T)
    requires forall k :: 0 <= k < |ls| ==> EndsLine(ls[k], isBreak, lf)
    ensures AllEndLines(ls, isBreak, lf)
  {
    if ls != [] {
      forall k | 0 <= k < |ls[1..]| ensures EndsLine(ls[1..][k], isBreak, lf) {
        assert ls[1..][k] == ls[k + 1];
      }
      AllEndLinesOf(ls[1..], isBreak, lf);
    }
  }

  lemma {:induction false} KeepPrefix<T>(ls: seq<seq<T>>, rest: seq<T>, isBreak: T -> bool, cr: T, lf: T)
    requires isBreak(lf) && lf != cr && AllEndLines(ls, isBreak, lf)
    ensures SplitLinesWith(Concat(ls) + rest, isBreak, cr, lf, true) == ls + SplitLinesWith(rest, isBreak, cr, lf, true)
  {
    if ls == [] {
      assert Concat(ls) + rest == rest;
    } else {
      var l, more := ls[0], ls[1..];
      var tail := Concat(more) + rest;
      assert Concat(ls) + rest == l + tail;
      SplitFirstLine(l, tail, isBreak, cr, lf);
      KeepPrefix(more, rest, isBreak, cr, lf);
      var after := SplitLinesWith(rest, isBreak, cr, lf, true);
      assert [l] + (more + after) == ([l] + more) + after;
      assert ls == [l] + more;
    }
  }

  /** A complete line in front of `tail` splits off as it is. */
  lemma SplitFirstLine<T>(l: seq<T>, tail: seq<T>, isBreak: T -> bool, cr: T, lf: T)
    requires lf != cr && isBreak(lf) && EndsLine(l, isBreak, lf)
    ensures SplitLinesWith(l + tail, isBreak, cr, lf, true) == [l] + SplitLinesWith(tail, isBreak, cr, lf, true)
  {
    var s := l + tail;
    var i := |l| - 1;
    forall j | 0 <= j < i ensures !isBreak(s[j]) {
      assert s[j] == l[j];
    }
    assert s[i] == lf;
    FindFirstAt(s, isBreak, i);
    assert s[..i + 1] == l && s[i + 1..] == tail;
  }

  /** Lines each followed by the separator `lf`, joined. */
  function JoinLines<T>(ls: seq<seq<T>>, lf: T): (r: seq<T>)
    ensures |r| >= |ls|
  {
    if ls == [] then [] else ls[0] + [lf] + JoinLines(ls[1..], lf)
  }

  /** Splitting lines that hold no boundary and each end with `lf` gives the
      lines back. */
  lemma {:induction false} SplitJoinLines<T>(ls: seq<seq<T>>, isBreak: T -> bool, cr: T, lf: T)
    requires isBreak(lf) && lf != cr
    requires forall k, j :: 0 <= k < |ls| && 0 <= j < |ls[k]| ==> !isBreak(ls[k][j])
    ensures SplitLinesWith(JoinLines(ls, lf), isBreak, cr, lf, false) == ls
  {
    if ls != [] {
      var s := JoinLines(ls, lf);
      var head := ls[0];
      var rest := JoinLines(ls[1..], lf);
      assert s == head + [lf] + rest;
      var i := FindFirst(s, isBreak);
      assert s[|head|] == lf;
      assert i == |head|;
      assert s[..i] == head && s[i + 1..] == rest;
      SplitJoinLines(ls[1..], isBreak, cr, lf);
    }
  }

  /** The decimal digits of a natural number. */
  function NatToString(n: nat): (r: string)
    ensures r != [] && forall c :: c in r ==> IsDigit(c)
    decreases n
  {
    var d := ['0' + (n % 10) as char];
    if n < 10 then d else NatToString(n / 10) + d
  }

  /** Python's `'%d' % n`. */
  function IntToString(n: int): (r: string)
    ensures r != []
  {
    if n < 0 then "-" + NatToString(-n) else NatToString(n)
  }

  function DigitsValue(s: string): nat
    requires forall c :: c in s ==> IsDigit(c)
  {
    if s == [] then 0
    else
      assert IsDigit(s[|s| - 1]) by { assert s[|s| - 1] in s; }
      10 * DigitsValue(s[..|s| - 1]) + (s[|s| - 1] as int - '0' as int)
  }

  /** Python's `int(s)` for decimal text: surrounding whitespace, an optional
      sign, then one or more ASCII digits; anything else raises ValueError. */
  function ParseInt(s: string): (r: Option<int>)
  {
    var t := Strip(s);
    if t == [] then None
    else
      var neg := t[0] == '-';
      var body := if t[0] == '-' || t[0] == '+' then t[1..] else t;
      if body == [] || exists c :: c in body && !IsDigit(c) then None
      else
        var v: int := DigitsValue(body);
        Some(if neg then -v else v)
  }

  lemma {:induction false} DigitsValueNat(n: nat)
    ensures DigitsValue(NatToString(n)) == n
    decreases n
  {
    var d := ['0' + (n % 10) as char];
    if n >= 10 {
      DigitsValueNat(n / 10);
      var s := NatToString(n / 10) + d;
      assert s[..|s| - 1] == NatToString(n / 10);
    }
  }

  lemma StripNoSpace(s: string)
    requires forall c :: c in s ==> !IsSpace(c)
    ensures Strip(s) == s
  {
    if s != [] {
      assert !IsSpace(s[|s| - 1]) && !IsSpace(s[0]);
    }
  }

  /** `int` of an optional minus sign followed by digits. */
  lemma ParseIntSigned(t: string, neg: bool, digits: string)
    requires digits != [] && forall c :: c in digits ==> IsDigit(c)
    requires t == (if neg then "-" else "") + digits
    ensures ParseInt(t) == Some(if neg then -(DigitsValue(digits) as int) else DigitsValue(digits))
  {
    SignedNoSpace(t, neg, digits);
    StripNoSpace(t);
    if neg {
      assert t[0] == '-' && t[1..] == digits;
    } else {
      assert t == digits && IsDigit(t[0]);
    }
  }

  lemma SignedNoSpace(t: string, neg: bool, digits: string)
    requires forall c :: c in digits ==> IsDigit(c)
    requires t == (if neg then "-" else "") + digits
    ensures forall c :: c in t ==> !IsSpace(c)
  {
    forall c | c in t ensures !IsSpace(c) {
      if c !in digits { assert c == '-'; }
    }
  }

  /** `int('%d' % n) == n`. */
  lemma ParseIntRoundTrip(n: int)
    ensures ParseInt(IntToString(n)) == Some(n)
  {
    var m: nat := if n < 0 then -n else n;
    DigitsValueNat(m);
    ParseIntSigned(IntToString(n), n < 0, NatToString(m));
  }
}
