/** The `*`/`?` patterns of `${x#p}`, `${x##p}`, `${x%p}`, `${x%%p}`,
    `${x/p/s}` and `${x//p/s}`, stated as glob matching (`bashvar.py`'s
    `_compile_pattern` turns them into regular expressions; the searches
    below are what those expressions find). `*` matches any run of
    characters, `?` any one character, every other character itself. */
module Glob {
  import opened Wrappers
  import Text

  /** `s` as a whole matches the glob `p`: every character of `p` but `*`
      takes one character of `s`, so a pattern without `*` matches only
      strings of its own length. */
  predicate Match(p: string, s: string)
    ensures Match(p, s) ==> |p| - Stars(p) <= |s|
    ensures Match(p, s) && '*' !in p ==> |s| == |p|
    decreases |p| + |s|
  {
    if p == [] then s == []
    else if p[0] == '*' then Match(p[1..], s) || (s != [] && Match(p, s[1..]))
    else s != [] && (p[0] == '?' || p[0] == s[0]) && Match(p[1..], s[1..])
  }

  /** The number of `*` in `p`. */
  function Stars(p: string): (r: nat)
    ensures r <= |p|
    ensures r == 0 <==> '*' !in p
  {
    if p == [] then 0 else (if p[0] == '*' then 1 else 0) + Stars(p[1..])
  }

  predicate IsLiteral(p: string) {
    '*' !in p && '?' !in p
  }

  /** A pattern without wildcards matches only itself. */
  lemma {:induction false} LiteralMatch(p: string, s: string)
    requires IsLiteral(p)
    ensures Match(p, s) <==> s == p
    decreases |p| + |s|
  {
    if p != [] {
      assert p[0] in p;
      assert forall c :: c in p[1..] ==> c in p;
    }
    if p != [] && s != [] {
      LiteralMatch(p[1..], s[1..]);
      if p[0] == s[0] && p[1..] == s[1..] {
        assert p == [p[0]] + p[1..] && s == [s[0]] + s[1..];
      }
    }
  }

  /** A non-empty pattern of stars only matches everything. */
  lemma {:induction false} StarsMatchAll(p: string, s: string)
    requires p != [] && forall c :: c in p ==> c == '*'
    ensures Match(p, s)
    decreases |p| + |s|
  {
    assert p[0] in p;
    if |p| > 1 {
      assert forall c :: c in p[1..] ==> c in p;
      StarsMatchAll(p[1..], s);
    } else if s != [] {
      StarsMatchAll(p, s[1..]);
    }
  }

  /** A pattern holding a character other than `*` never matches the empty
      string. */
  lemma {:induction false} NonStarNeedsInput(p: string)
    requires exists c :: c in p && c != '*'
    ensures !Match(p, "")
  {
    if p[0] == '*' {
      var c :| c in p && c != '*';
      assert c in p[1..];
      NonStarNeedsInput(p[1..]);
    }
  }

  /** The least `n` in `[lo, hi]` with `P(n)`. */
  function Least(lo: nat, hi: nat, P: nat -> bool): (r: Option<nat>)
    ensures r.Some? ==> lo <= r.value <= hi && P(r.value) && forall m :: lo <= m < r.value ==> !P(m)
    ensures r.None? ==> forall m :: lo <= m <= hi ==> !P(m)
    decreases hi - lo + 1
  {
    if lo > hi then None else if P(lo) then Some(lo) else Least(lo + 1, hi, P)
  }

  /** The greatest `n` in `[lo, hi]` with `P(n)`. */
  function Greatest(lo: nat, hi: nat, P: nat -> bool): (r: Option<nat>)
    ensures r.Some? ==> lo <= r.value <= hi && P(r.value) && forall m :: r.value < m <= hi ==> !P(m)
    ensures r.None? ==> forall m :: lo <= m <= hi ==> !P(m)
    decreases hi - lo + 1
  {
    if lo > hi then None else if P(hi) then Some(hi) else if hi == 0 then None else Greatest(lo, hi - 1, P)
  }

  predicate PrefixMatches(p: string, s: string, n: int) {
    0 <= n <= |s| && Match(p, s[..n])
  }

  predicate SuffixMatches(p: string, s: string, n: int) {
    0 <= n <= |s| && Match(p, s[n..])
  }

  predicate MatchesAt(p: string, s: string, b: int, e: int) {
    0 <= b <= e <= |s| && Match(p, s[b..e])
  }

  /** `${x#p}`: the shortest matching prefix removed; nothing if none
      matches. */
  function TrimShortestPrefix(p: string, s: string): (r: string)
    ensures (forall n :: !PrefixMatches(p, s, n)) ==> r == s
    ensures forall n :: PrefixMatches(p, s, n) && (forall m :: 0 <= m < n ==> !PrefixMatches(p, s, m)) ==> r == s[n..]
  {
    var P := (n: nat) => PrefixMatches(p, s, n);
    assert forall n: nat :: P(n) == PrefixMatches(p, s, n);
    match Least(0, |s|, P)
    case None => s
    case Some(n) => s[n..]
  }

  /** `${x##p}`: the longest matching prefix removed. */
  function TrimLongestPrefix(p: string, s: string): (r: string)
    ensures (forall n :: !PrefixMatches(p, s, n)) ==> r == s
    ensures forall n :: PrefixMatches(p, s, n) && (forall m :: n < m <= |s| ==> !PrefixMatches(p, s, m)) ==> r == s[n..]
  {
    var P := (n: nat) => PrefixMatches(p, s, n);
    assert forall n: nat :: P(n) == PrefixMatches(p, s, n);
    match Greatest(0, |s|, P)
    case None => s
    case Some(n) => s[n..]
  }

  /** `${x%p}`: the shortest matching suffix removed. */
  function TrimShortestSuffix(p: string, s: string): (r: string)
    ensures (forall n :: !SuffixMatches(p, s, n)) ==> r == s
    ensures forall n :: SuffixMatches(p, s, n) && (forall m :: n < m <= |s| ==> !SuffixMatches(p, s, m)) ==> r == s[..n]
  {
    var P := (n: nat) => SuffixMatches(p, s, n);
    assert forall n: nat :: P(n) == SuffixMatches(p, s, n);
    match Greatest(0, |s|, P)
    case None => s
    case Some(n) => s[..n]
  }

  /** `${x%%p}`: the longest matching suffix removed. */
  function TrimLongestSuffix(p: string, s: string): (r: string)
    ensures (forall n :: !SuffixMatches(p, s, n)) ==> r == s
    ensures forall n :: SuffixMatches(p, s, n) && (forall m :: 0 <= m < n ==> !SuffixMatches(p, s, m)) ==> r == s[..n]
  {
    var P := (n: nat) => SuffixMatches(p, s, n);
    assert forall n: nat :: P(n) == SuffixMatches(p, s, n);
    match Least(0, |s|, P)
    case None => s
    case Some(n) => s[..n]
  }

  /** The shortest-prefix trim never removes more than the longest one. */
  lemma ShortestTrimKeepsMore(p: string, s: string)
    ensures |TrimLongestPrefix(p, s)| <= |TrimShortestPrefix(p, s)|
    ensures |TrimLongestSuffix(p, s)| <= |TrimShortestSuffix(p, s)|
  {
    var P := (n: nat) => PrefixMatches(p, s, n);
    assert forall n: nat :: P(n) == PrefixMatches(p, s, n);
    var lp := Least(0, |s|, P);
    var gp := Greatest(0, |s|, P);
    if lp.Some? { assert gp.Some? && lp.value <= gp.value; }
    var Q := (n: nat) => SuffixMatches(p, s, n);
    assert forall n: nat :: Q(n) == SuffixMatches(p, s, n);
    var ls := Least(0, |s|, Q);
    var gs := Greatest(0, |s|, Q);
    if ls.Some? { assert gs.Some? && ls.value <= gs.value; }
  }

  /** With a literal pattern both prefix trims remove `p` exactly when `s`
      starts with it. */
  lemma LiteralPrefixTrim(p: string, s: string)
    requires IsLiteral(p)
    ensures TrimShortestPrefix(p, s) == TrimLongestPrefix(p, s)
    ensures TrimShortestPrefix(p, s) == if Text.StartsWith(s, p) then s[|p|..] else s
  {
    forall n ensures PrefixMatches(p, s, n) <==> n == |p| && Text.StartsWith(s, p) {
      if 0 <= n <= |s| { LiteralMatch(p, s[..n]); }
    }
  }

  /** The longest end `e` of a match of `p` starting at `b`: what a greedy
      expression finds there. */
  function LongestAt(p: string, s: string, b: nat): (r: Option<nat>)
    ensures r.Some? ==> MatchesAt(p, s, b, r.value) && forall e :: MatchesAt(p, s, b, e) ==> e <= r.value
    ensures r.None? ==> forall e :: !MatchesAt(p, s, b, e)
  {
    var P := (e: nat) => MatchesAt(p, s, b, e);
    assert forall e: nat :: P(e) == MatchesAt(p, s, b, e);
    Greatest(b, |s|, P)
  }

  /** A start the search accepts at or after `i`: some match begins there
      and, right after an empty match at `i` (`mustAdvance`), it is not empty
      again at `i`. */
  predicate Acceptable(p: string, s: string, i: nat, mustAdvance: bool, b: nat) {
    var e := LongestAt(p, s, b);
    e.Some? && !(mustAdvance && b == i && e.value == b)
  }

  /** The leftmost acceptable start at or after `i`. */
  function FirstMatchFrom(p: string, s: string, i: nat, mustAdvance: bool): (r: Option<nat>)
    ensures r.Some? ==> i <= r.value <= |s| && Acceptable(p, s, i, mustAdvance, r.value)
    ensures r.Some? ==> forall b :: i <= b < r.value ==> !Acceptable(p, s, i, mustAdvance, b)
    ensures r.None? ==> forall b :: i <= b <= |s| ==> !Acceptable(p, s, i, mustAdvance, b)
  {
    var P := (b: nat) => Acceptable(p, s, i, mustAdvance, b);
    assert forall b: nat :: P(b) == Acceptable(p, s, i, mustAdvance, b);
    Least(i, |s|, P)
  }

  /** `${x/p/r}`: the leftmost match, taken as long as possible, replaced
      once. */
  function SubFirst(p: string, s: string, rep: string): (r: string)
    ensures (forall b, e :: !MatchesAt(p, s, b, e)) ==> r == s
    ensures forall b, e ::
              (MatchesAt(p, s, b, e)
               && (forall b', e' :: MatchesAt(p, s, b', e') ==> b <= b')
               && (forall e' :: MatchesAt(p, s, b, e') ==> e' <= e))
              ==> r == s[..b] + rep + s[e..]
  {
    match FirstMatchFrom(p, s, 0, false)
    case None =>
      assert forall b, e :: MatchesAt(p, s, b, e) ==> Acceptable(p, s, 0, false, b);
      s
    case Some(b) =>
      var e := LongestAt(p, s, b).value;
      FirstMatchUnique(p, s, b, e);
      s[..b] + rep + s[e..]
  }

  /** The match the first search finds is the leftmost one, as long as
      possible: any match with those two properties is that one. */
  lemma FirstMatchUnique(p: string, s: string, b: nat, e: nat)
    requires FirstMatchFrom(p, s, 0, false) == Some(b) && LongestAt(p, s, b) == Some(e)
    ensures forall b0, e0 ::
              (MatchesAt(p, s, b0, e0)
               && (forall b', e' :: MatchesAt(p, s, b', e') ==> b0 <= b')
               && (forall e' :: MatchesAt(p, s, b0, e') ==> e' <= e0))
              ==> b0 == b && e0 == e
  {
    forall b0, e0 | MatchesAt(p, s, b0, e0)
      && (forall b', e' :: MatchesAt(p, s, b', e') ==> b0 <= b')
      && (forall e' :: MatchesAt(p, s, b0, e') ==> e' <= e0)
      ensures b0 == b && e0 == e
    {
      assert MatchesAt(p, s, b, e);
      assert Acceptable(p, s, 0, false, b0);
    }
  }

  /** `${x//p/r}` from index `i`: each match replaced in turn, scanning on
      from its end; an empty match may follow a non-empty one but not
      another empty one at the same place. */
  function SubAllFrom(p: string, s: string, rep: string, i: nat, mustAdvance: bool): string
    requires i <= |s|
    decreases |s| - i, if mustAdvance then 0 else 1
  {
    match FirstMatchFrom(p, s, i, mustAdvance)
    case None => s[i..]
    case Some(b) =>
      var e := LongestAt(p, s, b).value;
      s[i..b] + rep + SubAllFrom(p, s, rep, e, e == b)
  }

  /** One step of `SubAllFrom`: the first acceptable match `[b, e)` is
      replaced and the scan goes on from `e`. */
  lemma SubAllFromStep(p: string, s: string, rep: string, i: nat, mustAdvance: bool, b: nat, e: nat)
    requires i <= |s|
    requires FirstMatchFrom(p, s, i, mustAdvance) == Some(b) && LongestAt(p, s, b) == Some(e)
    ensures SubAllFrom(p, s, rep, i, mustAdvance) == s[i..b] + rep + SubAllFrom(p, s, rep, e, e == b)
  {
  }

  /** `${x//p/r}`: with no match, `s` itself; otherwise the leftmost
      match, taken as long as possible, is replaced first and the scan goes
      on from its end; for a literal pattern, `str.replace`. */
  function SubAll(p: string, s: string, rep: string): (r: string)
    ensures (forall b, e :: !MatchesAt(p, s, b, e)) ==> r == s
    ensures forall b, e ::
              (MatchesAt(p, s, b, e)
               && (forall b', e' :: MatchesAt(p, s, b', e') ==> b <= b')
               && (forall e' :: MatchesAt(p, s, b, e') ==> e' <= e))
              ==> r == s[..b] + rep + SubAllFrom(p, s, rep, e, e == b)
    ensures IsLiteral(p) && p != [] ==> r == Text.Replace(s, p, rep)
  {
    LiteralSubAllWhole(p, s, rep);
    match FirstMatchFrom(p, s, 0, false)
    case None =>
      assert forall b, e :: MatchesAt(p, s, b, e) ==> Acceptable(p, s, 0, false, b);
      s
    case Some(b) =>
      var e := LongestAt(p, s, b).value;
      FirstMatchUnique(p, s, b, e);
      s[..b] + rep + SubAllFrom(p, s, rep, e, e == b)
  }

  /** `LiteralSubAll` from the start of the text. */
  lemma LiteralSubAllWhole(p: string, s: string, rep: string)
    ensures IsLiteral(p) && p != [] ==> SubAllFrom(p, s, rep, 0, false) == Text.Replace(s, p, rep)
  {
    if IsLiteral(p) && p != [] {
      LiteralSubAll(p, s, rep, 0, false);
      assert s[0..] == s;
    }
  }

  /** Where nothing matches, substitution changes nothing. */
  lemma SubAllNoMatch(p: string, s: string, rep: string)
    requires forall b, e :: !MatchesAt(p, s, b, e)
    ensures SubAll(p, s, rep) == s
  {
    assert FirstMatchFrom(p, s, 0, false).None?;
  }

  /** The matches of a literal pattern are its occurrences. */
  lemma LiteralMatchesAt(p: string, s: string)
    requires IsLiteral(p)
    ensures forall b, e :: MatchesAt(p, s, b, e) <==> Text.OccursAt(s, p, b) && e == b + |p|
  {
    forall b, e ensures MatchesAt(p, s, b, e) <==> Text.OccursAt(s, p, b) && e == b + |p| {
      if 0 <= b <= e <= |s| { LiteralMatch(p, s[b..e]); }
    }
  }

  /** For a literal, non-empty pattern the search stops at the first
      occurrence, whatever `mustAdvance` says. */
  lemma LiteralFirstMatch(p: string, s: string, i: nat, mustAdvance: bool)
    requires IsLiteral(p) && p != [] && i <= |s|
    ensures Text.OccursAt(s, p, i) ==> FirstMatchFrom(p, s, i, mustAdvance) == Some(i)
    ensures !Text.OccursAt(s, p, i) && i < |s| ==> FirstMatchFrom(p, s, i, mustAdvance) == FirstMatchFrom(p, s, i + 1, mustAdvance)
    ensures !Text.OccursAt(s, p, i) && i == |s| ==> FirstMatchFrom(p, s, i, mustAdvance).None?
    ensures forall b: nat :: LongestAt(p, s, b).Some? ==> Text.OccursAt(s, p, b) && LongestAt(p, s, b).value == b + |p|
  {
    LiteralMatchesAt(p, s);
    forall b: nat | LongestAt(p, s, b).Some?
      ensures Text.OccursAt(s, p, b) && LongestAt(p, s, b).value == b + |p|
    {
      assert MatchesAt(p, s, b, LongestAt(p, s, b).value);
    }
    if Text.OccursAt(s, p, i) {
      assert MatchesAt(p, s, i, i + |p|);
      assert Acceptable(p, s, i, mustAdvance, i);
    } else {
      assert LongestAt(p, s, i).None?;
      assert !Acceptable(p, s, i, mustAdvance, i);
      if i < |s| {
        var m := FirstMatchFrom(p, s, i, mustAdvance);
        var m' := FirstMatchFrom(p, s, i + 1, mustAdvance);
        forall b | i + 1 <= b <= |s|
          ensures Acceptable(p, s, i, mustAdvance, b) <==> Acceptable(p, s, i + 1, mustAdvance, b)
        {
          if LongestAt(p, s, b).Some? { assert LongestAt(p, s, b).value > b; }
        }
        if m'.Some? {
          assert Acceptable(p, s, i, mustAdvance, m'.value);
          assert m.Some? && m.value <= m'.value;
          assert m.value >= i + 1;
          assert m.value == m'.value;
        }
      }
    }
  }

  /** With a literal pattern `/` replaces the first occurrence of `p`. */
  lemma LiteralSubFirst(p: string, s: string, rep: string)
    requires IsLiteral(p) && p != []
    ensures !Text.Contains(s, p) ==> SubFirst(p, s, rep) == s
    ensures forall b ::
              (Text.OccursAt(s, p, b) && (forall b' :: 0 <= b' < b ==> !Text.OccursAt(s, p, b')))
              ==> SubFirst(p, s, rep) == s[..b] + rep + s[b + |p|..]
  {
    LiteralMatchesAt(p, s);
    if !Text.Contains(s, p) {
      assert forall b, e :: !MatchesAt(p, s, b, e);
    }
    forall b | Text.OccursAt(s, p, b) && (forall b' :: 0 <= b' < b ==> !Text.OccursAt(s, p, b'))
      ensures SubFirst(p, s, rep) == s[..b] + rep + s[b + |p|..]
    {
      assert MatchesAt(p, s, b, b + |p|);
    }
  }

  /** With a literal, non-empty pattern `//` is Python's `str.replace`. */
  lemma {:induction false} LiteralSubAll(p: string, s: string, rep: string, i: nat, mustAdvance: bool)
    requires IsLiteral(p) && p != [] && i <= |s|
    ensures SubAllFrom(p, s, rep, i, mustAdvance) == Text.Replace(s[i..], p, rep)
    decreases |s| - i
  {
    LiteralFirstMatch(p, s, i, mustAdvance);
    var t := s[i..];
    if |t| < |p| {
    } else if t[..|p|] == p {
      assert Text.OccursAt(s, p, i) by { assert s[i..i + |p|] == t[..|p|]; }
      LiteralSubAll(p, s, rep, i + |p|, false);
      LiteralSubAllMatchStep(p, s, rep, i, mustAdvance);
    } else {
      assert !Text.OccursAt(s, p, i) by { assert s[i..i + |p|] == t[..|p|]; }
      LiteralSubAll(p, s, rep, i + 1, mustAdvance);
      LiteralSubAllSkipStep(p, s, rep, i, mustAdvance);
    }
  }

  /** `LiteralSubAll` where `p` occurs at `i`. */
  lemma LiteralSubAllMatchStep(p: string, s: string, rep: string, i: nat, mustAdvance: bool)
    requires IsLiteral(p) && p != [] && Text.OccursAt(s, p, i)
    requires SubAllFrom(p, s, rep, i + |p|, false) == Text.Replace(s[i + |p|..], p, rep)
    ensures SubAllFrom(p, s, rep, i, mustAdvance) == Text.Replace(s[i..], p, rep)
  {
    assert SubAllFrom(p, s, rep, i, mustAdvance) == rep + SubAllFrom(p, s, rep, i + |p|, false) by {
      LiteralFirstMatch(p, s, i, mustAdvance);
      SubAllFromStep(p, s, rep, i, mustAdvance, i, i + |p|);
      assert s[i..i] == [];
    }
    assert Text.Replace(s[i..], p, rep) == rep + Text.Replace(s[i + |p|..], p, rep) by {
      var t := s[i..];
      assert t[..|p|] == p;
      assert t[|p|..] == s[i + |p|..];
    }
  }

  /** `LiteralSubAll` where `p` does not occur at `i`. */
  lemma LiteralSubAllSkipStep(p: string, s: string, rep: string, i: nat, mustAdvance: bool)
    requires IsLiteral(p) && p != [] && i < |s| && !Text.OccursAt(s, p, i)
    requires SubAllFrom(p, s, rep, i + 1, mustAdvance) == Text.Replace(s[i + 1..], p, rep)
    ensures SubAllFrom(p, s, rep, i, mustAdvance) == Text.Replace(s[i..], p, rep)
  {
    ReplaceSkipAt(p, s, rep, i);
    SubAllFromSkip(p, s, rep, i, mustAdvance);
  }

  /** `str.replace` copies a character where the pattern does not start. */
  lemma ReplaceSkipAt(p: string, s: string, rep: string, i: nat)
    requires p != [] && i < |s| && !Text.OccursAt(s, p, i)
    ensures Text.Replace(s[i..], p, rep) == [s[i]] + Text.Replace(s[i + 1..], p, rep)
  {
    var t := s[i..];
    assert t[1..] == s[i + 1..];
    if |t| >= |p| {
      assert t[..|p|] != p by { assert s[i..i + |p|] == t[..|p|]; }
    }
  }

  /** The substitution copies a character where the literal does not
      start. */
  lemma SubAllFromSkip(p: string, s: string, rep: string, i: nat, mustAdvance: bool)
    requires IsLiteral(p) && p != [] && i < |s| && !Text.OccursAt(s, p, i)
    ensures SubAllFrom(p, s, rep, i, mustAdvance) == [s[i]] + SubAllFrom(p, s, rep, i + 1, mustAdvance)
  {
    var m := FirstMatchFrom(p, s, i, mustAdvance);
    assert m == FirstMatchFrom(p, s, i + 1, mustAdvance) by {
      LiteralFirstMatch(p, s, i, mustAdvance);
    }
    if m.Some? {
      var b := m.value;
      SubAllFromSkipTo(p, s, rep, i, mustAdvance, b, LongestAt(p, s, b).value);
    } else {
      SubAllFromNone(p, s, rep, i, mustAdvance);
      SubAllFromNone(p, s, rep, i + 1, mustAdvance);
      assert s[i..] == [s[i]] + s[i + 1..];
    }
  }

  /** `SubAllFromSkip` when both scans find the same match `[b, e)`. */
  lemma SubAllFromSkipTo(p: string, s: string, rep: string, i: nat, mustAdvance: bool, b: nat, e: nat)
    requires i < |s|
    requires FirstMatchFrom(p, s, i, mustAdvance) == Some(b) && LongestAt(p, s, b) == Some(e)
    requires FirstMatchFrom(p, s, i + 1, mustAdvance) == Some(b)
    ensures SubAllFrom(p, s, rep, i, mustAdvance) == [s[i]] + SubAllFrom(p, s, rep, i + 1, mustAdvance)
  {
    var a, x := s[i + 1..b], SubAllFrom(p, s, rep, e, e == b);
    SubAllFromStep(p, s, rep, i, mustAdvance, b, e);
    SubAllFromStep(p, s, rep, i + 1, mustAdvance, b, e);
    assert s[i..b] == [s[i]] + a;
    ConsAssoc(s[i], a, rep, x);
  }

  /** With no acceptable match left, the rest is copied. */
  lemma SubAllFromNone(p: string, s: string, rep: string, i: nat, mustAdvance: bool)
    requires i <= |s| && FirstMatchFrom(p, s, i, mustAdvance).None?
    ensures SubAllFrom(p, s, rep, i, mustAdvance) == s[i..]
  {
  }

  lemma ConsAssoc(c: char, a: string, r: string, x: string)
    ensures [c] + a + r + x == [c] + (a + r + x)
  {
  }
}
