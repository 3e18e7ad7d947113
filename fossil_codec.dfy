/** The small codecs of `fossil.py`: the signed reading of a 32-bit
    artifact number, the escaping of card tokens (Fossil "File Formats"),
    and the base-64 integers of the Fossil delta format. */
module FossilCodec {
  import opened Wrappers
  import Text

  /** A byte of a blob. */
  type Byte = b: int | 0 <= b < 256

  /** `unsigned_to_signed(v)`: `v - 2**32` when bit 31 of `v` is set (in
      two's complement for a negative `v`), `v` otherwise. */
  function UnsignedToSigned(v: int): (r: int)
    ensures r == v || r == v - 0x1_0000_0000
  {
    if (v / 0x8000_0000) % 2 == 1 then v - 0x1_0000_0000 else v
  }

  /** On 32-bit input the result is a 32-bit signed number congruent to
      the input. */
  lemma UnsignedToSignedRange(v: int)
    requires 0 <= v < 0x1_0000_0000
    ensures -0x8000_0000 <= UnsignedToSigned(v) < 0x8000_0000
    ensures (v - UnsignedToSigned(v)) % 0x1_0000_0000 == 0
  {
    assert v / 0x8000_0000 == (if v < 0x8000_0000 then 0 else 1);
  }

  /** Every 32-bit signed number is the reading of its unsigned form. */
  lemma SignedRoundTrip(s: int)
    requires -0x8000_0000 <= s < 0x8000_0000
    ensures UnsignedToSigned(s % 0x1_0000_0000) == s
  {
    var u := s % 0x1_0000_0000;
    assert u == (if s < 0 then s + 0x1_0000_0000 else s);
    assert u / 0x8000_0000 == (if s < 0 then 1 else 0);
  }

  /** `text_escape(s)`: backslashes doubled, then spaces and newlines
      written `\s` and `\n`; the three passes escape each character on its
      own. */
  function TextEscape(s: string): (r: string)
    ensures r == Escaped(s)
  {
    var s1 := Text.Replace(s, "\\", "\\\\");
    ReplaceOneChar(s, '\\', "\\\\");
    var s2 := Text.Replace(s1, " ", "\\s");
    ReplaceOneChar(s1, ' ', "\\s");
    ReplaceOneChar(s2, '\n', "\\n");
    EscapeStepsChars(s);
    Text.Replace(s2, "\n", "\\n")
  }

  /** `text_unescape(s)`: `\s`, then `\n`, then `\\` read back; a text with
      no backslash has nothing to read back. */
  function TextUnescape(s: string): (r: string)
    ensures '\\' !in s ==> r == s
  {
    UnescapePlain(s);
    Text.Replace(Text.Replace(Text.Replace(s, "\\s", " "), "\\n", "\n"), "\\\\", "\\")
  }

  /** Without a backslash none of the three escapes occurs. */
  lemma UnescapePlain(s: string)
    ensures '\\' !in s ==>
      Text.Replace(Text.Replace(Text.Replace(s, "\\s", " "), "\\n", "\n"), "\\\\", "\\") == s
  {
    if '\\' !in s {
      NoEscapeAt(s, "\\s");
      Text.ReplaceAbsent(s, "\\s", " ");
      NoEscapeAt(s, "\\n");
      Text.ReplaceAbsent(s, "\\n", "\n");
      NoEscapeAt(s, "\\\\");
      Text.ReplaceAbsent(s, "\\\\", "\\");
    }
  }

  /** A pattern whose first character is not in `s` does not occur in it. */
  lemma NoEscapeAt(s: string, pat: string)
    requires pat != [] && pat[0] !in s
    ensures !Text.Contains(s, pat)
  {
    forall i | 0 <= i <= |s| ensures !Text.OccursAt(s, pat, i) {
      if i + |pat| <= |s| {
        assert s[i..i + |pat|][0] == s[i] && s[i] in s;
      }
    }
  }

  /** Each `c` of `s` replaced by `rep`. */
  function Subst(s: string, c: char, rep: string): (r: string)
    ensures c !in rep ==> c !in r
    ensures forall x :: x !in s && x !in rep ==> x !in r
  {
    if s == [] then [] else (if s[0] == c then rep else [s[0]]) + Subst(s[1..], c, rep)
  }

  /** `replace` of a one-character pattern is a character-wise substitution. */
  lemma {:induction false} ReplaceOneChar(s: string, c: char, rep: string)
    ensures Text.Replace(s, [c], rep) == Subst(s, c, rep)
  {
    if s != [] {
      ReplaceOneChar(s[1..], c, rep);
    }
  }

  lemma {:induction false} SubstAppend(a: string, b: string, c: char, rep: string)
    ensures Subst(a + b, c, rep) == Subst(a, c, rep) + Subst(b, c, rep)
  {
    if a != [] {
      assert (a + b)[1..] == a[1..] + b;
      SubstAppend(a[1..], b, c, rep);
    } else {
      assert a + b == b;
    }
  }

  /** What `text_escape` makes of one character. */
  function EscapeChar(c: char): string {
    if c == '\\' then "\\\\" else if c == ' ' then "\\s" else if c == '\n' then "\\n" else [c]
  }

  /** `text_escape` character by character. */
  function Escaped(s: string): (r: string)
    ensures ' ' !in r && '\n' !in r
  {
    if s == [] then [] else EscapeChar(s[0]) + Escaped(s[1..])
  }

  function EscapeSteps(s: string): string {
    Subst(Subst(Subst(s, '\\', "\\\\"), ' ', "\\s"), '\n', "\\n")
  }

  lemma {:induction false} EscapeStepsChars(s: string)
    ensures EscapeSteps(s) == Escaped(s)
  {
    if s != [] {
      var c, t := s[0], s[1..];
      assert s == [c] + t;
      SubstAppend([c], t, '\\', "\\\\");
      var a1, b1 := Subst([c], '\\', "\\\\"), Subst(t, '\\', "\\\\");
      SubstAppend(a1, b1, ' ', "\\s");
      var a2, b2 := Subst(a1, ' ', "\\s"), Subst(b1, ' ', "\\s");
      SubstAppend(a2, b2, '\n', "\\n");
      assert Subst(a2, '\n', "\\n") == EscapeChar(c);
      EscapeStepsChars(t);
    }
  }

  /** `text_escape` is the character-wise escaping, so its output holds no
      space and no newline. */
  lemma EscapeNoBlanks(s: string)
    ensures TextEscape(s) == Escaped(s)
    ensures ' ' !in TextEscape(s) && '\n' !in TextEscape(s)
  {
  }

  /** A replacement does not start where the first character cannot. */
  lemma ReplaceSkip(c: char, t: string, pat: string, rep: string)
    requires pat != [] && c != pat[0]
    ensures Text.Replace([c] + t, pat, rep) == [c] + Text.Replace(t, pat, rep)
  {
    var s := [c] + t;
    assert s[1..] == t;
    if |s| < |pat| {
      assert Text.Replace(t, pat, rep) == t;
    } else {
      assert s[..|pat|][0] == c;
    }
  }

  /** A replacement at the front. */
  lemma ReplaceFront(t: string, pat: string, rep: string)
    requires pat != []
    ensures Text.Replace(pat + t, pat, rep) == rep + Text.Replace(t, pat, rep)
  {
    var s := pat + t;
    assert s[..|pat|] == pat && s[|pat|..] == t;
  }

  /** `text_escape` with only newlines escaped. */
  function NewlinesEscaped(s: string): string {
    if s == [] then [] else (if s[0] == '\n' then "\\n" else [s[0]]) + NewlinesEscaped(s[1..])
  }

  /** Reading `\s` back from an escaped backslash-free text. */
  lemma {:induction false} UnescapeSpaces(s: string)
    requires '\\' !in s
    ensures Text.Replace(Escaped(s), "\\s", " ") == NewlinesEscaped(s)
  {
    if s != [] {
      var c, t := s[0], s[1..];
      assert c in s;
      assert forall x :: x in t ==> x in s;
      UnescapeSpaces(t);
      assert Escaped(s) == EscapeChar(c) + Escaped(t);
      UnescapeSpacesChar(c, Escaped(t));
    }
  }

  /** Reading `\s` back across one escaped character that is not a
      backslash. */
  lemma UnescapeSpacesChar(c: char, rest: string)
    requires c != '\\'
    ensures Text.Replace(EscapeChar(c) + rest, "\\s", " ")
      == (if c == '\n' then "\\n" else [c]) + Text.Replace(rest, "\\s", " ")
  {
    if c == ' ' {
      ReplaceFront(rest, "\\s", " ");
    } else if c == '\n' {
      var u := ['\\'] + (['n'] + rest);
      assert EscapeChar(c) + rest == u;
      ReplaceSkip('n', rest, "\\s", " ");
      assert u[..2] == "\\n" && u[1..] == ['n'] + rest;
    } else {
      ReplaceSkip(c, rest, "\\s", " ");
    }
  }

  /** Reading `\n` back from a text whose only backslashes start `\n`. */
  lemma {:induction false} UnescapeNewlines(s: string)
    requires '\\' !in s
    ensures Text.Replace(NewlinesEscaped(s), "\\n", "\n") == s
  {
    if s != [] {
      var c, t := s[0], s[1..];
      assert c in s;
      assert forall x :: x in t ==> x in s;
      UnescapeNewlines(t);
      if c == '\n' {
        ReplaceFront(NewlinesEscaped(t), "\\n", "\n");
      } else {
        ReplaceSkip(c, NewlinesEscaped(t), "\\n", "\n");
      }
      assert [c] + t == s;
    }
  }

  /** A backslash-free text comes back from escaping and unescaping. */
  lemma UnescapeEscape(s: string)
    requires '\\' !in s
    ensures TextUnescape(TextEscape(s)) == s
  {
    EscapeNoBlanks(s);
    UnescapeSpaces(s);
    UnescapeNewlines(s);
    assert !Text.Contains(s, "\\\\") by {
      forall i | 0 <= i <= |s| ensures !Text.OccursAt(s, "\\\\", i) {
        if i <= |s| - 2 {
          assert s[i] in s && s[i..i + 2][0] == s[i];
        }
      }
    }
    Text.ReplaceAbsent(s, "\\\\", "\\");
  }

  /** With a backslash the round trip can fail: an escaped `\s` comes back
      as a backslash and a space. */
  lemma UnescapeEscapeBackslash()
    ensures TextUnescape(TextEscape("\\s")) == "\\ "
  {
    EscapeNoBlanks("\\s");
    assert Escaped("\\s") == ['\\'] + (['\\'] + ("s" + []));
    var e := Escaped("\\s");
    assert e == ['\\'] + "\\s";
    ReplaceFront([], "\\s", " ");
    assert Text.Replace(e, "\\s", " ") == "\\ " by {
      assert e[..2] == "\\\\" && e[1..] == "\\s";
      assert "\\s" + [] == "\\s";
    }
    assert Text.Replace(" ", "\\n", "\n") == " ";
    assert Text.Replace("\\ ", "\\n", "\n") == "\\ " by {
      assert "\\ "[..2] == "\\ ";
    }
    assert Text.Replace("\\ ", "\\\\", "\\") == "\\ " by {
      assert "\\ "[..2] == "\\ ";
      assert Text.Replace(" ", "\\\\", "\\") == " ";
    }
  }

  /** The digit of value `i` in `base64_putint`'s digit string
      "0123456789ABCDEFGHIJKLMNOPQRSTUVWXYZ_abcdefghijklmnopqrstuvwxyz~",
      written as its ranges. */
  function ZDigit(i: int): (c: char)
    requires 0 <= i < 64
  {
    if i < 10 then (48 + i) as char
    else if i < 36 then (55 + i) as char
    else if i == 36 then '_'
    else if i < 63 then (60 + i) as char
    else '~'
  }

  /** `base64_getint.zvalue[c]` for a 7-bit code `c`, written as the
      ranges of the table: the digits of `ZDigit` map to their index and
      every other code to -1. */
  function ZCode(c: int): int {
    if 48 <= c <= 57 then c - 48
    else if 65 <= c <= 90 then c - 55
    else if c == 95 then 36
    else if 97 <= c <= 122 then c - 60
    else if c == 126 then 63
    else -1
  }

  /** `zvalue[0x7f & ch]`. */
  function ZValue(ch: Byte): (c: int)
    ensures -1 <= c < 64
  {
    ZCode(ch % 128)
  }

  predicate IsZDigit(ch: Byte) {
    ZValue(ch) >= 0
  }

  /** A text as bytes, one byte per character (the digits are ASCII). */
  function Latin1(s: string): (r: seq<Byte>)
    ensures |r| == |s|
    ensures forall i :: 0 <= i < |s| ==> r[i] == (s[i] as int) % 256
  {
    seq(|s|, i requires 0 <= i < |s| => (s[i] as int) % 256)
  }

  predicate IsDigitChar(c: char) {
    c as int < 128 && ZCode(c as int) >= 0
  }

  /** The decoder reads every digit back as its value. */
  lemma ZValueOfDigit(i: int)
    requires 0 <= i < 64
    ensures IsDigitChar(ZDigit(i)) && ZDigit(i) as int < 128
    ensures ZValue(ZDigit(i) as int) == i
  {
  }

  /** The digits `buf[pos..pos + k]`, most significant first. */
  function RunValue(buf: seq<Byte>, pos: nat, k: nat): int
    requires pos + k <= |buf|
  {
    if k == 0 then 0 else RunValue(buf, pos, k - 1) * 64 + ZValue(buf[pos + k - 1])
  }

  /** The loop of `base64_getint` from index `i` with `acc` read so far:
      each digit shifts the value six bits left and adds its own value;
      the first non-digit, or the end, stops it. */
  function ReadDigits(buf: seq<Byte>, i: nat, acc: int): (r: (int, nat))
    requires i <= |buf|
    ensures i <= r.1 <= |buf|
    ensures acc >= 0 ==> r.0 >= 0
    decreases |buf| - i
  {
    if i == |buf| || !IsZDigit(buf[i]) then (acc, i)
    else ReadDigits(buf, i + 1, acc * 64 + ZValue(buf[i]))
  }

  /** `base64_getint(buf, pos)`: the digit run at `pos` read most
      significant digit first, and the position after it. An empty
      `buf[pos:]` leaves the loop variable unbound. */
  function GetInt(buf: seq<Byte>, pos: nat): (r: Result<(int, nat)>)
    ensures r.Err? <==> pos >= |buf|
    ensures r.Ok? ==> r.value.0 >= 0 && pos <= r.value.1 <= |buf|
  {
    if pos >= |buf| then Err("UnboundLocalError") else Ok(ReadDigits(buf, pos, 0))
  }

  lemma {:induction false} ReadDigitsStops(buf: seq<Byte>, i: nat, acc: int)
    requires i <= |buf|
    ensures forall j :: i <= j < ReadDigits(buf, i, acc).1 ==> IsZDigit(buf[j])
    ensures ReadDigits(buf, i, acc).1 < |buf| ==> !IsZDigit(buf[ReadDigits(buf, i, acc).1])
    decreases |buf| - i
  {
    if i < |buf| && IsZDigit(buf[i]) {
      ReadDigitsStops(buf, i + 1, acc * 64 + ZValue(buf[i]));
    }
  }

  /** `base64_getint` stops at the first non-digit: everything it read
      is a digit, and what follows it is not. */
  lemma GetIntReadsRun(buf: seq<Byte>, pos: nat)
    requires pos < |buf|
    ensures forall j :: pos <= j < GetInt(buf, pos).value.1 ==> IsZDigit(buf[j])
    ensures GetInt(buf, pos).value.1 < |buf| ==> !IsZDigit(buf[GetInt(buf, pos).value.1])
  {
    ReadDigitsStops(buf, pos, 0);
  }

  /** The loop of `base64_getint`. */
  method Base64GetInt(buf: seq<Byte>, pos: nat) returns (r: Result<(int, nat)>)
    ensures r == GetInt(buf, pos)
  {
    if pos >= |buf| {
      r := Err("UnboundLocalError");
    } else {
      var v, z := 0, 0;
      while pos + z < |buf| && ZValue(buf[pos + z]) >= 0
        invariant pos + z <= |buf|
        invariant ReadDigits(buf, pos + z, v) == ReadDigits(buf, pos, 0)
        decreases |buf| - z
      {
        v := v * 64 + ZValue(buf[pos + z]);
        z := z + 1;
      }
      r := Ok((v, pos + z));
    }
  }

  /** Reading from `pos` a run of `k` digits ended by the end of the
      buffer or a non-digit gives the run's value and the index after it. */
  lemma {:induction false} ReadRun(buf: seq<Byte>, pos: nat, k: nat)
    requires pos + k <= |buf|
    requires forall j :: pos <= j < pos + k ==> IsZDigit(buf[j])
    requires pos + k < |buf| ==> !IsZDigit(buf[pos + k])
    ensures ReadDigits(buf, pos, 0) == (RunValue(buf, pos, k), pos + k)
  {
    ReadRunPrefix(buf, pos, k);
  }

  lemma {:induction false} ReadRunPrefix(buf: seq<Byte>, pos: nat, k: nat)
    requires pos + k <= |buf|
    requires forall j :: pos <= j < pos + k ==> IsZDigit(buf[j])
    ensures ReadDigits(buf, pos, 0) == ReadDigits(buf, pos + k, RunValue(buf, pos, k))
  {
    if k > 0 {
      ReadRunPrefix(buf, pos, k - 1);
    }
  }

  lemma {:induction false} RunValuePrefix(a: seq<Byte>, b: seq<Byte>, pos: nat, k: nat)
    requires pos + k <= |a|
    ensures RunValue(a + b, pos, k) == RunValue(a, pos, k)
  {
    if k > 0 {
      RunValuePrefix(a, b, pos, k - 1);
    }
  }

  /** The digits `base64_putint` appends, least significant first. */
  function PutDigits(v: int): (r: string)
    ensures forall c :: c in r ==> IsDigitChar(c)
    decreases v
  {
    if v <= 0 then [] else [ZDigit(v % 64)] + PutDigits(v / 64)
  }

  /** `base64_putint(v)`: "0" for zero; nothing for a negative `v`. */
  method Base64PutInt(v: int) returns (r: string)
    ensures r == if v == 0 then "0" else PutDigits(v)
  {
    if v == 0 {
      r := "0";
    } else {
      r := "";
      var w := v;
      while w > 0
        invariant r + PutDigits(w) == PutDigits(v)
        decreases w
      {
        r := r + [ZDigit(w % 64)];
        w := w / 64;
      }
    }
  }

  /** What `base64_putint` returns: encoding digits only, and nothing
      exactly for a negative number. */
  function PutInt(v: int): (r: string)
    ensures forall c :: c in r ==> IsDigitChar(c)
    ensures r == [] <==> v < 0
  {
    if v == 0 then "0" else PutDigits(v)
  }

  /** A one-digit number reads back. */
  lemma PutIntOneDigit(v: int)
    requires 0 <= v < 64
    ensures GetInt(Latin1(PutInt(v)), 0) == Ok((v, 1))
  {
    if v == 0 {
      assert PutInt(v) == [ZDigit(0)];
    } else {
      assert v % 64 == v && v / 64 == 0;
      assert PutDigits(v / 64) == [];
      assert PutInt(v) == [ZDigit(v)];
    }
    assert PutInt(v) == PutIntMsb(v);
    PutIntMsbRoundTrip(v, []);
    assert Latin1(PutInt(v)) + [] == Latin1(PutInt(v));
  }

  /** With two digits or more the order is reversed: 64 is written "01",
      which reads back as 1. */
  lemma PutIntMisreads()
    ensures PutInt(64) == "01"
    ensures GetInt(Latin1(PutInt(64)), 0) == Ok((1, 2))
  {
    assert PutDigits(1) == [ZDigit(1)] + PutDigits(0);
    assert PutDigits(64) == [ZDigit(0)] + PutDigits(1);
    var b := Latin1(PutInt(64));
    ZValueOfDigit(0);
    ZValueOfDigit(1);
    assert b == [48, 49];
    ReadRun(b, 0, 2);
    assert RunValue(b, 0, 1) == 0;
  }

  /** The digits of `v`, most significant first, as the decoder reads them. */
  function MsbDigits(v: nat): (r: string)
    ensures r != []
    ensures forall c :: c in r ==> IsDigitChar(c)
  {
    if v < 64 then [ZDigit(v)] else MsbDigits(v / 64) + [ZDigit(v % 64)]
  }

  /** The encoder `base64_getint` inverts. */
  function PutIntMsb(v: nat): string {
    MsbDigits(v)
  }

  /** Text made of digits is a run of digit bytes. */
  lemma DigitBytes(s: string)
    requires forall c :: c in s ==> IsDigitChar(c)
    ensures forall j :: 0 <= j < |s| ==> IsZDigit(Latin1(s)[j])
  {
    forall j | 0 <= j < |s| ensures IsZDigit(Latin1(s)[j]) {
      assert s[j] in s;
    }
  }

  lemma MsbDigitsValue(v: nat)
    ensures RunValue(Latin1(MsbDigits(v)), 0, |MsbDigits(v)|) == v
  {
    MsbBytesLatin1(v);
    MsbBytesValue(v);
  }

  /** The digits of `v` as bytes. */
  function MsbBytes(v: nat): (r: seq<Byte>)
    ensures |r| >= 1
  {
    if v < 64 then [ZDigit(v) as int % 256] else MsbBytes(v / 64) + [ZDigit(v % 64) as int % 256]
  }

  lemma {:induction false} MsbBytesLatin1(v: nat)
    ensures Latin1(MsbDigits(v)) == MsbBytes(v) && |MsbBytes(v)| == |MsbDigits(v)|
  {
    if v >= 64 {
      MsbBytesLatin1(v / 64);
      Latin1Snoc(MsbDigits(v / 64), ZDigit(v % 64));
    }
  }

  lemma {:induction false} MsbBytesValue(v: nat)
    ensures RunValue(MsbBytes(v), 0, |MsbBytes(v)|) == v
  {
    var q, d := v / 64, v % 64;
    ZValueOfDigit(d);
    var x: Byte := ZDigit(d) as int;
    assert x == ZDigit(d) as int % 256 && ZValue(x) == d;
    if v < 64 {
      assert MsbBytes(v) == [x] && d == v;
      RunValueSnoc([], x, d);
    } else {
      assert MsbBytes(v) == MsbBytes(q) + [x];
      MsbBytesValue(q);
      RunValueSnoc(MsbBytes(q), x, d);
      assert v == q * 64 + d;
    }
  }

  /** One more digit shifts the value six bits left and adds its own. */
  lemma RunValueSnoc(a: seq<Byte>, x: Byte, z: int)
    requires ZValue(x) == z
    ensures RunValue(a + [x], 0, |a| + 1) == RunValue(a, 0, |a|) * 64 + z
  {
    RunValuePrefix(a, [x], 0, |a|);
    assert (a + [x])[|a|] == x;
  }

  lemma Latin1Snoc(s: string, c: char)
    ensures Latin1(s + [c]) == Latin1(s) + [c as int % 256]
  {
    assert forall i :: 0 <= i < |s| ==> (s + [c])[i] == s[i];
  }

  /** Digits written most significant first read back, whatever non-digit
      follows them. */
  lemma PutIntMsbRoundTrip(v: nat, tail: seq<Byte>)
    requires tail == [] || !IsZDigit(tail[0])
    ensures GetInt(Latin1(PutIntMsb(v)) + tail, 0) == Ok((v, |PutIntMsb(v)|))
  {
    var b := Latin1(MsbDigits(v));
    MsbDigitsValue(v);
    DigitBytes(MsbDigits(v));
    assert forall j :: 0 <= j < |b| ==> (b + tail)[j] == b[j];
    ReadRun(b + tail, 0, |b|);
    RunValuePrefix(b, tail, 0, |b|);
  }

  /** `base64_putint` writes the right digits in the reverse order. */
  lemma {:induction false} PutDigitsReversed(v: nat)
    requires v > 0
    ensures PutDigits(v) == Reversed(MsbDigits(v))
  {
    if v >= 64 {
      PutDigitsReversed(v / 64);
      ReversedAppend(MsbDigits(v / 64), [ZDigit(v % 64)]);
    }
  }

  function Reversed<T>(s: seq<T>): (r: seq<T>)
    ensures |r| == |s|
  {
    if s == [] then [] else Reversed(s[1..]) + [s[0]]
  }

  lemma {:induction false} ReversedAppend<T>(a: seq<T>, b: seq<T>)
    ensures Reversed(a + b) == Reversed(b) + Reversed(a)
  {
    if a == [] {
      assert a + b == b;
    } else {
      assert (a + b)[1..] == a[1..] + b;
      ReversedAppend(a[1..], b);
    }
  }
}
