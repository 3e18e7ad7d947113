/** Stripping the OpenPGP clear-signature framing (section 7 of RFC 4880)
    off a Fossil manifest before it is parsed. */
module FossilClearsign {
  import opened Text
  import opened FossilCodec

  /** `-----BEGIN PGP SIGNED MESSAGE-----` in ASCII. */
  const SignedHeader: seq<Byte> := [45, 45, 45, 45, 45, 66, 69, 71, 73, 78, 32, 80, 71, 80, 32,
    83, 73, 71, 78, 69, 68, 32, 77, 69, 83, 83, 65, 71, 69, 45, 45, 45, 45, 45]

  /** `-----BEGIN PGP SIGNATURE-----` in ASCII. */
  const SignatureHeader: seq<Byte> := [45, 45, 45, 45, 45, 66, 69, 71, 73, 78, 32, 80, 71, 80, 32,
    83, 73, 71, 78, 65, 84, 85, 82, 69, 45, 45, 45, 45, 45]

  /** The line boundaries of `bytes.splitlines()`: `\n`, `\r` and `\r\n`. */
  predicate IsLineBreakByte(b: Byte) {
    b == 10 || b == 13
  }

  /** `blob.splitlines(True)`. */
  function Lines(blob: seq<Byte>): seq<seq<Byte>> {
    SplitLinesWith(blob, IsLineBreakByte, 13, 10, true)
  }

  /** The ASCII whitespace `bytes.rstrip()` removes. */
  predicate IsSpaceByte(b: Byte) {
    b == 32 || 9 <= b <= 13
  }

  /** `ln.rstrip()` on bytes. */
  function RStripBytes(ln: seq<Byte>): (r: seq<Byte>)
    ensures |r| <= |ln|
  {
    if ln == [] || !IsSpaceByte(ln[|ln| - 1]) then ln else RStripBytes(ln[..|ln| - 1])
  }

  /** `rstrip` removes a run of whitespace from the end and nothing else. */
  lemma {:induction false} RStripBytesSpec(ln: seq<Byte>)
    ensures var r := RStripBytes(ln);
      r == ln[..|r|] && (r == [] || !IsSpaceByte(r[|r| - 1]))
      && forall i :: |r| <= i < |ln| ==> IsSpaceByte(ln[i])
  {
    if ln != [] && IsSpaceByte(ln[|ln| - 1]) {
      RStripBytesSpec(ln[..|ln| - 1]);
    }
  }

  /** A line that is empty once trailing whitespace is stripped. */
  predicate Blank(ln: seq<Byte>) {
    RStripBytes(ln) == []
  }

  /** The line that opens the signature block. */
  predicate IsSignatureLine(ln: seq<Byte>) {
    RStripBytes(ln) == SignatureHeader
  }

  /** A body line with a leading `- ` removed. */
  function Undash(ln: seq<Byte>): seq<Byte> {
    if StartsWith(ln, [45, 32]) then ln[2..] else ln
  }

  /** What the loop of `remove_clearsign` outputs from line `k` on with the
      `content` flag as given: a blank line raises the flag and is dropped;
      before the flag every line is dropped; after it the signature line
      ends the output and every other line is kept without its dash. */
  function Clearsigned(ls: seq<seq<Byte>>, k: nat, content: bool): seq<Byte>
    requires k <= |ls|
    decreases |ls| - k
  {
    if k == |ls| then []
    else if Blank(ls[k]) then Clearsigned(ls, k + 1, true)
    else if !content then Clearsigned(ls, k + 1, false)
    else if IsSignatureLine(ls[k]) then []
    else Undash(ls[k]) + Clearsigned(ls, k + 1, true)
  }

  /** `remove_clearsign(blob)`: a blob that does not start with the
      clear-sign header is returned as it is. */
  function RemoveClearsign(blob: seq<Byte>): (r: seq<Byte>)
    ensures !StartsWith(blob, SignedHeader) ==> r == blob
  {
    if !StartsWith(blob, SignedHeader) then blob else Clearsigned(Lines(blob), 0, false)
  }

  /** The loop of `remove_clearsign`: a `content` flag raised by the first
      blank line, and a list of the lines kept after it. */
  method RemoveClearsignLoop(blob: seq<Byte>) returns (r: seq<Byte>)
    ensures r == RemoveClearsign(blob)
  {
    if !StartsWith(blob, SignedHeader) {
      r := blob;
    } else {
      var ls := Lines(blob);
      var lines: seq<seq<Byte>> := [];
      var content, stop := false, false;
      var k := 0;
      while k < |ls| && !stop
        invariant k <= |ls|
        invariant !stop ==> Concat(lines) + Clearsigned(ls, k, content) == Clearsigned(ls, 0, false)
        invariant stop ==> Concat(lines) == Clearsigned(ls, 0, false)
        decreases |ls| - k
      {
        var ln := ls[k];
        if Blank(ln) {
          assert Clearsigned(ls, k, content) == Clearsigned(ls, k + 1, true);
          content := true;
        } else if content {
          if RStripBytes(ln) == SignatureHeader {
            assert Clearsigned(ls, k, content) == [];
            stop := true;
          } else {
            var piece := if StartsWith(ln, [45, 32]) then ln[2..] else ln;
            assert Clearsigned(ls, k, content) == piece + Clearsigned(ls, k + 1, true);
            AppendPiece(lines, piece, Clearsigned(ls, k + 1, true));
            lines := lines + [piece];
          }
        } else {
          assert Clearsigned(ls, k, content) == Clearsigned(ls, k + 1, false);
        }
        k := k + 1;
      }
      r := Concat(lines);
    }
  }

  /** A kept line goes at the end of the output so far. */
  lemma AppendPiece(lines: seq<seq<Byte>>, piece: seq<Byte>, rest: seq<Byte>)
    ensures Concat(lines + [piece]) + rest == Concat(lines) + (piece + rest)
  {
    ConcatAppend(lines, [piece]);
  }

  /** What a body line contributes: nothing when blank. */
  function Keep(ln: seq<Byte>): seq<Byte> {
    if Blank(ln) then [] else Undash(ln)
  }

  /** Before the first blank line, `b`, nothing is output. */
  lemma {:induction false} ClearsignedPreamble(ls: seq<seq<Byte>>, k: nat, b: nat)
    requires k <= b <= |ls|
    requires forall j :: k <= j < b ==> !Blank(ls[j])
    requires b < |ls| ==> Blank(ls[b])
    ensures Clearsigned(ls, k, false) == if b == |ls| then [] else Clearsigned(ls, b + 1, true)
    decreases b - k
  {
    if k < b {
      ClearsignedPreamble(ls, k + 1, b);
    }
  }

  /** After it, the lines up to the signature line `e` are kept. */
  lemma {:induction false} ClearsignedBody(ls: seq<seq<Byte>>, k: nat, e: nat)
    requires k <= e <= |ls|
    requires forall j :: k <= j < e ==> !IsSignatureLine(ls[j])
    requires e < |ls| ==> IsSignatureLine(ls[e])
    ensures Clearsigned(ls, k, true) == ConcatMap(Keep, ls, k, e)
    decreases e - k
  {
    if k < e {
      ClearsignedBody(ls, k + 1, e);
    } else if e < |ls| {
      assert |SignatureHeader| > 0;
    }
  }

  /** `remove_clearsign` keeps, of a clear-signed blob, the lines after the
      first blank line `b` and before the first signature line `e` after
      it, blank ones dropped and the others without their leading `- `;
      with no blank line it keeps nothing. */
  lemma RemoveClearsignKeeps(blob: seq<Byte>, b: nat, e: nat)
    requires StartsWith(blob, SignedHeader)
    requires var ls := Lines(blob);
      b <= |ls| && (forall j :: 0 <= j < b ==> !Blank(ls[j])) && (b < |ls| ==> Blank(ls[b]))
    requires var ls := Lines(blob);
      b < |ls| ==> b < e <= |ls| && (forall j :: b < j < e ==> !IsSignatureLine(ls[j])) && (e < |ls| ==> IsSignatureLine(ls[e]))
    ensures var ls := Lines(blob);
      RemoveClearsign(blob) == if b == |ls| then [] else ConcatMap(Keep, ls, b + 1, e)
  {
    var ls := Lines(blob);
    ClearsignedPreamble(ls, 0, b);
    if b < |ls| {
      ClearsignedBody(ls, b + 1, e);
    }
  }

  /** Dash-escaping (section 7.1 of RFC 4880): a line that starts with `-`
      gets `- ` in front. */
  function DashEscape(l: seq<Byte>): seq<Byte> {
    if l != [] && l[0] == 45 then [45, 32] + l else l
  }

  function DashEscaped(msg: seq<seq<Byte>>): (r: seq<seq<Byte>>)
    ensures |r| == |msg|
    ensures forall i :: 0 <= i < |msg| ==> r[i] == DashEscape(msg[i])
  {
    seq(|msg|, i requires 0 <= i < |msg| => DashEscape(msg[i]))
  }

  /** A complete, non-blank line of text. */
  predicate TextLine(l: seq<Byte>) {
    EndsLine(l, IsLineBreakByte, 10) && !Blank(l)
  }

  /** The lines of a clear-signed message up to the signature line: the
      header line, the armor header lines, a blank line, the dash-escaped
      text and the signature line. */
  function SignedLines(armor: seq<seq<Byte>>, msg: seq<seq<Byte>>): seq<seq<Byte>> {
    [SignedHeader + [10]] + armor + [[10]] + DashEscaped(msg) + [SignatureHeader + [10]]
  }

  /** A clear-signed message: its lines, then whatever the signature holds. */
  function ClearSigned(armor: seq<seq<Byte>>, msg: seq<seq<Byte>>, sig: seq<Byte>): seq<Byte> {
    Concat(SignedLines(armor, msg)) + sig
  }

  lemma HeaderLines()
    ensures TextLine(SignedHeader + [10]) && !IsSignatureLine(SignedHeader + [10])
    ensures TextLine(SignatureHeader + [10]) && IsSignatureLine(SignatureHeader + [10])
  {
    assert RStripBytes(SignedHeader + [10]) == SignedHeader by {
      assert (SignedHeader + [10])[..|SignedHeader|] == SignedHeader;
    }
    assert RStripBytes(SignatureHeader + [10]) == SignatureHeader by {
      assert (SignatureHeader + [10])[..|SignatureHeader|] == SignatureHeader;
    }
  }

  /** A dash-escaped line of text is a line of text that is not the
      signature line, and removing the escape restores it. */
  lemma EscapedLine(l: seq<Byte>)
    requires TextLine(l)
    ensures TextLine(DashEscape(l)) && !IsSignatureLine(DashEscape(l))
    ensures Keep(DashEscape(l)) == l
  {
    var x := DashEscape(l);
    if l[0] == 45 {
      assert x[2..] == l;
      forall j | 0 <= j < |x| - 1 ensures !IsLineBreakByte(x[j]) {
        if j >= 2 { assert x[j] == l[j - 2]; }
      }
      RStripBytesSpec(x);
      var r := RStripBytes(x);
      assert r != [] by {
        assert !IsSpaceByte(x[0]);
      }
      assert |r| >= 2 ==> r[1] == 32;
      assert SignatureHeader[1] == 45;
    } else {
      RStripBytesSpec(l);
      assert RStripBytes(l)[0] == l[0];
      assert SignatureHeader[0] == 45;
    }
  }

  /** The lines of a clear-signed message. */
  lemma ClearSignedLines(armor: seq<seq<Byte>>, msg: seq<seq<Byte>>, sig: seq<Byte>)
    requires forall i :: 0 <= i < |armor| ==> TextLine(armor[i])
    requires forall i :: 0 <= i < |msg| ==> TextLine(msg[i])
    ensures Lines(ClearSigned(armor, msg, sig)) == SignedLines(armor, msg) + Lines(sig)
  {
    var ls := SignedLines(armor, msg);
    HeaderLines();
    forall k | 0 <= k < |ls| ensures EndsLine(ls[k], IsLineBreakByte, 10) {
      if 1 <= k <= |armor| {
        assert ls[k] == armor[k - 1];
      } else if k == |armor| + 1 {
        assert ls[k] == [10];
      } else if |armor| + 2 <= k < |ls| - 1 {
        assert ls[k] == DashEscaped(msg)[k - |armor| - 2];
        EscapedLine(msg[k - |armor| - 2]);
      }
    }
    SplitLinesKeepPrefix(ls, sig, IsLineBreakByte, 13, 10);
  }

  /** Where each line sits in the lines of a clear-signed message. */
  lemma SignedLinesAt(armor: seq<seq<Byte>>, msg: seq<seq<Byte>>, rest: seq<seq<Byte>>)
    ensures var ls, a, n := SignedLines(armor, msg) + rest, |armor|, |msg|;
      |ls| == a + n + 3 + |rest| && ls[0] == SignedHeader + [10]
      && (forall j :: 1 <= j <= a ==> ls[j] == armor[j - 1]) && ls[a + 1] == [10]
      && (forall j :: a + 2 <= j < a + 2 + n ==> ls[j] == DashEscape(msg[j - a - 2]))
      && ls[a + 2 + n] == SignatureHeader + [10]
  {
  }

  /** The header line and the armor lines are not blank. */
  lemma PreambleLines(ls: seq<seq<Byte>>, armor: seq<seq<Byte>>)
    requires |armor| < |ls| && !Blank(ls[0])
    requires forall j :: 1 <= j <= |armor| ==> ls[j] == armor[j - 1]
    requires forall i :: 0 <= i < |armor| ==> TextLine(armor[i])
    ensures forall j :: 0 <= j <= |armor| ==> !Blank(ls[j])
  {
    forall j | 1 <= j <= |armor| ensures !Blank(ls[j]) {
      assert TextLine(armor[j - 1]);
    }
  }

  /** Dash-escaped lines of text keep the text and are not the signature line. */
  lemma BodyLines(ls: seq<seq<Byte>>, a: nat, msg: seq<seq<Byte>>)
    requires a + 2 + |msg| < |ls|
    requires forall j :: a + 2 <= j < a + 2 + |msg| ==> ls[j] == DashEscape(msg[j - a - 2])
    requires forall i :: 0 <= i < |msg| ==> TextLine(msg[i])
    ensures forall j :: a + 2 <= j < a + 2 + |msg| ==> Keep(ls[j]) == msg[j - (a + 2)] && !IsSignatureLine(ls[j])
  {
    forall j | a + 2 <= j < a + 2 + |msg| ensures Keep(ls[j]) == msg[j - (a + 2)] && !IsSignatureLine(ls[j]) {
      EscapedLine(msg[j - a - 2]);
    }
  }

  /** A preamble of `a + 1` lines ended by a blank line outputs nothing. */
  lemma PreambleSkipped(ls: seq<seq<Byte>>, a: nat)
    requires a + 1 < |ls|
    requires forall j :: 0 <= j <= a ==> !Blank(ls[j])
    requires Blank(ls[a + 1])
    ensures Clearsigned(ls, 0, false) == Clearsigned(ls, a + 2, true)
  {
    ClearsignedPreamble(ls, 0, a + 1);
  }

  /** Lines that each keep one line of a message keep the message. */
  lemma MessageKept(ls: seq<seq<Byte>>, a: nat, msg: seq<seq<Byte>>)
    requires a + 2 + |msg| < |ls|
    requires forall j :: a + 2 <= j < a + 2 + |msg| ==> Keep(ls[j]) == msg[j - (a + 2)]
    ensures ConcatMap(Keep, ls, a + 2, a + 2 + |msg|) == Concat(msg)
  {
    ConcatMapParts(Keep, ls, a + 2, msg);
  }

  /** Lines that are, in turn, `a + 1` non-blank lines, a blank line, lines
      keeping the message and the signature line give the message. */
  lemma ClearsignedMessage(ls: seq<seq<Byte>>, a: nat, msg: seq<seq<Byte>>)
    requires a + 2 + |msg| < |ls|
    requires forall j :: 0 <= j <= a ==> !Blank(ls[j])
    requires Blank(ls[a + 1])
    requires forall j :: a + 2 <= j < a + 2 + |msg| ==> Keep(ls[j]) == msg[j - (a + 2)]
    requires forall j :: a + 2 <= j < a + 2 + |msg| ==> !IsSignatureLine(ls[j])
    requires IsSignatureLine(ls[a + 2 + |msg|])
    ensures Clearsigned(ls, 0, false) == Concat(msg)
  {
    PreambleSkipped(ls, a);
    ClearsignedBody(ls, a + 2, a + 2 + |msg|);
    MessageKept(ls, a, msg);
  }

  /** A clear-signed message starts with the signed-message header. */
  lemma ClearSignedHeader(armor: seq<seq<Byte>>, msg: seq<seq<Byte>>, sig: seq<Byte>)
    ensures StartsWith(ClearSigned(armor, msg, sig), SignedHeader)
  {
    var ls := SignedLines(armor, msg);
    assert ls == [SignedHeader + [10]] + ls[1..];
    var blob := SignedHeader + ([10] + Concat(ls[1..]) + sig);
    assert ClearSigned(armor, msg, sig) == blob;
    assert blob[..|SignedHeader|] == SignedHeader;
  }

  /** The loop outputs the message from the lines of a clear-signed message. */
  lemma SignedLinesMessage(armor: seq<seq<Byte>>, msg: seq<seq<Byte>>, rest: seq<seq<Byte>>)
    requires forall i :: 0 <= i < |armor| ==> TextLine(armor[i])
    requires forall i :: 0 <= i < |msg| ==> TextLine(msg[i])
    ensures Clearsigned(SignedLines(armor, msg) + rest, 0, false) == Concat(msg)
  {
    var ls, a := SignedLines(armor, msg) + rest, |armor|;
    SignedLinesAt(armor, msg, rest);
    HeaderLines();
    PreambleLines(ls, armor);
    BodyLines(ls, a, msg);
    assert RStripBytes([10]) == [];
    ClearsignedMessage(ls, a, msg);
  }

  /** Removing the clear-signature of a dash-escaped message of non-blank
      lines gives the message back, whatever the armor headers and the
      signature hold. */
  lemma RemoveClearsignRoundTrip(armor: seq<seq<Byte>>, msg: seq<seq<Byte>>, sig: seq<Byte>)
    requires forall i :: 0 <= i < |armor| ==> TextLine(armor[i])
    requires forall i :: 0 <= i < |msg| ==> TextLine(msg[i])
    ensures RemoveClearsign(ClearSigned(armor, msg, sig)) == Concat(msg)
  {
    ClearSignedHeader(armor, msg, sig);
    ClearSignedLines(armor, msg, sig);
    SignedLinesMessage(armor, msg, Lines(sig));
  }
}
