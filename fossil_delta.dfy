/** `delta_apply` and `delta_checksum` of `fossil.py`: applying a Fossil
    delta (a target size, then copy and insert commands, then a checksum)
    to a source blob. */
module FossilDelta {
  import opened Wrappers
  import Text
  import opened FossilCodec


  /** The big-endian 32-bit word `w[0..4]`. */
  function Word(w: seq<Byte>): int
    requires |w| >= 4
  {
    (w[0] as int) * 0x100_0000 + (w[1] as int) * 0x1_0000 + (w[2] as int) * 0x100 + w[3] as int
  }

  /** The sum of the 32-bit words of `b`, without wrap-around. */
  function WordSum(b: seq<Byte>): int
    requires |b| % 4 == 0
  {
    if b == [] then 0 else Word(b) + WordSum(b[4..])
  }

  function Zeros(n: nat): (z: seq<Byte>)
    ensures |z| == n && forall i :: 0 <= i < n ==> z[i] == 0
  {
    seq(n, i => 0)
  }

  /** `buf` padded with zero bytes as `delta_checksum` pads it: one to four
      of them, so that the length is a multiple of four. */
  function Padded(buf: seq<Byte>): (p: seq<Byte>)
    ensures |p| % 4 == 0 && |buf| < |p| <= |buf| + 4
  {
    buf + Zeros(4 - |buf| % 4)
  }

  /** `delta_checksum(buf)`: the big-endian 32-bit words of the padded
      buffer summed with 32-bit wrap-around. */
  function DeltaChecksum(buf: seq<Byte>): (r: int)
    ensures 0 <= r < 0x1_0000_0000
  {
    WordSum(Padded(buf)) % 0x1_0000_0000
  }

  lemma {:induction false} WordSumAppend(a: seq<Byte>, b: seq<Byte>)
    requires |a| % 4 == 0 && |b| % 4 == 0
    ensures WordSum(a + b) == WordSum(a) + WordSum(b)
  {
    if a == [] {
      assert a + b == b;
    } else {
      assert (a + b)[4..] == a[4..] + b;
      assert Word(a + b) == Word(a);
      WordSumAppend(a[4..], b);
    }
  }

  lemma {:induction false} PaddedAppend(a: seq<Byte>, b: seq<Byte>)
    requires |a| % 4 == 0
    ensures Padded(a + b) == a + Padded(b)
  {
    var k := |a| / 4;
    assert |a + b| == 4 * k + |b|;
    ModFour(k, |b|);
    var z := Zeros(4 - |b| % 4);
    assert Padded(a + b) == (a + b) + z;
    assert (a + b) + z == a + (b + z);
  }

  lemma ModFour(k: nat, m: nat)
    ensures (4 * k + m) % 4 == m % 4
  {
    var q := m / 4;
    assert m == 4 * q + m % 4;
    assert 4 * k + m == 4 * (k + q) + m % 4;
  }

  lemma ModAdd(x: int, y: int, sum: int, right: int)
    requires sum == (x + y) % 0x1_0000_0000 && right == y % 0x1_0000_0000
    ensures sum == (x + right) % 0x1_0000_0000
  {
    var q := y / 0x1_0000_0000;
    assert y == q * 0x1_0000_0000 + y % 0x1_0000_0000;
    assert x + y == (x + y % 0x1_0000_0000) + q * 0x1_0000_0000;
  }

  /** The checksum adds up over a word-aligned split of the buffer. */
  lemma {:induction false} DeltaChecksumAppend(a: seq<Byte>, b: seq<Byte>)
    requires |a| % 4 == 0
    ensures DeltaChecksum(a + b) == (WordSum(a) + DeltaChecksum(b)) % 0x1_0000_0000
  {
    var pb := Padded(b);
    var x, y := WordSum(a), WordSum(pb);
    assert DeltaChecksum(a + b) == (x + y) % 0x1_0000_0000 by {
      PaddedAppend(a, b);
      WordSumAppend(a, pb);
    }
    ModAdd(x, y, DeltaChecksum(a + b), DeltaChecksum(b));
  }

  /** What one round of the loop of `delta_apply` does: go on at `pos`
      with more output, or stop with a result. */
  datatype Step = Next(pos: nat, out: seq<Byte>) | Done(result: Result<(seq<Byte>, int)>)

  /** One command of a delta, read at `pos`: its number, then `@` (copy
      that many bytes of the source from the offset that follows, skipping
      the byte after the offset), `:` (insert that many bytes of the delta
      itself) or `;` (stop; the number is the checksum). A number at the
      very end of the delta leaves no command to read, and any other
      command is invalid. Copies and inserts past the end of their buffer
      are clipped like a slice. */
  function DeltaStep(blob: seq<Byte>, delta: seq<Byte>, pos: nat, out: seq<Byte>): (s: Step)
    requires pos < |delta|
    ensures s.Next? ==> s.pos > pos
  {
    var g := GetInt(delta, pos).value;
    Command(blob, delta, g.0, g.1, out)
  }

  /** The command that follows the number `num`, which ends at `p1`. */
  function Command(blob: seq<Byte>, delta: seq<Byte>, num: nat, p1: nat, out: seq<Byte>): (s: Step)
    ensures s.Next? ==> s.pos > p1
  {
    if p1 >= |delta| then Done(Err("IndexError"))
    else if delta[p1] == 64 then
      var h := GetInt(delta, p1 + 1);
      if h.Err? then Done(Err(h.error))
      else
        var offset := h.value.0;
        Next(h.value.1 + 1, out + Text.Slice(blob, offset, offset + num))
    else if delta[p1] == 58 then
      Next(p1 + 1 + num, out + Text.Slice(delta, p1 + 1, p1 + 1 + num))
    else if delta[p1] == 59 then Done(Ok((out, num)))
    else Done(Err("ValueError"))
  }

  /** The commands of a delta from `pos` on, as the loop of `delta_apply`
      runs them; a delta that runs out before `;` is invalid. The result
      holds the output and the checksum of the closing `;`. */
  function DeltaOps(blob: seq<Byte>, delta: seq<Byte>, pos: nat, out: seq<Byte>): (r: Result<(seq<Byte>, int)>)
    decreases |delta| - pos
  {
    if pos >= |delta| then Err("ValueError")
    else
      match DeltaStep(blob, delta, pos, out)
      case Done(r) => r
      case Next(p, o) => DeltaOps(blob, delta, p, o)
  }

  /** A command only appends to the output, and `;` hands it back as is. */
  lemma StepAppends(blob: seq<Byte>, delta: seq<Byte>, pos: nat, out: seq<Byte>)
    requires pos < |delta|
    ensures var s := DeltaStep(blob, delta, pos, out);
      && (s.Next? ==> Text.StartsWith(s.out, out))
      && (s.Done? && s.result.Ok? ==> s.result.value.0 == out)
  {
  }

  /** The command loop only appends to the output it starts with. */
  lemma {:induction false} OpsAppend(blob: seq<Byte>, delta: seq<Byte>, pos: nat, out: seq<Byte>)
    ensures var r := DeltaOps(blob, delta, pos, out);
      r.Ok? ==> Text.StartsWith(r.value.0, out)
    decreases |delta| - pos
  {
    if pos < |delta| {
      StepAppends(blob, delta, pos, out);
      var s := DeltaStep(blob, delta, pos, out);
      if s.Next? {
        OpsAppend(blob, delta, s.pos, s.out);
        var r := DeltaOps(blob, delta, pos, out);
        if r.Ok? {
          assert r.value.0[..|out|] == r.value.0[..|s.out|][..|out|];
        }
      }
    }
  }

  /** `delta_apply(blob, delta, check)`: the target size read from the
      head of the delta, the commands run after its newline, and the
      output refused unless its length is the target size and, when
      `check` is set, its checksum is the one the delta closes with. */
  function DeltaApply(blob: seq<Byte>, delta: seq<Byte>, check: bool): (r: Result<seq<Byte>>)
    ensures r.Ok? ==> GetInt(delta, 0).Ok? && |r.value| == GetInt(delta, 0).value.0
  {
    var h := GetInt(delta, 0);
    if h.Err? then Err(h.error)
    else
      var ops := DeltaOps(blob, delta, h.value.1 + 1, []);
      if ops.Err? then Err(ops.error)
      else if h.value.0 != |ops.value.0| then Err("ValueError")
      else if check && ops.value.1 != DeltaChecksum(ops.value.0) then Err("ValueError")
      else Ok(ops.value.0)
  }

  /** `delta_apply`: the loop over the commands, then the size and
      checksum tests. */
  method ApplyDelta(blob: seq<Byte>, delta: seq<Byte>, check: bool) returns (r: Result<seq<Byte>>)
    ensures r == DeltaApply(blob, delta, check)
  {
    var head := Base64GetInt(delta, 0);
    if head.Err? {
      r := Err(head.error);
    } else {
      var targetsize, pos := head.value.0, head.value.1 + 1;
      ghost var start := pos;
      var out: seq<Byte> := [];
      var ops: Result<(seq<Byte>, int)> := Err("ValueError");
      var done := false;
      while !done && pos < |delta|
        invariant !done ==> DeltaOps(blob, delta, pos, out) == DeltaOps(blob, delta, start, [])
        invariant done ==> ops == DeltaOps(blob, delta, start, [])
        decreases |delta| - pos, !done
      {
        var s := DeltaStep(blob, delta, pos, out);
        if s.Done? {
          ops, done := s.result, true;
        } else {
          pos, out := s.pos, s.out;
        }
      }
      if !done {
        ops := Err("ValueError");
      }
      if ops.Err? {
        r := Err(ops.error);
      } else if targetsize != |ops.value.0| {
        r := Err("ValueError");
      } else if check && ops.value.1 != DeltaChecksum(ops.value.0) {
        r := Err("ValueError");
      } else {
        r := Ok(ops.value.0);
      }
    }
  }

  /** Base-64 digits as delta bytes. */
  function Num(v: nat): seq<Byte> {
    Latin1(PutIntMsb(v))
  }

  /** A number followed by a non-digit reads back wherever it stands. */
  lemma {:induction false} NumAt(pre: seq<Byte>, v: nat, tail: seq<Byte>)
    requires tail == [] || !IsZDigit(tail[0])
    ensures GetInt(pre + Num(v) + tail, |pre|) == Ok((v, |pre| + |Num(v)|))
  {
    var b := Num(v);
    var t := b + tail;
    var s := pre + t;
    assert pre + b + tail == s;
    DigitBytes(PutIntMsb(v));
    MsbDigitsValue(v);
    forall j | |pre| <= j < |pre| + |b| ensures IsZDigit(s[j]) {
      assert s[j] == b[j - |pre|];
    }
    if tail != [] {
      assert s[|pre| + |b|] == tail[0];
    }
    ReadRun(s, |pre|, |b|);
    RunValueShift(pre, t, |b|);
    RunValuePrefix(b, tail, 0, |b|);
  }

  lemma {:induction false} RunValueShift(pre: seq<Byte>, t: seq<Byte>, k: nat)
    requires k <= |t|
    ensures RunValue(pre + t, |pre|, k) == RunValue(t, 0, k)
  {
    if k > 0 {
      RunValueShift(pre, t, k - 1);
      assert (pre + t)[|pre| + k - 1] == t[k - 1];
    }
  }

  /** An insert command: its count, `:`, then that many bytes. */
  lemma OpsInsert(blob: seq<Byte>, d: seq<Byte>, pos: nat, out: seq<Byte>, v: nat, p1: nat)
    requires pos < |d| && GetInt(d, pos) == Ok((v, p1)) && p1 + 1 + v <= |d| && d[p1] == 58
    ensures DeltaOps(blob, d, pos, out) == DeltaOps(blob, d, p1 + 1 + v, out + d[p1 + 1..p1 + 1 + v])
  {
    StepInsert(blob, d, pos, out, v, p1);
  }

  lemma StepInsert(blob: seq<Byte>, d: seq<Byte>, pos: nat, out: seq<Byte>, v: nat, p1: nat)
    requires pos < |d| && GetInt(d, pos) == Ok((v, p1)) && p1 + 1 + v <= |d| && d[p1] == 58
    ensures DeltaStep(blob, d, pos, out) == Next(p1 + 1 + v, out + d[p1 + 1..p1 + 1 + v])
  {
    assert DeltaStep(blob, d, pos, out) == Command(blob, d, v, p1, out);
    assert Text.Slice(d, p1 + 1, p1 + 1 + v) == d[p1 + 1..p1 + 1 + v];
  }

  /** A copy command: its count, `@`, the offset, and one skipped byte. */
  lemma OpsCopy(blob: seq<Byte>, d: seq<Byte>, pos: nat, out: seq<Byte>, v: nat, p1: nat, offset: nat, p2: nat)
    requires pos < |d| && GetInt(d, pos) == Ok((v, p1)) && p1 < |d| && d[p1] == 64
    requires GetInt(d, p1 + 1) == Ok((offset, p2))
    ensures DeltaOps(blob, d, pos, out) == DeltaOps(blob, d, p2 + 1, out + Text.Slice(blob, offset, offset + v))
  {
    StepCopy(blob, d, pos, out, v, p1, offset, p2);
    OpsNext(blob, d, pos, out);
  }

  /** The loop goes on from where a command that does not stop leaves it. */
  lemma OpsNext(blob: seq<Byte>, d: seq<Byte>, pos: nat, out: seq<Byte>)
    requires pos < |d| && DeltaStep(blob, d, pos, out).Next?
    ensures var s := DeltaStep(blob, d, pos, out);
      DeltaOps(blob, d, pos, out) == DeltaOps(blob, d, s.pos, s.out)
  {
  }

  lemma StepCopy(blob: seq<Byte>, d: seq<Byte>, pos: nat, out: seq<Byte>, v: nat, p1: nat, offset: nat, p2: nat)
    requires pos < |d| && GetInt(d, pos) == Ok((v, p1)) && p1 < |d| && d[p1] == 64
    requires GetInt(d, p1 + 1) == Ok((offset, p2))
    ensures DeltaStep(blob, d, pos, out) == Next(p2 + 1, out + Text.Slice(blob, offset, offset + v))
  {
  }

  /** The closing command: its number is the checksum. */
  lemma OpsEnd(blob: seq<Byte>, d: seq<Byte>, pos: nat, out: seq<Byte>, v: nat, p1: nat)
    requires pos < |d| && GetInt(d, pos) == Ok((v, p1)) && p1 < |d| && d[p1] == 59
    ensures DeltaOps(blob, d, pos, out) == Ok((out, v))
  {
    assert DeltaStep(blob, d, pos, out) == Done(Ok((out, v)));
  }

  /** A delta whose header and commands read as given applies. */
  lemma ApplyOk(blob: seq<Byte>, d: seq<Byte>, check: bool, p: nat, out: seq<Byte>, cs: int)
    requires GetInt(d, 0) == Ok((|out|, p)) && DeltaOps(blob, d, p + 1, []) == Ok((out, cs))
    requires check ==> cs == DeltaChecksum(out)
    ensures DeltaApply(blob, d, check) == Ok(out)
  {
  }

  /** One insert command for `t` closed by `;` with checksum `cs` runs
      to `t`. */
  lemma InsertOps(blob: seq<Byte>, d: seq<Byte>, t: seq<Byte>, pos: nat, p1: nat, cs: int, q: nat)
    requires pos < |d| && GetInt(d, pos) == Ok((|t|, p1)) && p1 < |d| && d[p1] == 58
    requires p1 + 1 + |t| < |d| && d[p1 + 1..p1 + 1 + |t|] == t
    requires GetInt(d, p1 + 1 + |t|) == Ok((cs, q)) && q < |d| && d[q] == 59
    ensures DeltaOps(blob, d, pos, []) == Ok((t, cs))
  {
    OpsEnd(blob, d, p1 + 1 + |t|, t, cs, q);
    assert [] + d[p1 + 1..p1 + 1 + |t|] == t;
    OpsInsert(blob, d, pos, [], |t|, p1);
  }

  /** A delta whose header gives `|t|`, whose one command inserts `t`
      and whose closing number is `cs` applies to `t`. */
  lemma InsertApplies(blob: seq<Byte>, d: seq<Byte>, check: bool, t: seq<Byte>, n: nat, p1: nat, cs: int, q: nat)
    requires GetInt(d, 0) == Ok((|t|, n))
    requires n + 1 < |d| && GetInt(d, n + 1) == Ok((|t|, p1)) && p1 < |d| && d[p1] == 58
    requires p1 + 1 + |t| < |d| && d[p1 + 1..p1 + 1 + |t|] == t
    requires GetInt(d, p1 + 1 + |t|) == Ok((cs, q)) && q < |d| && d[q] == 59
    requires check ==> cs == DeltaChecksum(t)
    ensures DeltaApply(blob, d, check) == Ok(t)
  {
    InsertOps(blob, d, t, n + 1, p1, cs, q);
    ApplyOk(blob, d, check, n, t, cs);
  }

  /** A delta whose header gives `k`, whose one command copies `k` bytes
      from `offset` and whose closing number is `cs` applies to that
      range of the source when the range lies inside it. */
  lemma CopyApplies(blob: seq<Byte>, d: seq<Byte>, k: nat, n: nat, p1: nat, offset: nat, p2: nat, cs: int, q: nat)
    requires GetInt(d, 0) == Ok((k, n))
    requires n + 1 < |d| && GetInt(d, n + 1) == Ok((k, p1)) && p1 < |d| && d[p1] == 64
    requires p1 + 1 < |d| && GetInt(d, p1 + 1) == Ok((offset, p2))
    requires p2 + 1 < |d| && GetInt(d, p2 + 1) == Ok((cs, q)) && q < |d| && d[q] == 59
    ensures offset + k <= |blob| ==> DeltaApply(blob, d, false) == Ok(blob[offset..offset + k])
    ensures k > 0 && offset + k > |blob| ==> DeltaApply(blob, d, false).Err?
  {
    var piece := Text.Slice(blob, offset, offset + k);
    OpsEnd(blob, d, p2 + 1, piece, cs, q);
    assert [] + piece == piece;
    OpsCopy(blob, d, n + 1, [], k, p1, offset, p2);
    if offset + k <= |blob| {
      assert piece == blob[offset..offset + k];
      ApplyOk(blob, d, false, n, piece, cs);
    } else if k > 0 {
      assert |piece| < k;
    }
  }

  /** A delta that inserts `t` whole: its size, an insert command, and the
      checksum, with every number written most significant digit first. */
  function InsertDelta(t: seq<Byte>): seq<Byte> {
    Num(|t|) + [10] + Num(|t|) + [58] + t + Num(DeltaChecksum(t)) + [59]
  }

  lemma InsertDeltaHeader(t: seq<Byte>)
    ensures GetInt(InsertDelta(t), 0) == Ok((|t|, |Num(|t|)|))
  {
    var n, c := Num(|t|), Num(DeltaChecksum(t));
    NumAt([], |t|, [10] + n + [58] + t + c + [59]);
    assert InsertDelta(t) == [] + n + ([10] + n + [58] + t + c + [59]);
  }

  lemma InsertDeltaCommand(t: seq<Byte>)
    ensures var n := Num(|t|); var d := InsertDelta(t); var p1 := 2 * |n| + 1;
      GetInt(d, |n| + 1) == Ok((|t|, p1)) && p1 + 1 + |t| < |d| && d[p1] == 58 && d[p1 + 1..p1 + 1 + |t|] == t
  {
    var n, c := Num(|t|), Num(DeltaChecksum(t));
    var head := n + [10];
    NumAt(head, |t|, [58] + t + c + [59]);
    assert InsertDelta(t) == head + n + ([58] + t + c + [59]);
  }

  lemma InsertDeltaClose(t: seq<Byte>)
    ensures var n, c := Num(|t|), Num(DeltaChecksum(t)); var d := InsertDelta(t); var q := 2 * |n| + 2 + |t|;
      GetInt(d, q) == Ok((DeltaChecksum(t), q + |c|)) && q + |c| < |d| && d[q + |c|] == 59
  {
    var n, c := Num(|t|), Num(DeltaChecksum(t));
    var pre := n + [10] + n + [58] + t;
    NumAt(pre, DeltaChecksum(t), [59]);
    assert InsertDelta(t) == pre + c + [59];
  }

  /** Applying an insert-only delta gives its text, checked or not, from
      any source blob. */
  lemma {:induction false} InsertDeltaApplies(blob: seq<Byte>, t: seq<Byte>, check: bool)
    ensures DeltaApply(blob, InsertDelta(t), check) == Ok(t)
  {
    var n, c := Num(|t|), Num(DeltaChecksum(t));
    InsertDeltaHeader(t);
    InsertDeltaCommand(t);
    InsertDeltaClose(t);
    var q := 2 * |n| + 2 + |t|;
    InsertApplies(blob, InsertDelta(t), check, t, |n|, 2 * |n| + 1, DeltaChecksum(t), q + |c|);
  }

  /** A delta that copies `n` bytes of the source from `offset`. */
  function CopyDelta(n: nat, offset: nat, checksum: nat): seq<Byte> {
    Num(n) + [10] + Num(n) + [64] + Num(offset) + [44] + Num(checksum) + [59]
  }

  lemma CopyDeltaHeader(n: nat, offset: nat)
    ensures GetInt(CopyDelta(n, offset, 0), 0) == Ok((n, |Num(n)|))
  {
    var a, o, z := Num(n), Num(offset), Num(0);
    NumAt([], n, [10] + a + [64] + o + [44] + z + [59]);
    assert CopyDelta(n, offset, 0) == [] + a + ([10] + a + [64] + o + [44] + z + [59]);
  }

  lemma CopyDeltaCommand(n: nat, offset: nat)
    ensures var a := Num(n); var d := CopyDelta(n, offset, 0); var p1 := 2 * |a| + 1;
      GetInt(d, |a| + 1) == Ok((n, p1)) && p1 + 1 < |d| && d[p1] == 64
  {
    var a, o, z := Num(n), Num(offset), Num(0);
    var head := a + [10];
    NumAt(head, n, [64] + o + [44] + z + [59]);
    assert CopyDelta(n, offset, 0) == head + a + ([64] + o + [44] + z + [59]);
  }

  lemma CopyDeltaOffset(n: nat, offset: nat)
    ensures var a, o := Num(n), Num(offset); var d := CopyDelta(n, offset, 0); var p := 2 * |a| + 2;
      GetInt(d, p) == Ok((offset, p + |o|)) && p + |o| + 1 < |d|
  {
    var a, o, z := Num(n), Num(offset), Num(0);
    var mid := a + [10] + a + [64];
    NumAt(mid, offset, [44] + z + [59]);
    assert CopyDelta(n, offset, 0) == mid + o + ([44] + z + [59]);
  }

  lemma CopyDeltaClose(n: nat, offset: nat)
    ensures var a, o, z := Num(n), Num(offset), Num(0); var d := CopyDelta(n, offset, 0); var q := 2 * |a| + |o| + 3;
      GetInt(d, q) == Ok((0, q + |z|)) && q + |z| < |d| && d[q + |z|] == 59
  {
    var a, o, z := Num(n), Num(offset), Num(0);
    var pre := a + [10] + a + [64] + o + [44];
    NumAt(pre, 0, [59]);
    assert CopyDelta(n, offset, 0) == pre + z + [59];
  }

  /** Applying a copy-only delta gives that range of the source when it
      lies inside the source, and fails on the size otherwise. */
  lemma {:induction false} CopyDeltaApplies(blob: seq<Byte>, n: nat, offset: nat)
    ensures offset + n <= |blob| ==> DeltaApply(blob, CopyDelta(n, offset, 0), false) == Ok(blob[offset..offset + n])
    ensures n > 0 && offset + n > |blob| ==> DeltaApply(blob, CopyDelta(n, offset, 0), false).Err?
  {
    var a, o, z := Num(n), Num(offset), Num(0);
    CopyDeltaHeader(n, offset);
    CopyDeltaCommand(n, offset);
    CopyDeltaOffset(n, offset);
    CopyDeltaClose(n, offset);
    var p2 := 2 * |a| + 2 + |o|;
    CopyApplies(blob, CopyDelta(n, offset, 0), n, |a|, 2 * |a| + 1, offset, p2, 0, p2 + 1 + |z|);
  }
}
