/** The card parser of Fossil structural artifacts (manifests, wiki pages,
    tickets, technotes): one card per line, a command and space-separated
    tokens, as the Fossil "File Formats" document describes. */
module FossilManifest {
  import opened Wrappers
  import opened Text
  import opened Collections
  import opened FossilCodec
  import opened FossilClearsign
  import opened FossilCards

  /** `CARDTYPES`: the card letters and their names. */
  const CardTypes: map<string, string> := map[
    "A" := "attachment", "B" := "baseline", "C" := "comment", "D" := "datetime",
    "E" := "technote", "F" := "file", "J" := "ticket_change", "K" := "ticket_id",
    "L" := "wiki_title", "M" := "manifest", "N" := "mimetype", "P" := "parent_artifact",
    "Q" := "cherry_pick", "R" := "repository_checksum", "T" := "tag", "U" := "user_login",
    "W" := "wiki_text", "Z" := "checksum"]

  /** `CARDTYPES_REV`: the letter of each card name. */
  const CardLetters: map<string, string> := map[
    "attachment" := "A", "baseline" := "B", "comment" := "C", "datetime" := "D",
    "technote" := "E", "file" := "F", "ticket_change" := "J", "ticket_id" := "K",
    "wiki_title" := "L", "manifest" := "M", "mimetype" := "N", "parent_artifact" := "P",
    "cherry_pick" := "Q", "repository_checksum" := "R", "tag" := "T", "user_login" := "U",
    "wiki_text" := "W", "checksum" := "Z"]

  /** Every card letter's name maps back to the letter. */
  lemma CardLettersOnto()
    ensures forall k :: k in CardTypes ==> CardTypes[k] in CardLetters && CardLetters[CardTypes[k]] == k
  {
  }

  /** Every name in the reverse table is the name of its letter. */
  lemma CardLettersBack()
    ensures forall n :: n in CardLetters ==> CardLetters[n] in CardTypes && CardTypes[CardLetters[n]] == n
  {
  }

  /** The letter of a card name, if it is one. */
  function CardLetter(name: string): (r: Option<string>)
    ensures r.Some? ==> r.value in CardTypes && CardTypes[r.value] == name
  {
    CardLettersBack();
    if name in CardLetters then Some(CardLetters[name]) else None
  }

  /** `bytes.decode` of text whose bytes are its characters. */
  function Chars(b: seq<Byte>): (r: string)
    ensures |r| == |b| && forall i :: 0 <= i < |b| ==> r[i] as int == b[i]
  {
    seq(|b|, i requires 0 <= i < |b| => b[i] as char)
  }

  /** Where `f.readline()` from `pos` stops: just after the next newline, or
      at the end. */
  function LineEnd(buf: seq<Byte>, pos: nat): (r: nat)
    requires pos <= |buf|
    ensures pos <= r <= |buf| && (pos < |buf| ==> pos < r)
    ensures forall i :: pos <= i < r - 1 ==> buf[i] != 10
    ensures pos < r < |buf| ==> buf[r - 1] == 10
    ensures r == |buf| || buf[r - 1] == 10
    decreases |buf| - pos
  {
    if pos == |buf| then pos else if buf[pos] == 10 then pos + 1 else LineEnd(buf, pos + 1)
  }

  /** Where `f.read(n)` from `pos` stops: `n` bytes on or at the end, and at
      the end for a negative `n`. */
  function ReadEnd(len: nat, pos: nat, n: int): (r: nat)
    requires pos <= len
    ensures pos <= r <= len
    ensures 0 <= n && pos + n <= len ==> r == pos + n
  {
    if n < 0 || pos + n > len then len else pos + n
  }

  /** `cmd, *toks = line.decode().rstrip().split(' ')`. */
  function Words(line: seq<Byte>): (r: seq<string>)
    ensures |r| >= 1
  {
    SplitAll(RStrip(Chars(line)), ' ')
  }

  function Unescaped(toks: seq<string>): (r: seq<string>)
    ensures |r| == |toks| && forall i :: 0 <= i < |toks| ==> r[i] == TextUnescape(toks[i])
  {
    seq(|toks|, i requires 0 <= i < |toks| => TextUnescape(toks[i]))
  }

  /** A command `parse` has a branch for: the substring tests make the
      empty command and runs such as `AF` known too. */
  predicate Known(cmd: string) {
    Contains("AFJT", cmd) || Contains("BKMNRZ", cmd) || Contains("CLU", cmd)
    || cmd == "D" || cmd == "E" || Contains("PQ", cmd) || cmd == "W"
  }

  /** The branches of the loop of `parse` for a card `cmd` with the tokens
      `toks` read from a line ending at `next`: its value and where the next
      line starts, after the text of a `W` card. `parse_dt` is the parameter
      `parseDt`; `IndexError` is a card with too few tokens. */
  function CardOf(cmd: string, toks: seq<string>, buf: seq<Byte>, next: nat, parseDt: string -> Option<int>)
    : (r: Result<(CardValue, nat)>)
    requires next <= |buf|
    ensures r.Ok? ==> next <= r.value.1 <= |buf| && Known(cmd) && (cmd != "W" ==> r.value.1 == next)
    ensures !Known(cmd) ==> r == Err("ValueError")
  {
    if Contains("AFJT", cmd) then Ok((Tuple(Unescaped(toks)), next))
    else if Contains("BKMNRZ", cmd) then
      if toks == [] then Err("IndexError") else Ok((Str(toks[0]), next))
    else if Contains("CLU", cmd) then
      if toks == [] then Err("IndexError") else Ok((Str(TextUnescape(toks[0])), next))
    else if cmd == "D" then
      if toks == [] then Err("IndexError")
      else if parseDt(toks[0]).None? then Err("ValueError")
      else Ok((Time(parseDt(toks[0]).value), next))
    else if cmd == "E" then
      if toks == [] then Err("IndexError")
      else if parseDt(toks[0]).None? then Err("ValueError")
      else Ok((Event(parseDt(toks[0]).value, toks[1..]), next))
    else if Contains("PQ", cmd) then Ok((Tuple(toks), next))
    else if cmd == "W" then
      if toks == [] then Err("IndexError")
      else if ParseInt(toks[0]).None? then Err("ValueError")
      else
        var stop := ReadEnd(|buf|, next, ParseInt(toks[0]).value + 1);
        Ok((Str(Chars(buf[next..stop])), stop))
    else Err("ValueError")
  }

  /** One pass of the loop of `parse` on the line `buf[pos..next]`: the
      command, its value, and where the next line starts. */
  function ReadCard(buf: seq<Byte>, pos: nat, next: nat, parseDt: string -> Option<int>)
    : (r: Result<(string, CardValue, nat)>)
    requires pos <= next <= |buf|
    ensures r.Ok? ==> next <= r.value.2 <= |buf| && r.value.0 == Words(buf[pos..next])[0]
    ensures r.Ok? ==> Known(r.value.0) && (r.value.0 != "W" ==> r.value.2 == next)
    ensures !Known(Words(buf[pos..next])[0]) ==> r == Err("ValueError")
  {
    var words := Words(buf[pos..next]);
    var card := CardOf(words[0], words[1..], buf, next, parseDt);
    if card.Err? then Err(card.error) else Ok((words[0], card.value.0, card.value.1))
  }

  /** The cards of `buf` from `pos` on, in order, and the exception that
      stopped the reading, if any. */
  function Scan(buf: seq<Byte>, pos: nat, parseDt: string -> Option<int>)
    : (r: (seq<(string, CardValue)>, Option<string>))
    requires pos <= |buf|
    decreases |buf| - pos
  {
    if pos == |buf| then ([], None)
    else
      var card := ReadCard(buf, pos, LineEnd(buf, pos), parseDt);
      if card.Err? then ([], Some(card.error))
      else
        var rest := Scan(buf, card.value.2, parseDt);
        ([(card.value.0, card.value.1)] + rest.0, rest.1)
  }

  /** The line `W <size>` has the words `W` and the size. */
  lemma WikiWords(line: seq<Byte>, size: nat)
    requires Chars(line) == "W " + NatToString(size) + "\n"
    ensures Words(line) == ["W", NatToString(size)]
  {
    var d := NatToString(size);
    var s := "W " + d;
    assert (s + "\n")[..|s|] == s;
    assert !IsSpace(s[|s| - 1]) by { assert s[|s| - 1] == d[|d| - 1] && d[|d| - 1] in d; }
    assert RStrip(s + "\n") == s;
    assert ' ' !in s[..1];
    SplitAllAt(s, ' ', 1);
    assert s[..1] == "W" && s[2..] == d;
    assert ' ' !in d by { assert !IsDigit(' '); }
    SplitAllNone(d, ' ');
  }

  /** A `W` card whose token is a size reads that many bytes and one more. */
  lemma WikiTokens(buf: seq<Byte>, next: nat, parseDt: string -> Option<int>, size: nat)
    requires next + size + 1 <= |buf|
    ensures CardOf("W", [NatToString(size)], buf, next, parseDt)
      == Ok((Str(Chars(buf[next..next + size + 1])), next + size + 1))
  {
    NotContained("AFJT", "W");
    NotContained("BKMNRZ", "W");
    NotContained("CLU", "W");
    NotContained("PQ", "W");
    ParseIntRoundTrip(size);
    var toks := [NatToString(size)];
    assert ParseInt(toks[0]) == Some(size);
    assert ReadEnd(|buf|, next, size + 1) == next + size + 1;
  }

  /** A `W <size>` line is followed by `size + 1` bytes of text: the text
      and its closing newline. */
  lemma WikiCard(buf: seq<Byte>, pos: nat, next: nat, parseDt: string -> Option<int>, size: nat)
    requires pos <= next && next + size + 1 <= |buf|
    requires Chars(buf[pos..next]) == "W " + NatToString(size) + "\n"
    ensures ReadCard(buf, pos, next, parseDt) == Ok(("W", Str(Chars(buf[next..next + size + 1])), next + size + 1))
  {
    WikiWords(buf[pos..next], size);
    assert Words(buf[pos..next])[1..] == [NatToString(size)];
    WikiTokens(buf, next, parseDt, size);
  }

  /** An empty line is a card with the empty command and no tokens: the
      substring test files it with the `A`, `F`, `J` and `T` cards. */
  lemma EmptyLineCard(buf: seq<Byte>, pos: nat, parseDt: string -> Option<int>)
    requires pos < |buf| && buf[pos] == 10
    ensures ReadCard(buf, pos, pos + 1, parseDt) == Ok(("", Tuple([]), pos + 1))
  {
    assert Chars(buf[pos..pos + 1]) == "\n";
    assert RStrip("\n") == "";
    assert Words(buf[pos..pos + 1]) == [""];
    assert OccursAt("AFJT", "", 0);
  }

  /** The lookup of `artifact[key]` as written: the test is on the upper-case
      key but the lookup on the key as given; otherwise a card name is
      looked up by its letter. */
  function Lookup(cards: ODict<string, Entry>, key: string): (r: Result<Entry>)
    ensures r.Ok? ==> Upper(key) in cards.vals || CardLetter(key).Some?
    ensures Upper(key) in cards.vals ==> (key in cards.vals <==> r.Ok?) && (r.Ok? ==> r.value == cards.vals[key])
    ensures r.Err? ==> r.error == "KeyError"
  {
    if Upper(key) in cards.vals then
      if key in cards.vals then Ok(cards.vals[key]) else Err("KeyError")
    else if CardLetter(key).Some? then
      var k := CardLetter(key).value;
      if k in cards.vals then Ok(cards.vals[k]) else Err("KeyError")
    else Err("KeyError")
  }

  /** A lower-case card letter misses the card filed under its upper-case
      letter. */
  lemma LookupMissesLowerCase(cards: ODict<string, Entry>)
    requires "F" in cards.vals && "f" !in cards.vals
    ensures Lookup(cards, "f") == Err("KeyError") && Lookup(cards, "F") == Ok(cards.vals["F"])
  {
    assert Upper("f") == "F";
    assert Upper("F") == "F";
  }

  /** `artifact[key]` with the card looked up under the upper-case key the
      test is on. */
  function LookupUpper(cards: ODict<string, Entry>, key: string): (r: Result<Entry>)
    ensures Upper(key) in cards.vals ==> r == Ok(cards.vals[Upper(key)])
    ensures r.Err? ==> r.error == "KeyError"
  {
    if Upper(key) in cards.vals then Ok(cards.vals[Upper(key)])
    else if CardLetter(key).Some? then
      var k := CardLetter(key).value;
      if k in cards.vals then Ok(cards.vals[k]) else Err("KeyError")
    else Err("KeyError")
  }

  /** The corrected lookup finds a card whatever the case of its letter,
      and agrees with the lookup as written on upper-case keys. */
  lemma LookupUpperCase(cards: ODict<string, Entry>, a: string, b: string)
    requires Upper(a) == Upper(b) && Upper(a) in cards.vals
    ensures LookupUpper(cards, a) == LookupUpper(cards, b)
    ensures Upper(a) == a ==> LookupUpper(cards, a) == Lookup(cards, a)
  {
  }

  /** A structural artifact: its blob, its record id and hash, and the cards
      parsed from its blob. */
  class StructuralArtifact {
    const blob: seq<Byte>
    const rid: Option<int>
    const uuid: Option<string>
    var cards: ODict<string, Entry>

    ghost predicate Valid()
      reads this
    {
      WellFormed(cards)
    }

    constructor (blob: seq<Byte>, rid: Option<int>, uuid: Option<string>)
      ensures Valid() && cards == EmptyDict()
      ensures this.blob == blob && this.rid == rid && this.uuid == uuid
    {
      this.blob, this.rid, this.uuid := blob, rid, uuid;
      cards := EmptyDict();
    }

    /** `StructuralArtifact(blob, rid, uuid)`: the artifact with the cards
        of its blob, or the exception parsing raised. */
    static method Open(blob: seq<Byte>, rid: Option<int>, uuid: Option<string>, parseDt: string -> Option<int>)
      returns (r: Result<StructuralArtifact>)
      ensures var s := Scan(RemoveClearsign(blob), 0, parseDt);
        (r.Ok? <==> s.1.None?) && (r.Err? ==> r.error == s.1.value)
      ensures r.Ok? ==>
        (fresh(r.value) && r.value.Valid() && r.value.blob == blob
         && r.value.cards == FileAll(EmptyDict(), Scan(RemoveClearsign(blob), 0, parseDt).0))
    {
      var a := new StructuralArtifact(blob, rid, uuid);
      var err := a.Parse(parseDt);
      if err.Some? {
        r := Err(err.value);
      } else {
        r := Ok(a);
      }
    }

    /** `parse()`: reads the cards of the blob, its clear-signature removed,
        line by line, filing each in `cards`; on an exception the cards
        filed before it stay. */
    method Parse(parseDt: string -> Option<int>) returns (err: Option<string>)
      requires Valid()
      modifies this
      ensures Valid()
      ensures var s := Scan(RemoveClearsign(blob), 0, parseDt);
        err == s.1 && cards == FileAll(old(cards), s.0)
    {
      var buf := RemoveClearsignLoop(blob);
      var pos := 0;
      err := None;
      while pos < |buf| && err.None?
        invariant pos <= |buf| && WellFormed(cards)
        invariant err.None? ==>
          Scan(buf, pos, parseDt).1 == Scan(buf, 0, parseDt).1
          && FileAll(cards, Scan(buf, pos, parseDt).0) == FileAll(old(cards), Scan(buf, 0, parseDt).0)
        invariant err.Some? ==>
          err == Scan(buf, 0, parseDt).1 && cards == FileAll(old(cards), Scan(buf, 0, parseDt).0)
        decreases |buf| - pos, if err.None? then 1 else 0
      {
        var next := LineEnd(buf, pos);
        var card := ReadCard(buf, pos, next, parseDt);
        if card.Err? {
          err := Some(card.error);
        } else {
          var rest := Scan(buf, card.value.2, parseDt);
          assert ([(card.value.0, card.value.1)] + rest.0)[1..] == rest.0;
          cards := Filed(cards, card.value.0, card.value.1);
          pos := card.value.2;
        }
      }
    }

    /** `artifact.keys()`. */
    function Keys(): (r: seq<string>)
      reads this
      requires Valid()
      ensures forall k :: k in r <==> k in cards.vals
    {
      cards.keys
    }

    /** `artifact[key]`, with the lookup corrected to the upper-case key. */
    function GetItem(key: string): (r: Result<Entry>)
      reads this
      ensures Upper(key) in cards.vals ==> r == Ok(cards.vals[Upper(key)])
      ensures (Upper(key) !in cards.vals && CardLetter(key).Some? && CardLetter(key).value in cards.vals)
        ==> r == Ok(cards.vals[CardLetter(key).value])
      ensures (Upper(key) !in cards.vals && (CardLetter(key).None? || CardLetter(key).value !in cards.vals))
        ==> r == Err("KeyError")
    {
      LookupUpper(cards, key)
    }
  }
}
