/** The card store of a Fossil structural artifact: the value of each card
    by its command, with a list for the cards that may repeat. */
module FossilCards {
  import opened Wrappers
  import opened Collections

  /** A card's value as `parse` stores it: a token or a text, a tuple of
      tokens, a time from `parse_dt`, or a technote's time and tokens. */
  datatype CardValue =
    | Str(s: string)
    | Tuple(fields: seq<string>)
    | Time(t: int)
    | Event(t: int, fields: seq<string>)

  /** What `cards` holds under a command: one value, or the list of values
      of a repeatable card. */
  datatype Entry = One(value: CardValue) | Many(values: seq<CardValue>)

  /** `CARDMULTI`: the cards that may appear more than once. */
  predicate IsMulti(cmd: string) {
    cmd in {"F", "J", "M", "Q", "T"}
  }

  /** `cards` as `parse` keeps it: a list under each repeatable card and a
      single value under every other command. */
  ghost predicate WellFormed(cards: ODict<string, Entry>) {
    cards.Valid() && forall c :: c in cards.vals ==> (cards.vals[c].Many? <==> IsMulti(c))
  }

  /** The values filed under a repeatable card so far. */
  function Values(cards: ODict<string, Entry>, cmd: string): seq<CardValue> {
    if cmd in cards.vals && cards.vals[cmd].Many? then cards.vals[cmd].values else []
  }

  /** Filing one card: a repeatable card's value goes at the end of its
      list, any other card's value replaces the one before. */
  function Filed(cards: ODict<string, Entry>, cmd: string, val: CardValue): (r: ODict<string, Entry>)
    requires cards.Valid()
    ensures r.Valid() && (WellFormed(cards) ==> WellFormed(r))
    ensures forall c :: c != cmd ==> r.Get(c) == cards.Get(c)
    ensures cmd in r.vals
    ensures IsMulti(cmd) ==> r.vals[cmd] == Many(Values(cards, cmd) + [val])
    ensures !IsMulti(cmd) ==> r.vals[cmd] == One(val)
  {
    if IsMulti(cmd) then cards.Set(cmd, Many(Values(cards, cmd) + [val]))
    else cards.Set(cmd, One(val))
  }

  /** Filing cards in order. */
  function FileAll(cards: ODict<string, Entry>, cs: seq<(string, CardValue)>): (r: ODict<string, Entry>)
    requires cards.Valid()
    ensures r.Valid() && (WellFormed(cards) ==> WellFormed(r))
    decreases |cs|
  {
    if cs == [] then cards else FileAll(Filed(cards, cs[0].0, cs[0].1), cs[1..])
  }

  /** The values of the cards `cmd` among `cs`, in order. */
  function ValuesOf(cs: seq<(string, CardValue)>, cmd: string): seq<CardValue> {
    if cs == [] then []
    else if cs[0].0 == cmd then [cs[0].1] + ValuesOf(cs[1..], cmd)
    else ValuesOf(cs[1..], cmd)
  }

  /** The value of the last card `cmd` among `cs`. */
  function LastOf(cs: seq<(string, CardValue)>, cmd: string): Option<CardValue> {
    if cs == [] then None
    else
      var later := LastOf(cs[1..], cmd);
      if later.Some? then later else if cs[0].0 == cmd then Some(cs[0].1) else None
  }

  /** Filing one card adds its value to the list of its own command only. */
  lemma FiledValues(cards: ODict<string, Entry>, c: string, val: CardValue, cmd: string)
    requires cards.Valid() && IsMulti(cmd)
    ensures c == cmd ==> Values(Filed(cards, c, val), cmd) == Values(cards, cmd) + [val]
    ensures c != cmd ==> Values(Filed(cards, c, val), cmd) == Values(cards, cmd)
  {
    var f := Filed(cards, c, val);
    if c != cmd {
      assert f.Get(cmd) == cards.Get(cmd);
    }
  }

  /** Repeatable cards accumulate in order after what was already filed. */
  lemma {:induction false} FileAllMulti(cards: ODict<string, Entry>, cs: seq<(string, CardValue)>, cmd: string)
    requires cards.Valid() && IsMulti(cmd)
    ensures Values(FileAll(cards, cs), cmd) == Values(cards, cmd) + ValuesOf(cs, cmd)
    decreases |cs|
  {
    if cs != [] {
      var f := Filed(cards, cs[0].0, cs[0].1);
      FiledValues(cards, cs[0].0, cs[0].1, cmd);
      FileAllMulti(f, cs[1..], cmd);
      if cs[0].0 == cmd {
        AppendAssoc(Values(cards, cmd), [cs[0].1], ValuesOf(cs[1..], cmd));
      }
    }
  }

  /** Every other card keeps the value of its last occurrence. */
  lemma {:induction false} FileAllSingle(cards: ODict<string, Entry>, cs: seq<(string, CardValue)>, cmd: string)
    requires cards.Valid() && !IsMulti(cmd)
    ensures FileAll(cards, cs).Get(cmd) ==
      if LastOf(cs, cmd).Some? then Some(One(LastOf(cs, cmd).value)) else cards.Get(cmd)
    decreases |cs|
  {
    if cs != [] {
      FileAllSingle(Filed(cards, cs[0].0, cs[0].1), cs[1..], cmd);
    }
  }
}
