/** The lobby start message of `MatchmakingClient`: the host sends
  * `__START` followed by `|id` for each valid lobby member, ids in
  * ascending order; a client recognises the message by its first field and
  * collects the ids that parse as unsigned 64-bit numbers. */
module Matchmaking {
  import opened Outcomes

  /** `START_MSG`. */
  const START_MSG: string := "__START"

  const SEP: char := '|'

  const U64_LIMIT: nat := 0x1_0000_0000_0000_0000

  /** A Steam id: `CSteamID.m_SteamID`, a `ulong`. */
  type SteamId = n: nat | n < U64_LIMIT

  // ----- Splitting and joining -----

  /** `text.Split("|")`: the pieces between separators, empty ones kept,
    * so there is always at least one. */
  function Split(s: string): (r: seq<string>)
    ensures |r| >= 1
    ensures forall k :: 0 <= k < |r| ==> SEP !in r[k]
    decreases |s|
  {
    if |s| == 0 then [""]
    else
      var rest := Split(s[1..]);
      if s[0] == SEP then [""] + rest else [[s[0]] + rest[0]] + rest[1..]
  }

  /** `string.Join("|", parts)`. */
  function Join(parts: seq<string>): string
    decreases |parts|
  {
    if |parts| == 0 then ""
    else if |parts| == 1 then parts[0]
    else parts[0] + [SEP] + Join(parts[1..])
  }

  /** A piece without separators is split off whole. */
  lemma {:induction false} SplitPrefix(a: string, b: string)
    requires SEP !in a
    ensures Split(a + [SEP] + b) == [a] + Split(b)
    ensures Split(a) == [a]
    decreases |a|
  {
    if |a| == 0 {
      assert a + [SEP] + b == [SEP] + b;
      assert ([SEP] + b)[1..] == b;
    } else {
      assert (a + [SEP] + b)[1..] == a[1..] + [SEP] + b;
      assert a[1..] + [SEP] + b == (a + [SEP] + b)[1..];
      SplitPrefix(a[1..], b);
      assert [a[0]] + a[1..] == a;
    }
  }

  /** Joining pieces without separators and splitting the result gives
    * the pieces back. */
  lemma {:induction false} SplitJoin(parts: seq<string>)
    requires |parts| >= 1 && forall k :: 0 <= k < |parts| ==> SEP !in parts[k]
    ensures Split(Join(parts)) == parts
    decreases |parts|
  {
    if |parts| == 1 {
      SplitPrefix(parts[0], "");
    } else {
      SplitJoin(parts[1..]);
      SplitPrefix(parts[0], Join(parts[1..]));
      assert [parts[0]] + parts[1..] == parts;
    }
  }

  /** Splitting and joining back gives the text. */
  lemma {:induction false} JoinSplit(s: string)
    ensures Join(Split(s)) == s
    decreases |s|
  {
    if |s| > 0 {
      JoinSplit(s[1..]);
      var rest := Split(s[1..]);
      if s[0] == SEP {
        assert [""] + rest == [""] + rest[..];
        assert Join([""] + rest) == "" + [SEP] + Join(rest) by {
          assert ([""] + rest)[1..] == rest;
        }
      } else {
        var r := [[s[0]] + rest[0]] + rest[1..];
        assert r[1..] == rest[1..];
        if |rest| > 1 {
          assert Join(rest) == rest[0] + [SEP] + Join(rest[1..]);
        }
      }
    }
  }

  // ----- Numbers -----

  predicate IsDigit(c: char)
  {
    '0' <= c <= '9'
  }

  /** The white space `ulong.Parse` lets through around the number:
    * tab, line feed, vertical tab, form feed, carriage return and space. */
  predicate IsWhite(c: char)
  {
    c == ' ' || ('\t' <= c <= '\r')
  }

  function DropLeadingWhite(s: string): (r: string)
    ensures |r| <= |s| && (|r| > 0 ==> !IsWhite(r[0]))
    decreases |s|
  {
    if |s| > 0 && IsWhite(s[0]) then DropLeadingWhite(s[1..]) else s
  }

  function DropTrailingWhite(s: string): (r: string)
    ensures |r| <= |s| && (|r| > 0 ==> !IsWhite(r[|r| - 1]))
    decreases |s|
  {
    if |s| > 0 && IsWhite(s[|s| - 1]) then DropTrailingWhite(s[..|s| - 1]) else s
  }

  /** The value of a run of decimal digits. */
  function DigitsValue(ds: string): nat
    requires forall k :: 0 <= k < |ds| ==> IsDigit(ds[k])
    decreases |ds|
  {
    if |ds| == 0 then 0
    else
      assert IsDigit(ds[|ds| - 1]);
      DigitsValue(ds[..|ds| - 1]) * 10 + (ds[|ds| - 1] as int - '0' as int)
  }

  /** What `ulong.Parse` does with a piece: a number, or the exception it
    * throws. */
  datatype Parse = Parsed(value: SteamId) | FormatFailure | OverflowFailure

  /** `ulong.Parse(s)` under the integer number style: optional white
    * space, an optional sign, at least one digit, optional white space.
    * A value past the 64-bit range, or a nonzero one after a minus sign,
    * overflows. */
  function ParseULong(s: string): Parse
  {
    var t := DropTrailingWhite(DropLeadingWhite(s));
    var (negative, ds) := if |t| > 0 && (t[0] == '+' || t[0] == '-') then (t[0] == '-', t[1..]) else (false, t);
    if |ds| == 0 || exists k :: 0 <= k < |ds| && !IsDigit(ds[k]) then FormatFailure
    else
      var v := DigitsValue(ds);
      if v >= U64_LIMIT || (negative && v != 0) then OverflowFailure else Parsed(v)
  }

  /** `ulong.ToString()`: the decimal digits without leading zeros. */
  function Decimal(n: nat): (r: string)
    ensures |r| >= 1 && forall k :: 0 <= k < |r| ==> IsDigit(r[k])
    decreases n
  {
    if n < 10 then [('0' as int + n) as char] else Decimal(n / 10) + [('0' as int + n % 10) as char]
  }

  lemma {:induction false} DecimalValue(n: nat)
    ensures DigitsValue(Decimal(n)) == n
    decreases n
  {
    var d := Decimal(n);
    if n < 10 {
      assert d[..0] == [];
    } else {
      DecimalValue(n / 10);
      assert d[..|d| - 1] == Decimal(n / 10);
    }
  }

  /** Every id written by the host reads back as itself. */
  lemma ParseDecimal(n: SteamId)
    ensures ParseULong(Decimal(n)) == Parsed(n)
  {
    var d := Decimal(n);
    assert !IsWhite(d[0]) && !IsWhite(d[|d| - 1]);
    assert DropLeadingWhite(d) == d;
    assert DropTrailingWhite(d) == d;
    DecimalValue(n);
  }

  /** An empty piece, like the one after the separator when there are no
    * ids, does not parse. */
  lemma EmptyDoesNotParse()
    ensures ParseULong("") == FormatFailure
  {
  }

  // ----- The start message -----

  /** The ids of the pieces that parse, in order. */
  function IdsParsed(pieces: seq<string>): (r: seq<SteamId>)
    ensures |r| <= |pieces|
    decreases |pieces|
  {
    if |pieces| == 0 then []
    else
      var p := ParseULong(pieces[|pieces| - 1]);
      IdsParsed(pieces[..|pieces| - 1]) + (if p.Parsed? then [p.value] else [])
  }

  /** The parsed ids of `pieces[1..i + 1]`: those of `pieces[1..i]` and
    * then piece `i`'s, if it parses. */
  lemma {:induction false} IdsParsedStep(pieces: seq<string>, i: nat)
    requires 1 <= i < |pieces|
    ensures var p := ParseULong(pieces[i]);
      IdsParsed(pieces[1..i + 1]) == IdsParsed(pieces[1..i]) + (if p.Parsed? then [p.value] else [])
  {
    var w := pieces[1..i + 1];
    assert w[..|w| - 1] == pieces[1..i] && w[|w| - 1] == pieces[i];
  }

  /** What `TryParseStartMessage` recognises: `None` when the first piece
    * is not `__START`, else the ids parsed from the other pieces. */
  function StartParsed(text: string): Option<seq<SteamId>>
  {
    var pieces := Split(text);
    if pieces[0] == START_MSG then Some(IdsParsed(pieces[1..])) else None
  }

  /** `TryParseStartMessage(text, players)`: the caller's list, passed in
    * and handed back, gains one id per later piece that parses, in order;
    * pieces that fail to parse or overflow are skipped. */
  method TryParseStartMessage(text: string, players: seq<SteamId>) returns (ok: bool, players': seq<SteamId>)
    ensures ok <==> StartParsed(text).Some?
    ensures ok ==> players' == players + StartParsed(text).value
    ensures !ok ==> players' == players
  {
    var pieces := Split(text);
    if pieces[0] != START_MSG {
      return false, players;
    }
    players' := players;
    for i := 1 to |pieces|
      invariant players' == players + IdsParsed(pieces[1..i])
    {
      IdsParsedStep(pieces, i);
      var p := ParseULong(pieces[i]);
      if p.Parsed? {
        players' := players' + [p.value];
      }
    }
    assert pieces[1..|pieces|] == pieces[1..];
    ok := true;
  }

  /** A lobby member as Steam reports it: whether its id is valid, and the
    * id. */
  datatype Member = Member(Valid: bool, Id: SteamId)

  /** The valid members' ids, in lobby order. */
  function ValidIds(members: seq<Member>): (r: seq<SteamId>)
    ensures forall x :: x in r <==> exists k :: 0 <= k < |members| && members[k].Valid && members[k].Id == x
    decreases |members|
  {
    if |members| == 0 then []
    else
      var init := ValidIds(members[..|members| - 1]);
      var m := members[|members| - 1];
      assert forall k :: 0 <= k < |members| - 1 ==> members[..|members| - 1][k] == members[k];
      init + (if m.Valid then [m.Id] else [])
  }

  predicate Ascending(xs: seq<SteamId>)
  {
    forall j, k :: 0 <= j < k < |xs| ==> xs[j] <= xs[k]
  }

  /** `x` put into place in an ascending list. */
  function Insert(x: SteamId, xs: seq<SteamId>): seq<SteamId>
    decreases |xs|
  {
    if |xs| == 0 || x <= xs[0] then [x] + xs else [xs[0]] + Insert(x, xs[1..])
  }

  /** `List.Sort` by `m_SteamID.CompareTo`. */
  function SortedIds(xs: seq<SteamId>): seq<SteamId>
    decreases |xs|
  {
    if |xs| == 0 then [] else Insert(xs[0], SortedIds(xs[1..]))
  }

  lemma {:induction false} InsertMeaning(x: SteamId, xs: seq<SteamId>)
    requires Ascending(xs)
    ensures Ascending(Insert(x, xs)) && multiset(Insert(x, xs)) == multiset(xs) + multiset{x}
  {
    InsertKeeps(x, xs);
    InsertAscends(x, xs);
  }

  lemma {:induction false} InsertKeeps(x: SteamId, xs: seq<SteamId>)
    ensures multiset(Insert(x, xs)) == multiset(xs) + multiset{x}
    decreases |xs|
  {
    if |xs| > 0 && x > xs[0] {
      InsertKeeps(x, xs[1..]);
      assert xs == [xs[0]] + xs[1..];
    }
  }

  lemma {:induction false} InsertAscends(x: SteamId, xs: seq<SteamId>)
    requires Ascending(xs)
    ensures Ascending(Insert(x, xs))
    decreases |xs|
  {
    if |xs| > 0 && x > xs[0] {
      var t := xs[1..];
      InsertAscends(x, t);
      InsertBounded(x, t, xs[0]);
      var r := Insert(x, t);
      var s := [xs[0]] + r;
      assert Insert(x, xs) == s;
      forall j, k | 0 <= j < k < |s| ensures s[j] <= s[k] {
        assert s[k] == r[k - 1];
        if j > 0 {
          assert s[j] == r[j - 1];
        }
      }
    }
  }

  /** A lower bound of `x` and of `xs` bounds the list `x` is put into. */
  lemma {:induction false} InsertBounded(x: SteamId, xs: seq<SteamId>, b: SteamId)
    requires b <= x && forall k :: 0 <= k < |xs| ==> b <= xs[k]
    ensures forall k :: 0 <= k < |Insert(x, xs)| ==> b <= Insert(x, xs)[k]
    decreases |xs|
  {
    if |xs| > 0 && x > xs[0] {
      InsertBounded(x, xs[1..], b);
    }
  }

  /** The sort gives the ids in ascending order, each as often as given. */
  lemma {:induction false} SortedIdsMeaning(xs: seq<SteamId>)
    ensures Ascending(SortedIds(xs)) && multiset(SortedIds(xs)) == multiset(xs)
    decreases |xs|
  {
    if |xs| > 0 {
      SortedIdsMeaning(xs[1..]);
      InsertMeaning(xs[0], SortedIds(xs[1..]));
      assert xs == [xs[0]] + xs[1..];
    }
  }

  /** Each id in decimal. */
  function Decimals(ids: seq<SteamId>): (r: seq<string>)
    ensures |r| == |ids| && forall k :: 0 <= k < |ids| ==> r[k] == Decimal(ids[k])
  {
    seq(|ids|, k requires 0 <= k < |ids| => Decimal(ids[k]))
  }

  /** The host's message for the lobby's members, `None` for an empty
    * lobby (nothing is sent). */
  function StartMessage(members: seq<Member>): Option<string>
  {
    if |members| <= 0 then None
    else Some(START_MSG + [SEP] + Join(Decimals(SortedIds(ValidIds(members)))))
  }

  /** `SendLobbyStartMessage`: the members are read one by one, the
    * invalid ones skipped, the rest sorted and written out.  The send
    * itself is left out. */
  method SendLobbyStartMessage(members: seq<Member>) returns (message: Option<string>)
    ensures message == StartMessage(members)
  {
    var count := |members|;
    if count <= 0 {
      return None;
    }
    var players: seq<SteamId> := [];
    for i := 0 to count
      invariant players == ValidIds(members[..i])
    {
      assert members[..i + 1][..i] == members[..i];
      var m := members[i];
      if m.Valid {
        players := players + [m.Id];
      }
    }
    assert members[..count] == members;
    var sorted := SortedIds(players);
    message := Some(START_MSG + [SEP] + Join(Decimals(sorted)));
  }

  /** A client reading the host's message finds it a start message and
    * gets exactly the valid members' ids, in ascending order. */
  lemma StartMessageRoundTrip(members: seq<Member>)
    requires |members| > 0
    ensures var ids := SortedIds(ValidIds(members));
      StartParsed(StartMessage(members).value) == Some(ids) &&
      Ascending(ids) && multiset(ids) == multiset(ValidIds(members))
  {
    var ids := SortedIds(ValidIds(members));
    SortedIdsMeaning(ValidIds(members));
    MessageParses(ids);
  }

  /** The text `__START|` followed by the ids joined reads back as them. */
  lemma MessageParses(ids: seq<SteamId>)
    ensures StartParsed(START_MSG + [SEP] + Join(Decimals(ids))) == Some(ids)
  {
    var parts := Decimals(ids);
    var text := START_MSG + [SEP] + Join(parts);
    SplitPrefix(START_MSG, Join(parts));
    assert Split(text)[1..] == Split(Join(parts));
    if |parts| == 0 {
      assert Split(Join(parts)) == [""];
      assert IdsParsed([""]) == [] by {
        assert [""][..0] == [];
      }
    } else {
      DecimalsHaveNoSeparator(ids);
      SplitJoin(parts);
      IdsOfDecimals(ids);
    }
  }

  lemma DecimalsHaveNoSeparator(ids: seq<SteamId>)
    ensures forall k :: 0 <= k < |Decimals(ids)| ==> SEP !in Decimals(ids)[k]
  {
    forall k | 0 <= k < |ids|
      ensures SEP !in Decimal(ids[k])
    {
      var d := Decimal(ids[k]);
      assert forall j :: 0 <= j < |d| ==> d[j] != SEP;
    }
  }

  /** The ids written in decimal parse back, all of them, in order. */
  lemma {:induction false} IdsOfDecimals(ids: seq<SteamId>)
    ensures IdsParsed(Decimals(ids)) == ids
    decreases |ids|
  {
    var parts := Decimals(ids);
    if |ids| > 0 {
      var init := ids[..|ids| - 1];
      IdsOfDecimals(init);
      assert parts[..|parts| - 1] == Decimals(init);
      ParseDecimal(ids[|ids| - 1]);
      assert init + [ids[|ids| - 1]] == ids;
    }
  }

  /** Only a first piece of `__START` starts a game: a message whose first
    * piece is empty gives no players, even when a whole start message
    * follows it. */
  lemma NotAStartMessage(ids: seq<SteamId>)
    ensures StartParsed([SEP] + START_MSG + [SEP] + Join(Decimals(ids))).None?
  {
    var rest := START_MSG + [SEP] + Join(Decimals(ids));
    SplitPrefix("", rest);
    assert [SEP] + START_MSG + [SEP] + Join(Decimals(ids)) == "" + [SEP] + rest;
  }
}
