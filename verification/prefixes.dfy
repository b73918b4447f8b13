/**
 A guild's custom prefix list and the `prefix` command group that edits it
 (cogs/meta.py): the reserved-prefix converter, listing, `add`, `remove`
 and `clear`. The store behind the list is external: an edit command is
 modelled by the list it hands to the store, or by the reply it sends
 instead.
 */
module Prefixes {
  import opened Outcomes
  import opened Strings
  import opened Numerals
  import opened Lists

  const ReservedPrefixMessage: string := "That is a reserved prefix already in use."
  const NotRegisteredMessage: string := "I do not have this prefix registered."

  /** The bot's mention, `<@id>`. */
  function Mention(botId: nat): string {
    "<@" + Decimal(botId) + ">"
  }

  /** The bot's nickname mention, `<@!id>`. */
  function NicknameMention(botId: nat): string {
    "<@!" + Decimal(botId) + ">"
  }

  /** An argument that begins with either mention form of the bot. */
  predicate IsReserved(botId: nat, argument: string) {
    StartsWith(argument, Mention(botId)) || StartsWith(argument, NicknameMention(botId))
  }

  /** The `Prefix` converter: a reserved argument is refused, any other one is
      passed through untouched. */
  function ConvertPrefix(botId: nat, argument: string): (r: Result<string, string>)
    ensures r.Ok? <==> !IsReserved(botId, argument)
    ensures r.Ok? ==> r.value == argument
    ensures r.Err? ==> r.error == ReservedPrefixMessage
  {
    if IsReserved(botId, argument) then Err(ReservedPrefixMessage) else Ok(argument)
  }

  /** Both mention forms, followed by anything at all, are refused. */
  lemma MentionsAreReserved(botId: nat, rest: string)
    ensures ConvertPrefix(botId, Mention(botId) + rest) == Err(ReservedPrefixMessage)
    ensures ConvertPrefix(botId, NicknameMention(botId) + rest) == Err(ReservedPrefixMessage)
  {
    assert (Mention(botId) + rest)[..|Mention(botId)|] == Mention(botId);
    assert (NicknameMention(botId) + rest)[..|NicknameMention(botId)|] == NicknameMention(botId);
  }

  /** What the prefix listing shows: a footer with the count and one numbered
      line per shown prefix, joined by newlines. */
  datatype Listing = Listing(footer: string, lines: seq<string>, description: string)

  /** `"{index}. {elem}"` for each element, counting from `start`. */
  function NumberedLines(items: seq<string>, start: nat): (r: seq<string>)
    ensures |r| == |items|
    ensures forall k :: 0 <= k < |items| ==> r[k] == Decimal(start + k) + ". " + items[k]
    decreases |items|
  {
    if |items| == 0 then []
    else [Decimal(start) + ". " + items[0]] + NumberedLines(items[1..], start + 1)
  }

  /** The prefix listing of the bot's full prefix list for the guild: entry 1
      (the second mention form) is deleted, the rest are numbered from 1.
      Deleting entry 1 of a list shorter than two raises, which is `None`
      here. */
  function ListPrefixes(prefixes: seq<string>): (r: Option<Listing>)
    ensures r.None? <==> |prefixes| < 2
    ensures r.Some? ==> r.value.footer == Decimal(|prefixes| - 1) + " prefixes"
    ensures r.Some? ==> r.value.description == Join(r.value.lines, "\n")
  {
    if |prefixes| < 2 then None
    else
      var shown := prefixes[..1] + prefixes[2..];
      var lines := NumberedLines(shown, 1);
      Some(Listing(Decimal(|shown|) + " prefixes", lines, Join(lines, "\n")))
  }

  /** A listing of n >= 2 prefixes has n - 1 lines; line k is numbered
      k + 1 and shows entry 0 for k = 0 and entry k + 1 otherwise, so entry 1
      and only entry 1 is left out, and the rest keep their order. */
  lemma ListingOmitsSecondEntry(prefixes: seq<string>)
    requires |prefixes| >= 2
    ensures ListPrefixes(prefixes).Some?
    ensures |ListPrefixes(prefixes).value.lines| == |prefixes| - 1
    ensures forall k :: 0 <= k < |prefixes| - 1 ==>
      ListPrefixes(prefixes).value.lines[k]
        == Decimal(k + 1) + ". " + prefixes[if k == 0 then 0 else k + 1]
  {
    var shown := prefixes[..1] + prefixes[2..];
    forall k | 0 <= k < |shown|
      ensures shown[k] == prefixes[if k == 0 then 0 else k + 1]
    {
    }
  }

  /** The full list `<@1>`, `<@!1>`, `!`, `?` (the two mention forms, then
      two custom prefixes) lists as three lines: the first mention form stays,
      the second one is hidden. */
  lemma ListingExample()
    ensures ListPrefixes(["<@1>", "<@!1>", "!", "?"]).value.lines == ["1. <@1>", "2. !", "3. ?"]
    ensures ListPrefixes(["<@1>", "<@!1>", "!", "?"]).value.footer == "3 prefixes"
  {
    var prefixes := ["<@1>", "<@!1>", "!", "?"];
    assert Decimal(1) == "1" && Decimal(2) == "2" && Decimal(3) == "3";
    ListingOmitsSecondEntry(prefixes);
    var lines := ListPrefixes(prefixes).value.lines;
    assert lines[0] == "1" + ". " + "<@1>";
    assert lines[1] == "2" + ". " + "!";
    assert lines[2] == "3" + ". " + "?";
    assert "1" + ". " + "<@1>" == "1. <@1>" && "2" + ". " + "!" == "2. !" && "3" + ". " + "?" == "3. ?";
    assert |lines| == 3;
  }

  /** When no prefix holds a newline, the description splits back into
      exactly the numbered lines. */
  lemma ListingDescriptionLines(prefixes: seq<string>)
    requires |prefixes| >= 2
    requires forall i :: 0 <= i < |prefixes| ==> '\n' !in prefixes[i]
    ensures Split(ListPrefixes(prefixes).value.description, '\n')
      == ListPrefixes(prefixes).value.lines
  {
    var listing := ListPrefixes(prefixes).value;
    ListingOmitsSecondEntry(prefixes);
    forall k | 0 <= k < |listing.lines|
      ensures '\n' !in listing.lines[k]
    {
      NumberedLineIsOneLine(k + 1, prefixes[if k == 0 then 0 else k + 1]);
    }
    SplitJoin(listing.lines, '\n');
  }

  /** A numbered line of a one-line item holds no line break. */
  lemma NumberedLineIsOneLine(n: nat, item: string)
    requires '\n' !in item
    ensures '\n' !in Decimal(n) + ". " + item
  {
    DecimalIsDigits(n);
    var line := Decimal(n) + ". " + item;
    forall j | 0 <= j < |line|
      ensures line[j] != '\n'
    {
      if j >= |Decimal(n)| + 2 {
        assert line[j] == item[j - |Decimal(n)| - 2];
      } else if j >= |Decimal(n)| {
        assert line[j] == ". "[j - |Decimal(n)|];
      } else {
        assert line[j] == Decimal(n)[j];
      }
    }
  }


  /** What an edit command does: hand a new list to the store, or reply
      without touching it. */
  datatype PrefixEdit = Persist(prefixes: seq<string>) | Reply(message: string)

  /** `prefix add`: the converted prefix is appended to the stored list.
      There is no duplicate check. */
  function AddPrefix(botId: nat, stored: seq<string>, argument: string): (r: PrefixEdit)
    ensures IsReserved(botId, argument) ==> r == Reply(ReservedPrefixMessage)
    ensures !IsReserved(botId, argument) ==>
      r.Persist? && |r.prefixes| == |stored| + 1
      && r.prefixes[..|stored|] == stored && r.prefixes[|stored|] == argument
  {
    match ConvertPrefix(botId, argument)
    case Err(message) => Reply(message)
    case Ok(prefix) => Persist(stored + [prefix])
  }

  /** Adding a prefix that is already stored stores it once more. */
  lemma AddKeepsDuplicates(botId: nat, stored: seq<string>, argument: string)
    requires !IsReserved(botId, argument) && argument in stored
    ensures AddPrefix(botId, stored, argument).Persist?
    ensures multiset(AddPrefix(botId, stored, argument).prefixes)[argument]
      == multiset(stored)[argument] + 1
  {
    var r := AddPrefix(botId, stored, argument).prefixes;
    assert r == stored + [argument];
  }

  /** `prefix remove`: a reserved argument is refused, an unknown one is
      reported and nothing is stored; otherwise its first occurrence goes. */
  function RemovePrefix(botId: nat, stored: seq<string>, argument: string): (r: PrefixEdit)
    ensures IsReserved(botId, argument) ==> r == Reply(ReservedPrefixMessage)
    ensures !IsReserved(botId, argument) && argument !in stored ==> r == Reply(NotRegisteredMessage)
    ensures r.Persist? <==> !IsReserved(botId, argument) && argument in stored
    ensures r.Persist? ==>
      var i := IndexOf(stored, argument);
      |r.prefixes| == |stored| - 1
      && r.prefixes[..i] == stored[..i]
      && r.prefixes[i..] == stored[i + 1..]
  {
    match ConvertPrefix(botId, argument)
    case Err(message) => Reply(message)
    case Ok(prefix) =>
      if prefix !in stored then Reply(NotRegisteredMessage)
      else Persist(RemoveFirst(stored, prefix))
  }

  /** Removing a prefix that appears twice keeps the later copy. */
  lemma RemoveKeepsLaterCopies(botId: nat, stored: seq<string>, argument: string)
    requires !IsReserved(botId, argument) && multiset(stored)[argument] >= 2
    ensures RemovePrefix(botId, stored, argument).Persist?
    ensures argument in RemovePrefix(botId, stored, argument).prefixes
  {
    RemoveFirstContents(stored, argument);
  }

  /** `prefix add p` followed by `prefix remove p` restores the stored list,
      provided `p` was not stored before. */
  lemma AddThenRemove(botId: nat, stored: seq<string>, argument: string)
    requires !IsReserved(botId, argument) && argument !in stored
    ensures AddPrefix(botId, stored, argument).Persist?
    ensures RemovePrefix(botId, AddPrefix(botId, stored, argument).prefixes, argument)
      == Persist(stored)
  {
    var added := stored + [argument];
    assert forall j :: 0 <= j < |stored| ==> added[j] == stored[j];
    assert added[|stored|] == argument;
    assert IndexOf(added, argument) == |stored|;
    assert added[..|stored|] == stored;
  }

  /** `prefix clear`: the store always receives the empty list, whatever it
      held before. */
  function ClearPrefixes(stored: seq<string>): (r: PrefixEdit)
    ensures r.Persist? && |r.prefixes| == 0
  {
    Persist([])
  }
}
