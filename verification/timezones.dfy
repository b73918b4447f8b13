/**
 The `TimezoneConverter` of cogs/time.py and the timezone page footers.

 The converter compares the argument, case-insensitively, against the
 timezone names. A recognised argument yields the best fuzzy match at once;
 any other one gets a numbered list of up to five fuzzy matches, and the
 first reply from the same author in the same channel that names one of
 them picks it.

 The fuzzy matcher is not modelled: its matches, best first, are an input
 list. Waiting for replies is modelled by the list of messages that arrive
 before the timeout, in arrival order. Turning a chosen name into a `pytz`
 timezone is left out: the outcome is the chosen name.
 */
module Timezones {
  import opened Outcomes
  import opened Strings
  import opened Numerals
  import opened Lists

  /** How many fuzzy matches the prompt offers. */
  const MaxChoices: nat := 5

  /** A chat message: author id, channel id and text. */
  datatype Message = Message(author: nat, channel: nat, content: string)

  /* ---------------------------------------------------------------------- */
  /* Recognising the argument                                                */
  /* ---------------------------------------------------------------------- */

  /** `argument.lower() in {timezone.lower() for timezone in zones}`. */
  predicate Recognised(argument: string, zones: seq<string>): (r: bool)
    ensures argument in zones ==> r
    ensures r ==> |zones| > 0
  {
    exists i :: 0 <= i < |zones| && Lower(zones[i]) == Lower(argument)
  }

  /** Recognition ignores case: every zone name is recognised however it is
      capitalised, and an argument is recognised exactly when its lower- or
      upper-case form is. */
  lemma RecognisedIgnoresCase(argument: string, zones: seq<string>)
    ensures Recognised(argument, zones) <==> Recognised(Lower(argument), zones)
    ensures Recognised(argument, zones) <==> Recognised(Upper(argument), zones)
    ensures forall i :: 0 <= i < |zones| ==> Recognised(Upper(zones[i]), zones)
  {
    LowerIdempotent(argument);
    LowerOfUpper(argument);
    forall i | 0 <= i < |zones|
      ensures Recognised(Upper(zones[i]), zones)
    {
      LowerOfUpper(zones[i]);
    }
  }

  /* ---------------------------------------------------------------------- */
  /* The prompt and the reply check                                          */
  /* ---------------------------------------------------------------------- */

  const PromptHeader: string := "That was not a recognised timezone. Maybe you meant one of these?\n"
  const NoValidTimezone: string := "No valid timezone given or selected."

  /** "`{n}.` {name}" for each match, numbered from 1. */
  function ChoiceLines(matches: seq<string>): (r: seq<string>)
    ensures |r| == |matches|
    ensures forall k :: 0 <= k < |matches| ==> r[k] == "`" + Decimal(k + 1) + ".` " + matches[k]
  {
    seq(|matches|, k requires 0 <= k < |matches| => "`" + Decimal(k + 1) + ".` " + matches[k])
  }

  /** The message sent for an argument that is not recognised. */
  function Prompt(matches: seq<string>): string {
    PromptHeader + Join(ChoiceLines(matches), "\n")
  }

  /** What is left of a reply once one trailing `.` is removed. */
  function Stripped(content: string): string {
    RemoveSuffix(content, ".")
  }

  /** The text part of the reply check: after removing one trailing `.` it
      is all digits with a value from 1 to 5. */
  predicate ValidChoiceText(content: string) {
    IsDigits(Stripped(content)) && 1 <= ParseDecimal(Stripped(content)) <= MaxChoices
  }

  /** The reply check. An accepted reply comes from the asker in the asking
      channel and is digits, possibly followed by one dot. */
  predicate ReplyAccepted(m: Message, author: nat, channel: nat): (r: bool)
    ensures r ==> m.author == author && m.channel == channel
    ensures r ==> (IsDigits(m.content)
      || (EndsWith(m.content, ".") && IsDigits(m.content[..|m.content| - 1])))
  {
    m.author == author && m.channel == channel && ValidChoiceText(m.content)
  }

  /** A reply is accepted exactly when it comes from the same author in the
      same channel and reads `n` or `n.` for some n from 1 to 5, in any of
      its spellings with leading zeros; `n` itself, with or without the dot,
      always passes. */
  lemma ReplyAcceptedSpellings(n: nat, author: nat, channel: nat, other: nat)
    requires 1 <= n <= MaxChoices && other != author
    ensures ReplyAccepted(Message(author, channel, Decimal(n)), author, channel)
    ensures ReplyAccepted(Message(author, channel, Decimal(n) + "."), author, channel)
    ensures ReplyAccepted(Message(author, channel, "0" + Decimal(n)), author, channel)
    ensures !ReplyAccepted(Message(other, channel, Decimal(n)), author, channel)
    ensures !ReplyAccepted(Message(author, channel, Decimal(n) + ".."), author, channel)
  {
    var d := Decimal(n);
    DecimalIsDigits(n);
    DecimalRoundTrip(n);
    DigitsHaveNoDot(d);
    assert Stripped(d) == d;
    assert Stripped(d + ".") == d by {
      assert (d + ".")[|d + "."| - 1..] == ".";
    }
    assert Stripped("0" + d) == "0" + d by {
      DigitsHaveNoDot("0" + d);
    }
    FromBaseLeadingZeros("0", d, 10);
    var dd := d + "..";
    assert dd[|dd| - 1..] == ".";
    assert Stripped(dd) == d + ".";
    assert !IsAsciiDigit(Stripped(dd)[|d|]);
  }

  /** An all-digit string does not end in a dot. */
  lemma DigitsHaveNoDot(s: string)
    requires IsDigits(s)
    ensures Stripped(s) == s
  {
    assert IsAsciiDigit(s[|s| - 1]);
    assert s[|s| - 1..][0] == s[|s| - 1];
  }

  /** The first reply that passes the check, by position in arrival order. */
  function FirstAccepted(stream: seq<Message>, author: nat, channel: nat): (r: Option<nat>)
    ensures r.Some? ==> r.value < |stream| && ReplyAccepted(stream[r.value], author, channel)
    ensures r.Some? ==> forall j :: 0 <= j < r.value ==> !ReplyAccepted(stream[j], author, channel)
    ensures r.None? ==> forall j :: 0 <= j < |stream| ==> !ReplyAccepted(stream[j], author, channel)
    decreases |stream|
  {
    if |stream| == 0 then None
    else if ReplyAccepted(stream[0], author, channel) then Some(0)
    else match FirstAccepted(stream[1..], author, channel)
      case None => None
      case Some(k) => Some(k + 1)
  }

  /* ---------------------------------------------------------------------- */
  /* Selecting the match                                                     */
  /* ---------------------------------------------------------------------- */

  /** Ways the converter fails: the timeout, which the command reports as
      `NoValidTimezone`, an index past the matches, and `int()` refusing the
      reply. */
  datatype TzError = TimedOut | IndexError | ValueError

  /** `query[int(result.content) - 1]` as the converter writes it: `int` is
      applied to the reply itself, not to the text the check read. */
  function SelectAsWritten(content: string, matches: seq<string>): (r: Result<string, TzError>)
    requires ValidChoiceText(content)
    ensures !IsDigits(content) ==> r == Err(ValueError)
    ensures r.Ok? ==> r.value in matches[..if |matches| < MaxChoices then |matches| else MaxChoices]
  {
    if !IsDigits(content) then Err(ValueError)
    else
      DigitsHaveNoDot(content);
      var n := ParseDecimal(content);
      if n - 1 < |matches| then Ok(matches[n - 1]) else Err(IndexError)
  }

  /** The selection the check promises: the reply `n` or `n.` picks match
      `n - 1`, which lies within 0..4, and fails only when there are fewer
      than `n` matches. */
  function Select(content: string, matches: seq<string>): (r: Result<string, TzError>)
    requires ValidChoiceText(content)
    ensures var n := ParseDecimal(Stripped(content));
      0 <= n - 1 < MaxChoices
      && (n <= |matches| ==> r == Ok(matches[n - 1]))
      && (n > |matches| ==> r == Err(IndexError))
  {
    var n := ParseDecimal(Stripped(content));
    if n - 1 < |matches| then Ok(matches[n - 1]) else Err(IndexError)
  }

  /** The two selections agree on every reply without the trailing dot. */
  lemma SelectionsAgreeWithoutDot(content: string, matches: seq<string>)
    requires ValidChoiceText(content) && IsDigits(content)
    ensures SelectAsWritten(content, matches) == Select(content, matches)
  {
    DigitsHaveNoDot(content);
  }

  /** The reply `3.` passes the check, yet `int("3.")` raises: the reply the
      check accepts is refused, where the stripped text selects the third
      match. */
  lemma TrailingDotIsRefused(matches: seq<string>)
    requires |matches| >= 3
    ensures ValidChoiceText("3.")
    ensures SelectAsWritten("3.", matches) == Err(ValueError)
    ensures Select("3.", matches) == Ok(matches[2])
  {
    ThreeWithDot();
    assert !IsAsciiDigit("3."[1]);
  }

  /** `"3."` loses its dot to the check and reads as 3. */
  lemma ThreeWithDot()
    ensures Stripped("3.") == "3"
    ensures IsDigits("3") && ParseDecimal("3") == 3
  {
    assert EndsWith("3.", ".") by {
      assert "3."[|"3."| - 1..] == ".";
    }
    var r := Stripped("3.");
    assert r + "." == "3.";
    assert |r| == 1 && r[0] == (r + ".")[0];
    assert r == "3";
    assert "3"[..0] == [];
  }

  /** The reply `n` picks exactly the match the prompt shows on the line
      numbered `n`. */
  lemma ReplySelectsShownLine(n: nat, matches: seq<string>)
    requires 1 <= n <= |matches| && n <= MaxChoices
    ensures ValidChoiceText(Decimal(n))
    ensures Select(Decimal(n), matches) == Ok(matches[n - 1])
    ensures ChoiceLines(matches)[n - 1] == "`" + Decimal(n) + ".` " + matches[n - 1]
  {
    DecimalIsDigits(n);
    DigitsHaveNoDot(Decimal(n));
    DecimalRoundTrip(n);
  }

  /* ---------------------------------------------------------------------- */
  /* The converter                                                           */
  /* ---------------------------------------------------------------------- */

  /** What the converter does: the prompt it sends, if any, and its
      outcome. */
  datatype Conversion = Conversion(prompt: Option<string>, outcome: Result<string, TzError>)

  /** `TimezoneConverter.convert`, selecting with the stripped reply text.
      `matches` are the fuzzy matches best first, at most five; `stream` the
      messages that arrive before the timeout. */
  function Convert(argument: string, zones: seq<string>, matches: seq<string>,
                   author: nat, channel: nat, stream: seq<Message>): (r: Conversion)
    requires |matches| <= MaxChoices
    ensures Recognised(argument, zones) ==> r.prompt.None?
    ensures Recognised(argument, zones) ==> (r.outcome.Ok? <==> |matches| > 0)
    ensures Recognised(argument, zones) && |matches| > 0 ==> r.outcome == Ok(matches[0])
    ensures !Recognised(argument, zones) ==> r.prompt == Some(Prompt(matches))
    ensures !Recognised(argument, zones) ==>
      (r.outcome == Err(TimedOut) <==> FirstAccepted(stream, author, channel).None?)
    ensures !Recognised(argument, zones) && FirstAccepted(stream, author, channel).Some? ==>
      var n := ParseDecimal(Stripped(stream[FirstAccepted(stream, author, channel).value].content));
      1 <= n <= MaxChoices
      && r.outcome == (if n <= |matches| then Ok(matches[n - 1]) else Err(IndexError))
    ensures r.outcome.Ok? ==> r.outcome.value in matches
  {
    if Recognised(argument, zones) then
      Conversion(None, if |matches| == 0 then Err(IndexError) else Ok(matches[0]))
    else
      var outcome := match FirstAccepted(stream, author, channel)
        case None => Err(TimedOut)
        case Some(k) => Select(stream[k].content, matches);
      Conversion(Some(Prompt(matches)), outcome)
  }

  /** The converter as written, with `int` applied to the raw reply. */
  function ConvertAsWritten(argument: string, zones: seq<string>, matches: seq<string>,
                            author: nat, channel: nat, stream: seq<Message>): (r: Conversion)
    requires |matches| <= MaxChoices
    ensures r.prompt == Convert(argument, zones, matches, author, channel, stream).prompt
    ensures r.outcome.Ok? ==> r.outcome == Convert(argument, zones, matches, author, channel, stream).outcome
    ensures Recognised(argument, zones) || FirstAccepted(stream, author, channel).None? ==>
      r == Convert(argument, zones, matches, author, channel, stream)
    ensures FirstAccepted(stream, author, channel).Some?
            && IsDigits(stream[FirstAccepted(stream, author, channel).value].content) ==>
      r == Convert(argument, zones, matches, author, channel, stream)
    ensures !Recognised(argument, zones) && FirstAccepted(stream, author, channel).Some?
            && !IsDigits(stream[FirstAccepted(stream, author, channel).value].content) ==>
      r.outcome == Err(ValueError)
  {
    if Recognised(argument, zones) then
      Conversion(None, if |matches| == 0 then Err(IndexError) else Ok(matches[0]))
    else
      var outcome := match FirstAccepted(stream, author, channel)
        case None => Err(TimedOut)
        case Some(k) =>
          var content := stream[k].content;
          if IsDigits(content) then
            SelectionsAgreeWithoutDot(content, matches);
            SelectAsWritten(content, matches)
          else SelectAsWritten(content, matches);
      Conversion(Some(Prompt(matches)), outcome)
  }

  /** When a reply of the right person names a listed match, the converter
      returns that match, and nothing after the reply matters. */
  lemma ReplyPicksMatch(argument: string, zones: seq<string>, matches: seq<string>,
                        author: nat, channel: nat, n: nat, later: seq<Message>)
    requires |matches| <= MaxChoices && !Recognised(argument, zones)
    requires 1 <= n <= |matches|
    ensures Convert(argument, zones, matches, author, channel,
                    [Message(author, channel, Decimal(n))] + later).outcome == Ok(matches[n - 1])
  {
    ReplySelectsShownLine(n, matches);
  }

  /** When no candidate name holds a newline, the prompt is the header
      followed by exactly the numbered lines. */
  lemma PromptLines(matches: seq<string>)
    requires |matches| >= 1
    requires forall i :: 0 <= i < |matches| ==> '\n' !in matches[i]
    ensures StartsWith(Prompt(matches), PromptHeader)
    ensures Split(Prompt(matches)[|PromptHeader|..], '\n') == ChoiceLines(matches)
  {
    var lines := ChoiceLines(matches);
    forall k | 0 <= k < |lines|
      ensures '\n' !in lines[k]
    {
      DecimalIsDigits(k + 1);
      var head := "`" + Decimal(k + 1) + ".` ";
      assert '\n' !in head by {
        forall j | 0 <= j < |head|
          ensures head[j] != '\n'
        {
          if 1 <= j < 1 + |Decimal(k + 1)| {
            assert head[j] == Decimal(k + 1)[j - 1];
          }
        }
      }
      var line := head + matches[k];
      assert lines[k] == line;
      forall j | 0 <= j < |line|
        ensures line[j] != '\n'
      {
        if j >= |head| {
          assert line[j] == matches[k][j - |head|];
        }
      }
    }
    SplitJoin(lines, '\n');
    ConcatSlices(PromptHeader, Join(lines, "\n"), "");
    assert Prompt(matches) == PromptHeader + Join(lines, "\n") + "";
  }

  /* ---------------------------------------------------------------------- */
  /* Timezone pages                                                          */
  /* ---------------------------------------------------------------------- */

  /** One timezone page: its chunk's names one per line and its footer. */
  datatype TzPage = TzPage(description: string, footer: string)

  /** `Page {number}/{total} | Requested by: {requester}`. */
  function PageFooter(number: nat, total: nat, requester: string): string {
    "Page " + Decimal(number) + "/" + Decimal(total) + " | Requested by: " + requester
  }

  /** The page number a footer names. */
  function PageNumber(footer: string): Option<nat> {
    if StartsWith(footer, "Page ") then NumberBeforeSlash(footer[5..]) else None
  }

  lemma PageNumberRoundTrip(number: nat, total: nat, requester: string)
    ensures PageNumber(PageFooter(number, total, requester)) == Some(number)
  {
    var tail := Decimal(total) + " | Requested by: " + requester;
    var rest := Decimal(number) + "/" + tail;
    assert PageFooter(number, total, requester) == "Page " + rest;
    ConcatSlices("Page ", rest, "");
    NumberBeforeSlashRoundTrip(number, tail);
  }

  /** `_gen_tz_embeds` as written: a chunk's page number is
      `iterable.index(chunk) + 1`, the position of the first chunk EQUAL to
      it. */
  function TzPagesAsWritten(requester: string, chunks: seq<seq<string>>): (r: seq<TzPage>)
    ensures |r| == |chunks|
    ensures forall k :: 0 <= k < |chunks| ==>
      r[k].footer == PageFooter(IndexOf(chunks, chunks[k]) + 1, |chunks|, requester)
  {
    seq(|chunks|, k requires 0 <= k < |chunks| =>
      TzPage(Join(chunks[k], "\n"), PageFooter(IndexOf(chunks, chunks[k]) + 1, |chunks|, requester)))
  }

  /** `_gen_tz_embeds` numbering each page by its own position. */
  function TzPages(requester: string, chunks: seq<seq<string>>): (r: seq<TzPage>)
    ensures |r| == |chunks|
  {
    seq(|chunks|, k requires 0 <= k < |chunks| =>
      TzPage(Join(chunks[k], "\n"), PageFooter(k + 1, |chunks|, requester)))
  }

  /** One page per chunk, in order: page k is numbered k + 1 of all chunks,
      and its lines are exactly the chunk's names when no name holds a
      newline. */
  lemma TzPagesShape(requester: string, chunks: seq<seq<string>>, k: nat)
    requires k < |chunks|
    ensures PageNumber(TzPages(requester, chunks)[k].footer) == Some(k + 1)
    ensures |chunks[k]| >= 1 && (forall i :: 0 <= i < |chunks[k]| ==> '\n' !in chunks[k][i]) ==>
      Split(TzPages(requester, chunks)[k].description, '\n') == chunks[k]
  {
    PageNumberRoundTrip(k + 1, |chunks|, requester);
    if |chunks[k]| >= 1 && (forall i :: 0 <= i < |chunks[k]| ==> '\n' !in chunks[k][i]) {
      SplitJoin(chunks[k], '\n');
    }
  }

  /** With pairwise distinct chunks both numberings agree. */
  lemma DistinctChunksAgree(requester: string, chunks: seq<seq<string>>)
    requires forall i, j :: 0 <= i < j < |chunks| ==> chunks[i] != chunks[j]
    ensures TzPagesAsWritten(requester, chunks) == TzPages(requester, chunks)
  {
    forall k | 0 <= k < |chunks|
      ensures IndexOf(chunks, chunks[k]) == k
    {
      var i := IndexOf(chunks, chunks[k]);
      assert chunks[i] == chunks[k];
    }
  }

  /** Two equal chunks both carry the first one's number: the second page of
      `[["a"], ["a"]]` says `Page 1/2`. */
  lemma EqualChunksShareANumber(requester: string)
    ensures PageNumber(TzPagesAsWritten(requester, [["a"], ["a"]])[1].footer) == Some(1)
    ensures PageNumber(TzPages(requester, [["a"], ["a"]])[1].footer) == Some(2)
  {
    var chunks := [["a"], ["a"]];
    assert chunks[0] == chunks[1];
    assert IndexOf(chunks, chunks[1]) == 0;
    assert TzPagesAsWritten(requester, chunks)[1].footer == PageFooter(1, 2, requester);
    PageNumberRoundTrip(1, 2, requester);
    TzPagesShape(requester, chunks, 1);
  }
}
